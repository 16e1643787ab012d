// The cyclic order of the masters of a group: src/server/tracker.cc, NextMasterAddress
// and FindNextMaster.
module RingOrder {
  import opened Common

  type Addr = string

  ghost predicate Distinct(g: seq<Addr>) {
    forall i, j :: 0 <= i < j < |g| ==> g[i] != g[j]
  }

  // The first place of an address.
  function IndexOf(g: seq<Addr>, a: Addr): (i: nat)
    requires a in g
    ensures i < |g| && g[i] == a && forall j :: 0 <= j < i ==> g[j] != a
  {
    FirstPlace(g, a);
    var i: nat :| i < |g| && g[i] == a && forall j :: 0 <= j < i ==> g[j] != a;
    i
  }

  lemma {:induction false} FirstPlace(g: seq<Addr>, a: Addr)
    requires a in g
    ensures exists i: nat :: i < |g| && g[i] == a && forall j :: 0 <= j < i ==> g[j] != a
  {
    if g[0] != a {
      var h := g[1..];
      FirstPlace(h, a);
      var i: nat :| i < |h| && h[i] == a && forall j :: 0 <= j < i ==> h[j] != a;
      assert g[i + 1] == a;
      forall j | 0 <= j < i + 1 ensures g[j] != a {
        assert j > 0 ==> g[j] == h[j - 1];
      }
    }
  }

  // `k` places behind place `i`, around the ring.
  function Around(g: seq<Addr>, i: nat, k: nat): Addr
    requires i < |g| && k <= |g|
  {
    if i + k < |g| then g[i + k] else g[i + k - |g|]
  }

  // How many places place `j` is behind place `i`.
  ghost function Distance(g: seq<Addr>, i: nat, j: nat): nat
    requires i < |g| && j < |g|
  {
    if i <= j then j - i else j + |g| - i
  }

  // The nearest reachable master behind place `i`, from `k` places on.
  function NearestFrom(g: seq<Addr>, i: nat, k: nat, reach: Addr -> bool): (r: Option<Addr>)
    requires i < |g| && k <= |g|
    ensures r.Some? ==> reach(r.value) && exists j ::
      k <= j < |g| && r.value == Around(g, i, j) && forall m :: k <= m < j ==> !reach(Around(g, i, m))
    ensures r.None? <==> forall m :: k <= m < |g| ==> !reach(Around(g, i, m))
    decreases |g| - k
  {
    if k == |g| then None
    else if reach(Around(g, i, k)) then Some(Around(g, i, k))
    else NearestFrom(g, i, k + 1, reach)
  }

  // The nearest reachable cyclic successor.
  function NextHop(g: seq<Addr>, self: Addr, reach: Addr -> bool): (r: Option<Addr>)
    requires self in g
    ensures r.Some? ==> r.value in g && reach(r.value)
  {
    NearestFrom(g, IndexOf(g, self), 1, reach)
  }

  lemma DistinctIndex(g: seq<Addr>, i: nat)
    requires Distinct(g) && i < |g|
    ensures IndexOf(g, g[i]) == i
  {
  }

  // No successor is found just when no other master can be reached; a successor that is
  // found comes before every other reachable master.
  lemma NextHopNearest(g: seq<Addr>, self: Addr, reach: Addr -> bool)
    requires Distinct(g) && self in g
    ensures NextHop(g, self, reach).None? <==> forall a :: a in g && a != self ==> !reach(a)
    ensures NextHop(g, self, reach).Some? ==>
      var r := NextHop(g, self, reach).value;
      && r != self
      && forall a :: a in g && a != self && reach(a) ==>
           Distance(g, IndexOf(g, self), IndexOf(g, r)) <= Distance(g, IndexOf(g, self), IndexOf(g, a))
  {
    var i := IndexOf(g, self);
    forall a | a in g && a != self
      ensures 1 <= Distance(g, i, IndexOf(g, a)) < |g| && Around(g, i, Distance(g, i, IndexOf(g, a))) == a
    {
      AtDistance(g, i, IndexOf(g, a));
    }
    forall m | 1 <= m < |g|
      ensures Around(g, i, m) in g && Around(g, i, m) != self && Distance(g, i, IndexOf(g, Around(g, i, m))) == m
    {
      DistinctIndex(g, if i + m < |g| then i + m else i + m - |g|);
    }
  }

  lemma AtDistance(g: seq<Addr>, i: nat, j: nat)
    requires i < |g| && j < |g| && i != j
    ensures 1 <= Distance(g, i, j) < |g| && Around(g, i, Distance(g, i, j)) == g[j]
  {
  }

  // The address behind `a` in the group; the last one, if `a` is not in the group.
  function NextOf(g: seq<Addr>, a: Addr): (r: Addr)
    requires g != []
    ensures r in g
  {
    if a in g then Around(g, IndexOf(g, a), 1) else g[|g| - 1]
  }

  method NextMasterAddress(g: seq<Addr>, address: Addr) returns (next: Addr)
    requires g != []
    ensures next == NextOf(g, address)
    ensures address in g ==> next == Around(g, IndexOf(g, address), 1)
    ensures address !in g ==> next == g[|g| - 1]
  {
    next := "";
    var size := |g|;
    for i := 0 to size
      invariant address !in g[..i]
      invariant i > 0 ==> next == g[i - 1]
    {
      next := g[i];
      if next == address {
        FirstIndex(g, address, i);
        if i + 1 == size {
          next := g[0];
        } else {
          next := g[i + 1];
        }
        return;
      }
      assert g[..i + 1] == g[..i] + [g[i]];
    }
    assert g[..size] == g;
  }

  lemma FirstIndex(g: seq<Addr>, a: Addr, i: nat)
    requires i < |g| && g[i] == a && a !in g[..i]
    ensures a in g && IndexOf(g, a) == i
  {
    assert forall j :: 0 <= j < i ==> g[j] == g[..i][j];
  }

  // The addresses that FindNextMaster tries one after the other, for any group.
  ghost function Tried(g: seq<Addr>, self: Addr, k: nat): Addr
    requires g != []
  {
    if k == 0 then NextOf(g, self) else NextOf(g, Tried(g, self, k - 1))
  }

  // The search ends at try `k`.
  ghost predicate Stops(g: seq<Addr>, self: Addr, reach: Addr -> bool, k: nat)
    requires g != []
  {
    Tried(g, self, k) == self || reach(Tried(g, self, k))
  }

  // FindNextMaster; `reach` says which connections succeed. The loop of the code has no
  // other end than the ones of `Stops`.
  method FindNextMaster(g: seq<Addr>, self: Addr, reach: Addr -> bool) returns (next: Option<Addr>)
    requires g != [] && exists k: nat :: Stops(g, self, reach, k)
    ensures exists k: nat :: Stops(g, self, reach, k) && (forall j :: 0 <= j < k ==> !Stops(g, self, reach, j))
                        && next == if Tried(g, self, k) == self then None else Some(Tried(g, self, k))
    ensures Distinct(g) && self in g ==> next == NextHop(g, self, reach)
  {
    ghost var last: nat :| Stops(g, self, reach, last);
    ghost var k: nat := 0;
    var address := NextMasterAddress(g, self);
    while true
      invariant k <= last && address == Tried(g, self, k) && forall j :: 0 <= j < k ==> !Stops(g, self, reach, j)
      decreases last - k
    {
      if address == self || reach(address) {
        FirstStop(g, self, reach, k);
      }
      if address == self {
        return None;
      }
      if reach(address) {
        return Some(address);
      }
      address := NextMasterAddress(g, address);
      k := k + 1;
    }
  }

  lemma OneFurther(g: seq<Addr>, i: nat, k: nat)
    requires Distinct(g) && i < |g| && k < |g|
    ensures Around(g, IndexOf(g, Around(g, i, k)), 1) == Around(g, i, k + 1)
  {
    var j := if i + k < |g| then i + k else i + k - |g|;
    DistinctIndex(g, j);
    assert Around(g, i, k) == g[j] && IndexOf(g, g[j]) == j;
  }

  lemma NextAround(g: seq<Addr>, i: nat, k: nat)
    requires Distinct(g) && i < |g| && k < |g|
    ensures NextOf(g, Around(g, i, k)) == Around(g, i, k + 1)
  {
    OneFurther(g, i, k);
    assert Around(g, i, k) in g;
  }

  lemma {:induction false} TriedFrom(g: seq<Addr>, self: Addr, i: nat, j: nat, k: nat)
    requires Distinct(g) && i < |g| && j + k <= |g| && NextOf(g, self) == Around(g, i, j)
    ensures Tried(g, self, k) == Around(g, i, j + k)
  {
    if k > 0 {
      TriedFrom(g, self, i, j, k - 1);
      TriedNext(g, self, k, Around(g, i, j + k - 1), Around(g, i, j + k), i, j + k - 1);
    }
  }

  lemma TriedNext(g: seq<Addr>, self: Addr, k: nat, a: Addr, b: Addr, i: nat, m: nat)
    requires Distinct(g) && i < |g| && m < |g| && k > 0 && Tried(g, self, k - 1) == a
    requires a == Around(g, i, m) && b == Around(g, i, m + 1)
    ensures Tried(g, self, k) == b
  {
    NextAround(g, i, m);
  }

  // In a group without duplicates the tries go once around.
  lemma TriedAround(g: seq<Addr>, self: Addr, k: nat)
    requires Distinct(g) && g != [] && k < |g|
    ensures self in g ==> Tried(g, self, k) == Around(g, IndexOf(g, self), k + 1)
    ensures self !in g ==> Tried(g, self, k) == Around(g, |g| - 1, k)
  {
    if self in g {
      TriedFrom(g, self, IndexOf(g, self), 1, k);
    } else {
      TriedFrom(g, self, |g| - 1, 0, k);
    }
  }

  lemma {:induction false} NearestSkips(g: seq<Addr>, i: nat, k: nat, j: nat, reach: Addr -> bool)
    requires i < |g| && k <= j <= |g| && forall m :: k <= m < j ==> !reach(Around(g, i, m))
    ensures NearestFrom(g, i, k, reach) == NearestFrom(g, i, j, reach)
    decreases j - k
  {
    if k < j {
      NearestSkips(g, i, k + 1, j, reach);
    }
  }

  lemma NotReached(g: seq<Addr>, self: Addr, reach: Addr -> bool, i: nat, k: nat)
    requires Distinct(g) && self in g && i == IndexOf(g, self) && k < |g|
    requires forall j :: 0 <= j < k ==> !Stops(g, self, reach, j)
    ensures forall m :: 1 <= m < k + 1 ==> !reach(Around(g, i, m))
  {
    forall m | 1 <= m < k + 1 ensures !reach(Around(g, i, m)) {
      TriedAround(g, self, m - 1);
      assert !Stops(g, self, reach, m - 1);
    }
  }

  lemma FirstStop(g: seq<Addr>, self: Addr, reach: Addr -> bool, k: nat)
    requires g != [] && Stops(g, self, reach, k) && forall j :: 0 <= j < k ==> !Stops(g, self, reach, j)
    ensures Distinct(g) && self in g ==>
      NextHop(g, self, reach) == if Tried(g, self, k) == self then None else Some(Tried(g, self, k))
  {
    if Distinct(g) && self in g {
      RingStops(g, self, reach);
      StopsThere(g, self, reach, IndexOf(g, self), k);
    }
  }

  lemma StopsThere(g: seq<Addr>, self: Addr, reach: Addr -> bool, i: nat, k: nat)
    requires Distinct(g) && self in g && i == IndexOf(g, self) && k < |g|
    requires Stops(g, self, reach, k) && forall j :: 0 <= j < k ==> !Stops(g, self, reach, j)
    ensures NearestFrom(g, i, 1, reach) == if Tried(g, self, k) == self then None else Some(Tried(g, self, k))
  {
    NotReached(g, self, reach, i, k);
    NearestSkips(g, i, 1, k + 1, reach);
    TriedAround(g, self, k);
    if k + 1 < |g| {
      NotSelf(g, self, k + 1);
    }
  }

  lemma NotSelf(g: seq<Addr>, self: Addr, k: nat)
    requires Distinct(g) && self in g && 0 < k < |g|
    ensures Around(g, IndexOf(g, self), k) != self
  {
    var i := IndexOf(g, self);
    DistinctIndex(g, if i + k < |g| then i + k else i + k - |g|);
  }

  // The own address is in the group: the search ends.
  lemma RingStops(g: seq<Addr>, self: Addr, reach: Addr -> bool)
    requires Distinct(g) && self in g
    ensures Stops(g, self, reach, |g| - 1)
  {
    TriedAround(g, self, |g| - 1);
  }

  // It is not: the search ends if and only if some master can be reached.
  lemma StrangerStops(g: seq<Addr>, self: Addr, reach: Addr -> bool)
    requires Distinct(g) && g != [] && self !in g
    ensures (exists k: nat :: Stops(g, self, reach, k)) <==> exists a :: a in g && reach(a)
  {
    if k: nat :| Stops(g, self, reach, k) {
      TriedInGroup(g, self, k);
    }
    if a :| a in g && reach(a) {
      var j :| 0 <= j < |g| && g[j] == a;
      var k := if j + 1 < |g| then j + 1 else 0;
      TriedAround(g, self, k);
      assert Stops(g, self, reach, k);
    }
  }

  lemma TriedInGroup(g: seq<Addr>, self: Addr, k: nat)
    requires g != []
    ensures Tried(g, self, k) in g
  {
  }
}
