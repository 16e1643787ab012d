// Trees whose nodes are in the order of their keys.
module TreeOrder {
  import opened TreeShape

  // The keys of the nodes of `s` do not decrease.
  ghost predicate Sorted(key: map<Ref, int>, s: seq<Ref>) {
    && (forall n :: n in s ==> n in key)
    && (forall i, j :: 0 <= i < j < |s| ==> key[s[i]] <= key[s[j]])
  }

  lemma SortedAround(key: map<Ref, int>, a: seq<Ref>, n: Ref, b: seq<Ref>)
    requires Sorted(key, a + [n] + b)
    ensures n in key
    ensures forall m :: m in a ==> m in key && key[m] <= key[n]
    ensures forall m :: m in b ==> m in key && key[n] <= key[m]
  {
    var s := a + [n] + b;
    assert s[|a|] == n;
    forall m | m in a ensures m in key && key[m] <= key[n] {
      var i :| 0 <= i < |a| && a[i] == m;
      assert s[i] == m;
    }
    forall m | m in b ensures m in key && key[n] <= key[m] {
      var i :| 0 <= i < |b| && b[i] == m;
      assert s[|a| + 1 + i] == m;
    }
  }

  // In a place of a sorted tree: the keys on the left are not greater and the keys
  // on the right are not smaller than the key of the node in the hole.
  lemma KeysAround(key: map<Ref, int>, p: Path, t: Shape)
    requires Sorted(key, Inorder(Zip(p, t))) && t.Bin?
    ensures t.n in key
    ensures forall m :: m in Inorder(t.l) ==> m in key && key[m] <= key[t.n]
    ensures forall m :: m in Inorder(t.r) ==> m in key && key[t.n] <= key[m]
  {
    InorderZip(p, t);
    var a, b := Before(p) + Inorder(t.l), Inorder(t.r) + After(p);
    Concat5(Before(p), Inorder(t.l), [t.n], Inorder(t.r), After(p));
    Append3(a, [t.n], Inorder(t.r), After(p));
    SortedAround(key, a, t.n, b);
    assert forall m :: m in Inorder(t.l) ==> m in a;
    assert forall m :: m in Inorder(t.r) ==> m in b;
  }

  lemma Append3(a: seq<Ref>, b: seq<Ref>, c: seq<Ref>, d: seq<Ref>)
    ensures a + b + c + d == a + b + (c + d)
  {
  }

  // `n` goes behind every node with a key that is not greater.
  ghost function Insertion(key: map<Ref, int>, s: seq<Ref>, n: Ref): seq<Ref>
    requires Sorted(key, s) && n in key
  {
    if s == [] then [n]
    else if key[n] < key[s[0]] then [n] + s
    else [s[0]] + Insertion(key, s[1..], n)
  }

  lemma {:induction false} InsertionMembers(key: map<Ref, int>, s: seq<Ref>, n: Ref, m: Ref)
    requires Sorted(key, s) && n in key
    ensures m in Insertion(key, s, n) <==> m in s || m == n
  {
    if s != [] && key[s[0]] <= key[n] {
      InsertionMembers(key, s[1..], n, m);
      assert s == [s[0]] + s[1..];
    }
  }

  lemma {:induction false} InsertionSize(key: map<Ref, int>, s: seq<Ref>, n: Ref)
    requires Sorted(key, s) && n in key
    ensures |Insertion(key, s, n)| == |s| + 1
  {
    if s != [] && key[s[0]] <= key[n] {
      InsertionSize(key, s[1..], n);
    }
  }

  // Where a node with key `k` belongs: behind the nodes before the hole.
  ghost predicate Between(key: map<Ref, int>, p: Path, k: int) {
    && (forall m :: m in Before(p) ==> m in key && key[m] <= k)
    && (forall m :: m in After(p) ==> m in key && k < key[m])
  }

  lemma BetweenDown(key: map<Ref, int>, p: Path, t: Shape, k: int)
    requires Sorted(key, Inorder(Zip(p, t))) && t.Bin? && Between(key, p, k)
    ensures t.n in key
    ensures if k < key[t.n] then Between(key, InLeft(p, t.n, t.red, t.r), k)
      else Between(key, InRight(p, t.l, t.n, t.red), k)
  {
    KeysAround(key, p, t);
  }

  // The empty place where the descent with the key `k` ends.
  ghost function Descent(key: map<Ref, int>, p: Path, t: Shape, k: int): Path
    decreases t
  {
    if t.Leaf? then p
    else if t.n in key && k < key[t.n] then Descent(key, InLeft(p, t.n, t.red, t.r), t.l, k)
    else Descent(key, InRight(p, t.l, t.n, t.red), t.r, k)
  }

  // Around the hole the keys are below `k` on the left and above `k`, or at least
  // `k`, on the right.
  ghost predicate Outside(key: map<Ref, int>, p: Path, k: int, orEqual: bool) {
    && (forall m :: m in Before(p) ==> m in key && key[m] < k)
    && (forall m :: m in After(p) ==> m in key && (k < key[m] || (orEqual && k == key[m])))
  }

  lemma OutsideDown(key: map<Ref, int>, p: Path, t: Shape, k: int, orEqual: bool)
    requires Sorted(key, Inorder(Zip(p, t))) && t.Bin? && Outside(key, p, k, orEqual)
    ensures t.n in key
    ensures k < key[t.n] || (orEqual && k == key[t.n]) ==> Outside(key, InLeft(p, t.n, t.red, t.r), k, orEqual)
    ensures k > key[t.n] ==> Outside(key, InRight(p, t.l, t.n, t.red), k, orEqual)
  {
    KeysAround(key, p, t);
  }

  lemma NotFound(key: map<Ref, int>, p: Path, k: int)
    requires Outside(key, p, k, false)
    ensures forall n :: n in Nodes(Zip(p, Leaf)) ==> n in key && key[n] != k
  {
    InorderZip(p, Leaf);
    forall n | n in Nodes(Zip(p, Leaf)) ensures n in key && key[n] != k {
      InorderNodes(Zip(p, Leaf), n);
    }
  }

  ghost function FirstAtLeast(key: map<Ref, int>, s: seq<Ref>, k: int): (i: nat)
    requires forall n :: n in s ==> n in key
    ensures i <= |s| && (i < |s| ==> key[s[i]] >= k) && forall j :: 0 <= j < i ==> key[s[j]] < k
  {
    if s == [] || key[s[0]] >= k then 0 else 1 + FirstAtLeast(key, s[1..], k)
  }

  // The first node at or behind `k`, around the circle.
  ghost function Owner(key: map<Ref, int>, s: seq<Ref>, k: int): Ref
    requires s != [] && forall n :: n in s ==> n in key
  {
    var i := FirstAtLeast(key, s, k);
    if i < |s| then s[i] else s[0]
  }

  lemma {:induction false} FirstSplit(key: map<Ref, int>, a: seq<Ref>, b: seq<Ref>, k: int)
    requires forall m :: m in a ==> m in key && key[m] < k
    requires forall m :: m in b ==> m in key && key[m] >= k
    ensures FirstAtLeast(key, a + b, k) == |a|
  {
    if a == [] {
      assert a + b == b;
    } else {
      assert (a + b)[0] == a[0] && a[0] in a;
      assert (a + b)[1..] == a[1..] + b;
      FirstSplit(key, a[1..], b, k);
    }
  }

  lemma OwnerFound(key: map<Ref, int>, p: Path, k: int)
    requires Sorted(key, Inorder(Zip(p, Leaf))) && Outside(key, p, k, true) && Zip(p, Leaf).Bin?
    ensures Inorder(Zip(p, Leaf)) != []
    ensures var s := Inorder(Zip(p, Leaf)); Owner(key, s, k) == if After(p) != [] then After(p)[0] else s[0]
  {
    InorderZip(p, Leaf);
    assert Inorder(Zip(p, Leaf)) == Before(p) + After(p);
    FirstSplit(key, Before(p), After(p), k);
  }

  lemma {:induction false} InsertionSplit(key: map<Ref, int>, a: seq<Ref>, b: seq<Ref>, n: Ref)
    requires Sorted(key, a + b) && n in key
    requires forall m :: m in a ==> key[m] <= key[n]
    requires forall m :: m in b ==> key[n] < key[m]
    ensures Insertion(key, a + b, n) == a + [n] + b
  {
    if a == [] {
      assert a + b == b;
    } else {
      assert (a + b)[1..] == a[1..] + b;
      assert (a + b)[0] == a[0] && a[0] in a;
      InsertionSplit(key, a[1..], b, n);
      InFront(a, n, b);
    }
  }

  lemma InFront(a: seq<Ref>, n: Ref, b: seq<Ref>)
    requires a != []
    ensures [a[0]] + (a[1..] + [n] + b) == a + [n] + b
  {
  }

  lemma InsertionOrder(key: map<Ref, int>, a: seq<Ref>, b: seq<Ref>, n: Ref)
    requires Sorted(key, a + b) && n in key
    requires forall m :: m in a ==> key[m] <= key[n]
    requires forall m :: m in b ==> key[n] < key[m]
    ensures Sorted(key, a + [n] + b)
  {
    var s, s' := a + b, a + [n] + b;
    assert forall i :: 0 <= i < |a| ==> s'[i] == s[i];
    assert forall i :: |a| < i < |s'| ==> s'[i] == s[i - 1];
    forall i, j | 0 <= i < j < |s'| ensures key[s'[i]] <= key[s'[j]] {
      assert i < |a| ==> s'[i] in a;
      assert j > |a| ==> s'[j] in b;
    }
  }

  lemma LeafOrder(p: Path, n: Ref, red: bool)
    ensures Inorder(Zip(p, Leaf)) == Before(p) + After(p)
    ensures Inorder(Zip(p, Bin(Leaf, n, red, Leaf))) == Before(p) + [n] + After(p)
  {
    InorderZip(p, Leaf);
    InorderZip(p, Bin(Leaf, n, red, Leaf));
    assert Inorder(Bin(Leaf, n, red, Leaf)) == [n];
  }

  lemma InsertionSorted(key: map<Ref, int>, p: Path, n: Ref, red: bool)
    requires Sorted(key, Inorder(Zip(p, Leaf))) && n in key && Between(key, p, key[n])
    ensures Inorder(Zip(p, Bin(Leaf, n, red, Leaf))) == Insertion(key, Inorder(Zip(p, Leaf)), n)
    ensures Sorted(key, Inorder(Zip(p, Bin(Leaf, n, red, Leaf))))
  {
    LeafOrder(p, n, red);
    InsertionSplit(key, Before(p), After(p), n);
    InsertionOrder(key, Before(p), After(p), n);
  }

  lemma SortedFront(key: map<Ref, int>, n: Ref, s: seq<Ref>)
    requires Sorted(key, s) && n in key && forall m :: m in s ==> key[n] <= key[m]
    ensures Sorted(key, [n] + s)
  {
  }

  lemma {:induction false} WithoutSorted(key: map<Ref, int>, s: seq<Ref>, n: Ref)
    requires Sorted(key, s)
    ensures Sorted(key, Without(s, n))
    ensures forall m :: m in Without(s, n) ==> m in s
    ensures |Without(s, n)| == if n in s then |s| - 1 else |s|
  {
    if s != [] && s[0] != n {
      assert s == [s[0]] + s[1..];
      WithoutSorted(key, s[1..], n);
      assert forall m :: m in s[1..] ==> key[s[0]] <= key[m];
      SortedFront(key, s[0], Without(s[1..], n));
    }
  }
}
