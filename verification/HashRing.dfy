// The ring of virtual nodes on values: which key belongs to which server, who owns
// a hash value, and what adding and deleting a server changes.
module HashRing {

  // The key that is responsible for `h`: the least key not below `h`, and around the
  // circle the least key of all.
  ghost predicate IsOwnerKey(keys: set<int>, h: int, k: int) {
    && k in keys
    && (if h <= k then forall j :: j in keys && h <= j ==> k <= j
        else (forall j :: j in keys ==> j < h && k <= j))
  }

  lemma {:induction false} LeastKey(keys: set<int>) returns (k: int)
    requires keys != {}
    ensures k in keys && forall j :: j in keys ==> k <= j
    decreases |keys|
  {
    assert (forall i :: i !in keys) ==> keys == {};
    var i :| i in keys;
    var rest := keys - {i};
    if rest == {} {
      assert keys == {i};
      k := i;
    } else {
      var r := LeastKey(rest);
      k := if i <= r then i else r;
      assert forall j :: j in keys ==> j == i || j in rest;
    }
  }

  lemma OwnerKeyExists(keys: set<int>, h: int) returns (k: int)
    requires keys != {}
    ensures IsOwnerKey(keys, h, k)
  {
    var above := set j | j in keys && h <= j;
    if above != {} {
      k := LeastKey(above);
      assert forall j :: j in keys && h <= j ==> j in above;
    } else {
      k := LeastKey(keys);
      assert forall j :: j in keys && h <= j ==> j in above;
    }
  }

  lemma OwnerKeyUnique(keys: set<int>, h: int, k: int, k': int)
    requires IsOwnerKey(keys, h, k) && IsOwnerKey(keys, h, k')
    ensures k == k'
  {
  }

  // One virtual node after the other

  ghost function AddAll<V>(ring: map<int, V>, hashes: seq<int>, v: V): map<int, V> {
    if hashes == [] then ring
    else
      var r := AddAll(ring, hashes[..|hashes| - 1], v);
      var h := hashes[|hashes| - 1];
      if h in r then r else r[h := v]
  }

  ghost function DelAll<V>(ring: map<int, V>, hashes: seq<int>, v: V): map<int, V> {
    if hashes == [] then ring
    else
      var r := DelAll(ring, hashes[..|hashes| - 1], v);
      var h := hashes[|hashes| - 1];
      if h in r && r[h] == v then r - {h} else r
  }

  // What the two loops compute in closed form: a server gets the hash values that
  // nobody has, and gives back those of its hash values that it owns.
  lemma {:induction false} AddAllIs<V>(ring: map<int, V>, hashes: seq<int>, v: V)
    ensures forall k :: k in AddAll(ring, hashes, v) <==> k in ring || k in hashes
    ensures forall k :: k in AddAll(ring, hashes, v) ==> AddAll(ring, hashes, v)[k] == if k in ring then ring[k] else v
  {
    if hashes != [] {
      AddAllIs(ring, hashes[..|hashes| - 1], v);
      assert hashes == hashes[..|hashes| - 1] + [hashes[|hashes| - 1]];
    }
  }

  lemma {:induction false} DelAllIs<V>(ring: map<int, V>, hashes: seq<int>, v: V)
    ensures forall k :: k in DelAll(ring, hashes, v) <==> k in ring && !(ring[k] == v && k in hashes)
    ensures forall k :: k in DelAll(ring, hashes, v) ==> DelAll(ring, hashes, v)[k] == ring[k]
  {
    if hashes != [] {
      DelAllIs(ring, hashes[..|hashes| - 1], v);
      assert hashes == hashes[..|hashes| - 1] + [hashes[|hashes| - 1]];
    }
  }

  // Adding a server moves a hash value to that server or not at all.
  lemma AddMovesOnlyToNew<V>(ring: map<int, V>, hashes: seq<int>, v: V, h: int, k: int, k': int)
    requires IsOwnerKey(ring.Keys, h, k)
    requires IsOwnerKey(AddAll(ring, hashes, v).Keys, h, k')
    ensures AddAll(ring, hashes, v)[k'] == ring[k] || (AddAll(ring, hashes, v)[k'] == v && k' in hashes && k' !in ring)
  {
    var ring' := AddAll(ring, hashes, v);
    AddAllIs(ring, hashes, v);
    if k' in ring {
      assert k in ring'.Keys;
      assert IsOwnerKey(ring.Keys, h, k');
      OwnerKeyUnique(ring.Keys, h, k, k');
    }
  }

  // Deleting a server moves only what the server owned.
  lemma DeleteMovesOnlyOwn<V>(ring: map<int, V>, hashes: seq<int>, v: V, h: int, k: int, k': int)
    requires IsOwnerKey(ring.Keys, h, k)
    requires IsOwnerKey(DelAll(ring, hashes, v).Keys, h, k')
    ensures ring[k] != v ==> DelAll(ring, hashes, v)[k'] == ring[k]
  {
    var ring' := DelAll(ring, hashes, v);
    DelAllIs(ring, hashes, v);
    if k in ring' {
      assert k' in ring.Keys;
      assert IsOwnerKey(ring'.Keys, h, k);
      OwnerKeyUnique(ring'.Keys, h, k, k');
    }
  }

  // A server that owns nothing comes and goes: every hash value has its owner back.
  lemma AddThenDelete<V>(ring: map<int, V>, hashes: seq<int>, v: V)
    requires forall k :: k in ring ==> ring[k] != v
    ensures DelAll(AddAll(ring, hashes, v), hashes, v) == ring
  {
    AddAllIs(ring, hashes, v);
    var ring' := AddAll(ring, hashes, v);
    DelAllIs(ring', hashes, v);
    var back := DelAll(ring', hashes, v);
    forall k ensures k in back <==> k in ring {
      if k in ring {
        assert k in ring' && ring'[k] == ring[k];
      }
    }
    assert back.Keys == ring.Keys;
    assert forall k :: k in ring ==> back[k] == ring[k];
    assert back == ring;
  }

  // Every run of additions and deletions: only servers that are in own keys, and only
  // keys among their own hash values.
  ghost predicate OwnKeys<V>(ring: map<int, V>, members: set<V>, hashes: V -> seq<int>) {
    forall k :: k in ring ==> ring[k] in members && k in hashes(ring[k])
  }

  datatype Change<V> = Join(v: V) | Leave(v: V)

  // The flag tests of conhash_add_node and conhash_del_node turn the rest away.
  ghost function Apply<V>(ring: map<int, V>, members: set<V>, hashes: V -> seq<int>,
                                c: Change<V>): (map<int, V>, set<V>) {
    match c
    case Join(v) => if v in members then (ring, members) else (AddAll(ring, hashes(v), v), members + {v})
    case Leave(v) => if v !in members then (ring, members) else (DelAll(ring, hashes(v), v), members - {v})
  }

  ghost function ApplyAll<V>(ring: map<int, V>, members: set<V>, hashes: V -> seq<int>,
      cs: seq<Change<V>>): (map<int, V>, set<V>)
    decreases |cs|
  {
    if cs == [] then (ring, members)
    else
      var (r, m) := Apply(ring, members, hashes, cs[0]);
      ApplyAll(r, m, hashes, cs[1..])
  }

  lemma ApplyKeeps<V>(ring: map<int, V>, members: set<V>, hashes: V -> seq<int>, c: Change<V>)
    requires OwnKeys(ring, members, hashes)
    ensures var (r, m) := Apply(ring, members, hashes, c); OwnKeys(r, m, hashes)
  {
    AddAllIs(ring, hashes(c.v), c.v);
    DelAllIs(ring, hashes(c.v), c.v);
  }

  lemma {:induction false} ApplyAllKeeps<V>(ring: map<int, V>, members: set<V>, hashes: V -> seq<int>,
      cs: seq<Change<V>>)
    requires OwnKeys(ring, members, hashes)
    ensures var (r, m) := ApplyAll(ring, members, hashes, cs); OwnKeys(r, m, hashes)
    decreases |cs|
  {
    if cs != [] {
      ApplyKeeps(ring, members, hashes, cs[0]);
      var (r, m) := Apply(ring, members, hashes, cs[0]);
      ApplyAllKeeps(r, m, hashes, cs[1..]);
    }
  }

  // When no two replicas have the same hash value

  ghost predicate Telling<V>(hashes: V -> seq<int>, all: set<V>) {
    forall v, w, i, j :: v in all && w in all && 0 <= i < |hashes(v)| && 0 <= j < |hashes(w)| ==>
      (hashes(v)[i] == hashes(w)[j] ==> v == w && i == j)
  }

  // The members have all their keys, and nobody else has any.
  ghost predicate Full<V>(ring: map<int, V>, members: set<V>, hashes: V -> seq<int>) {
    && OwnKeys(ring, members, hashes)
    && forall v, i :: v in members && 0 <= i < |hashes(v)| ==> hashes(v)[i] in ring && ring[hashes(v)[i]] == v
  }

  // The ring depends on who is in, and not on how that came about.
  lemma FullRing<V>(ring: map<int, V>, ring': map<int, V>, members: set<V>, hashes: V -> seq<int>)
    requires Full(ring, members, hashes) && Full(ring', members, hashes)
    ensures ring == ring'
  {
    forall k | k in ring ensures k in ring' && ring'[k] == ring[k] {
      var i :| 0 <= i < |hashes(ring[k])| && hashes(ring[k])[i] == k;
    }
    forall k | k in ring' ensures k in ring {
      var i :| 0 <= i < |hashes(ring'[k])| && hashes(ring'[k])[i] == k;
    }
    assert ring.Keys == ring'.Keys;
  }

  lemma ApplyFull<V>(ring: map<int, V>, members: set<V>, hashes: V -> seq<int>, c: Change<V>, all: set<V>)
    requires Full(ring, members, hashes) && Telling(hashes, all) && members <= all && c.v in all
    ensures var (r, m) := Apply(ring, members, hashes, c); Full(r, m, hashes) && m <= all
  {
    ApplyKeeps(ring, members, hashes, c);
    AddAllIs(ring, hashes(c.v), c.v);
    DelAllIs(ring, hashes(c.v), c.v);
    if c.Join? && c.v !in members {
      FullJoin(ring, members, hashes, c.v, all);
    }
  }

  lemma {:induction false} ApplyAllFull<V>(ring: map<int, V>, members: set<V>, hashes: V -> seq<int>,
      cs: seq<Change<V>>, all: set<V>)
    requires Full(ring, members, hashes) && Telling(hashes, all) && members <= all
    requires forall i :: 0 <= i < |cs| ==> cs[i].v in all
    ensures var (r, m) := ApplyAll(ring, members, hashes, cs); Full(r, m, hashes)
    decreases |cs|
  {
    if cs != [] {
      ApplyFull(ring, members, hashes, cs[0], all);
      var (r, m) := Apply(ring, members, hashes, cs[0]);
      ApplyAllFull(r, m, hashes, cs[1..], all);
    }
  }

  // A server that joins gets one key for each of its hash values.
  lemma FullJoin<V>(ring: map<int, V>, members: set<V>, hashes: V -> seq<int>, v: V, all: set<V>)
    requires Full(ring, members, hashes) && Telling(hashes, all) && members <= all && v in all && v !in members
    ensures var ring' := AddAll(ring, hashes(v), v);
      && |ring'| == |ring| + |hashes(v)|
      && (forall i :: 0 <= i < |hashes(v)| ==>
            hashes(v)[i] !in ring && hashes(v)[i] in ring' && ring'[hashes(v)[i]] == v)
      && (forall k :: k in ring ==> k in ring' && ring'[k] == ring[k])
      && (forall k :: k in ring' && k !in ring ==> ring'[k] == v)
  {
    var hs := hashes(v);
    AddAllIs(ring, hs, v);
    forall i | 0 <= i < |hs| && hs[i] in ring ensures ring[hs[i]] == v {
      OwnedBy(ring, members, hashes, v, all, i);
    }
    Grows(ring, AddAll(ring, hs, v), hs);
  }

  lemma OwnedBy<V>(ring: map<int, V>, members: set<V>, hashes: V -> seq<int>, v: V, all: set<V>, i: nat)
    requires OwnKeys(ring, members, hashes) && Telling(hashes, all) && members <= all && v in all
    requires i < |hashes(v)| && hashes(v)[i] in ring
    ensures ring[hashes(v)[i]] == v
  {
    var w := ring[hashes(v)[i]];
    var j :| 0 <= j < |hashes(w)| && hashes(w)[j] == hashes(v)[i];
  }

  lemma Grows<V>(ring: map<int, V>, ring': map<int, V>, hs: seq<int>)
    requires (forall k :: k in ring' <==> k in ring || k in hs) && (forall i :: 0 <= i < |hs| ==> hs[i] !in ring)
    requires forall i, j :: 0 <= i < j < |hs| ==> hs[i] != hs[j]
    ensures |ring'| == |ring| + |hs|
  {
    var more := set k | k in hs;
    assert ring'.Keys == ring.Keys + more && ring.Keys !! more;
    SetSize(hs);
  }

  lemma {:induction false} SetSize(s: seq<int>)
    requires forall i, j :: 0 <= i < j < |s| ==> s[i] != s[j]
    ensures |set k | k in s| == |s|
  {
    if s != [] {
      SetSize(s[1..]);
      assert (set k | k in s) == {s[0]} + set k | k in s[1..];
    }
  }

  // A server that joins and leaves at once.
  lemma JoinLeave<V>(ring: map<int, V>, members: set<V>, hashes: V -> seq<int>, v: V)
    requires OwnKeys(ring, members, hashes) && v !in members
    ensures var (r, m) := Apply(ring, members, hashes, Join(v)); Apply(r, m, hashes, Leave(v)) == (ring, members)
  {
    AddThenDelete(ring, hashes(v), v);
    assert members + {v} - {v} == members;
  }

  // In every state that a run reaches, a server that joins and leaves at once leaves
  // no trace.
  lemma JoinThenLeave<V>(hashes: V -> seq<int>, cs: seq<Change<V>>, v: V)
    requires v !in ApplyAll<V>(map[], {}, hashes, cs).1
    ensures var (ring, members) := ApplyAll<V>(map[], {}, hashes, cs);
      var (r, m) := Apply(ring, members, hashes, Join(v));
      Apply(r, m, hashes, Leave(v)) == (ring, members)
  {
    ApplyAllKeeps<V>(map[], {}, hashes, cs);
    var (ring, members) := ApplyAll<V>(map[], {}, hashes, cs);
    JoinLeave(ring, members, hashes, v);
  }
}
