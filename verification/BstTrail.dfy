// The nodes above a node of a binary search tree: what a traverser keeps on its stack,
// and what the changes of the table do to it.
module BstTrail {
  import opened TreeShape
  import opened TreeOrder

  // From the root down to the parent of `n`.
  ghost function Trail(t: Shape, n: Ref): seq<Ref>
    requires n in Nodes(t)
  {
    if n == t.n then [] else [t.n] + (if n in Nodes(t.l) then Trail(t.l, n) else Trail(t.r, n))
  }

  ghost function Stack(p: Path): seq<Ref> {
    match p
    case Top(_) => []
    case InLeft(up, n, _, _) => Stack(up) + [n]
    case InRight(up, _, n, _) => Stack(up) + [n]
  }

  lemma TrailStep(s: seq<Ref>, n: Ref, x: seq<Ref>)
    ensures s + ([n] + x) == (s + [n]) + x
  {
  }

  lemma {:induction false} TrailZip(p: Path, t: Shape, n: Ref)
    requires Placed(p, t, 0) && n in Nodes(t)
    ensures n in Nodes(Zip(p, t)) && Trail(Zip(p, t), n) == Stack(p) + Trail(t, n)
  {
    match p
    case Top(_) =>
      assert Stack(p) + Trail(t, n) == Trail(t, n);
    case InLeft(up, m, red, r) =>
      TrailZip(up, Bin(t, m, red, r), n);
      TrailStep(Stack(up), m, Trail(t, n));
    case InRight(up, l, m, red) =>
      TrailZip(up, Bin(l, m, red, t), n);
      TrailStep(Stack(up), m, Trail(t, n));
  }

  lemma {:induction false} TrailHeight(t: Shape, n: Ref)
    requires n in Nodes(t)
    ensures |Trail(t, n)| < Height(t)
  {
    if n != t.n {
      if n in Nodes(t.l) {
        TrailHeight(t.l, n);
      } else {
        TrailHeight(t.r, n);
      }
    }
  }

  // Going from `t` to `t'`, no node gets further from the root.
  ghost predicate NoDeeper(t: Shape, t': Shape) {
    forall n :: n in Nodes(t) && n in Nodes(t') ==> |Trail(t', n)| <= |Trail(t, n)|
  }

  // Going from `t` to `t'`, the nodes above a node stay.
  ghost predicate SameTrails(t: Shape, t': Shape) {
    forall n :: n in Nodes(t) && n in Nodes(t') ==> Trail(t', n) == Trail(t, n)
  }

  lemma {:induction false} NoDeeperZip(p: Path, t: Shape, t': Shape)
    requires Placed(p, t, 0) && Placed(p, t', 0) && NoDeeper(t, t')
    ensures NoDeeper(Zip(p, t), Zip(p, t'))
  {
    match p
    case Top(_) =>
    case InLeft(up, m, red, r) =>
      NoDeeperZip(up, Bin(t, m, red, r), Bin(t', m, red, r));
    case InRight(up, l, m, red) =>
      NoDeeperZip(up, Bin(l, m, red, t), Bin(l, m, red, t'));
  }

  lemma {:induction false} SameTrailsZip(p: Path, t: Shape, t': Shape)
    requires Placed(p, t, 0) && Placed(p, t', 0) && SameTrails(t, t')
    ensures SameTrails(Zip(p, t), Zip(p, t'))
  {
    match p
    case Top(_) =>
    case InLeft(up, m, red, r) =>
      SameTrailsZip(up, Bin(t, m, red, r), Bin(t', m, red, r));
    case InRight(up, l, m, red) =>
      SameTrailsZip(up, Bin(l, m, red, t), Bin(l, m, red, t'));
  }

  // What takes the place of a deleted node with the subtrees `l` and `r`.
  ghost function Joined(l: Shape, red: bool, r: Shape): Shape {
    if r.Leaf? then l else Bin(l, MinNode(r), red, DropMin(r))
  }

  lemma JoinedOrder(l: Shape, n: Ref, red: bool, r: Shape)
    requires Apart(Bin(l, n, red, r))
    ensures Inorder(Joined(l, red, r)) == Inorder(l) + Inorder(r) && Apart(Joined(l, red, r))
    ensures Nodes(Joined(l, red, r)) == Nodes(l) + Nodes(r)
  {
    if r.Leaf? {
      assert Inorder(l) + Inorder(r) == Inorder(l);
    } else {
      MinFirst(r);
      DropMinNodes(r);
      assert Inorder(l) + [MinNode(r)] + Inorder(DropMin(r)) == Inorder(l) + Inorder(r);
    }
  }

  lemma {:induction false} DropMinNoDeeper(r: Shape)
    requires r.Bin? && Apart(r)
    ensures NoDeeper(r, DropMin(r))
    ensures MinNode(r) in Nodes(r)
  {
    if r.l.Bin? {
      DropMinNoDeeper(r.l);
      DropMinNodes(r.l);
    }
  }

  lemma JoinedNoDeeper(l: Shape, n: Ref, red: bool, r: Shape)
    requires Apart(Bin(l, n, red, r))
    ensures NoDeeper(Bin(l, n, red, r), Joined(l, red, r))
  {
    if r.Bin? {
      DropMinNoDeeper(r);
      DropMinNodes(r);
    }
  }

  // The least node and the node above it.
  ghost function MinFather(t: Shape): Ref
    requires t.Bin? && t.l.Bin?
  {
    if t.l.l.Leaf? then t.n else MinFather(t.l)
  }

  // Deletion in the order of the nodes

  lemma DeletedOrder(p: Path, t: Shape)
    requires Placed(p, t, 0) && t.Bin?
    ensures Inorder(Zip(p, Joined(t.l, t.red, t.r))) == Without(Inorder(Zip(p, t)), t.n)
    ensures Placed(p, Joined(t.l, t.red, t.r), 0)
  {
    WithoutAround(p, t, 0);
    JoinedOrder(t.l, t.n, t.red, t.r);
    InorderZip(p, Joined(t.l, t.red, t.r));
    Around(Before(p), Inorder(t.l), [], Inorder(t.r), After(p));
  }

  // Keys that grow from node to node

  ghost predicate Growing(key: map<Ref, int>, s: seq<Ref>) {
    && (forall n :: n in s ==> n in key)
    && (forall i, j :: 0 <= i < j < |s| ==> key[s[i]] < key[s[j]])
  }

  lemma GrowingSorted(key: map<Ref, int>, s: seq<Ref>)
    requires Growing(key, s)
    ensures Sorted(key, s)
  {
  }

  lemma {:induction false} GrowingWithout(key: map<Ref, int>, s: seq<Ref>, n: Ref)
    requires Growing(key, s)
    ensures Growing(key, Without(s, n))
    ensures forall m :: m in Without(s, n) ==> m in s
    ensures |Without(s, n)| == if n in s then |s| - 1 else |s|
  {
    if s != [] && s[0] != n {
      assert s == [s[0]] + s[1..];
      GrowingWithout(key, s[1..], n);
      assert forall m :: m in s[1..] ==> key[s[0]] < key[m];
    }
  }

  lemma GrowingInsert(key: map<Ref, int>, p: Path, n: Ref, red: bool)
    requires Growing(key, Inorder(Zip(p, Leaf))) && n in key && Outside(key, p, key[n], false)
    ensures Inorder(Zip(p, Bin(Leaf, n, red, Leaf))) == Before(p) + [n] + After(p)
    ensures Inorder(Zip(p, Leaf)) == Before(p) + After(p)
    ensures Growing(key, Before(p) + [n] + After(p))
  {
    InorderZip(p, Leaf);
    InorderZip(p, Bin(Leaf, n, red, Leaf));
    assert Inorder(Bin(Leaf, n, red, Leaf)) == [n];
    assert Before(p) + [] + After(p) == Before(p) + After(p);
    GrowingMiddle(key, Before(p), n, After(p));
  }

  lemma GrowingMiddle(key: map<Ref, int>, a: seq<Ref>, n: Ref, b: seq<Ref>)
    requires Growing(key, a + b) && n in key
    requires (forall m :: m in a ==> key[m] < key[n]) && (forall m :: m in b ==> key[n] < key[m])
    ensures Growing(key, a + [n] + b)
  {
    var s, s' := a + b, a + [n] + b;
    assert forall i :: 0 <= i < |a| ==> s'[i] == s[i];
    assert forall i :: |a| < i < |s'| ==> s'[i] == s[i - 1];
    forall i, j | 0 <= i < j < |s'| ensures key[s'[i]] < key[s'[j]] {
      assert i < |a| ==> s'[i] in a;
      assert j > |a| ==> s'[j] in b;
    }
  }

  // The successor of a key in a set of nodes.
  ghost predicate IsNext(key: map<Ref, int>, s: seq<Ref>, k: int, n: Ref)
    requires forall m :: m in s ==> m in key
  {
    && n in s && k < key[n]
    && (forall m :: m in s && k < key[m] ==> key[n] <= key[m])
  }

  ghost predicate IsLast(key: map<Ref, int>, s: seq<Ref>, k: int)
    requires forall m :: m in s ==> m in key
  {
    forall m :: m in s ==> key[m] <= k
  }

  lemma NextAfter(key: map<Ref, int>, p: Path, t: Shape)
    requires Growing(key, Inorder(Zip(p, t))) && t.Bin?
    ensures var s, rest := Inorder(Zip(p, t)), Inorder(t.r) + After(p);
      && t.n in key
      && (rest == [] ==> IsLast(key, s, key[t.n]))
      && (rest != [] ==> IsNext(key, s, key[t.n], rest[0]))
  {
    InorderZip(p, t);
    var s, a, rest := Inorder(Zip(p, t)), Before(p) + Inorder(t.l), Inorder(t.r) + After(p);
    Around(Before(p), Inorder(t.l), [t.n], Inorder(t.r), After(p));
    NextInOrder(key, a, t.n, rest);
  }

  lemma NextInOrder(key: map<Ref, int>, a: seq<Ref>, n: Ref, b: seq<Ref>)
    requires Growing(key, a + [n] + b)
    ensures n in key
    ensures b == [] ==> IsLast(key, a + [n] + b, key[n])
    ensures b != [] ==> IsNext(key, a + [n] + b, key[n], b[0])
  {
    var s := a + [n] + b;
    assert s[|a|] == n;
    if b != [] {
      assert s[|a| + 1] == b[0];
    }
    forall m | m in s ensures key[m] <= key[n] || (b != [] && key[b[0]] <= key[m]) {
      var i :| 0 <= i < |s| && s[i] == m;
    }
  }
}
