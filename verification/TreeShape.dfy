// The shape of a binary tree, shapes with a hole, and the order of the nodes.
module TreeShape {

  type Ref = nat

  datatype Shape = Leaf | Bin(l: Shape, n: Ref, red: bool, r: Shape)

  // A shape with a hole: the way from the hole up to the root. `above` is what
  // the parent field of the root holds.
  datatype Path =
    | Top(above: Ref)
    | InLeft(up: Path, n: Ref, red: bool, r: Shape)
    | InRight(up: Path, l: Shape, n: Ref, red: bool)

  ghost function Zip(p: Path, t: Shape): Shape {
    match p
    case Top(_) => t
    case InLeft(up, n, red, r) => Zip(up, Bin(t, n, red, r))
    case InRight(up, l, n, red) => Zip(up, Bin(l, n, red, t))
  }

  ghost function Above(p: Path): Ref {
    match p
    case Top(above) => above
    case InLeft(up, _, _, _) => Above(up)
    case InRight(up, _, _, _) => Above(up)
  }

  // The node that holds the link to the hole.
  ghost function Up(p: Path): Ref {
    match p
    case Top(above) => above
    case InLeft(_, n, _, _) => n
    case InRight(_, _, n, _) => n
  }

  ghost function Depth(p: Path): nat {
    match p
    case Top(_) => 0
    case InLeft(up, _, _, _) => 1 + Depth(up)
    case InRight(up, _, _, _) => 1 + Depth(up)
  }

  // In-order sequences

  ghost function Inorder(t: Shape): seq<Ref> {
    match t
    case Leaf => []
    case Bin(l, n, _, r) => Inorder(l) + [n] + Inorder(r)
  }

  ghost function Before(p: Path): seq<Ref> {
    match p
    case Top(_) => []
    case InLeft(up, _, _, _) => Before(up)
    case InRight(up, l, n, _) => Before(up) + Inorder(l) + [n]
  }

  ghost function After(p: Path): seq<Ref> {
    match p
    case Top(_) => []
    case InLeft(up, n, _, r) => [n] + Inorder(r) + After(up)
    case InRight(up, _, _, _) => After(up)
  }

  lemma Concat5(a: seq<Ref>, b: seq<Ref>, c: seq<Ref>, d: seq<Ref>, e: seq<Ref>)
    ensures a + (b + c + d) + e == a + b + (c + d + e)
    ensures a + (b + c + d) + e == a + b + c + d + e
  {
  }

  lemma {:induction false} InorderZip(p: Path, t: Shape)
    ensures Inorder(Zip(p, t)) == Before(p) + Inorder(t) + After(p)
  {
    match p
    case Top(_) =>
    case InLeft(up, n, red, r) =>
      InorderZip(up, Bin(t, n, red, r));
      Concat5(Before(up), Inorder(t), [n], Inorder(r), After(up));
    case InRight(up, l, n, red) =>
      InorderZip(up, Bin(l, n, red, t));
      Concat5(Before(up), Inorder(l), [n], Inorder(t), After(up));
  }

  // Sets of nodes, each occurring once

  ghost function Nodes(t: Shape): set<Ref> {
    match t
    case Leaf => {}
    case Bin(l, n, _, r) => Nodes(l) + {n} + Nodes(r)
  }

  ghost function PathNodes(p: Path): set<Ref> {
    match p
    case Top(_) => {}
    case InLeft(up, n, _, r) => PathNodes(up) + {n} + Nodes(r)
    case InRight(up, l, n, _) => PathNodes(up) + {n} + Nodes(l)
  }

  ghost function Span(p: Path, t: Shape): set<Ref> { PathNodes(p) + Nodes(t) }

  lemma {:induction false} ZipNodes(p: Path, t: Shape)
    ensures Nodes(Zip(p, t)) == Span(p, t)
  {
    match p
    case Top(_) =>
    case InLeft(up, n, red, r) => ZipNodes(up, Bin(t, n, red, r));
    case InRight(up, l, n, red) => ZipNodes(up, Bin(l, n, red, t));
  }

  ghost predicate Apart(t: Shape) {
    match t
    case Leaf => true
    case Bin(l, n, _, r) => Apart(l) && Apart(r) && n !in Nodes(l) && n !in Nodes(r) && Nodes(l) !! Nodes(r)
  }

  ghost predicate PathApart(p: Path) {
    match p
    case Top(_) => true
    case InLeft(up, n, _, r) =>
      PathApart(up) && Apart(r) && n !in Nodes(r) && n !in PathNodes(up) && PathNodes(up) !! Nodes(r)
    case InRight(up, l, n, _) =>
      PathApart(up) && Apart(l) && n !in Nodes(l) && n !in PathNodes(up) && PathNodes(up) !! Nodes(l)
  }

  lemma {:induction false} InorderNodes(t: Shape, n: Ref)
    ensures n in Inorder(t) <==> n in Nodes(t)
  {
    if t.Bin? {
      InorderNodes(t.l, n);
      InorderNodes(t.r, n);
    }
  }

  lemma SameOrderSameNodes(t: Shape, t': Shape)
    requires Inorder(t) == Inorder(t')
    ensures Nodes(t) == Nodes(t')
  {
    forall n ensures n in Nodes(t) <==> n in Nodes(t') {
      InorderNodes(t, n);
      InorderNodes(t', n);
    }
  }

  lemma {:induction false} InorderSize(t: Shape)
    requires Apart(t)
    ensures |Inorder(t)| == |Nodes(t)|
  {
    if t.Bin? {
      InorderSize(t.l);
      InorderSize(t.r);
    }
  }

  // Height

  ghost function Max(a: nat, b: nat): nat { if a < b then b else a }

  ghost function Height(t: Shape): nat {
    if t.Leaf? then 0 else 1 + Max(Height(t.l), Height(t.r))
  }

  ghost function Pow2(n: nat): nat { if n == 0 then 1 else 2 * Pow2(n - 1) }

  lemma {:induction false} Pow2Add(a: nat, b: nat)
    ensures Pow2(a + b) == Pow2(a) * Pow2(b)
  {
    if a > 0 {
      Pow2Add(a - 1, b);
      assert Pow2(a + b) == 2 * Pow2(a - 1 + b);
      Twice(Pow2(a - 1), Pow2(b));
    }
  }

  lemma Twice(x: nat, y: nat)
    ensures 2 * (x * y) == (2 * x) * y
  {
  }

  lemma {:induction false} Pow2Mono(a: nat, b: nat)
    requires a <= b
    ensures Pow2(a) <= Pow2(b)
    decreases b
  {
    if a < b {
      Pow2Mono(a, b - 1);
    }
  }

  // Rotations

  ghost function RotL(t: Shape): Shape
    requires t.Bin? && t.r.Bin?
  {
    Bin(Bin(t.l, t.n, t.red, t.r.l), t.r.n, t.r.red, t.r.r)
  }

  ghost function RotR(t: Shape): Shape
    requires t.Bin? && t.l.Bin?
  {
    Bin(t.l.l, t.l.n, t.l.red, Bin(t.l.r, t.n, t.red, t.r))
  }

  lemma RotOrder(a: seq<Ref>, x: seq<Ref>, b: seq<Ref>, y: seq<Ref>, c: seq<Ref>)
    ensures a + x + (b + y + c) == (a + x + b) + y + c
  {
  }

  lemma RotNodes(a: set<Ref>, x: set<Ref>, b: set<Ref>, y: set<Ref>, c: set<Ref>)
    ensures a + x + (b + y + c) == (a + x + b) + y + c
  {
  }

  lemma RotLKeeps(t: Shape)
    requires t.Bin? && t.r.Bin?
    ensures Inorder(RotL(t)) == Inorder(t) && Nodes(RotL(t)) == Nodes(t)
    ensures Apart(t) ==> Apart(RotL(t))
  {
    RotOrder(Inorder(t.l), [t.n], Inorder(t.r.l), [t.r.n], Inorder(t.r.r));
    RotNodes(Nodes(t.l), {t.n}, Nodes(t.r.l), {t.r.n}, Nodes(t.r.r));
    if Apart(t) {
      assert Apart(t.r) && Nodes(RotL(t).l) == Nodes(t.l) + {t.n} + Nodes(t.r.l);
      assert Apart(RotL(t).l);
    }
  }

  lemma RotRKeeps(t: Shape)
    requires t.Bin? && t.l.Bin?
    ensures Inorder(RotR(t)) == Inorder(t) && Nodes(RotR(t)) == Nodes(t)
    ensures Apart(t) ==> Apart(RotR(t))
  {
    RotOrder(Inorder(t.l.l), [t.l.n], Inorder(t.l.r), [t.n], Inorder(t.r));
    RotNodes(Nodes(t.l.l), {t.l.n}, Nodes(t.l.r), {t.n}, Nodes(t.r));
    if Apart(t) {
      assert Apart(t.l) && Nodes(RotR(t).r) == Nodes(t.l.r) + {t.n} + Nodes(t.r);
      assert Apart(RotR(t).r);
    }
  }

  // Every node occurs once, and none of them is `nil`.
  ghost predicate Spread(p: Path, t: Shape, nil: Ref) {
    Apart(t) && PathApart(p) && PathNodes(p) !! Nodes(t) && nil !in Span(p, t)
  }

  ghost predicate Placed(p: Path, t: Shape, nil: Ref) {
    Spread(p, t, nil) && Above(p) !in Span(p, t)
  }

  // A node with an empty side, and what is on the other side.
  ghost predicate OneSided(t: Shape) { t.Bin? && (t.l.Leaf? || t.r.Leaf?) }

  ghost function Other(t: Shape): Shape
    requires OneSided(t)
  {
    if t.l.Leaf? then t.r else t.l
  }

  // The least node

  ghost function MinPath(p: Path, t: Shape): (Path, Shape)
    requires t.Bin?
    ensures MinPath(p, t).1.Bin? && MinPath(p, t).1.l.Leaf?
    decreases t
  {
    if t.l.Leaf? then (p, t) else MinPath(InLeft(p, t.n, t.red, t.r), t.l)
  }

  ghost function DropMin(t: Shape): Shape
    requires t.Bin?
  {
    if t.l.Leaf? then t.r else t.(l := DropMin(t.l))
  }

  ghost function MinNode(t: Shape): Ref
    requires t.Bin?
  {
    if t.l.Leaf? then t.n else MinNode(t.l)
  }

  lemma {:induction false} MinPathFacts(p: Path, t: Shape)
    requires t.Bin?
    ensures var (q, c) := MinPath(p, t);
      && Zip(q, c) == Zip(p, t) && Zip(q, c.r) == Zip(p, DropMin(t)) && c.n == MinNode(t) && Above(q) == Above(p)
      && (p.Top? || !q.Top?) && (t.l.Leaf? ==> q == p) && (t.l.Bin? ==> q.InLeft?)
    decreases t
  {
    if t.l.Bin? {
      MinPathFacts(InLeft(p, t.n, t.red, t.r), t.l);
    }
  }

  lemma {:induction false} MinFirst(t: Shape)
    requires t.Bin?
    ensures Inorder(t) == [MinNode(t)] + Inorder(DropMin(t))
  {
    if t.l.Bin? {
      MinFirst(t.l);
    }
  }

  lemma {:induction false} DropMinNodes(t: Shape)
    requires t.Bin? && Apart(t)
    ensures Nodes(DropMin(t)) == Nodes(t) - {MinNode(t)} && MinNode(t) in Nodes(t) && Apart(DropMin(t))
  {
    if t.l.Bin? {
      DropMinNodes(t.l);
    }
  }

  lemma {:induction false} MinPathUp(p: Path, t: Shape)
    requires t.Bin? && t.l.Bin?
    ensures Up(MinPath(p, t).0) in Nodes(t)
    decreases t
  {
    if t.l.l.Bin? {
      MinPathUp(InLeft(p, t.n, t.red, t.r), t.l);
    }
  }

  lemma {:induction false} InnerSame(p: Path, p': Path, t: Shape)
    requires t.Bin?
    ensures MinPath(p, t).1 == MinPath(p', t).1
    decreases t
  {
    if t.l.Bin? {
      InnerSame(InLeft(p, t.n, t.red, t.r), InLeft(p', t.n, t.red, t.r), t.l);
    }
  }

  // The order of the nodes

  ghost function Without(s: seq<Ref>, n: Ref): seq<Ref> {
    if s == [] then [] else if s[0] == n then s[1..] else [s[0]] + Without(s[1..], n)
  }

  lemma {:induction false} WithoutSplit(a: seq<Ref>, n: Ref, b: seq<Ref>)
    requires n !in a
    ensures Without(a + [n] + b, n) == a + b
  {
    if a == [] {
      assert a + [n] + b == [n] + b;
      assert a + b == b;
    } else {
      assert (a + [n] + b)[0] == a[0];
      assert (a + [n] + b)[1..] == a[1..] + [n] + b;
      WithoutSplit(a[1..], n, b);
      assert [a[0]] + (a[1..] + b) == a + b;
    }
  }

  lemma {:induction false} BeforeNodes(p: Path, n: Ref)
    requires n in Before(p)
    ensures n in PathNodes(p)
  {
    match p
    case Top(_) =>
    case InLeft(up, _, _, _) => BeforeNodes(up, n);
    case InRight(up, l, m, _) =>
      InorderNodes(l, n);
      if n in Before(up) {
        BeforeNodes(up, n);
      }
  }

  lemma NotBefore(p: Path, t: Shape, nil: Ref)
    requires Spread(p, t, nil) && t.Bin?
    ensures t.n !in Before(p) + Inorder(t.l)
  {
    InorderNodes(t.l, t.n);
    if t.n in Before(p) {
      BeforeNodes(p, t.n);
    }
  }

  lemma Around(b: seq<Ref>, l: seq<Ref>, n: seq<Ref>, r: seq<Ref>, a: seq<Ref>)
    ensures b + (l + n + r) + a == b + l + n + (r + a)
    ensures b + (l + r) + a == b + l + (r + a)
  {
  }

  lemma WithoutAround(p: Path, t: Shape, nil: Ref)
    requires Spread(p, t, nil) && t.Bin?
    ensures Without(Inorder(Zip(p, t)), t.n) == Before(p) + Inorder(t.l) + (Inorder(t.r) + After(p))
  {
    InorderZip(p, t);
    NotBefore(p, t, nil);
    Around(Before(p), Inorder(t.l), [t.n], Inorder(t.r), After(p));
    WithoutSplit(Before(p) + Inorder(t.l), t.n, Inorder(t.r) + After(p));
  }

  lemma OneSidedOrder(p: Path, t: Shape, nil: Ref)
    requires Spread(p, t, nil) && OneSided(t)
    ensures Inorder(Zip(p, Other(t))) == Without(Inorder(Zip(p, t)), t.n)
  {
    WithoutAround(p, t, nil);
    InorderZip(p, Other(t));
    Around(Before(p), Inorder(t.l), [], Inorder(t.r), After(p));
    if t.l.Leaf? {
      assert [] + Inorder(t.r) == Inorder(t.r);
    } else {
      assert Inorder(t.l) + [] == Inorder(t.l);
    }
  }

  lemma MoveMiddle(a: seq<Ref>, b: seq<Ref>, c: seq<Ref>, d: seq<Ref>)
    ensures a + b + (c + d) == a + ((b + c) + d)
  {
  }

  lemma {:induction false} WithoutMembers(s: seq<Ref>, n: Ref)
    requires n in s
    ensures |Without(s, n)| == |s| - 1
    ensures forall m :: m in s && m != n ==> m in Without(s, n)
  {
    if s[0] != n {
      assert s == [s[0]] + s[1..];
      WithoutMembers(s[1..], n);
    }
  }

  lemma {:induction false} WithoutFewer(s: seq<Ref>, n: Ref, m: Ref)
    requires m in Without(s, n)
    ensures m in s
  {
    if s[0] != n && m != s[0] {
      WithoutFewer(s[1..], n, m);
    }
  }
}
