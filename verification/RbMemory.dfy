// What the memory of the nodes has to do with a shape: a node is an address, the
// memory holds for every address the link fields and the colour of its node.
module RbMemory {
  import opened TreeShape

  datatype Cell = Cell(parent: Ref, left: Ref, right: Ref, red: bool)
  datatype Store = Store(m: map<Ref, Cell>, root: Ref, nil: Ref)

  ghost function Root(s: Store, t: Shape): Ref { if t.Leaf? then s.nil else t.n }

  // The nodes of `t` are linked as `t` says, under the parent `up`.
  ghost predicate Rep(s: Store, t: Shape, up: Ref) {
    match t
    case Leaf => true
    case Bin(l, n, red, r) =>
      n in s.m && s.m[n] == Cell(up, Root(s, l), Root(s, r), red) && Rep(s, l, n) && Rep(s, r, n)
  }

  // The nodes around the hole are linked as `p` says, and the link into the hole
  // leads to `hole`.
  ghost predicate RepPath(s: Store, p: Path, hole: Ref) {
    match p
    case Top(_) => s.root == hole
    case InLeft(up, n, red, r) =>
      n in s.m && s.m[n] == Cell(Up(up), hole, Root(s, r), red) && Rep(s, r, n) && RepPath(s, up, n)
    case InRight(up, l, n, red) =>
      n in s.m && s.m[n] == Cell(Up(up), Root(s, l), hole, red) && Rep(s, l, n) && RepPath(s, up, n)
  }

  ghost predicate BlackCell(s: Store, n: Ref) { n in s.m && !s.m[n].red }

  // The whole tree: `t` in the hole of `p`. What the parent field of the root holds
  // may be anything.
  ghost predicate At(s: Store, p: Path, t: Shape) {
    && Spread(p, t, s.nil) && BlackCell(s, s.nil)
    && RepPath(s, p, Root(s, t)) && Rep(s, t, Up(p))
  }

  // The parent field of the root leads to a black cell outside the tree.
  ghost predicate Outer(s: Store, above: Ref, t: Shape) { above !in Nodes(t) && BlackCell(s, above) }

  // `s'` has in `ns` what `s` has there.
  ghost predicate Agree(s: Store, s': Store, ns: set<Ref>) {
    && s'.nil == s.nil
    && (forall n :: n in ns && n in s.m ==> n in s'.m && s'.m[n] == s.m[n])
  }

  // From `s` to `s'` only nodes of `ns` are written.
  ghost predicate Within(s: Store, s': Store, ns: set<Ref>) {
    s'.m.Keys == s.m.Keys && Agree(s, s', s.m.Keys - ns)
  }

  lemma {:induction false} RepAgree(s: Store, s': Store, t: Shape, up: Ref)
    requires Rep(s, t, up) && Agree(s, s', Nodes(t))
    ensures Rep(s', t, up)
  {
    if t.Bin? {
      RepAgree(s, s', t.l, t.n);
      RepAgree(s, s', t.r, t.n);
    }
  }

  lemma {:induction false} PathAgree(s: Store, s': Store, p: Path, hole: Ref)
    requires RepPath(s, p, hole) && Agree(s, s', PathNodes(p)) && s'.root == s.root
    ensures RepPath(s', p, hole)
  {
    match p
    case Top(_) =>
    case InLeft(up, n, red, r) => RepAgree(s, s', r, n); PathAgree(s, s', up, n);
    case InRight(up, l, n, red) => RepAgree(s, s', l, n); PathAgree(s, s', up, n);
  }

  lemma {:induction false} RepNodes(s: Store, t: Shape, up: Ref)
    requires Rep(s, t, up)
    ensures Nodes(t) <= s.m.Keys
  {
    if t.Bin? {
      RepNodes(s, t.l, t.n);
      RepNodes(s, t.r, t.n);
    }
  }

  // Moving the hole does not touch the memory.

  lemma DownLeft(s: Store, p: Path, t: Shape)
    requires At(s, p, t) && t.Bin?
    ensures At(s, InLeft(p, t.n, t.red, t.r), t.l)
  {
  }

  lemma DownRight(s: Store, p: Path, t: Shape)
    requires At(s, p, t) && t.Bin?
    ensures At(s, InRight(p, t.l, t.n, t.red), t.r)
  {
  }

  lemma GoUp(s: Store, p: Path, t: Shape)
    requires At(s, p, t) && !p.Top?
    ensures p.InLeft? ==> At(s, p.up, Bin(t, p.n, p.red, p.r))
    ensures p.InRight? ==> At(s, p.up, Bin(p.l, p.n, p.red, t))
  {
  }

  lemma {:induction false} GoTop(s: Store, p: Path, t: Shape)
    requires At(s, p, t)
    ensures At(s, Top(Above(p)), Zip(p, t))
  {
    match p
    case Top(_) =>
    case InLeft(up, n, red, r) => GoUp(s, p, t); GoTop(s, up, Bin(t, n, red, r));
    case InRight(up, l, n, red) => GoUp(s, p, t); GoTop(s, up, Bin(l, n, red, t));
  }

  // The root is in the hole just when there is nothing around it.
  lemma {:induction false} RootInPath(s: Store, p: Path, hole: Ref)
    requires RepPath(s, p, hole) && !p.Top?
    ensures s.root in PathNodes(p)
  {
    match p
    case InLeft(up, n, red, r) => if !up.Top? { RootInPath(s, up, n); }
    case InRight(up, l, n, red) => if !up.Top? { RootInPath(s, up, n); }
  }

  lemma RootPlace(s: Store, p: Path, t: Shape)
    requires At(s, p, t)
    ensures p.Top? <==> Root(s, t) == s.root
  {
    if !p.Top? {
      RootInPath(s, p, Root(s, t));
    }
  }

  // Writes

  ghost function SetParent(s: Store, n: Ref, v: Ref): Store
    requires n in s.m
  {
    s.(m := s.m[n := s.m[n].(parent := v)])
  }

  ghost function SetLeft(s: Store, n: Ref, v: Ref): Store
    requires n in s.m
  {
    s.(m := s.m[n := s.m[n].(left := v)])
  }

  ghost function SetRight(s: Store, n: Ref, v: Ref): Store
    requires n in s.m
  {
    s.(m := s.m[n := s.m[n].(right := v)])
  }

  ghost function Paint(s: Store, n: Ref, red: bool): Store
    requires n in s.m
  {
    s.(m := s.m[n := s.m[n].(red := red)])
  }

  // The link that leads to `from` leads to `to`.
  ghost function Relink(s: Store, up: Ref, from: Ref, to: Ref): Store
    requires from == s.root || up in s.m
  {
    if from == s.root then s.(root := to)
    else if s.m[up].left == from then SetLeft(s, up, to)
    else SetRight(s, up, to)
  }

  lemma RelinkPath(s: Store, p: Path, from: Ref, to: Ref)
    requires RepPath(s, p, from) && PathApart(p) && from !in PathNodes(p) && s.nil !in PathNodes(p) && from != s.nil
    requires p.Top? <==> from == s.root
    ensures from == s.root || (Up(p) in s.m && Up(p) in PathNodes(p))
    ensures RepPath(Relink(s, Up(p), from, to), p, to)
  {
    if !p.Top? {
      var s' := Relink(s, Up(p), from, to);
      match p
      case InLeft(up, n, red, r) => RepAgree(s, s', r, n); PathAgree(s, s', up, n);
      case InRight(up, l, n, red) => RepAgree(s, s', l, n); PathAgree(s, s', up, n);
    }
  }

  // Nodes outside the tree keep what they hold, so the sentinel stays black.
  lemma Reassemble(s: Store, s': Store, p: Path, t: Shape, t': Shape)
    requires At(s, p, t) && Spread(p, t', s.nil)
    requires RepPath(s', p, Root(s, t')) && Rep(s', t', Up(p)) && Agree(s, s', s.m.Keys - Nodes(t) - PathNodes(p))
    ensures At(s', p, t')
  {
  }

  lemma PaintAt(s: Store, p: Path, t: Shape, red: bool)
    requires At(s, p, t) && t.Bin?
    ensures t.n in s.m
    ensures At(Paint(s, t.n, red), p, t.(red := red))
    ensures Within(s, Paint(s, t.n, red), Span(p, t))
  {
    var s' := Paint(s, t.n, red);
    RepAgree(s, s', t.l, t.n);
    RepAgree(s, s', t.r, t.n);
    PathAgree(s, s', p, t.n);
    Reassemble(s, s', p, t, t.(red := red));
  }

  lemma PaintLeftAt(s: Store, p: Path, t: Shape, red: bool)
    requires At(s, p, t) && t.Bin? && t.l.Bin?
    ensures t.l.n in s.m
    ensures At(Paint(s, t.l.n, red), p, t.(l := t.l.(red := red)))
    ensures Within(s, Paint(s, t.l.n, red), Span(p, t))
  {
    DownLeft(s, p, t);
    var p' := InLeft(p, t.n, t.red, t.r);
    PaintAt(s, p', t.l, red);
    GoUp(Paint(s, t.l.n, red), p', t.l.(red := red));
  }

  lemma PaintRightAt(s: Store, p: Path, t: Shape, red: bool)
    requires At(s, p, t) && t.Bin? && t.r.Bin?
    ensures t.r.n in s.m
    ensures At(Paint(s, t.r.n, red), p, t.(r := t.r.(red := red)))
    ensures Within(s, Paint(s, t.r.n, red), Span(p, t))
  {
    DownRight(s, p, t);
    var p' := InRight(p, t.l, t.n, t.red);
    PaintAt(s, p', t.r, red);
    GoUp(Paint(s, t.r.n, red), p', t.r.(red := red));
  }

  // The subtree gets another parent.
  lemma RepAdopt(s: Store, s': Store, t: Shape, up: Ref, up': Ref)
    requires Rep(s, t, up) && Apart(t) && s'.nil == s.nil
    requires t.Bin? ==> t.n in s'.m && s'.m[t.n] == s.m[t.n].(parent := up')
    requires Agree(s, s', Nodes(t) - (if t.Bin? then {t.n} else {}))
    ensures Rep(s', t, up')
  {
    if t.Bin? {
      RepAgree(s, s', t.l, t.n);
      RepAgree(s, s', t.r, t.n);
    }
  }

  // Rotations, write by write

  // A rotation reads cells of the memory only.
  ghost predicate RotLReads(s: Store, x: Ref) {
    && x in s.m && s.m[x].right in s.m && (x == s.root || s.m[x].parent in s.m)
    && s.m[s.m[x].right].left in s.m
  }

  ghost predicate RotRReads(s: Store, x: Ref) {
    && x in s.m && s.m[x].left in s.m && (x == s.root || s.m[x].parent in s.m)
    && s.m[s.m[x].left].right in s.m
  }

  ghost function StoreRotL(s: Store, x: Ref): Store
    requires RotLReads(s, x)
  {
    var y := s.m[x].right;
    var b := s.m[y].left;
    var s1 := Relink(SetParent(s, y, s.m[x].parent), s.m[x].parent, x, y);
    var s2 := SetRight(SetLeft(SetParent(s1, x, y), y, x), x, b);
    if b != s.nil then SetParent(s2, b, x) else s2
  }

  lemma RotLRep(s: Store, s': Store, t: Shape, g: Ref)
    requires t.Bin? && t.r.Bin? && Apart(t) && Rep(s, t, g) && s'.nil == s.nil
    requires Agree(s, s', Nodes(t) - {t.n, t.r.n} - (if t.r.l.Bin? then {t.r.l.n} else {}))
    requires t.n in s'.m && s'.m[t.n] == Cell(t.r.n, Root(s, t.l), Root(s, t.r.l), t.red)
    requires t.r.n in s'.m && s'.m[t.r.n] == Cell(g, t.n, Root(s, t.r.r), t.r.red)
    requires t.r.l.Bin? ==> t.r.l.n in s'.m && t.r.l.n in s.m && s'.m[t.r.l.n] == s.m[t.r.l.n].(parent := t.n)
    ensures Rep(s', RotL(t), g)
  {
    var x, y, a, b, c := t.n, t.r.n, t.l, t.r.l, t.r.r;
    assert Rep(s, t.r, x) && Apart(t.r);
    assert Nodes(t.r) == Nodes(b) + {y} + Nodes(c);
    assert b.Bin? ==> b.n in Nodes(b);
    RepAgree(s, s', a, x);
    RepAgree(s, s', c, y);
    RepAdopt(s, s', b, y, x);
    assert Rep(s', Bin(a, x, t.red, b), y);
  }

  // The cells the last writes of a rotation leave behind.
  ghost predicate LastWrites(s: Store, s': Store, x: Ref, y: Ref, b: Ref, x': Cell, y': Cell) {
    && s'.nil == s.nil && s'.root == s.root && s'.m.Keys == s.m.Keys
    && x in s'.m && s'.m[x] == x' && y in s'.m && s'.m[y] == y'
    && (b != s.nil ==> b in s.m && s'.m[b] == s.m[b].(parent := x))
    && (forall n :: n in s.m && n != x && n != y && (n != b || b == s.nil) ==> s'.m[n] == s.m[n])
  }

  lemma RotLCells(s: Store, x: Ref, y: Ref, b: Ref)
    requires x in s.m && y in s.m && b in s.m && x != y && b != x && b != y
    ensures var s2 := SetRight(SetLeft(SetParent(s, x, y), y, x), x, b);
      LastWrites(s, if b != s.nil then SetParent(s2, b, x) else s2, x, y, b,
                 s.m[x].(parent := y, right := b), s.m[y].(left := x))
  {
  }

  lemma RotLWrites(s: Store, p: Path, t: Shape)
    requires At(s, p, t) && t.Bin? && t.r.Bin?
    ensures RotLReads(s, t.n) && s.m[t.n].right == t.r.n
    ensures var s' := StoreRotL(s, t.n);
      RepPath(s', p, t.r.n) && Rep(s', RotL(t), Up(p)) && Agree(s, s', s.m.Keys - Nodes(t) - PathNodes(p))
  {
    var x, y := t.n, t.r.n;
    var b := Root(s, t.r.l);
    assert Rep(s, t.r, x) && Rep(s, t.r.l, y);
    RootPlace(s, p, t);
    RotLDistinct(t);
    var s0 := SetParent(s, y, Up(p));
    PathAgree(s, s0, p, x);
    RelinkPath(s0, p, x, y);
    var s1 := Relink(s0, Up(p), x, y);
    RotLCells(s1, x, y, b);
    RotLFinish(s, s1, StoreRotL(s, x), p, t);
  }

  lemma RotLKeys(s: Store, x: Ref)
    requires RotLReads(s, x)
    ensures StoreRotL(s, x).m.Keys == s.m.Keys
  {
  }

  lemma RotLAt(s: Store, p: Path, t: Shape)
    requires At(s, p, t) && t.Bin? && t.r.Bin?
    ensures RotLReads(s, t.n) && s.m[t.n].right == t.r.n
    ensures At(StoreRotL(s, t.n), p, RotL(t))
    ensures Within(s, StoreRotL(s, t.n), Span(p, t))
  {
    RotLWrites(s, p, t);
    RotLKeys(s, t.n);
    RotLPlaced(p, t, s.nil);
    Reassemble(s, StoreRotL(s, t.n), p, t, RotL(t));
  }

  lemma RotLSubtree(s: Store, s1: Store, s': Store, t: Shape, g: Ref)
    requires t.Bin? && t.r.Bin? && Apart(t) && Rep(s, t, g) && s1.nil == s.nil && s.nil !in Nodes(t)
    requires t.r.n in s1.m && t.r.n in s.m && s1.m[t.r.n] == s.m[t.r.n].(parent := g)
    requires Agree(s, s1, Nodes(t) - {t.r.n}) && t.n in s1.m
    requires LastWrites(s1, s', t.n, t.r.n, Root(s, t.r.l), s1.m[t.n].(parent := t.r.n, right := Root(s, t.r.l)),
      s1.m[t.r.n].(left := t.n))
    ensures Rep(s', RotL(t), g)
  {
    RotLDistinct(t);
    assert Rep(s, t.r, t.n);
    assert t.r.l.Bin? ==> Rep(s, t.r.l, t.r.n);
    RepNodes(s, t, g);
    RotLRep(s, s', t, g);
  }

  lemma RotLFinish(s: Store, s1: Store, s': Store, p: Path, t: Shape)
    requires At(s, p, t) && t.Bin? && t.r.Bin? && RepPath(s1, p, t.r.n) && s1.nil == s.nil
    requires t.r.n in s1.m && t.r.n in s.m && s1.m[t.r.n] == s.m[t.r.n].(parent := Up(p))
    requires Agree(s, s1, s.m.Keys - {t.r.n} - PathNodes(p)) && t.n in s1.m
    requires LastWrites(s1, s', t.n, t.r.n, Root(s, t.r.l), s1.m[t.n].(parent := t.r.n, right := Root(s, t.r.l)),
      s1.m[t.r.n].(left := t.n))
    ensures RepPath(s', p, t.r.n) && Rep(s', RotL(t), Up(p)) && Agree(s, s', s.m.Keys - Nodes(t) - PathNodes(p))
  {
    RotLDistinct(t);
    RotLSubtree(s, s1, s', t, Up(p));
    PathAgree(s1, s', p, t.r.n);
  }

  lemma RotLPlaced(p: Path, t: Shape, nil: Ref)
    requires Spread(p, t, nil) && t.Bin? && t.r.Bin?
    ensures Spread(p, RotL(t), nil)
  {
    RotLKeeps(t);
  }

  lemma RotLDistinct(t: Shape)
    requires t.Bin? && t.r.Bin? && Apart(t)
    ensures t.n != t.r.n && {t.n, t.r.n} <= Nodes(t)
    ensures t.r.l.Bin? ==> t.r.l.n !in {t.n, t.r.n} && t.r.l.n in Nodes(t)
  {
    assert Apart(t.r) && Nodes(t.r) == Nodes(t.r.l) + {t.r.n} + Nodes(t.r.r);
  }

  ghost function StoreRotR(s: Store, x: Ref): Store
    requires RotRReads(s, x)
  {
    var y := s.m[x].left;
    var b := s.m[y].right;
    var s1 := Relink(SetParent(s, y, s.m[x].parent), s.m[x].parent, x, y);
    var s2 := SetLeft(SetParent(SetRight(s1, y, x), x, y), x, b);
    if b != s.nil then SetParent(s2, b, x) else s2
  }

  lemma RotRRep(s: Store, s': Store, t: Shape, g: Ref)
    requires t.Bin? && t.l.Bin? && Apart(t) && Rep(s, t, g) && s'.nil == s.nil
    requires Agree(s, s', Nodes(t) - {t.n, t.l.n} - (if t.l.r.Bin? then {t.l.r.n} else {}))
    requires t.n in s'.m && s'.m[t.n] == Cell(t.l.n, Root(s, t.l.r), Root(s, t.r), t.red)
    requires t.l.n in s'.m && s'.m[t.l.n] == Cell(g, Root(s, t.l.l), t.n, t.l.red)
    requires t.l.r.Bin? ==> t.l.r.n in s'.m && t.l.r.n in s.m && s'.m[t.l.r.n] == s.m[t.l.r.n].(parent := t.n)
    ensures Rep(s', RotR(t), g)
  {
    var x, y, a, b, c := t.n, t.l.n, t.r, t.l.r, t.l.l;
    assert Rep(s, t.l, x) && Apart(t.l);
    assert Nodes(t.l) == Nodes(b) + {y} + Nodes(c);
    assert b.Bin? ==> b.n in Nodes(b);
    RepAgree(s, s', a, x);
    RepAgree(s, s', c, y);
    RepAdopt(s, s', b, y, x);
    assert Rep(s', Bin(b, x, t.red, a), y);
  }

  lemma RotRCells(s: Store, x: Ref, y: Ref, b: Ref)
    requires x in s.m && y in s.m && b in s.m && x != y && b != x && b != y
    ensures var s2 := SetLeft(SetParent(SetRight(s, y, x), x, y), x, b);
      LastWrites(s, if b != s.nil then SetParent(s2, b, x) else s2, x, y, b,
                 s.m[x].(parent := y, left := b), s.m[y].(right := x))
  {
  }

  lemma RotRWrites(s: Store, p: Path, t: Shape)
    requires At(s, p, t) && t.Bin? && t.l.Bin?
    ensures RotRReads(s, t.n) && s.m[t.n].left == t.l.n
    ensures var s' := StoreRotR(s, t.n);
      RepPath(s', p, t.l.n) && Rep(s', RotR(t), Up(p)) && Agree(s, s', s.m.Keys - Nodes(t) - PathNodes(p))
  {
    var x, y := t.n, t.l.n;
    var b := Root(s, t.l.r);
    assert Rep(s, t.l, x) && Rep(s, t.l.r, y);
    RootPlace(s, p, t);
    RotRDistinct(t);
    var s0 := SetParent(s, y, Up(p));
    PathAgree(s, s0, p, x);
    RelinkPath(s0, p, x, y);
    var s1 := Relink(s0, Up(p), x, y);
    RotRCells(s1, x, y, b);
    RotRFinish(s, s1, StoreRotR(s, x), p, t);
  }

  lemma RotRKeys(s: Store, x: Ref)
    requires RotRReads(s, x)
    ensures StoreRotR(s, x).m.Keys == s.m.Keys
  {
  }

  lemma RotRAt(s: Store, p: Path, t: Shape)
    requires At(s, p, t) && t.Bin? && t.l.Bin?
    ensures RotRReads(s, t.n) && s.m[t.n].left == t.l.n
    ensures At(StoreRotR(s, t.n), p, RotR(t))
    ensures Within(s, StoreRotR(s, t.n), Span(p, t))
  {
    RotRWrites(s, p, t);
    RotRKeys(s, t.n);
    RotRPlaced(p, t, s.nil);
    Reassemble(s, StoreRotR(s, t.n), p, t, RotR(t));
  }

  lemma RotRSubtree(s: Store, s1: Store, s': Store, t: Shape, g: Ref)
    requires t.Bin? && t.l.Bin? && Apart(t) && Rep(s, t, g) && s1.nil == s.nil && s.nil !in Nodes(t)
    requires t.l.n in s1.m && t.l.n in s.m && s1.m[t.l.n] == s.m[t.l.n].(parent := g)
    requires Agree(s, s1, Nodes(t) - {t.l.n}) && t.n in s1.m
    requires LastWrites(s1, s', t.n, t.l.n, Root(s, t.l.r), s1.m[t.n].(parent := t.l.n, left := Root(s, t.l.r)),
      s1.m[t.l.n].(right := t.n))
    ensures Rep(s', RotR(t), g)
  {
    RotRDistinct(t);
    assert Rep(s, t.l, t.n);
    assert t.l.r.Bin? ==> Rep(s, t.l.r, t.l.n);
    RepNodes(s, t, g);
    RotRRep(s, s', t, g);
  }

  lemma RotRFinish(s: Store, s1: Store, s': Store, p: Path, t: Shape)
    requires At(s, p, t) && t.Bin? && t.l.Bin? && RepPath(s1, p, t.l.n) && s1.nil == s.nil
    requires t.l.n in s1.m && t.l.n in s.m && s1.m[t.l.n] == s.m[t.l.n].(parent := Up(p))
    requires Agree(s, s1, s.m.Keys - {t.l.n} - PathNodes(p)) && t.n in s1.m
    requires LastWrites(s1, s', t.n, t.l.n, Root(s, t.l.r), s1.m[t.n].(parent := t.l.n, left := Root(s, t.l.r)),
      s1.m[t.l.n].(right := t.n))
    ensures RepPath(s', p, t.l.n) && Rep(s', RotR(t), Up(p)) && Agree(s, s', s.m.Keys - Nodes(t) - PathNodes(p))
  {
    RotRDistinct(t);
    RotRSubtree(s, s1, s', t, Up(p));
    PathAgree(s1, s', p, t.l.n);
  }

  lemma RotRPlaced(p: Path, t: Shape, nil: Ref)
    requires Spread(p, t, nil) && t.Bin? && t.l.Bin?
    ensures Spread(p, RotR(t), nil)
  {
    RotRKeeps(t);
  }

  lemma RotRDistinct(t: Shape)
    requires t.Bin? && t.l.Bin? && Apart(t)
    ensures t.n != t.l.n && {t.n, t.l.n} <= Nodes(t)
    ensures t.l.r.Bin? ==> t.l.r.n !in {t.n, t.l.n} && t.l.r.n in Nodes(t)
  {
    assert Apart(t.l) && Nodes(t.l) == Nodes(t.l.r) + {t.l.n} + Nodes(t.l.l);
  }

  // A new node in an empty hole

  ghost function Fill(s: Store, p: Path, n: Ref): Store
    requires n in s.m && (!p.Top? ==> Up(p) in s.m)
  {
    var s1 := SetParent(s, n, if p.Top? then s.nil else Up(p));
    match p
    case Top(_) => s1.(root := n)
    case InLeft(_, y, _, _) => SetLeft(s1, y, n)
    case InRight(_, _, y, _) => SetRight(s1, y, n)
  }

  ghost function Attach(s: Store, p: Path, n: Ref): Store
    requires n in s.m && (!p.Top? ==> Up(p) in s.m)
  {
    Paint(SetRight(SetLeft(Fill(s, p, n), n, s.nil), n, s.nil), n, true)
  }

  // Where the insertion ends up: in an empty tree the root gets the sentinel as parent.
  ghost function Settled(p: Path, nil: Ref): Path { if p.Top? then Top(nil) else p }

  lemma AttachPath(s: Store, p: Path, n: Ref)
    requires RepPath(s, p, s.nil) && PathApart(p) && n in s.m && n !in PathNodes(p)
    ensures !p.Top? ==> Up(p) in s.m && Up(p) in PathNodes(p)
    ensures RepPath(Attach(s, p, n), Settled(p, s.nil), n)
  {
    var s' := Attach(s, p, n);
    match p
    case Top(_) =>
    case InLeft(up, _, _, r) => RepAgree(s, s', r, p.n); PathAgree(s, s', up, p.n);
    case InRight(up, l, _, _) => RepAgree(s, s', l, p.n); PathAgree(s, s', up, p.n);
  }

  lemma AttachAt(s: Store, p: Path, n: Ref)
    requires At(s, p, Leaf) && n in s.m && n !in PathNodes(p) && n != s.nil
    ensures !p.Top? ==> Up(p) in s.m
    ensures At(Attach(s, p, n), Settled(p, s.nil), Bin(Leaf, n, true, Leaf))
    ensures Within(s, Attach(s, p, n), PathNodes(p) + {n})
  {
    AttachPath(s, p, n);
  }

  // Memory that is not part of the tree may hold anything.
  lemma FreshAt(s: Store, s': Store, p: Path, t: Shape, n: Ref, c: Cell)
    requires At(s, p, t) && n !in Span(p, t) && n != s.nil && s' == s.(m := s.m[n := c])
    ensures At(s', p, t)
  {
    RepAgree(s, s', t, Up(p));
    PathAgree(s, s', p, Root(s, t));
  }
}
