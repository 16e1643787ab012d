// Taking a node out of the tree: the writes of util_rbtree_delete before the
// repair loop, on the memory and on the shape.
module RbUnlink {
  import opened TreeShape
  import opened RbColour
  import opened RbMemory
  import opened RbRepair

  // Finding the place of a node

  lemma {:induction false} Locate(s: Store, p: Path, t: Shape, z: Ref) returns (p': Path, t': Shape)
    requires At(s, p, t) && z in Nodes(t)
    ensures At(s, p', t') && t'.Bin? && t'.n == z && Zip(p', t') == Zip(p, t) && Above(p') == Above(p)
    decreases t
  {
    if t.n == z {
      p', t' := p, t;
    } else if z in Nodes(t.l) {
      DownLeft(s, p, t);
      p', t' := Locate(s, InLeft(p, t.n, t.red, t.r), t.l, z);
    } else {
      DownRight(s, p, t);
      p', t' := Locate(s, InRight(p, t.l, t.n, t.red), t.r, z);
    }
  }

  // Only the names of the nodes on the way differ.
  ghost predicate SameColours(p: Path, p': Path) {
    && (forall h :: PathBalanced(p, h) <==> PathBalanced(p', h))
    && (PathNoRedRed(p) <==> PathNoRedRed(p')) && (WantsBlack(p) <==> WantsBlack(p'))
  }

  lemma {:induction false} MinPathColours(p: Path, p': Path, t: Shape)
    requires t.Bin? && SameColours(p, p')
    ensures SameColours(MinPath(p, t).0, MinPath(p', t).0) && MinPath(p, t).1 == MinPath(p', t).1
    ensures t.l.Bin? ==> Up(MinPath(p, t).0) == Up(MinPath(p', t).0)
    decreases t
  {
    if t.l.Bin? {
      var q, q' := InLeft(p, t.n, t.red, t.r), InLeft(p', t.n, t.red, t.r);
      assert PathNoRedRed(q) <==> PathNoRedRed(p) && NoRedRed(t.r) && (t.red ==> !Red(t.r) && !WantsBlack(p));
      assert PathNoRedRed(q') <==> PathNoRedRed(p') && NoRedRed(t.r) && (t.red ==> !Red(t.r) && !WantsBlack(p'));
      assert WantsBlack(q) == t.red == WantsBlack(q');
      assert SameColours(q, q');
      MinPathColours(q, q', t.l);
      if t.l.l.Leaf? {
        assert MinPath(q, t.l).0 == q;
      }
    }
  }

  lemma {:induction false} ClimbMin(s: Store, p: Path, t: Shape)
    requires t.Bin? && At(s, MinPath(p, t).0, MinPath(p, t).1.r)
    ensures At(s, p, DropMin(t))
    decreases t
  {
    if t.l.Bin? {
      var q := InLeft(p, t.n, t.red, t.r);
      ClimbMin(s, q, t.l);
      GoUp(s, q, DropMin(t.l));
    }
  }

  lemma {:induction false} DescendMin(s: Store, p: Path, t: Shape)
    requires t.Bin? && At(s, p, DropMin(t))
    ensures At(s, MinPath(p, t).0, MinPath(p, t).1.r)
    decreases t
  {
    if t.l.Bin? {
      DownLeft(s, p, DropMin(t));
      DescendMin(s, InLeft(p, t.n, t.red, t.r), t.l);
    }
  }

  // Writes

  // A cell outside the tree loses its links.
  lemma ClearAt(s: Store, s': Store, p: Path, t: Shape, n: Ref)
    requires At(s, p, t) && n in s.m && n !in Span(p, t)
    requires s' == s.(m := s.m[n := Cell(0, 0, 0, s.m[n].red)])
    ensures At(s', p, t)
  {
    RepAgree(s, s', t, Up(p));
    PathAgree(s, s', p, Root(s, t));
  }

  // A node with an empty side is taken out: its other side gets the parent `v` and
  // the link that led to the node.
  ghost function Splice(s: Store, up: Ref, n: Ref, sub: Ref, v: Ref): Store
    requires sub in s.m && up in s.m
  {
    var s1 := SetParent(s, sub, v);
    if s1.m[up].left == n then SetLeft(s1, up, sub) else SetRight(s1, up, sub)
  }

  lemma SpliceCells(s: Store, p: Path, t: Shape)
    requires At(s, p, t) && OneSided(t) && !p.Top?
    ensures t.n in s.m && s.m[t.n].parent == Up(p) && Up(p) in s.m
    ensures Root(s, Other(t)) in s.m && Root(s, Other(t)) != Up(p) && t.n != s.root
    ensures s.m[t.n].left == Root(s, t.l) && s.m[t.n].right == Root(s, t.r)
  {
    RootPlace(s, p, t);
    assert Rep(s, Other(t), t.n);
    assert Up(p) in PathNodes(p);
  }

  lemma SpliceRep(s: Store, p: Path, t: Shape, v: Ref)
    requires At(s, p, t) && OneSided(t) && !p.Top?
    ensures Root(s, Other(t)) in s.m && Up(p) in s.m
    ensures var s' := Splice(s, Up(p), t.n, Root(s, Other(t)), v);
      RepPath(s', p, Root(s, Other(t))) && Rep(s', Other(t), v)
  {
    SpliceCells(s, p, t);
    var sub := Other(t);
    var s1 := SetParent(s, Root(s, sub), v);
    assert Rep(s, sub, t.n) && Apart(sub) && Nodes(sub) <= Nodes(t) && t.n !in Nodes(sub);
    PathAgree(s, s1, p, t.n);
    RelinkPath(s1, p, t.n, Root(s, sub));
    RepAdopt(s, Splice(s, Up(p), t.n, Root(s, sub), v), sub, t.n, v);
  }

  lemma SpliceKeeps(s: Store, p: Path, t: Shape, v: Ref)
    requires At(s, p, t) && OneSided(t) && !p.Top?
    ensures Root(s, Other(t)) in s.m && Up(p) in s.m
    ensures var s' := Splice(s, Up(p), t.n, Root(s, Other(t)), v);
      && s'.m.Keys == s.m.Keys && s'.m[Root(s, Other(t))].parent == v && s'.nil == s.nil
      && (forall n :: n in s.m && n !in Span(p, t) && n != s.nil ==> s'.m[n] == s.m[n])
      && t.n in s.m && s'.m[t.n] == s.m[t.n] && s'.m[s.nil].red == s.m[s.nil].red
  {
    SpliceCells(s, p, t);
    assert Rep(s, Other(t), t.n);
  }

  // `y` takes over the place, the links and the colour of `z`.

  ghost function AdoptChild(s: Store, child: Ref, y: Ref): Store {
    if child != s.nil && child in s.m then SetParent(s, child, y) else s
  }

  ghost function TakeOver(s: Store, c: Cell, y: Ref): Store
    requires y in s.m
  {
    var s1 := SetLeft(SetRight(s, y, c.right), y, c.left);
    Paint(AdoptChild(AdoptChild(s1, c.left, y), c.right, y), y, c.red)
  }

  ghost function Replace(s: Store, z: Ref, y: Ref): Store
    requires z in s.m && y in s.m && y != z && (z == s.root || s.m[z].parent in s.m)
  {
    TakeOver(Relink(SetParent(s, y, s.m[z].parent), s.m[z].parent, z, y), s.m[z], y)
  }

  ghost predicate TakenOver(s: Store, s': Store, c: Cell, y: Ref) {
    && s'.nil == s.nil && s'.root == s.root && s'.m.Keys == s.m.Keys && y in s.m
    && s'.m[y] == s.m[y].(left := c.left, right := c.right, red := c.red)
    && (c.left in s.m && c.left != s.nil ==> s'.m[c.left] == s.m[c.left].(parent := y))
    && (c.right in s.m && c.right != s.nil ==> s'.m[c.right] == s.m[c.right].(parent := y))
    && (forall n :: n in s.m && n != y && (n == s.nil || (n != c.left && n != c.right)) ==> s'.m[n] == s.m[n])
  }

  lemma TakeOverCells(s: Store, c: Cell, y: Ref)
    requires y in s.m && c.left != y && c.right != y && (c.left == c.right ==> c.left == s.nil)
    ensures TakenOver(s, TakeOver(s, c, y), c, y)
  {
  }

  // The place of `z` with the shapes on both sides; the parent fields of the heads
  // of `l` and `r` may hold anything.
  ghost predicate Vacant(s: Store, p: Path, t: Shape) {
    && Spread(p, t, s.nil) && BlackCell(s, s.nil) && t.Bin?
    && RepPath(s, p, t.n) && t.n in s.m && s.m[t.n] == Cell(Up(p), Root(s, t.l), Root(s, t.r), t.red)
  }

  lemma ReplacePath(s: Store, p: Path, t: Shape, y: Ref)
    requires Vacant(s, p, t) && y in s.m && y !in Span(p, t) + {s.nil}
    ensures t.n == s.root || s.m[t.n].parent in s.m
    ensures var s1 := Relink(SetParent(s, y, s.m[t.n].parent), s.m[t.n].parent, t.n, y);
      RepPath(s1, p, y) && s1.nil == s.nil && y in s1.m && s1.m[y] == s.m[y].(parent := Up(p)) && s1.m.Keys == s.m.Keys
      && Agree(s, s1, s.m.Keys - {y} - PathNodes(p))
  {
    if !p.Top? {
      RootInPath(s, p, t.n);
    }
    var s0 := SetParent(s, y, Up(p));
    PathAgree(s, s0, p, t.n);
    RelinkPath(s0, p, t.n, y);
  }

  lemma HeadsApart(s: Store, t: Shape)
    requires Apart(t) && t.Bin? && s.nil !in Nodes(t)
    ensures Root(s, t.l) == Root(s, t.r) ==> Root(s, t.l) == s.nil
    ensures t.l.Bin? ==> t.l.n in Nodes(t) && t.l.n in Nodes(t.l)
    ensures t.r.Bin? ==> t.r.n in Nodes(t) && t.r.n in Nodes(t.r)
  {
  }

  // What the new node finds on one of its sides.
  lemma ReplaceSide(s: Store, s1: Store, s': Store, p: Path, t: Shape, child: Shape, u: Ref, y: Ref)
    requires Spread(p, t, s.nil) && t.Bin? && (child == t.l || child == t.r) && Rep(s, child, u) && y !in Span(p, t)
    requires s1.nil == s.nil && s1.m.Keys == s.m.Keys && Agree(s, s1, s.m.Keys - {y} - PathNodes(p))
    requires TakenOver(s1, s', Cell(Up(p), Root(s, t.l), Root(s, t.r), t.red), y)
    ensures Rep(s', child, y)
  {
    HeadsApart(s, t);
    RepNodes(s, child, u);
    assert Nodes(child) <= Nodes(t);
    RepAdopt(s, s', child, u, y);
  }

  lemma ReplaceReps(s: Store, s1: Store, s': Store, p: Path, t: Shape, ul: Ref, ur: Ref, y: Ref)
    requires Spread(p, t, s.nil) && t.Bin? && Rep(s, t.l, ul) && Rep(s, t.r, ur) && y !in Span(p, t)
    requires RepPath(s1, p, y) && s1.nil == s.nil && y in s1.m && s1.m[y].parent == Up(p)
    requires s1.m.Keys == s.m.Keys && Agree(s, s1, s.m.Keys - {y} - PathNodes(p))
    requires TakenOver(s1, s', Cell(Up(p), Root(s, t.l), Root(s, t.r), t.red), y)
    ensures RepPath(s', p, y) && Rep(s', Bin(t.l, y, t.red, t.r), Up(p))
  {
    HeadsApart(s, t);
    PathAgree(s1, s', p, y);
    ReplaceSide(s, s1, s', p, t, t.l, ul, y);
    ReplaceSide(s, s1, s', p, t, t.r, ur, y);
  }

  lemma ReplaceWrites(s: Store, p: Path, t: Shape, ul: Ref, ur: Ref, y: Ref)
    requires Vacant(s, p, t) && Rep(s, t.l, ul) && Rep(s, t.r, ur) && y in s.m && y !in Span(p, t) + {s.nil}
    ensures t.n == s.root || s.m[t.n].parent in s.m
    ensures RepPath(Replace(s, t.n, y), p, y) && Rep(Replace(s, t.n, y), Bin(t.l, y, t.red, t.r), Up(p))
  {
    ReplacePath(s, p, t, y);
    HeadsApart(s, t);
    var c := s.m[t.n];
    var s1 := Relink(SetParent(s, y, c.parent), c.parent, t.n, y);
    TakeOverCells(s1, c, y);
    ReplaceReps(s, s1, TakeOver(s1, c, y), p, t, ul, ur, y);
  }

  lemma TakenOverAgree(s: Store, s1: Store, s': Store, c: Cell, y: Ref, written: set<Ref>, ns: set<Ref>)
    requires Agree(s, s1, s.m.Keys - {y} - written) && s1.m.Keys == s.m.Keys && TakenOver(s1, s', c, y)
    requires written <= ns && {c.left, c.right} <= ns + {s.nil} && s.nil !in ns
    ensures Agree(s, s', s.m.Keys - {y} - ns) && s'.m.Keys == s.m.Keys
  {
  }

  lemma ReplaceKeeps(s: Store, p: Path, t: Shape, y: Ref)
    requires Vacant(s, p, t) && y in s.m && y !in Span(p, t) + {s.nil}
    ensures t.n == s.root || s.m[t.n].parent in s.m
    ensures Replace(s, t.n, y).m.Keys == s.m.Keys && Agree(s, Replace(s, t.n, y), s.m.Keys - {y} - Span(p, t))
    ensures Replace(s, t.n, y).m[t.n] == s.m[t.n]
  {
    ReplacePath(s, p, t, y);
    HeadsApart(s, t);
    var c := s.m[t.n];
    var s1 := Relink(SetParent(s, y, c.parent), c.parent, t.n, y);
    TakeOverCells(s1, c, y);
    TakenOverAgree(s, s1, TakeOver(s1, c, y), c, y, PathNodes(p), Span(p, t));
  }

  lemma ReplacePlaced(p: Path, t: Shape, y: Ref, nil: Ref)
    requires Spread(p, t, nil) && t.Bin? && y !in Span(p, t) + {nil}
    ensures Spread(p, Bin(t.l, y, t.red, t.r), nil)
  {
  }

  lemma ReplaceAt(s: Store, p: Path, t: Shape, ul: Ref, ur: Ref, y: Ref)
    requires Vacant(s, p, t) && Rep(s, t.l, ul) && Rep(s, t.r, ur) && y in s.m && y !in Span(p, t) + {s.nil}
    ensures t.n == s.root || s.m[t.n].parent in s.m
    ensures At(Replace(s, t.n, y), p, Bin(t.l, y, t.red, t.r))
    ensures Replace(s, t.n, y).m.Keys == s.m.Keys && Agree(s, Replace(s, t.n, y), s.m.Keys - {y} - Span(p, t))
    ensures Replace(s, t.n, y).m[t.n] == s.m[t.n]
  {
    ReplaceWrites(s, p, t, ul, ur, y);
    ReplaceKeeps(s, p, t, y);
    ReplacePlaced(p, t, y, s.nil);
  }

  // A node with two children: the least node of its right side leaves its place and
  // takes over the place of the node.

  lemma {:induction false} AtMin(s: Store, p: Path, t: Shape)
    requires t.Bin? && At(s, p, t)
    ensures At(s, MinPath(p, t).0, MinPath(p, t).1)
    decreases t
  {
    if t.l.Bin? {
      DownLeft(s, p, t);
      AtMin(s, InLeft(p, t.n, t.red, t.r), t.l);
    }
  }

  // The path to the least node on the right side of `t`.
  ghost function InnerPath(p: Path, t: Shape, n: Ref): Path
    requires t.Bin? && t.r.Bin?
  {
    MinPath(InRight(p, t.l, n, t.red), t.r).0
  }

  ghost function Inner(t: Shape): Shape
    requires t.Bin? && t.r.Bin?
  {
    MinPath(Top(0), t.r).1
  }

  // The parent that the successor's other side gets.
  ghost function NewParent(p: Path, t: Shape): Ref
    requires t.Bin? && t.r.Bin?
  {
    var up := Up(InnerPath(p, t, t.n));
    if up == t.n then Inner(t).n else up
  }

  lemma InnerPlace(s: Store, p: Path, t: Shape)
    requires At(s, p, t) && t.Bin? && t.r.Bin?
    ensures At(s, InnerPath(p, t, t.n), Inner(t)) && OneSided(Inner(t)) && !InnerPath(p, t, t.n).Top?
    ensures Inner(t).n == MinNode(t.r) && Other(Inner(t)) == Inner(t).r
    ensures t.r.l.Leaf? <==> Up(InnerPath(p, t, t.n)) == t.n
    ensures t.r.l.Leaf? ==> InnerPath(p, t, t.n) == InRight(p, t.l, t.n, t.red)
  {
    var q := InRight(p, t.l, t.n, t.red);
    DownRight(s, p, t);
    AtMin(s, q, t.r);
    InnerSame(Top(0), q, t.r);
    MinPathFacts(q, t.r);
    if t.r.l.Bin? {
      MinPathUp(q, t.r);
    }
  }

  lemma InnerSpan(p: Path, t: Shape)
    requires t.Bin? && t.r.Bin?
    ensures Span(InnerPath(p, t, t.n), Inner(t)) == Span(p, t)
    ensures Above(InnerPath(p, t, t.n)) == Above(p)
  {
    var q := InRight(p, t.l, t.n, t.red);
    MinPathFacts(q, t.r);
    InnerSame(Top(0), q, t.r);
    ZipNodes(p, t);
    ZipNodes(InnerPath(p, t, t.n), Inner(t));
  }

  // The state between the two moves.
  ghost function Spliced(s: Store, p: Path, t: Shape): Store
    requires t.Bin? && t.r.Bin? && Up(InnerPath(p, t, t.n)) in s.m && Root(s, Inner(t).r) in s.m
  {
    Splice(s, Up(InnerPath(p, t, t.n)), Inner(t).n, Root(s, Inner(t).r), NewParent(p, t))
  }

  lemma SplicedKeeps(s: Store, p: Path, t: Shape)
    requires At(s, p, t) && t.Bin? && t.r.Bin?
    ensures Up(InnerPath(p, t, t.n)) in s.m && Root(s, Inner(t).r) in s.m && Inner(t).n in s.m
    ensures var s1 := Spliced(s, p, t);
      && s1.m.Keys == s.m.Keys && s1.m[Root(s, Inner(t).r)].parent == NewParent(p, t) && s1.nil == s.nil
      && (forall n :: n in s.m && n !in Span(p, t) && n != s.nil ==> s1.m[n] == s.m[n])
      && s1.m[s.nil].red == s.m[s.nil].red
  {
    InnerPlace(s, p, t);
    SpliceKeeps(s, InnerPath(p, t, t.n), Inner(t), NewParent(p, t));
    InnerSpan(p, t);
  }

  lemma DropMinPlaced(p: Path, t: Shape, nil: Ref)
    requires Spread(p, t, nil) && t.Bin? && t.r.Bin?
    ensures Spread(p, t.(r := DropMin(t.r)), nil)
    ensures MinNode(t.r) in Span(p, t) && MinNode(t.r) !in Span(p, t.(r := DropMin(t.r)))
    ensures Span(p, t.(r := DropMin(t.r))) <= Span(p, t)
  {
    DropMinNodes(t.r);
  }

  // The successor is the right child itself.
  lemma SplicedNear(s: Store, p: Path, t: Shape)
    requires At(s, p, t) && t.Bin? && t.r.Bin? && t.r.l.Leaf?
    ensures Up(InnerPath(p, t, t.n)) in s.m && Root(s, Inner(t).r) in s.m
    ensures var s1 := Spliced(s, p, t);
      RepPath(s1, InRight(p, t.l, t.n, t.red), Root(s1, t.r.r)) && Rep(s1, t.r.r, t.r.n)
  {
    InnerPlace(s, p, t);
    SpliceRep(s, InnerPath(p, t, t.n), Inner(t), NewParent(p, t));
  }

  // The successor is further down.
  lemma SplicedFar(s: Store, p: Path, t: Shape)
    requires At(s, p, t) && t.Bin? && t.r.Bin? && t.r.l.Bin?
    ensures Up(InnerPath(p, t, t.n)) in s.m && Root(s, Inner(t).r) in s.m
    ensures var s1 := Spliced(s, p, t);
      RepPath(s1, InRight(p, t.l, t.n, t.red), Root(s1, DropMin(t.r))) && Rep(s1, DropMin(t.r), t.n)
  {
    var q, m := InnerPath(p, t, t.n), Inner(t);
    InnerPlace(s, p, t);
    SplicedKeeps(s, p, t);
    SpliceRep(s, q, m, NewParent(p, t));
    InnerSpan(p, t);
    var s1 := Spliced(s, p, t);
    assert Spread(q, m.r, s1.nil);
    assert At(s1, q, m.r);
    InnerSame(Top(0), InRight(p, t.l, t.n, t.red), t.r);
    ClimbMin(s1, InRight(p, t.l, t.n, t.red), t.r);
  }

  ghost function SpareParent(t: Shape): Ref
    requires t.Bin? && t.r.Bin?
  {
    if t.r.l.Leaf? then t.r.n else t.n
  }

  lemma SplicedVacant(s: Store, p: Path, t: Shape)
    requires At(s, p, t) && t.Bin? && t.r.Bin?
    ensures Up(InnerPath(p, t, t.n)) in s.m && Root(s, Inner(t).r) in s.m
    ensures var s1 := Spliced(s, p, t);
      && Vacant(s1, p, t.(r := DropMin(t.r))) && Rep(s1, t.l, t.n) && Rep(s1, DropMin(t.r), SpareParent(t))
  {
    SplicedKeeps(s, p, t);
    DropMinPlaced(p, t, s.nil);
    if t.r.l.Leaf? {
      SplicedNear(s, p, t);
    } else {
      SplicedFar(s, p, t);
    }
  }

  // The tree after both moves, with the hole where the successor was.
  lemma UnlinkInner(s: Store, p: Path, t: Shape)
    requires At(s, p, t) && t.Bin? && t.r.Bin?
    ensures Up(InnerPath(p, t, t.n)) in s.m && Root(s, Inner(t).r) in s.m
    ensures var s1 := Spliced(s, p, t);
      t.n in s1.m && Inner(t).n in s1.m && Inner(t).n != t.n && (t.n == s1.root || s1.m[t.n].parent in s1.m)
    ensures var s1, y := Spliced(s, p, t), Inner(t).n;
      var s2 := Replace(s1, t.n, y);
      && At(s2, InnerPath(p, t, y), Inner(t).r) && s2.m.Keys == s.m.Keys
      && (forall n :: n in s.m && n !in Span(p, t) && n != s.nil ==> s2.m[n] == s.m[n])
      && (Inner(t).r.Leaf? ==> s2.m[s.nil].parent == Up(InnerPath(p, t, y)))
      && t.n in s.m && s2.m[t.n].red == s.m[t.n].red
  {
    var y := Inner(t).n;
    var t1 := t.(r := DropMin(t.r));
    SplicedKeeps(s, p, t);
    SplicedVacant(s, p, t);
    InnerPlace(s, p, t);
    DropMinPlaced(p, t, s.nil);
    var s1 := Spliced(s, p, t);
    ReplaceAt(s1, p, t1, t.n, SpareParent(t), y);
    ReplaceDescend(Replace(s1, t.n, y), p, t, y);
  }

  lemma ReplaceDescend(s: Store, p: Path, t: Shape, y: Ref)
    requires t.Bin? && t.r.Bin? && At(s, p, Bin(t.l, y, t.red, DropMin(t.r))) && y == Inner(t).n && Apart(t)
    ensures At(s, InnerPath(p, t, y), Inner(t).r)
    ensures Up(InnerPath(p, t, y)) == NewParent(p, t)
  {
    DownRight(s, p, Bin(t.l, y, t.red, DropMin(t.r)));
    DescendMin(s, InRight(p, t.l, y, t.red), t.r);
    InnerSame(Top(0), InRight(p, t.l, y, t.red), t.r);
    InnerSame(Top(0), InRight(p, t.l, t.n, t.red), t.r);
    if t.r.l.Bin? {
      UpSame(InRight(p, t.l, t.n, t.red), InRight(p, t.l, y, t.red), t.r);
      MinPathUp(InRight(p, t.l, t.n, t.red), t.r);
    }
  }

  lemma {:induction false} UpSame(p: Path, p': Path, t: Shape)
    requires t.Bin? && t.l.Bin?
    ensures Up(MinPath(p, t).0) == Up(MinPath(p', t).0)
    decreases t
  {
    if t.l.l.Bin? {
      UpSame(InLeft(p, t.n, t.red, t.r), InLeft(p', t.n, t.red, t.r), t.l);
    }
  }

  // Red-black balance around the hole

  lemma OneSidedColours(t: Shape)
    requires Balanced(t) && NoRedRed(t) && OneSided(t)
    ensures BlackHeight(Other(t)) == 0 && BlackHeight(t) == One(t.red)
    ensures Balanced(Other(t)) && NoRedRed(Other(t)) && (t.red ==> Other(t).Leaf?)
  {
    if t.l.Leaf? {
      assert BlackHeight(t.r) == 0;
    } else {
      assert BlackHeight(t.l) == 0;
    }
  }

  lemma BlackKeeps(t: Shape)
    requires Balanced(t) && NoRedRed(t)
    ensures Balanced(Black(t)) && NoRedRed(Black(t))
  {
  }

  lemma OneSidedDeleting(p: Path, t: Shape)
    requires RedBlack(Zip(p, t)) && OneSided(t)
    ensures p.Top? ==> RedBlack(Black(Other(t)))
    ensures if t.red then RedBlack(Zip(p, Other(t))) else Deleting(p, Other(t))
  {
    UnzipRedBlack(p, t);
    OneSidedColours(t);
    BlackKeeps(Other(t));
    if t.red {
      ZipRedBlack(p, Leaf);
    }
  }

  lemma InnerDeleting(p: Path, t: Shape, y: Ref)
    requires RedBlack(Zip(p, t)) && t.Bin? && t.r.Bin?
    ensures if Inner(t).red then RedBlack(Zip(InnerPath(p, t, y), Inner(t).r))
      else Deleting(InnerPath(p, t, y), Inner(t).r)
  {
    var q, q', m := InnerPath(p, t, t.n), InnerPath(p, t, y), Inner(t);
    MinPathFacts(InRight(p, t.l, t.n, t.red), t.r);
    InnerSame(Top(0), InRight(p, t.l, t.n, t.red), t.r);
    assert SameColours(InRight(p, t.l, t.n, t.red), InRight(p, t.l, y, t.red));
    MinPathColours(InRight(p, t.l, t.n, t.red), InRight(p, t.l, y, t.red), t.r);
    UnzipRedBlack(q, m);
    if m.red {
      ZipRedBlack(q', m.r);
    }
  }

  lemma InnerOrder(p: Path, t: Shape, nil: Ref)
    requires Spread(p, t, nil) && t.Bin? && t.r.Bin?
    ensures Inorder(Zip(InnerPath(p, t, Inner(t).n), Inner(t).r)) == Without(Inorder(Zip(p, t)), t.n)
  {
    var y := Inner(t).n;
    var q := InRight(p, t.l, y, t.red);
    MinPathFacts(q, t.r);
    InnerSame(Top(0), q, t.r);
    MinFirst(t.r);
    WithoutAround(p, t, nil);
    InorderZip(p, Bin(t.l, y, t.red, DropMin(t.r)));
    Around(Before(p), Inorder(t.l), [y], Inorder(DropMin(t.r)), After(p));
    Around(Before(p), Inorder(t.l) + [y], [], Inorder(DropMin(t.r)), After(p));
    MoveMiddle(Before(p) + Inorder(t.l), [y], Inorder(DropMin(t.r)), After(p));
  }
}
