// The insert repair loop of src/libconhash/util_rbtree.c when the recolouring has come up
// to the root and the parent field of the root leads back into the tree.
module RbLate {
  import opened TreeShape
  import opened RbColour
  import opened RbMemory
  import opened RbRepair
  import opened RbLoop

  // All parents and uncles on the way up are red: the recolouring comes up to the root.
  ghost predicate RedUncles(p: Path) {
    p.Top? || (p.red && !p.up.Top? && Red(Sibling(p.up)) && RedUncles(p.up.up))
  }

  // The parent field of the root leads to the root.
  ghost predicate OwnRoot(p: Path, t: Shape) { Zip(p, t).Bin? && Above(p) == Zip(p, t).n }

  // What the last recolouring leaves behind: two black children, of which neither has two
  // red ones.
  ghost predicate Crowned(t: Shape) {
    && t.Bin? && t.l.Bin? && t.r.Bin? && !t.l.red && !t.r.red
    && !(Red(t.l.l) && Red(t.l.r)) && !(Red(t.r.l) && Red(t.r.r))
  }

  lemma {:induction false} ZipHead(p: Path, t: Shape, t': Shape)
    requires t.Bin? && t'.Bin? && t.n == t'.n
    ensures Zip(p, t).Bin? && Zip(p, t').Bin? && Zip(p, t).n == Zip(p, t').n
  {
    match p
    case Top(_) =>
    case InLeft(up, n, red, r) => ZipHead(up, Bin(t, n, red, r), Bin(t', n, red, r));
    case InRight(up, l, n, red) => ZipHead(up, Bin(l, n, red, t), Bin(l, n, red, t'));
  }

  // While the uncles are red the root stays the same node.
  lemma InsertStepRises(p: Path, t: Shape)
    requires Inserting(p, t) && WantsBlack(p) && !p.Top?
    ensures HasGrandparent(p)
    ensures var (p', t') := InsertStep(p, t);
      && (RedUncles(p) <==> RedUncles(p')) && (p'.Top? ==> Crowned(t'))
      && (RedUncles(p) ==> (OwnRoot(p', t') <==> OwnRoot(p, t)))
  {
    InsertStepKeeps(p, t);
    var (p', t') := InsertStep(p, t);
    assert p.red && PathNoRedRed(p.up) && NoRedRed(Sibling(p.up)) && !Red(Sibling(p));
    assert Zip(p, t) == Zip(p.up.up, Grand(p, t));
    ZipHead(p.up.up, Grand(p, t), Grand(p, t));
    ZipBin(p', t');
    if Red(Sibling(p.up)) {
      ZipHead(p.up.up, Grand(p, t), t');
    }
  }

  // The root painted black, as the end of the loop will do.
  ghost function PaintTop(p: Path): Path {
    match p
    case Top(_) => p
    case InLeft(up, n, red, r) => if up.Top? then InLeft(up, n, false, r) else InLeft(PaintTop(up), n, red, r)
    case InRight(up, l, n, red) => if up.Top? then InRight(up, l, n, false) else InRight(PaintTop(up), l, n, red)
  }

  lemma {:induction false} PaintTopZip(p: Path, t: Shape)
    requires !p.Top?
    ensures Zip(PaintTop(p), t) == Black(Zip(p, t))
  {
    match p
    case InLeft(up, n, red, r) => if !up.Top? { PaintTopZip(up, Bin(t, n, red, r)); }
    case InRight(up, l, n, red) => if !up.Top? { PaintTopZip(up, Bin(l, n, red, t)); }
  }

  // The child of the root on the way down to the hole is black, and has not two red children.
  ghost predicate Forked(p: Path) {
    if p.Top? || p.up.Top? then true
    else if p.up.up.Top? then !p.red
    else if p.up.up.up.Top? then !p.up.red && !(p.red && Red(Sibling(p.up)))
    else Forked(p.up)
  }

  lemma {:induction false} CrownedForked(p: Path, t: Shape)
    requires Crowned(Zip(p, t))
    ensures Forked(p)
    ensures !p.Top? && p.up.Top? ==> t.Bin? && !t.red && !(Red(t.l) && Red(t.r))
    ensures HasGrandparent(p) && p.up.up.Top? ==> !p.red && !(Red(t) && Red(Sibling(p)))
  {
    match p
    case Top(_) =>
    case InLeft(up, n, red, r) => CrownedForked(up, Bin(t, n, red, r));
    case InRight(up, l, n, red) => CrownedForked(up, Bin(l, n, red, t));
  }

  // Once more below the root: as in the first place, with the root taken for black.
  ghost predicate Late(p: Path, t: Shape) {
    HasGrandparent(p) && Inserting(PaintTop(p), t) && Forked(p)
  }

  lemma PaintTopUp(p: Path)
    requires HasGrandparent(p)
    ensures HasGrandparent(PaintTop(p)) && WantsBlack(PaintTop(p)) == WantsBlack(p)
    ensures PaintTop(p).up == PaintTop(p.up) && PaintTop(p).InLeft? == p.InLeft? && Sibling(PaintTop(p)) == Sibling(p)
  {
  }

  // Two below the root the loop ends, and three below it the loop turns and ends.
  lemma LateDeep(p: Path)
    requires HasGrandparent(p) && Forked(p) && WantsBlack(p)
    ensures !p.up.up.Top?
    ensures Red(Sibling(p.up)) ==> HasGrandparent(p.up.up)
  {
  }

  lemma LateStepIs(p: Path, t: Shape)
    requires HasGrandparent(p) && !p.up.up.Top? && t.Bin? && (Red(Sibling(p.up)) ==> HasGrandparent(p.up.up))
    ensures HasGrandparent(PaintTop(p))
    ensures var (p', t') := InsertStep(p, t);
      HasGrandparent(p') && InsertStep(PaintTop(p), t) == (PaintTop(p'), t')
  {
    PaintTopUp(p);
    PaintTopUp(p.up);
  }

  lemma LateStepForked(p: Path, t: Shape)
    requires HasGrandparent(p) && t.Bin? && Forked(p) && WantsBlack(p)
    ensures Forked(InsertStep(p, t).0)
  {
    LateDeep(p);
    if HasGrandparent(p.up.up) && !p.up.up.up.up.Top? {
      assert Forked(p.up) && Forked(p.up.up);
    }
  }

  lemma LateStepKeeps(p: Path, t: Shape)
    requires Late(p, t) && WantsBlack(p)
    ensures HasGrandparent(p)
    ensures var (p', t') := InsertStep(p, t); Late(p', t') && Depth(p') < Depth(p) && Above(p') == Above(p)
  {
    PaintTopUp(p);
    LateDeep(p);
    InsertStepKeeps(PaintTop(p), t);
    LateStepIs(p, t);
    LateStepForked(p, t);
  }

  lemma LateEnds(p: Path, t: Shape)
    requires Late(p, t) && !WantsBlack(p)
    ensures RedBlack(Black(Zip(p, t)))
  {
    ZipRedBlack(PaintTop(p), t);
    PaintTopZip(p, t);
  }

  // The turn at the root: the parent field of the root leads to a red child of `g`.
  lemma LateStart(q: Path, g: Shape, spot: Spot)
    requires Red(Zip(q, g)) && RedBlack(Black(Zip(q, g))) && Crowned(Zip(q, g))
    requires spot in {OnLeft(false), OnRight(false)} && Turnable(g, spot) && Red(if spot.OnLeft? then g.l else g.r)
    ensures !q.Top?
    ensures if RedUncle(g, spot) then Late(q, Recoloured(g)) else RedBlack(Black(Zip(q, Turned(g, spot))))
    ensures Inorder(Zip(q, Turned(g, spot))) == Inorder(Zip(q, g))
  {
    CrownedForked(q, g);
    PaintTopZip(q, g);
    UnzipRedBlack(PaintTop(q), g);
    var g' := Turned(g, spot);
    if !RedUncle(g, spot) {
      ZipRedBlack(PaintTop(q), g');
      PaintTopZip(q, g');
    }
    TurnedOrder(g, spot);
    GraftOrder(q, g, g');
  }

  lemma {:induction false} HeadInPath(p: Path, t: Shape)
    requires !p.Top?
    ensures Zip(p, t).Bin? && Zip(p, t).n in PathNodes(p)
  {
    match p
    case InLeft(up, n, red, r) => if !up.Top? { HeadInPath(up, Bin(t, n, red, r)); }
    case InRight(up, l, n, red) => if !up.Top? { HeadInPath(up, Bin(l, n, red, t)); }
  }

  lemma {:induction false} SameHead(p: Path, t: Shape, t': Shape)
    requires !p.Top?
    ensures Zip(p, t).Bin? && Zip(p, t').Bin? && Zip(p, t').n == Zip(p, t).n
  {
    match p
    case InLeft(up, n, red, r) => ZipHead(up, Bin(t, n, red, r), Bin(t', n, red, r));
    case InRight(up, l, n, red) => ZipHead(up, Bin(l, n, red, t), Bin(l, n, red, t'));
  }

  // A node that is not the root of `t` is a child.
  lemma {:induction false} ChildPlace(s: Store, p: Path, t: Shape, a: Ref) returns (q: Path, g: Shape, spot: Spot)
    requires At(s, p, t) && t.Bin? && a in Nodes(t) && a != t.n
    ensures At(s, q, g) && Zip(q, g) == Zip(p, t) && Above(q) == Above(p) && g.Bin?
    ensures spot in {OnLeft(false), OnRight(false)} && Turnable(g, spot)
    ensures (if spot.OnLeft? then g.l.n else g.r.n) == a
    decreases t
  {
    if t.l.Bin? && t.l.n == a {
      q, g, spot := p, t, OnLeft(false);
    } else if t.r.Bin? && t.r.n == a {
      q, g, spot := p, t, OnRight(false);
    } else if a in Nodes(t.l) {
      DownLeft(s, p, t);
      q, g, spot := ChildPlace(s, InLeft(p, t.n, t.red, t.r), t.l, a);
    } else {
      DownRight(s, p, t);
      q, g, spot := ChildPlace(s, InRight(p, t.l, t.n, t.red), t.r, a);
    }
  }

  // Where the turn at the root happens.
  lemma LatePlace(s: Store, t: Shape, a: Ref) returns (q: Path, g: Shape, spot: Spot)
    requires At(s, Top(a), t) && Crowned(t) && a in Nodes(t) && a != t.n && a in s.m && s.m[a].red
    ensures At(s, q, g) && Zip(q, g) == t && Above(q) == a && !q.Top?
    ensures spot in {OnLeft(false), OnRight(false)} && Under(s, g, spot, t.n)
    ensures var c := if spot.OnLeft? then g.l else g.r; Red(c) && c.n == a
    ensures Span(q, g) == Nodes(t)
  {
    q, g, spot := ChildPlace(s, Top(a), t, a);
    var c := if spot.OnLeft? then g.l else g.r;
    assert Rep(s, c, g.n) && c.red && Rep(s, t, a);
    assert !q.Top?;
    ZipNodes(q, g);
    HeadInPath(q, g);
    assert t.n !in Nodes(c.l) && t.n !in Nodes(c.r) && t.n != s.nil;
    assert s.m[a].left == Root(s, c.l) && s.m[a].right == Root(s, c.r);
  }

  lemma TurnedOrder(g: Shape, spot: Spot)
    requires Turnable(g, spot)
    ensures Inorder(Turned(g, spot)) == Inorder(g)
  {
    match spot
    case OnLeft(inner) =>
      if inner {
        RotLKeeps(g.l);
      }
      RotRKeeps(Bin(Black(if inner then RotL(g.l) else g.l), g.n, true, g.r));
    case OnRight(inner) =>
      if inner {
        RotRKeeps(g.r);
      }
      RotLKeeps(Bin(g.l, g.n, true, Black(if inner then RotR(g.r) else g.r)));
    case Itself => RotLKeeps(g);
  }
}
