// One turn of the insert and of the delete repair loop of
// src/libconhash/util_rbtree.c on a shape with a hole, and what every turn keeps.
module RbRepair {
  import opened TreeShape
  import opened RbColour

  // Insertion: the subtree in the hole is a new red node; the only fault is that
  // the hole may want a black node.
  ghost predicate Inserting(p: Path, t: Shape) {
    && Red(t) && NoRedRed(t) && Balanced(t)
    && PathNoRedRed(p) && PathBalanced(p, BlackHeight(t))
  }

  // The parent and the grandparent of the hole.
  ghost predicate HasGrandparent(p: Path) {
    !p.Top? && !p.up.Top?
  }

  ghost function InsertStep(p: Path, t: Shape): (Path, Shape)
    requires HasGrandparent(p) && t.Bin?
  {
    match p
    case InLeft(InLeft(up, g, _, u), q, _, r) =>
      if Red(u) then (up, Bin(Bin(t, q, false, r), g, true, Black(u)))
      else (InLeft(up, q, false, Bin(r, g, true, u)), t)
    case InRight(InLeft(up, g, _, u), l, q, _) =>
      if Red(u) then (up, Bin(Bin(l, q, false, t), g, true, Black(u)))
      else (InLeft(up, t.n, false, Bin(t.r, g, true, u)), Bin(l, q, true, t.l))
    case InRight(InRight(up, u, g, _), l, q, _) =>
      if Red(u) then (up, Bin(Black(u), g, true, Bin(l, q, false, t)))
      else (InRight(up, Bin(u, g, true, l), q, false), t)
    case InLeft(InRight(up, u, g, _), q, _, r) =>
      if Red(u) then (up, Bin(Black(u), g, true, Bin(t, q, false, r)))
      else (InRight(up, Bin(u, g, true, t.l), t.n, false), Bin(t.r, q, true, r))
  }

  // An empty place in a red-black tree.
  lemma PlaceForRed(p: Path, n: Ref)
    requires RedBlack(Zip(p, Leaf))
    ensures Inserting(p, Bin(Leaf, n, true, Leaf))
  {
    UnzipRedBlack(p, Leaf);
  }

  lemma InsertStepKeeps(p: Path, t: Shape)
    requires Inserting(p, t) && WantsBlack(p) && !p.Top?
    ensures HasGrandparent(p) && !WantsBlack(p.up)
    ensures var (p', t') := InsertStep(p, t);
      Inserting(p', t') && Depth(p') < Depth(p) && Above(p') == Above(p)
  {
    assert PathNoRedRed(p.up) && PathBalanced(p.up, BlackHeight(t));
    assert t.red && BlackHeight(t) == BlackHeight(t.l);
    var (p', t') := InsertStep(p, t);
    var u := match p.up case InLeft(_, _, _, r) => r case InRight(_, l, _, _) => l;
    if Red(u) {
      assert Balanced(Black(u)) && NoRedRed(Black(u)) && BlackHeight(Black(u)) == BlackHeight(u) + 1;
      if p.up.InLeft? {
        assert Balanced(t'.l) && NoRedRed(t'.l) && BlackHeight(t'.l) == BlackHeight(t) + 1;
      } else {
        assert Balanced(t'.r) && NoRedRed(t'.r) && BlackHeight(t'.r) == BlackHeight(t) + 1;
      }
    } else if p.up.InLeft? {
      assert Balanced(p'.r) && NoRedRed(p'.r) && BlackHeight(p'.r) == BlackHeight(t);
    } else {
      assert Balanced(p'.l) && NoRedRed(p'.l) && BlackHeight(p'.l) == BlackHeight(t);
    }
  }

  lemma {:induction false} ZipBin(p: Path, t: Shape)
    requires t.Bin?
    ensures Zip(p, t).Bin?
  {
    match p
    case Top(_) =>
    case InLeft(up, n, red, r) => ZipBin(up, Bin(t, n, red, r));
    case InRight(up, l, n, red) => ZipBin(up, Bin(l, n, red, t));
  }

  // Behind the loop the root is painted black.
  lemma InsertEnds(p: Path, t: Shape)
    requires Inserting(p, t) && (p.Top? || !WantsBlack(p))
    ensures RedBlack(Black(Zip(p, t))) && Inorder(Black(Zip(p, t))) == Inorder(Zip(p, t))
  {
    if !p.Top? {
      ZipRedBlack(p, t);
    }
  }

  lemma InsertStepSpan(p: Path, t: Shape)
    requires HasGrandparent(p) && t.Bin?
    ensures var (p', t') := InsertStep(p, t); Span(p', t') == Span(p, t)
  {
    var (p', t') := InsertStep(p, t);
    assert Span(p.up, if p.InLeft? then Bin(t, p.n, p.red, p.r) else Bin(p.l, p.n, p.red, t)) == Span(p, t);
    InsertStepOrder(p, t);
    SameOrderSameNodes(Zip(p, t), Zip(p', t'));
    ZipNodes(p, t);
    ZipNodes(p', t');
  }

  lemma GraftOrder(p: Path, t: Shape, t': Shape)
    requires Inorder(t) == Inorder(t')
    ensures Inorder(Zip(p, t)) == Inorder(Zip(p, t'))
  {
    InorderZip(p, t);
    InorderZip(p, t');
  }

  lemma InsertStepOrder(p: Path, t: Shape)
    requires HasGrandparent(p) && t.Bin?
    ensures var (p', t') := InsertStep(p, t); Inorder(Zip(p', t')) == Inorder(Zip(p, t))
  {
    match p
    case InLeft(InLeft(up, g, gc, u), q, qc, r) =>
      var b := Bin(t, q, false, r);
      assert Inorder(b) == Inorder(Bin(t, q, qc, r));
      RotRKeeps(Bin(b, g, true, u));
      GraftOrder(up, Bin(Bin(t, q, qc, r), g, gc, u),
        if Red(u) then Bin(b, g, true, Black(u)) else RotR(Bin(b, g, true, u)));
    case InRight(InLeft(up, g, gc, u), l, q, qc) =>
      var b := Bin(l, q, qc, t);
      assert Inorder(Bin(l, q, false, t)) == Inorder(b);
      RotLKeeps(Bin(l, q, true, t.(red := false)));
      RotRKeeps(Bin(RotL(Bin(l, q, true, t.(red := false))), g, true, u));
      GraftOrder(up, Bin(b, g, gc, u), if Red(u) then Bin(Bin(l, q, false, t), g, true, Black(u))
                                       else RotR(Bin(RotL(Bin(l, q, true, t.(red := false))), g, true, u)));
    case InRight(InRight(up, u, g, gc), l, q, qc) =>
      var b := Bin(l, q, false, t);
      assert Inorder(b) == Inorder(Bin(l, q, qc, t));
      RotLKeeps(Bin(u, g, true, b));
      GraftOrder(up, Bin(u, g, gc, Bin(l, q, qc, t)),
        if Red(u) then Bin(Black(u), g, true, b) else RotL(Bin(u, g, true, b)));
    case InLeft(InRight(up, u, g, gc), q, qc, r) =>
      var b := Bin(t, q, qc, r);
      assert Inorder(Bin(t, q, false, r)) == Inorder(b);
      RotRKeeps(Bin(t.(red := false), q, true, r));
      RotLKeeps(Bin(u, g, true, RotR(Bin(t.(red := false), q, true, r))));
      GraftOrder(up, Bin(u, g, gc, b), if Red(u) then Bin(Black(u), g, true, Bin(t, q, false, r))
                                       else RotL(Bin(u, g, true, RotR(Bin(t.(red := false), q, true, r)))));
  }

  // Deletion: a black node is missing from every way through the hole; the
  // subtree in the hole is as it should be once its root is black.
  ghost predicate Deleting(p: Path, t: Shape) {
    && NoRedRed(Black(t)) && Balanced(t)
    && PathNoRedRed(p) && PathBalanced(p, BlackHeight(t) + 1)
  }

  ghost predicate DeleteDone(p: Path, t: Shape) { p.Top? || Red(t) }

  ghost function DeleteMeasure(p: Path, t: Shape): nat {
    if DeleteDone(p, t) then 0 else Depth(p)
  }

  // The sibling of the hole.
  ghost function Sibling(p: Path): Shape
    requires !p.Top?
  {
    match p
    case InLeft(_, _, _, r) => r
    case InRight(_, l, _, _) => l
  }

  // A red sibling is rotated up, so that the hole gets a black one.
  ghost function BlackSibling(p: Path): Path
    requires !p.Top? && Sibling(p).Bin?
  {
    match p
    case InLeft(up, q, red, w) =>
      if w.red then InLeft(InLeft(up, w.n, false, w.r), q, true, w.l) else p
    case InRight(up, w, q, red) =>
      if w.red then InRight(InRight(up, w.l, w.n, false), w.r, q, true) else p
  }

  ghost function DeleteStep(p: Path, t: Shape): (Path, Shape)
    requires !p.Top? && Sibling(p).Bin? && !Sibling(p).red
  {
    match p
    case InLeft(up, q, red, w) =>
      if !Red(w.l) && !Red(w.r) then (up, Bin(t, q, red, w.(red := true)))
      else
        var v := if Red(w.r) then w else RotR(w.(l := Black(w.l), red := true));
        (Top(Above(up)), Zip(up, Bin(Bin(t, q, false, v.l), v.n, red, Black(v.r))))
    case InRight(up, w, q, red) =>
      if !Red(w.l) && !Red(w.r) then (up, Bin(w.(red := true), q, red, t))
      else
        var v := if Red(w.l) then w else RotL(w.(r := Black(w.r), red := true));
        (Top(Above(up)), Zip(up, Bin(Black(v.l), v.n, red, Bin(v.r, q, false, t))))
  }

  lemma BlackSiblingKeeps(p: Path, t: Shape)
    requires Deleting(p, t) && !DeleteDone(p, t)
    ensures Sibling(p).Bin?
    ensures var p' := BlackSibling(p);
      && Deleting(p', t) && !p'.Top? && Sibling(p').Bin? && !Sibling(p').red && Above(p') == Above(p)
      && (if Sibling(p).red then Depth(p') == Depth(p) + 1 && WantsBlack(p') else p' == p)
  {
    var w := Sibling(p);
    assert BlackHeight(w) >= 1;
    if w.red {
      assert Balanced(w.l) && Balanced(w.r) && NoRedRed(w.l) && NoRedRed(w.r);
      assert PathBalanced(BlackSibling(p).up, BlackHeight(t) + 1);
    }
  }

  lemma {:induction false} ZipKeeps(p: Path, t: Shape)
    requires Balanced(t) && NoRedRed(t) && PathBalanced(p, BlackHeight(t)) && PathNoRedRed(p)
    requires Red(t) ==> p.Top? || !WantsBlack(p)
    ensures Balanced(Zip(p, t)) && NoRedRed(Zip(p, t))
  {
    match p
    case Top(_) =>
    case InLeft(up, n, red, r) => ZipKeeps(up, Bin(t, n, red, r));
    case InRight(up, l, n, red) => ZipKeeps(up, Bin(l, n, red, t));
  }

  lemma DeleteStepKeeps(p: Path, t: Shape)
    requires Deleting(p, t) && !DeleteDone(p, t) && Sibling(p).Bin? && !Sibling(p).red
    ensures var (p', t') := DeleteStep(p, t);
      && Deleting(p', t') && Above(p') == Above(p)
      && (DeleteDone(p', t') || (Depth(p') < Depth(p) && !WantsBlack(p)))
  {
    var w := Sibling(p);
    var (p', t') := DeleteStep(p, t);
    assert Balanced(w) && NoRedRed(w) && BlackHeight(w.l) == BlackHeight(t) == BlackHeight(w.r);
    if !Red(w.l) && !Red(w.r) {
      assert Balanced(w.(red := true)) && NoRedRed(w.(red := true));
      assert p'.Top? || p' == p.up;
    } else if p.InLeft? {
      FarTurnRight(p, t);
    } else {
      FarTurnLeft(p, t);
    }
  }

  // The last rotation fills up what was missing.
  lemma FarTurnRight(p: Path, t: Shape)
    requires Deleting(p, t) && !Red(t) && p.InLeft? && p.r.Bin? && !p.r.red && (Red(p.r.l) || Red(p.r.r))
    ensures var v := if Red(p.r.r) then p.r else RotR(p.r.(l := Black(p.r.l), red := true));
      && v.Bin?
      && var t' := Zip(p.up, Bin(Bin(t, p.n, false, v.l), v.n, p.red, Black(v.r)));
      Balanced(t') && NoRedRed(t')
  {
    var w := p.r;
    var v := if Red(w.r) then w else RotR(w.(l := Black(w.l), red := true));
    FarRedRight(w);
    var top := Bin(Bin(t, p.n, false, v.l), v.n, p.red, Black(v.r));
    assert Balanced(top.l) && NoRedRed(top.l);
    assert BlackHeight(top) == BlackHeight(t) + 1 + One(p.red);
    ZipKeeps(p.up, top);
  }

  lemma FarTurnLeft(p: Path, t: Shape)
    requires Deleting(p, t) && !Red(t) && p.InRight? && p.l.Bin? && !p.l.red && (Red(p.l.l) || Red(p.l.r))
    ensures var v := if Red(p.l.l) then p.l else RotL(p.l.(r := Black(p.l.r), red := true));
      && v.Bin?
      && var t' := Zip(p.up, Bin(Black(v.l), v.n, p.red, Bin(v.r, p.n, false, t)));
      Balanced(t') && NoRedRed(t')
  {
    var w := p.l;
    var v := if Red(w.l) then w else RotL(w.(r := Black(w.r), red := true));
    FarRedLeft(w);
    var top := Bin(Black(v.l), v.n, p.red, Bin(v.r, p.n, false, t));
    assert Balanced(top.r) && NoRedRed(top.r);
    assert BlackHeight(top) == BlackHeight(t) + 1 + One(p.red);
    ZipKeeps(p.up, top);
  }

  // After the rotation of the sibling its far child is red.
  lemma FarRedRight(w: Shape)
    requires w.Bin? && !w.red && Balanced(w) && NoRedRed(w) && (Red(w.l) || Red(w.r))
    ensures var v := if Red(w.r) then w else RotR(w.(l := Black(w.l), red := true));
      && v.Bin? && !v.red && Red(v.r) && Balanced(v.l) && NoRedRed(v.l) && Balanced(Black(v.r)) && NoRedRed(Black(v.r))
      && BlackHeight(v.l) == BlackHeight(w.r) && BlackHeight(Black(v.r)) == BlackHeight(w.r) + 1
  {
  }

  lemma FarRedLeft(w: Shape)
    requires w.Bin? && !w.red && Balanced(w) && NoRedRed(w) && (Red(w.l) || Red(w.r))
    ensures var v := if Red(w.l) then w else RotL(w.(r := Black(w.r), red := true));
      && v.Bin? && !v.red && Red(v.l) && Balanced(v.r) && NoRedRed(v.r) && Balanced(Black(v.l)) && NoRedRed(Black(v.l))
      && BlackHeight(v.r) == BlackHeight(w.l) && BlackHeight(Black(v.l)) == BlackHeight(w.l) + 1
  {
  }

  // The last statement of the loop paints the root of the hole's subtree black.
  lemma DeleteEnds(p: Path, t: Shape)
    requires Deleting(p, t) && DeleteDone(p, t)
    ensures RedBlack(Zip(p, Black(t)))
  {
    assert Balanced(Black(t)) && (Red(t) ==> BlackHeight(Black(t)) == BlackHeight(t) + 1);
    ZipRedBlack(p, Black(t));
  }

  lemma BlackOrder(t: Shape)
    ensures Inorder(Black(t)) == Inorder(t)
  {
  }

  lemma DeleteStepOrder(p: Path, t: Shape)
    requires !p.Top? && Sibling(p).Bin? && !Sibling(p).red
    ensures var (p', t') := DeleteStep(p, t); Inorder(Zip(p', t')) == Inorder(Zip(p, t))
  {
    var w := Sibling(p);
    match p
    case InLeft(up, q, red, _) =>
      GraftOrder(up, Bin(t, q, red, w), Bin(t, q, red, w.(red := true)));
      if Red(w.l) || Red(w.r) {
        var v := if Red(w.r) then w else RotR(w.(l := Black(w.l), red := true));
        if !Red(w.r) {
          RotRKeeps(w.(l := Black(w.l), red := true));
        }
        assert Inorder(v) == Inorder(w);
        var v' := v.(red := red, r := Black(v.r));
        assert Inorder(v') == Inorder(v);
        RotLKeeps(Bin(t, q, false, v'));
        GraftOrder(up, Bin(t, q, red, w), RotL(Bin(t, q, false, v')));
      }
    case InRight(up, _, q, red) =>
      GraftOrder(up, Bin(w, q, red, t), Bin(w.(red := true), q, red, t));
      if Red(w.l) || Red(w.r) {
        var v := if Red(w.l) then w else RotL(w.(r := Black(w.r), red := true));
        if !Red(w.l) {
          RotLKeeps(w.(r := Black(w.r), red := true));
        }
        assert Inorder(v) == Inorder(w);
        var v' := v.(red := red, l := Black(v.l));
        assert Inorder(v') == Inorder(v);
        RotRKeeps(Bin(v', q, false, t));
        GraftOrder(up, Bin(w, q, red, t), RotR(Bin(v', q, false, t)));
      }
  }

  lemma BlackSiblingOrder(p: Path, t: Shape)
    requires !p.Top? && Sibling(p).Bin?
    ensures Inorder(Zip(BlackSibling(p), t)) == Inorder(Zip(p, t))
  {
    match p
    case InLeft(up, q, red, w) =>
      RotLKeeps(Bin(t, q, true, w.(red := false)));
      GraftOrder(up, Bin(t, q, red, w), RotL(Bin(t, q, true, w.(red := false))));
    case InRight(up, w, q, red) =>
      RotRKeeps(Bin(w.(red := false), q, true, t));
      GraftOrder(up, Bin(w, q, red, t), RotR(Bin(w.(red := false), q, true, t)));
  }

  lemma BlackSiblingSpan(p: Path, t: Shape)
    requires !p.Top? && Sibling(p).Bin?
    ensures Span(BlackSibling(p), t) == Span(p, t)
  {
    BlackSiblingOrder(p, t);
    SameOrderSameNodes(Zip(p, t), Zip(BlackSibling(p), t));
    ZipNodes(p, t);
    ZipNodes(BlackSibling(p), t);
  }

  // A whole turn of the delete loop.
  lemma DeleteTurnKeeps(p: Path, t: Shape)
    requires Deleting(p, t) && !DeleteDone(p, t)
    ensures Sibling(p).Bin?
    ensures var q := BlackSibling(p); !q.Top? && Sibling(q).Bin? && !Sibling(q).red
    ensures var (p', t') := DeleteStep(BlackSibling(p), t);
      && Deleting(p', t') && Above(p') == Above(p) && t'.Bin? && DeleteMeasure(p', t') < DeleteMeasure(p, t)
      && Inorder(Zip(p', t')) == Inorder(Zip(p, t)) && Span(p', t') == Span(p, t)
  {
    BlackSiblingKeeps(p, t);
    BlackSiblingOrder(p, t);
    var q := BlackSibling(p);
    DeleteStepKeeps(q, t);
    DeleteStepOrder(q, t);
    var (p', t') := DeleteStep(q, t);
    DeleteStepBin(q, t);
    SameOrderSameNodes(Zip(p, t), Zip(p', t'));
    ZipNodes(p, t);
    ZipNodes(p', t');
  }

  lemma DeleteStepBin(p: Path, t: Shape)
    requires !p.Top? && Sibling(p).Bin? && !Sibling(p).red
    ensures DeleteStep(p, t).1.Bin?
  {
    var w := Sibling(p);
    match p
    case InLeft(up, q, red, _) =>
      if Red(w.l) || Red(w.r) {
        var v := if Red(w.r) then w else RotR(w.(l := Black(w.l), red := true));
        ZipBin(up, Bin(Bin(t, q, false, v.l), v.n, red, Black(v.r)));
      }
    case InRight(up, _, q, red) =>
      if Red(w.l) || Red(w.r) {
        var v := if Red(w.l) then w else RotL(w.(r := Black(w.r), red := true));
        ZipBin(up, Bin(Black(v.l), v.n, red, Bin(v.r, q, false, t)));
      }
  }
}
