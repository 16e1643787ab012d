// The insert repair loop of src/libconhash/util_rbtree.c as writes to the memory,
// whatever the memory holds.
module RbLoop {
  import opened TreeShape
  import opened RbColour
  import opened RbMemory
  import opened RbRepair

  // Case 1: parent and uncle become black, the grandparent red.
  ghost function RecolourWrites(s: Store, node: Ref, parent: Ref, uncle: Ref): Store
    requires {node, parent, uncle} <= s.m.Keys
  {
    Paint(Paint(Paint(s, uncle, false), parent, false), node, true)
  }

  // Case 3: parent black, grandparent red, and the grandparent is rotated down.
  ghost predicate SwingRReads(s: Store, parent: Ref) { parent in s.m && RotRReads(s, s.m[parent].parent) }

  ghost predicate SwingLReads(s: Store, parent: Ref) { parent in s.m && RotLReads(s, s.m[parent].parent) }

  ghost function SwingRWrites(s: Store, parent: Ref): Store
    requires SwingRReads(s, parent)
  {
    StoreRotR(Paint(Paint(s, parent, false), s.m[parent].parent, true), s.m[parent].parent)
  }

  ghost function SwingLWrites(s: Store, parent: Ref): Store
    requires SwingLReads(s, parent)
  {
    StoreRotL(Paint(Paint(s, parent, false), s.m[parent].parent, true), s.m[parent].parent)
  }

  // One turn when the parent is a left child. Case 2 rotates the parent first.
  ghost predicate TurnLeftReads(s: Store, node: Ref) {
    && node in s.m && s.m[node].parent in s.m
    && var parent := s.m[node].parent;
    && s.m[parent].parent in s.m && s.m[s.m[parent].parent].right in s.m
    && (!s.m[s.m[s.m[parent].parent].right].red ==>
          if node == s.m[parent].right
          then RotLReads(s, parent) && parent in StoreRotL(s, parent).m
               && SwingRReads(StoreRotL(s, parent), StoreRotL(s, parent).m[parent].parent)
          else SwingRReads(s, parent))
  }

  ghost function TurnLeft(s: Store, node: Ref): (Store, Ref)
    requires TurnLeftReads(s, node)
  {
    var parent := s.m[node].parent;
    var uncle := s.m[s.m[parent].parent].right;
    if s.m[uncle].red then (RecolourWrites(s, s.m[parent].parent, parent, uncle), s.m[parent].parent)
    else if node == s.m[parent].right then
      (SwingRWrites(StoreRotL(s, parent), StoreRotL(s, parent).m[parent].parent), parent)
    else (SwingRWrites(s, parent), node)
  }

  ghost predicate TurnRightReads(s: Store, node: Ref) {
    && node in s.m && s.m[node].parent in s.m
    && var parent := s.m[node].parent;
    && s.m[parent].parent in s.m && s.m[s.m[parent].parent].left in s.m
    && (!s.m[s.m[s.m[parent].parent].left].red ==>
          if s.m[parent].left == node
          then RotRReads(s, parent) && parent in StoreRotR(s, parent).m
               && SwingLReads(StoreRotR(s, parent), StoreRotR(s, parent).m[parent].parent)
          else SwingLReads(s, parent))
  }

  ghost function TurnRight(s: Store, node: Ref): (Store, Ref)
    requires TurnRightReads(s, node)
  {
    var parent := s.m[node].parent;
    var uncle := s.m[s.m[parent].parent].left;
    if s.m[uncle].red then (RecolourWrites(s, s.m[parent].parent, parent, uncle), s.m[parent].parent)
    else if s.m[parent].left == node then
      (SwingLWrites(StoreRotR(s, parent), StoreRotR(s, parent).m[parent].parent), parent)
    else (SwingLWrites(s, parent), node)
  }

  // The parent is the left child of the grandparent.
  ghost predicate OnTheLeft(s: Store, node: Ref) {
    && node in s.m && s.m[node].parent in s.m && s.m[s.m[node].parent].parent in s.m
    && s.m[node].parent == s.m[s.m[s.m[node].parent].parent].left
  }

  ghost predicate TurnReads(s: Store, node: Ref) {
    if OnTheLeft(s, node) then TurnLeftReads(s, node) else TurnRightReads(s, node)
  }

  ghost function Turn(s: Store, node: Ref): (Store, Ref)
    requires TurnReads(s, node)
  {
    if OnTheLeft(s, node) then TurnLeft(s, node) else TurnRight(s, node)
  }

  // The test of the loop.
  ghost predicate GoesOn(s: Store, node: Ref) {
    node in s.m && s.m[node].parent in s.m && s.m[s.m[node].parent].red
  }

  datatype Point = Point(s: Store, node: Ref)

  // One turn, as the loop takes it.
  ghost predicate Step(a: Point, b: Point) {
    GoesOn(a.s, a.node) && TurnReads(a.s, a.node) && Turn(a.s, a.node) == (b.s, b.node)
  }

  // The turns of the loop one after the other.
  ghost predicate Trace(points: seq<Point>) {
    points != [] && forall i :: 0 < i < |points| ==> Step(points[i - 1], points[i])
  }

  lemma TraceOn(points: seq<Point>, b: Point)
    requires Trace(points) && Step(points[|points| - 1], b)
    ensures Trace(points + [b])
  {
    var points' := points + [b];
    forall i | 0 < i < |points'| ensures Step(points'[i - 1], points'[i]) {
      if i < |points| {
        assert Step(points[i - 1], points[i]);
      }
    }
  }

  // The loop starts at `node`, ends, and the root is painted black.
  ghost predicate FixesUp(s: Store, node: Ref, s': Store) {
    exists points :: Trace(points) && points[0] == Point(s, node) && Painted(points[|points| - 1], s')
  }

  ghost predicate Painted(p: Point, s': Store) {
    !GoesOn(p.s, p.node) && p.s.root in p.s.m && s' == Paint(p.s, p.s.root, false)
  }

  // The deletion of a root with one child or none: the child becomes the root, and
  // its parent field is left as it is.
  ghost function DeleteRootWrites(s: Store, node: Ref, subst: Ref): Store
    requires {node, subst} <= s.m.Keys
  {
    var s1 := Paint(s.(root := subst), subst, false);
    s1.(m := s1.m[node := Cell(0, 0, 0, s1.m[node].red)])
  }

  // Where the parent field of a node leads: to the left or to the right child of the
  // grandparent, of which the node may be the inner child, or back to the node.
  datatype Spot = OnLeft(inner: bool) | OnRight(inner: bool) | Itself

  ghost predicate Turnable(g: Shape, spot: Spot) {
    && g.Bin?
    && match spot
       case OnLeft(inner) => g.l.Bin? && (inner ==> g.l.r.Bin?)
       case OnRight(inner) => g.r.Bin? && (inner ==> g.r.l.Bin?)
       case Itself => g.red && g.l.Bin? && !g.l.red && g.r.Bin?
  }

  ghost predicate RedUncle(g: Shape, spot: Spot)
    requires g.Bin?
  {
    match spot
    case OnLeft(_) => Red(g.r)
    case OnRight(_) => Red(g.l)
    case Itself => false
  }

  ghost function Recoloured(g: Shape): Shape
    requires g.Bin?
  {
    Bin(Black(g.l), g.n, true, Black(g.r))
  }

  // A turn at the grandparent `g`.
  ghost function Turned(g: Shape, spot: Spot): Shape
    requires Turnable(g, spot)
  {
    if RedUncle(g, spot) then Recoloured(g)
    else match spot
      case OnLeft(inner) => RotR(Bin(Black(if inner then RotL(g.l) else g.l), g.n, true, g.r))
      case OnRight(inner) => RotL(Bin(g.l, g.n, true, Black(if inner then RotR(g.r) else g.r)))
      case Itself => RotL(g)
  }

  ghost function NextNode(g: Shape, spot: Spot, node: Ref): Ref
    requires Turnable(g, spot)
  {
    if RedUncle(g, spot) then g.n
    else match spot
      case OnLeft(inner) => if inner then g.l.n else node
      case OnRight(inner) => if inner then g.r.n else node
      case Itself => node
  }

  ghost predicate Under(s: Store, g: Shape, spot: Spot, node: Ref) {
    && Turnable(g, spot) && node in s.m
    && match spot
       case OnLeft(inner) =>
         s.m[node].parent == g.l.n && g.l.n in s.m && (inner <==> node == s.m[g.l.n].right)
       case OnRight(inner) =>
         s.m[node].parent == g.r.n && g.r.n in s.m && (inner <==> node == s.m[g.r.n].left)
       case Itself => node == g.n && s.m[node].parent == node
  }

  // The place of the node, its parent and its grandparent.
  ghost function Grand(p: Path, t: Shape): Shape
    requires HasGrandparent(p)
  {
    var q := if p.InLeft? then Bin(t, p.n, p.red, p.r) else Bin(p.l, p.n, p.red, t);
    if p.up.InLeft? then Bin(q, p.up.n, p.up.red, p.up.r) else Bin(p.up.l, p.up.n, p.up.red, q)
  }

  ghost function SpotOf(p: Path): Spot
    requires HasGrandparent(p)
  {
    if p.up.InLeft? then OnLeft(p.InRight?) else OnRight(p.InLeft?)
  }

  lemma GrandPlace(s: Store, p: Path, t: Shape)
    requires At(s, p, t) && t.Bin? && HasGrandparent(p)
    ensures At(s, p.up.up, Grand(p, t)) && Span(p.up.up, Grand(p, t)) == Span(p, t)
    ensures Under(s, Grand(p, t), SpotOf(p), t.n)
  {
    GoUp(s, p, t);
    var q := if p.InLeft? then Bin(t, p.n, p.red, p.r) else Bin(p.l, p.n, p.red, t);
    GoUp(s, p.up, q);
    assert Span(p.up, q) == Span(p, t);
    assert Rep(s, q, p.up.n);
  }

  // The hole after the turn.
  lemma GrandTurned(s: Store, p: Path, t: Shape)
    requires HasGrandparent(p) && t.Bin? && Red(t) && p.red
    requires At(s, p.up.up, Turned(Grand(p, t), SpotOf(p)))
    ensures var (p', t') := InsertStep(p, t); At(s, p', t') && t'.Bin? && t'.n == NextNode(Grand(p, t), SpotOf(p), t.n)
  {
    var c := Turned(Grand(p, t), SpotOf(p));
    if !Red(Sibling(p.up)) {
      if p.up.InLeft? {
        DownLeft(s, p.up.up, c);
      } else {
        DownRight(s, p.up.up, c);
      }
    }
  }
}
