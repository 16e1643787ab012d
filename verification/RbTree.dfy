// The red-black tree of src/libconhash/util_rbtree.c: loops over parent links and
// a shared black sentinel.
module RbTree {
  import opened TreeShape
  import opened TreeOrder
  import opened RbColour
  import opened RbMemory
  import opened RbRepair
  import opened RbLoop
  import opened RbLate
  import opened RbUnlink

  const NULL: Ref := 0
  const UINT_RANGE := 0x1_0000_0000

  // `t` is in the memory and ordered by key.
  ghost predicate OrderedTree(s: Store, key: map<Ref, int>, above: Ref, t: Shape) {
    At(s, Top(above), t) && Sorted(key, Inorder(t)) && NULL !in s.m && s.nil != NULL
  }

  // It is red-black as well.
  ghost predicate SearchTree(s: Store, key: map<Ref, int>, above: Ref, t: Shape) {
    OrderedTree(s, key, above, t) && RedBlack(t)
  }

  // How the repair loop of an insertion stands: it rises to the root; it rises once more
  // from below, after a turn at the root; or it is about to end, with a right tree or not.
  datatype Stage = Rising | Again | Over(right: bool)

  ghost function Ahead(stage: Stage): nat {
    match stage
    case Rising => 2
    case Again => 1
    case Over(_) => 0
  }

  lemma FreshKey(key: map<Ref, int>, s: seq<Ref>, node: Ref, k: int)
    requires Sorted(key, s) && node !in s
    ensures Sorted(key[node := k], s)
  {
  }

  class Tree {
    var root: Ref
    var size: int
    const nil: Ref

    // The memory of the nodes: link fields and colour, and the key.
    var mem: map<Ref, Cell>
    var key: map<Ref, int>

    // The shape of the tree, and what the parent field of its root holds.
    ghost var t: Shape
    ghost var above: Ref

    ghost function S(): Store
      reads this
    {
      Store(mem, root, nil)
    }

    // All links, the order of the keys and the count are right.
    ghost predicate Linked()
      reads this
    {
      OrderedTree(S(), key, above, t) && size == |Inorder(t)| % UINT_RANGE
    }

    // The tree is right, but the parent field of the root may lead anywhere.
    ghost predicate Sound()
      reads this
    {
      Linked() && RedBlack(t)
    }

    // It is ready for any insertion: that field leads to a black cell outside.
    ghost predicate Valid()
      reads this
    {
      Sound() && Outer(S(), above, t)
    }

    constructor (sentinel: Ref)
      requires sentinel != NULL
      ensures Valid() && t == Leaf && nil == sentinel && mem.Keys == {sentinel}
    {
      nil, root, size := sentinel, sentinel, 0;
      mem := map[sentinel := Cell(NULL, NULL, NULL, false)];
      key := map[];
      t, above := Leaf, sentinel;
    }

    // The parent field of the root leads into the tree, to `node`, or to a black cell.
    ghost predicate Ready(node: Ref)
      reads this
    {
      root == nil || above in Nodes(t) || above == node || BlackCell(S(), above)
    }

    // A node comes from outside: its memory, which may hold anything, and its key.
    method NewNode(node: Ref, k: int, cell: Cell)
      requires Sound() && node != NULL && node != nil && node !in Nodes(t)
      modifies this`mem, this`key, this`above
      ensures Sound() && key == old(key)[node := k] && mem == old(mem)[node := cell]
      ensures root != nil ==> above == old(above)
      ensures old(Valid()) && !old(LeadsTo(node)) ==> Valid()
      ensures old(Ready(node)) ==> Ready(node)
    {
      FreshAt(S(), Store(mem[node := cell], root, nil), Top(above), t, node, cell);
      InorderNodes(t, node);
      FreshKey(key, Inorder(t), node, k);
      RootParent();
      mem := mem[node := cell];
      key := key[node := k];
      if root == nil {
        above := nil;
      }
    }

    method LeftRotate(node: Ref, ghost p: Path, ghost t: Shape)
      requires At(S(), p, t) && t.Bin? && t.r.Bin? && node == t.n
      modifies this`root, this`mem
      ensures At(S(), p, RotL(t)) && Within(old(S()), S(), Span(p, t))
      ensures RotLReads(old(S()), node) && S() == StoreRotL(old(S()), node)
    {
      RotLAt(S(), p, t);
      var rc := mem[node].right;
      var rclc := mem[rc].left;
      mem := mem[rc := mem[rc].(parent := mem[node].parent)];
      if node == root {
        root := rc;
      } else if mem[mem[node].parent].left == node {
        mem := mem[mem[node].parent := mem[mem[node].parent].(left := rc)];
      } else {
        mem := mem[mem[node].parent := mem[mem[node].parent].(right := rc)];
      }
      mem := mem[node := mem[node].(parent := rc)];
      mem := mem[rc := mem[rc].(left := node)];
      mem := mem[node := mem[node].(right := rclc)];
      if rclc != nil {
        mem := mem[rclc := mem[rclc].(parent := node)];
      }
      assert S() == old(StoreRotL(S(), node));
    }

    method RightRotate(node: Ref, ghost p: Path, ghost t: Shape)
      requires At(S(), p, t) && t.Bin? && t.l.Bin? && node == t.n
      modifies this`root, this`mem
      ensures At(S(), p, RotR(t)) && Within(old(S()), S(), Span(p, t))
      ensures RotRReads(old(S()), node) && S() == StoreRotR(old(S()), node)
    {
      RotRAt(S(), p, t);
      var lc := mem[node].left;
      var lcrc := mem[lc].right;
      mem := mem[lc := mem[lc].(parent := mem[node].parent)];
      if node == root {
        root := lc;
      } else if mem[mem[node].parent].left == node {
        mem := mem[mem[node].parent := mem[mem[node].parent].(left := lc)];
      } else {
        mem := mem[mem[node].parent := mem[mem[node].parent].(right := lc)];
      }
      mem := mem[lc := mem[lc].(right := node)];
      mem := mem[node := mem[node].(parent := lc)];
      mem := mem[node := mem[node].(left := lcrc)];
      if lcrc != nil {
        mem := mem[lcrc := mem[lcrc].(parent := node)];
      }
      assert S() == old(StoreRotR(S(), node));
    }

    // Case 1 of the loop: parent and uncle are red.
    method Recolour(node: Ref, parent: Ref, u: Ref, ghost p: Path, ghost t: Shape)
      requires At(S(), p, t) && t.Bin? && t.l.Bin? && t.r.Bin? && node == t.n
      requires (parent == t.l.n && u == t.r.n) || (parent == t.r.n && u == t.l.n)
      modifies this`mem
      ensures At(S(), p, Bin(Black(t.l), t.n, true, Black(t.r))) && Within(old(S()), S(), Span(p, t))
      ensures {node, parent, u} <= old(S()).m.Keys && S() == RecolourWrites(old(S()), node, parent, u)
    {
      if u == t.r.n {
        PaintRightAt(S(), p, t, false);
        PaintLeftAt(Paint(S(), u, false), p, t.(r := Black(t.r)), false);
      } else {
        PaintLeftAt(S(), p, t, false);
        PaintRightAt(Paint(S(), u, false), p, t.(l := Black(t.l)), false);
      }
      PaintAt(Paint(Paint(S(), u, false), parent, false), p, Bin(Black(t.l), t.n, t.red, Black(t.r)), true);
      mem := mem[u := mem[u].(red := false)];
      mem := mem[parent := mem[parent].(red := false)];
      mem := mem[node := mem[node].(red := true)];
    }

    lemma LeftChildCells(s: Store, up: Path, t: Shape)
      requires At(s, up, t) && t.Bin? && t.l.Bin?
      ensures t.l.n in s.m && s.m[t.l.n].parent == t.n && t.n in s.m && t.l.n != t.n
    {
      assert Rep(s, t.l, t.n);
    }

    // Case 2: the red child `t.l.r` of the left child `t.l` of the grandparent is
    // rotated up.
    method LineUpLeft(node: Ref, ghost up: Path, ghost t: Shape)
      requires At(S(), up, t) && t.Bin? && t.l.Bin? && t.l.r.Bin? && node == t.l.n
      modifies this`root, this`mem
      ensures At(S(), up, t.(l := RotL(t.l))) && Within(old(S()), S(), Span(up, t))
      ensures node in mem && mem[node].parent == t.l.r.n
      ensures RotLReads(old(S()), node) && S() == StoreRotL(old(S()), node)
    {
      DownLeft(S(), up, t);
      LeftRotate(node, InLeft(up, t.n, t.red, t.r), t.l);
      GoUp(S(), InLeft(up, t.n, t.red, t.r), RotL(t.l));
      assert Rep(S(), RotL(t.l), t.n) && Rep(S(), RotL(t.l).l, t.l.r.n);
    }

    method LineUpRight(node: Ref, ghost up: Path, ghost t: Shape)
      requires At(S(), up, t) && t.Bin? && t.r.Bin? && t.r.l.Bin? && node == t.r.n
      modifies this`root, this`mem
      ensures At(S(), up, t.(r := RotR(t.r))) && Within(old(S()), S(), Span(up, t))
      ensures node in mem && mem[node].parent == t.r.l.n
      ensures RotRReads(old(S()), node) && S() == StoreRotR(old(S()), node)
    {
      DownRight(S(), up, t);
      RightRotate(node, InRight(up, t.l, t.n, t.red), t.r);
      GoUp(S(), InRight(up, t.l, t.n, t.red), RotR(t.r));
      assert Rep(S(), RotR(t.r), t.n) && Rep(S(), RotR(t.r).r, t.r.l.n);
    }

    // Case 3: parent black, grandparent red, and the grandparent is rotated down.
    method SwingRight(parent: Ref, ghost up: Path, ghost t: Shape)
      requires At(S(), up, t) && t.Bin? && t.l.Bin? && parent == t.l.n
      modifies this`root, this`mem
      ensures At(S(), up, RotR(Bin(Black(t.l), t.n, true, t.r))) && Within(old(S()), S(), Span(up, t))
      ensures SwingRReads(old(S()), parent) && S() == SwingRWrites(old(S()), parent)
    {
      LeftChildCells(S(), up, t);
      PaintLeftAt(S(), up, t, false);
      PaintAt(Paint(S(), parent, false), up, t.(l := Black(t.l)), true);
      mem := mem[parent := mem[parent].(red := false)];
      mem := mem[mem[parent].parent := mem[mem[parent].parent].(red := true)];
      RightRotate(mem[parent].parent, up, Bin(Black(t.l), t.n, true, t.r));
    }

    lemma RightChildCells(s: Store, up: Path, t: Shape)
      requires At(s, up, t) && t.Bin? && t.r.Bin?
      ensures t.r.n in s.m && s.m[t.r.n].parent == t.n && t.n in s.m && t.r.n != t.n
    {
      assert Rep(s, t.r, t.n);
    }

    // The parent may also be the red node `t` itself, if its parent field leads to it.
    method SwingLeft(parent: Ref, ghost up: Path, ghost t: Shape)
      requires At(S(), up, t) && t.Bin? && t.r.Bin?
      requires parent == t.r.n || (parent == t.n && t.red && parent in mem && mem[parent].parent == parent)
      modifies this`root, this`mem
      ensures At(S(), up, RotL(if parent == t.n then t else Bin(t.l, t.n, true, Black(t.r))))
      ensures SwingLReads(old(S()), parent) && S() == SwingLWrites(old(S()), parent)
      ensures Within(old(S()), S(), Span(up, t))
    {
      RightChildCells(S(), up, t);
      ghost var c := if parent == t.n then t else Bin(t.l, t.n, true, Black(t.r));
      SwingPaints(S(), up, t, parent);
      mem := mem[parent := mem[parent].(red := false)];
      mem := mem[mem[parent].parent := mem[mem[parent].parent].(red := true)];
      LeftRotate(mem[parent].parent, up, c);
    }

    lemma SwingPaints(s: Store, up: Path, t: Shape, parent: Ref)
      requires At(s, up, t) && t.Bin? && t.r.Bin?
      requires parent == t.r.n || (parent == t.n && t.red && parent in s.m && s.m[parent].parent == parent)
      ensures parent in s.m && s.m[parent].parent == t.n && t.n in s.m
      ensures var s' := Paint(Paint(s, parent, false), t.n, true);
        && At(s', up, if parent == t.n then t else Bin(t.l, t.n, true, Black(t.r)))
        && Within(s, s', Span(up, t))
    {
      RightChildCells(s, up, t);
      if parent == t.n {
        assert Paint(Paint(s, parent, false), t.n, true).m == s.m;
      } else {
        PaintRightAt(s, up, t, false);
        PaintAt(Paint(s, parent, false), up, t.(r := Black(t.r)), true);
      }
    }

    // The cells of the grandparent `g` and its children.
    lemma GrandCells(s: Store, up: Path, g: Shape)
      requires At(s, up, g) && g.Bin?
      ensures g.n in s.m && s.m[g.n].left == Root(s, g.l) && s.m[g.n].right == Root(s, g.r)
      ensures Root(s, g.l) in s.m && s.m[Root(s, g.l)].red == Red(g.l)
      ensures Root(s, g.r) in s.m && s.m[Root(s, g.r)].red == Red(g.r)
      ensures g.l.Bin? ==> s.m[g.l.n].parent == g.n && s.m[g.l.n].right == Root(s, g.l.r) && g.l.n != Root(s, g.r)
      ensures g.r.Bin? ==> s.m[g.r.n].parent == g.n && s.m[g.r.n].left == Root(s, g.r.l) && g.r.n != Root(s, g.l)
    {
      HeadsApart(s, g);
      assert Rep(s, g.l, g.n) && Rep(s, g.r, g.n);
    }

    // One turn of the loop when the parent is the left child of the grandparent.
    method InsertTurnLeft(node: Ref, ghost up: Path, ghost g: Shape, ghost spot: Spot) returns (next: Ref)
      requires At(S(), up, g) && Under(S(), g, spot, node) && spot.OnLeft?
      modifies this`root, this`mem
      ensures At(S(), up, Turned(g, spot)) && next == NextNode(g, spot, node)
      ensures TurnLeftReads(old(S()), node) && TurnLeft(old(S()), node) == (S(), next)
      ensures Within(old(S()), S(), Span(up, g))
    {
      GrandCells(S(), up, g);
      ghost var c := g;
      next := node;
      var parent := mem[node].parent;
      var uncle := mem[mem[parent].parent].right;
      if mem[uncle].red {
        next := mem[parent].parent;
        Recolour(next, parent, uncle, up, c);
      } else {
        if node == mem[parent].right {
          next := parent;
          LineUpLeft(next, up, c);
          c := c.(l := RotL(c.l));
          parent := mem[next].parent;
          assert Span(up, c) == Span(up, g) by { RotLKeeps(g.l); }
        }
        assert Turned(g, spot) == RotR(Bin(Black(c.l), c.n, true, c.r));
        SwingRight(parent, up, c);
      }
    }

    method InsertTurnRight(node: Ref, ghost up: Path, ghost g: Shape, ghost spot: Spot) returns (next: Ref)
      requires At(S(), up, g) && Under(S(), g, spot, node) && !spot.OnLeft?
      modifies this`root, this`mem
      ensures At(S(), up, Turned(g, spot)) && next == NextNode(g, spot, node)
      ensures TurnRightReads(old(S()), node) && TurnRight(old(S()), node) == (S(), next)
      ensures Within(old(S()), S(), Span(up, g))
    {
      GrandCells(S(), up, g);
      ghost var c := g;
      next := node;
      var parent := mem[node].parent;
      var uncle := mem[mem[parent].parent].left;
      if mem[uncle].red {
        next := mem[parent].parent;
        Recolour(next, parent, uncle, up, c);
      } else {
        if mem[parent].left == node {
          next := parent;
          LineUpRight(next, up, c);
          c := c.(r := RotR(c.r));
          parent := mem[next].parent;
          assert Span(up, c) == Span(up, g) by { RotRKeeps(g.r); }
        }
        assert Turned(g, spot) == RotL(if parent == c.n then c else Bin(c.l, c.n, true, Black(c.r)));
        SwingLeft(parent, up, c);
      }
    }

    // The body of the loop.
    method InsertTurn(node: Ref, ghost up: Path, ghost g: Shape, ghost spot: Spot) returns (next: Ref)
      requires At(S(), up, g) && Under(S(), g, spot, node)
      modifies this`root, this`mem
      ensures At(S(), up, Turned(g, spot)) && next == NextNode(g, spot, node)
      ensures old(GoesOn(S(), node)) ==> Step(Point(old(S()), node), Point(S(), next))
      ensures Within(old(S()), S(), Span(up, g))
    {
      GrandCells(S(), up, g);
      var parent := mem[node].parent;
      if parent == mem[mem[parent].parent].left {
        next := InsertTurnLeft(node, up, g, spot);
      } else {
        next := InsertTurnRight(node, up, g, spot);
      }
    }

    // The parent field of the root leads into the tree or to a black cell.
    ghost predicate Known(p: Path, t: Shape)
      reads this
    {
      Above(p) in Span(p, t) || BlackCell(S(), Above(p))
    }

    // What is known between two turns.
    ghost predicate Turning(n: Ref, p: Path, t: Shape, stage: Stage)
      reads this
    {
      && At(S(), p, t) && t.Bin? && n == t.n && Known(p, t)
      && match stage
         case Rising => Inserting(p, t) && (p.Top? ==> Crowned(t) || BlackCell(S(), Above(p)))
         case Again => Late(p, t)
         case Over(right) =>
           !GoesOn(S(), n) && if right then RedBlack(Black(Zip(p, t))) else !Balanced(Zip(p, t))
    }

    // The loop will not take a turn at a root that is its own parent, and has not done so.
    ghost predicate Right(p: Path, t: Shape, stage: Stage) {
      match stage
      case Rising => !(RedUncles(p) && OwnRoot(p, t))
      case Again => true
      case Over(right) => right
    }

    // The parent of the node in the hole, and its colour.
    lemma ParentCell(p: Path, t: Shape)
      requires At(S(), p, t) && t.Bin? && Known(p, t)
      ensures t.n in mem && mem[t.n].parent == Up(p) && Up(p) in mem
      ensures !p.Top? ==> mem[Up(p)].red == WantsBlack(p)
    {
      if p.Top? {
        RepNodes(S(), t, Up(p));
      }
    }

    // Where the turn happens.
    ghost predicate TurnAt(p: Path, t: Shape, stage: Stage, up: Path, g: Shape, spot: Spot) {
      && t.Bin? && Turnable(g, spot)
      && if p.Top? then
           && stage.Rising? && Inserting(p, t) && Crowned(t)
           && if Above(p) == t.n then (up, g, spot) == (p, t, Itself)
              else
                && Zip(up, g) == t && Above(up) == Above(p) && !up.Top? && spot in {OnLeft(false), OnRight(false)}
                && var c := if spot.OnLeft? then g.l else g.r; Red(c) && c.n == Above(p)
         else
           && HasGrandparent(p) && WantsBlack(p) && (up, g, spot) == (p.up.up, Grand(p, t), SpotOf(p))
           && match stage
              case Rising => Inserting(p, t)
              case Again => Late(p, t)
              case Over(_) => false
    }

    lemma TurnPlace(p: Path, t: Shape, stage: Stage) returns (up: Path, g: Shape, spot: Spot)
      requires t.Bin? && Turning(t.n, p, t, stage) && GoesOn(S(), t.n)
      ensures TurnAt(p, t, stage, up, g, spot)
      ensures At(S(), up, g) && Under(S(), g, spot, t.n) && Span(up, g) == Span(p, t)
    {
      ParentCell(p, t);
      if p.Top? {
        if Above(p) == t.n {
          up, g, spot := p, t, Itself;
        } else {
          up, g, spot := LatePlace(S(), t, Above(p));
        }
      } else {
        if stage.Rising? {
          InsertStepKeeps(p, t);
        }
        GrandPlace(S(), p, t);
        up, g, spot := p.up.up, Grand(p, t), SpotOf(p);
      }
    }

    // What a turn leads to.
    ghost predicate Next(p: Path, t: Shape, stage: Stage, p': Path, t': Shape, stage': Stage) {
      && Inorder(Zip(p', t')) == Inorder(Zip(p, t)) && Span(p', t') == Span(p, t) && Above(p') == Above(p)
      && (Right(p', t', stage') <==> Right(p, t, stage))
      && (Ahead(stage') < Ahead(stage) || (Ahead(stage') == Ahead(stage) && Depth(p') < Depth(p)))
    }

    // On the way up, and on the way up again below the root.
    lemma StepDone(n: Ref, p: Path, t: Shape, stage: Stage, up: Path, g: Shape, spot: Spot)
      requires TurnAt(p, t, stage, up, g, spot) && At(S(), up, Turned(g, spot)) && n == NextNode(g, spot, t.n)
      requires Known(p, t) && !p.Top?
      ensures var (p', t') := InsertStep(p, t); Turning(n, p', t', stage) && Next(p, t, stage, p', t', stage)
    {
      InsertStepOrder(p, t);
      InsertStepSpan(p, t);
      GrandTurned(S(), p, t);
      if stage.Rising? {
        InsertStepKeeps(p, t);
        InsertStepRises(p, t);
      } else {
        LateStepKeeps(p, t);
      }
    }

    // At a root that is its own parent.
    lemma OwnDone(n: Ref, p: Path, t: Shape)
      requires TurnAt(p, t, Rising, p, t, Itself) && At(S(), p, Turned(t, Itself)) && n == t.n && p == Top(t.n)
      requires Known(p, t)
      ensures var c := Turned(t, Itself); var p', t' := InLeft(p, c.n, c.red, c.r), c.l;
        Turning(n, p', t', Over(false)) && Next(p, t, Rising, p', t', Over(false))
    {
      var c := Turned(t, Itself);
      DownLeft(S(), p, c);
      RotLKeeps(t);
      assert Zip(p, c) == c;
      assert Span(InLeft(p, c.n, c.red, c.r), c.l) == Nodes(c);
    }

    // At a red child to which the parent field of the root leads.
    lemma ChildDone(n: Ref, p: Path, t: Shape, up: Path, g: Shape, spot: Spot)
      returns (p': Path, t': Shape, stage': Stage)
      requires TurnAt(p, t, Rising, up, g, spot) && At(S(), up, Turned(g, spot)) && n == NextNode(g, spot, t.n)
      requires p.Top? && Above(p) != t.n && Known(p, t)
      ensures Turning(n, p', t', stage') && Next(p, t, Rising, p', t', stage')
    {
      InsertEnds(p, t);
      LateStart(up, g, spot);
      var c := Turned(g, spot);
      SameOrderSameNodes(t, Zip(up, c));
      ZipNodes(up, c);
      if RedUncle(g, spot) {
        p', t', stage' := up, c, Again;
      } else {
        p', t', stage' := p, Zip(up, c), Over(true);
        GoTop(S(), up, c);
        SameHead(up, g, c);
        assert Rep(S(), c, Up(up)) && Rep(S(), t', Above(p));
      }
    }

    // One turn, and the hole it leads to.
    method FixupTurn(node: Ref, ghost p: Path, ghost t: Shape, ghost stage: Stage)
      returns (next: Ref, ghost p': Path, ghost t': Shape, ghost stage': Stage)
      requires Turning(node, p, t, stage) && GoesOn(S(), node)
      modifies this`root, this`mem
      ensures Turning(next, p', t', stage') && Next(p, t, stage, p', t', stage')
      ensures Step(Point(old(S()), node), Point(S(), next)) && Within(old(S()), S(), Span(p, t))
    {
      ghost var up, g, spot := TurnPlace(p, t, stage);
      next := InsertTurn(node, up, g, spot);
      if !p.Top? {
        p', t', stage' := InsertStep(p, t).0, InsertStep(p, t).1, stage;
        StepDone(next, p, t, stage, up, g, spot);
      } else if spot.Itself? {
        ghost var c := Turned(t, Itself);
        p', t', stage' := InLeft(p, c.n, c.red, c.r), c.l, Over(false);
        OwnDone(next, p, t);
      } else {
        p', t', stage' := ChildDone(next, p, t, up, g, spot);
      }
    }

    // Behind the loop the root is painted black.
    lemma FixupEnds(n: Ref, p: Path, t: Shape, stage: Stage)
      requires Turning(n, p, t, stage) && !GoesOn(S(), n)
      ensures RedBlack(Black(Zip(p, t))) <==> Right(p, t, stage)
    {
      ParentCell(p, t);
      match stage
      case Rising =>
        InsertEnds(p, t);
        assert Rep(S(), t, Up(p));
      case Again => LateEnds(p, t);
      case Over(_) =>
    }

    // Restores the red-black properties after the red node `node` is linked in. This fails
    // just when the root is its own parent and the recolouring comes up to it.
    method InsertFixup(node: Ref, ghost p: Path, ghost t: Shape) returns (ghost t': Shape)
      requires At(S(), p, t) && t.Bin? && node == t.n && Inserting(p, t) && Known(p, t)
      requires p.Top? ==> BlackCell(S(), Above(p))
      modifies this`root, this`mem
      ensures At(S(), Top(Above(p)), t') && Inorder(t') == Inorder(Zip(p, t))
      ensures RedBlack(t') <==> !(RedUncles(p) && OwnRoot(p, t))
      ensures FixesUp(old(S()), node, S()) && Within(old(S()), S(), Span(p, t))
    {
      var n := node;
      ghost var q, c, stage, points := p, t, Rising, [Point(S(), node)];
      ParentCell(q, c);
      while mem[mem[n].parent].red
        invariant Turning(n, q, c, stage) && n in mem && mem[n].parent in mem
        invariant Above(q) == Above(p) && Inorder(Zip(q, c)) == Inorder(Zip(p, t)) && Span(q, c) == Span(p, t)
        invariant Right(q, c, stage) <==> Right(p, t, Rising)
        invariant Within(old(S()), S(), Span(p, t))
        invariant Trace(points) && points[0] == Point(old(S()), node) && points[|points| - 1] == Point(S(), n)
        decreases Ahead(stage), Depth(q)
      {
        n, q, c, stage := FixupTurn(n, q, c, stage);
        ParentCell(q, c);
        TraceOn(points, Point(S(), n));
        points := points + [Point(S(), n)];
      }
      ghost var last := points[|points| - 1];
      FixupEnds(n, q, c, stage);
      t' := PaintRoot(q, c);
      assert Painted(last, S());
    }

    // The root becomes black.
    method PaintRoot(ghost p: Path, ghost t: Shape) returns (ghost t': Shape)
      requires At(S(), p, t) && t.Bin?
      modifies this`mem
      ensures At(S(), Top(Above(p)), t') && t' == Black(Zip(p, t)) && Inorder(t') == Inorder(Zip(p, t))
      ensures root in old(mem) && S() == Paint(old(S()), root, false) && Within(old(S()), S(), Span(p, t))
    {
      GoTop(S(), p, t);
      ZipNodes(p, t);
      ghost var whole := Zip(p, t);
      ZipBin(p, t);
      PaintAt(S(), Top(Above(p)), whole, false);
      mem := mem[root := mem[root].(red := false)];
      t' := Black(whole);
    }

    // The last node on the way down; the new node becomes its child.
    method FindParent(node: Ref) returns (y: Ref, ghost p: Path)
      requires Sound() && root != nil && node in key
      ensures At(S(), p, Leaf) && !p.Top? && y == Up(p) && Zip(p, Leaf) == t && Above(p) == above
      ensures Between(key, p, key[node]) && y in key && (p.InLeft? <==> key[node] < key[y])
      ensures p == Descent(key, Top(above), t, key[node])
    {
      var x := root;
      y := root;
      ghost var c := t;
      p := Top(above);
      while x != nil
        invariant At(S(), p, c) && Zip(p, c) == t && Above(p) == above && x == Root(S(), c)
        invariant if p.Top? then c == t else y == Up(p) && y in key && (p.InLeft? <==> key[node] < key[y])
        invariant Between(key, p, key[node])
        invariant Descent(key, p, c, key[node]) == Descent(key, Top(above), t, key[node])
        decreases c
      {
        y := x;
        BetweenDown(key, p, c, key[node]);
        if key[node] < key[x] {
          DownLeft(S(), p, c);
          x := mem[x].left;
          p, c := InLeft(p, c.n, c.red, c.r), c.l;
        } else {
          DownRight(S(), p, c);
          x := mem[x].right;
          p, c := InRight(p, c.l, c.n, c.red), c.r;
        }
      }
    }

    // The writes that link in `node` as a red leaf.
    method LinkIn(node: Ref) returns (ghost p: Path)
      requires Sound() && node in mem && node in key && node != nil && node !in Nodes(t)
      modifies this`root, this`mem
      ensures p == Descent(key, Top(above), t, key[node])
      ensures At(S(), Settled(p, nil), Bin(Leaf, node, true, Leaf)) && Zip(p, Leaf) == t
      ensures Between(key, p, key[node]) && (t.Bin? ==> Above(p) == above)
      ensures At(old(S()), p, Leaf) && (!p.Top? ==> Up(p) in old(mem)) && S() == Attach(old(S()), p, node)
      ensures Within(old(S()), S(), PathNodes(p) + {node})
    {
      p := Top(above);
      if root == nil {
        AttachAt(S(), p, node);
        root := node;
        mem := mem[node := mem[node].(parent := nil)];
      } else {
        var y;
        y, p := FindParent(node);
        ZipNodes(p, Leaf);
        AttachAt(S(), p, node);
        mem := mem[node := mem[node].(parent := y)];
        if key[node] < key[y] {
          mem := mem[y := mem[y].(left := node)];
        } else {
          mem := mem[y := mem[y].(right := node)];
        }
      }
      mem := mem[node := mem[node].(left := nil)];
      mem := mem[node := mem[node].(right := nil)];
      mem := mem[node := mem[node].(red := true)];
    }

    lemma LeafPlace(p: Path, node: Ref)
      requires RedBlack(t) && Sorted(key, Inorder(t)) && Zip(p, Leaf) == t && node in key && Between(key, p, key[node])
      ensures var q, c := Settled(p, nil), Bin(Leaf, node, true, Leaf);
        && Inserting(q, c) && Span(q, c) == Nodes(t) + {node} && PathNodes(p) == Nodes(t)
        && Inorder(Zip(q, c)) == Insertion(key, Inorder(t), node) && Sorted(key, Inorder(Zip(q, c)))
      ensures |Insertion(key, Inorder(t), node)| == |Inorder(t)| + 1
    {
      var q, c := Settled(p, nil), Bin(Leaf, node, true, Leaf);
      InsertionSorted(key, p, node, true);
      InsertionSize(key, Inorder(t), node);
      ZipNodes(p, Leaf);
      PlaceForRed(p, node);
      assert p.Top? ==> Zip(q, c) == c && Zip(p, c) == c;
      assert Nodes(c) == {node};
    }

    // The parent field of the root leads to `node`.
    predicate LeadsTo(node: Ref)
      reads this
    {
      root != nil && root in mem && mem[root].parent == node
    }

    lemma RootParent()
      requires Linked()
      ensures root != nil <==> Inorder(t) != []
      ensures root != nil ==> root in mem && mem[root].parent == above
    {
    }

    // The root is its own parent, and the recolouring after `node` is linked in comes up to it.
    ghost predicate Overturns(node: Ref)
      requires node in key
      reads this
    {
      LeadsTo(root) && RedUncles(Descent(key, Top(above), t, key[node]))
    }

    // Links in `node` behind all nodes whose key is not greater. Order, links and count are
    // right afterwards wherever the parent field of the root leads in the tree, and the tree
    // is red-black just when it does not lead to the root or the recolouring stops below it.
    // It leads out of the tree again just when it did and did not lead to `node`.
    method Insert(node: Ref)
      requires Sound()
      requires node != NULL && node != nil ==> node in mem && node in key && node !in Nodes(t) && Ready(node)
      modifies this`root, this`size, this`mem, this`t, this`above
      ensures node == NULL || node == nil ==>
        Sound() && S() == old(S()) && t == old(t) && size == old(size) && above == old(above)
      ensures node != NULL && node != nil ==>
        && Linked() && Inorder(t) == Insertion(key, old(Inorder(t)), node)
        && (Sound() <==> !old(Overturns(node)))
        && (Valid() <==> (old(root) == nil || old(Valid())) && !old(LeadsTo(node)))
      ensures node != NULL && node != nil ==>
        && root != nil && root in mem && (old(root) != nil ==> mem[root].parent == old(mem[root].parent))
        && (mem[root].parent in Nodes(t) <==> old(root) != nil && (old(LeadsTo(node)) || old(above in Nodes(t))))
      ensures old(Valid()) ==> Sound()
      ensures Within(old(S()), S(), old(Nodes(t)) + {node})
    {
      RootParent();
      if node != NULL && node != nil {
        InsertionSize(key, Inorder(t), node);
        InsertNode(node);
        RootParent();
      }
    }

    method InsertNode(node: Ref)
      requires Sound() && node != NULL && node != nil && node in mem && node in key && node !in Nodes(t) && Ready(node)
      modifies this`root, this`size, this`mem, this`t, this`above
      ensures Linked() && Inorder(t) == Insertion(key, old(Inorder(t)), node)
      ensures above == if old(root) == nil then nil else old(above)
      ensures above in Nodes(t) <==> old(root) != nil && (old(LeadsTo(node)) || old(above in Nodes(t)))
      ensures Sound() <==> !old(Overturns(node))
      ensures Valid() <==> (old(root) == nil || old(Valid())) && !old(LeadsTo(node))
      ensures Within(old(S()), S(), old(Nodes(t)) + {node})
    {
      RootParent();
      InsertionSize(key, Inorder(t), node);
      WrapIncrement(|Inorder(t)|);
      ghost var before := t;
      t, above := InsertLinks(node);
      size := (size + 1) % UINT_RANGE;
      InsertionHas(before, node, above);
    }

    lemma InsertionHas(before: Shape, node: Ref, n: Ref)
      requires Sorted(key, Inorder(before)) && node in key && Inorder(t) == Insertion(key, Inorder(before), node)
      ensures n in Nodes(t) <==> n in Nodes(before) || n == node
    {
      InorderNodes(t, n);
      InorderNodes(before, n);
      InsertionMembers(key, Inorder(before), node, n);
    }

    // Before the repair: the new red leaf in its place.
    method NewLeaf(node: Ref) returns (ghost q: Path)
      requires Sound() && node != nil && node in mem && node in key && node !in Nodes(t)
      modifies this`root, this`mem
      ensures var c := Bin(Leaf, node, true, Leaf);
        && At(S(), q, c) && Inserting(q, c) && Span(q, c) == Nodes(t) + {node}
        && Inorder(Zip(q, c)) == Insertion(key, Inorder(t), node) && Sorted(key, Inorder(Zip(q, c)))
      ensures q == if old(root) == nil then Top(nil) else Descent(key, Top(above), t, key[node])
      ensures Above(q) == (if old(root) == nil then nil else above) && (old(root) != nil ==> !q.Top?)
      ensures OwnRoot(q, Bin(Leaf, node, true, Leaf)) <==> old(LeadsTo(root))
      ensures Within(old(S()), S(), Nodes(t) + {node})
    {
      RootParent();
      ghost var p := LinkIn(node);
      q := Settled(p, nil);
      LeafPlace(p, node);
      if !p.Top? {
        SameHead(p, Leaf, Bin(Leaf, node, true, Leaf));
      }
    }

    method InsertLinks(node: Ref) returns (ghost t': Shape, ghost above': Ref)
      requires Sound() && node != NULL && node != nil && node in mem && node in key && node !in Nodes(t) && Ready(node)
      modifies this`root, this`mem
      ensures OrderedTree(S(), key, above', t') && Inorder(t') == Insertion(key, Inorder(t), node)
      ensures above' == if old(root) == nil then nil else above
      ensures RedBlack(t') <==> !old(Overturns(node))
      ensures Within(old(S()), S(), Nodes(t) + {node})
    {
      RootParent();
      ghost var q := NewLeaf(node);
      t' := InsertFixup(node, q, Bin(Leaf, node, true, Leaf));
      above' := Above(q);
    }

    // The parent field of the sentinel is borrowed while the hole is empty.
    ghost predicate HoleParent(p: Path, t: Shape)
      reads this
    {
      t.Leaf? && !p.Top? ==> nil in mem && mem[nil].parent == Up(p)
    }

    lemma HoleCells(p: Path, t: Shape)
      requires At(S(), p, t) && !p.Top? && HoleParent(p, t) && Sibling(p).Bin?
      ensures Root(S(), t) in mem && mem[Root(S(), t)].parent == p.n && p.n in mem
      ensures p.InLeft? <==> mem[p.n].left == Root(S(), t)
      ensures var w := Sibling(p);
        && w.n in mem && mem[w.n].red == w.red && mem[p.n].red == p.red
        && (if p.InLeft? then mem[p.n].right == w.n else mem[p.n].left == w.n)
        && mem[w.n].left == Root(S(), w.l) && mem[w.n].right == Root(S(), w.r)
    {
      assert Rep(S(), Sibling(p), p.n);
    }

    lemma SiblingCells(p: Path, t: Shape)
      requires At(S(), p, t) && !p.Top? && Sibling(p).Bin?
      ensures var w := Sibling(p);
        && Root(S(), w.l) in mem && mem[Root(S(), w.l)].red == Red(w.l)
        && Root(S(), w.r) in mem && mem[Root(S(), w.r)].red == Red(w.r)
    {
      var w := Sibling(p);
      assert Rep(S(), w, p.n) && Rep(S(), w.l, w.n) && Rep(S(), w.r, w.n);
    }

    // A red sibling on the right.
    method RaiseRight(parent: Ref, w: Ref, ghost p: Path, ghost t: Shape)
      requires At(S(), p, t) && p.InLeft? && p.r.Bin? && p.r.red && parent == p.n && w == p.r.n
      modifies this`root, this`mem
      ensures At(S(), BlackSibling(p), t) && Within(old(S()), S(), Span(p, t))
    {
      ghost var v := p.r.(red := false);
      GoUp(S(), p, t);
      assert Span(p.up, Bin(t, p.n, p.red, p.r)) == Span(p, t);
      PaintRightAt(S(), p.up, Bin(t, p.n, p.red, p.r), false);
      mem := mem[w := mem[w].(red := false)];
      PaintAt(S(), p.up, Bin(t, p.n, p.red, v), true);
      mem := mem[parent := mem[parent].(red := true)];
      LeftRotate(parent, p.up, Bin(t, p.n, true, v));
      DownLeft(S(), p.up, RotL(Bin(t, p.n, true, v)));
      DownLeft(S(), InLeft(p.up, v.n, false, v.r), Bin(t, p.n, true, v.l));
    }

    method RaiseLeft(parent: Ref, w: Ref, ghost p: Path, ghost t: Shape)
      requires At(S(), p, t) && p.InRight? && p.l.Bin? && p.l.red && parent == p.n && w == p.l.n
      modifies this`root, this`mem
      ensures At(S(), BlackSibling(p), t) && Within(old(S()), S(), Span(p, t))
    {
      ghost var v := p.l.(red := false);
      GoUp(S(), p, t);
      assert Span(p.up, Bin(p.l, p.n, p.red, t)) == Span(p, t);
      PaintLeftAt(S(), p.up, Bin(p.l, p.n, p.red, t), false);
      mem := mem[w := mem[w].(red := false)];
      PaintAt(S(), p.up, Bin(v, p.n, p.red, t), true);
      mem := mem[parent := mem[parent].(red := true)];
      RightRotate(parent, p.up, Bin(v, p.n, true, t));
      DownRight(S(), p.up, RotR(Bin(v, p.n, true, t)));
      DownRight(S(), InRight(p.up, v.l, v.n, false), Bin(v.r, p.n, true, t));
    }

    // The near child of the right sibling is red and goes up.
    method TurnNearRight(w: Ref, ghost p: Path, ghost t: Shape)
      requires At(S(), p, t) && p.InLeft? && p.r.Bin? && p.r.l.Bin? && w == p.r.n
      modifies this`root, this`mem
      ensures At(S(), p.(r := RotR(p.r.(l := Black(p.r.l), red := true))), t)
      ensures Within(old(S()), S(), Span(p, t))
    {
      ghost var q, v := InRight(p.up, t, p.n, p.red), p.r.(l := Black(p.r.l), red := true);
      GoUp(S(), p, t);
      assert Span(p.up, Bin(t, p.n, p.red, p.r)) == Span(p, t);
      DownRight(S(), p.up, Bin(t, p.n, p.red, p.r));
      assert Span(q, p.r) == Span(p, t);
      PaintLeftAt(S(), q, p.r, false);
      mem := mem[mem[w].left := mem[mem[w].left].(red := false)];
      PaintAt(S(), q, p.r.(l := Black(p.r.l)), true);
      mem := mem[w := mem[w].(red := true)];
      RightRotate(w, q, v);
      GoUp(S(), q, RotR(v));
      DownLeft(S(), p.up, Bin(t, p.n, p.red, RotR(v)));
    }

    method TurnNearLeft(w: Ref, ghost p: Path, ghost t: Shape)
      requires At(S(), p, t) && p.InRight? && p.l.Bin? && p.l.r.Bin? && w == p.l.n
      modifies this`root, this`mem
      ensures At(S(), p.(l := RotL(p.l.(r := Black(p.l.r), red := true))), t)
      ensures Within(old(S()), S(), Span(p, t))
    {
      ghost var q, v := InLeft(p.up, p.n, p.red, t), p.l.(r := Black(p.l.r), red := true);
      GoUp(S(), p, t);
      assert Span(p.up, Bin(p.l, p.n, p.red, t)) == Span(p, t);
      DownLeft(S(), p.up, Bin(p.l, p.n, p.red, t));
      assert Span(q, p.l) == Span(p, t);
      PaintRightAt(S(), q, p.l, false);
      mem := mem[mem[w].right := mem[mem[w].right].(red := false)];
      PaintAt(S(), q, p.l.(r := Black(p.l.r)), true);
      mem := mem[w := mem[w].(red := true)];
      LeftRotate(w, q, v);
      GoUp(S(), q, RotL(v));
      DownRight(S(), p.up, Bin(RotL(v), p.n, p.red, t));
    }

    method PaintFarRight(w: Ref, ghost p: Path, ghost t: Shape)
      requires At(S(), p, t) && t.Bin? && t.r.Bin? && t.r.r.Bin? && w == t.r.n
      modifies this`mem
      ensures At(S(), p, t.(r := t.r.(r := Black(t.r.r)))) && Within(old(S()), S(), Span(p, t))
    {
      ghost var q := InRight(p, t.l, t.n, t.red);
      DownRight(S(), p, t);
      PaintRightAt(S(), q, t.r, false);
      mem := mem[mem[w].right := mem[mem[w].right].(red := false)];
      GoUp(S(), q, t.r.(r := Black(t.r.r)));
    }

    method PaintFarLeft(w: Ref, ghost p: Path, ghost t: Shape)
      requires At(S(), p, t) && t.Bin? && t.l.Bin? && t.l.l.Bin? && w == t.l.n
      modifies this`mem
      ensures At(S(), p, t.(l := t.l.(l := Black(t.l.l)))) && Within(old(S()), S(), Span(p, t))
    {
      ghost var q := InLeft(p, t.n, t.red, t.r);
      DownLeft(S(), p, t);
      PaintLeftAt(S(), q, t.l, false);
      mem := mem[mem[w].left := mem[mem[w].left].(red := false)];
      GoUp(S(), q, t.l.(l := Black(t.l.l)));
    }

    // The far child of the right sibling is red: the last rotation.
    method TurnFarRight(parent: Ref, w: Ref, ghost p: Path, ghost t: Shape)
      requires At(S(), p, t) && p.InLeft? && p.r.Bin? && p.r.r.Bin? && parent == p.n && w == p.r.n
      modifies this`root, this`mem
      ensures At(S(), p.up, Bin(Bin(t, p.n, false, p.r.l), p.r.n, p.red, Black(p.r.r)))
      ensures Within(old(S()), S(), Span(p, t))
    {
      ghost var v := p.r.(red := p.red);
      ghost var v' := v.(r := Black(v.r));
      GoUp(S(), p, t);
      FarCells(S(), p.up, Bin(t, p.n, p.red, p.r));
      assert Span(p.up, Bin(t, p.n, p.red, p.r)) == Span(p, t);
      PaintRightAt(S(), p.up, Bin(t, p.n, p.red, p.r), p.red);
      mem := mem[w := mem[w].(red := mem[parent].red)];
      PaintAt(S(), p.up, Bin(t, p.n, p.red, v), false);
      mem := mem[parent := mem[parent].(red := false)];
      PaintFarRight(w, p.up, Bin(t, p.n, false, v));
      LeftRotate(parent, p.up, Bin(t, p.n, false, v'));
    }

    lemma FarCells(s: Store, p: Path, t: Shape)
      requires At(s, p, t) && t.Bin?
      ensures t.n in s.m && s.m[t.n].red == t.red
      ensures t.r.Bin? ==> t.r.n in s.m && s.m[t.r.n].right == Root(s, t.r.r) && t.r.n != t.n
      ensures t.l.Bin? ==> t.l.n in s.m && s.m[t.l.n].left == Root(s, t.l.l) && t.l.n != t.n
    {
      assert Rep(s, t.l, t.n) && Rep(s, t.r, t.n);
    }

    method TurnFarLeft(parent: Ref, w: Ref, ghost p: Path, ghost t: Shape)
      requires At(S(), p, t) && p.InRight? && p.l.Bin? && p.l.l.Bin? && parent == p.n && w == p.l.n
      modifies this`root, this`mem
      ensures At(S(), p.up, Bin(Black(p.l.l), p.l.n, p.red, Bin(p.l.r, p.n, false, t)))
      ensures Within(old(S()), S(), Span(p, t))
    {
      ghost var v := p.l.(red := p.red);
      ghost var v' := v.(l := Black(v.l));
      GoUp(S(), p, t);
      FarCells(S(), p.up, Bin(p.l, p.n, p.red, t));
      assert Span(p.up, Bin(p.l, p.n, p.red, t)) == Span(p, t);
      PaintLeftAt(S(), p.up, Bin(p.l, p.n, p.red, t), p.red);
      mem := mem[w := mem[w].(red := mem[parent].red)];
      PaintAt(S(), p.up, Bin(v, p.n, p.red, t), false);
      mem := mem[parent := mem[parent].(red := false)];
      PaintFarLeft(w, p.up, Bin(v, p.n, false, t));
      RightRotate(parent, p.up, Bin(v', p.n, false, t));
    }

    // One turn with a black sibling on the right.
    method TurnBlackRight(node: Ref, w: Ref, ghost p: Path, ghost t: Shape) returns (next: Ref)
      requires At(S(), p, t) && p.InLeft? && p.r.Bin? && !p.r.red && HoleParent(p, t)
      requires node == Root(S(), t) && w == p.r.n
      modifies this`root, this`mem
      ensures var (p', t') := DeleteStep(p, t); At(S(), p', t') && next == Root(S(), t')
      ensures Within(old(S()), S(), Span(p, t))
    {
      HoleCells(p, t);
      SiblingCells(p, t);
      var parent := mem[node].parent;
      if !mem[mem[w].left].red && !mem[mem[w].right].red {
        GoUp(S(), p, t);
        PaintRightAt(S(), p.up, Bin(t, p.n, p.red, p.r), true);
        assert Span(p.up, Bin(t, p.n, p.red, p.r)) == Span(p, t);
        mem := mem[w := mem[w].(red := true)];
        next := parent;
      } else {
        ghost var q := p;
        var far := w;
        if !mem[mem[w].right].red {
          q := p.(r := RotR(p.r.(l := Black(p.r.l), red := true)));
          RotRKeeps(p.r.(l := Black(p.r.l), red := true));
          assert Span(q, t) == Span(p, t);
          TurnNearRight(w, p, t);
          HoleCells(q, t);
          far := mem[mem[node].parent].right;
        }
        TurnFarRight(parent, far, q, t);
        next := RootOf(q.up, Bin(Bin(t, q.n, false, q.r.l), q.r.n, q.red, Black(q.r.r)));
      }
    }

    // The loop ends at the root.
    method RootOf(ghost p: Path, ghost t: Shape) returns (next: Ref)
      requires At(S(), p, t)
      ensures At(S(), Top(Above(p)), Zip(p, t)) && next == Root(S(), Zip(p, t))
    {
      GoTop(S(), p, t);
      next := root;
    }

    method TurnBlackLeft(node: Ref, w: Ref, ghost p: Path, ghost t: Shape) returns (next: Ref)
      requires At(S(), p, t) && p.InRight? && p.l.Bin? && !p.l.red && HoleParent(p, t)
      requires node == Root(S(), t) && w == p.l.n
      modifies this`root, this`mem
      ensures var (p', t') := DeleteStep(p, t); At(S(), p', t') && next == Root(S(), t')
      ensures Within(old(S()), S(), Span(p, t))
    {
      HoleCells(p, t);
      SiblingCells(p, t);
      var parent := mem[node].parent;
      if !mem[mem[w].left].red && !mem[mem[w].right].red {
        GoUp(S(), p, t);
        PaintLeftAt(S(), p.up, Bin(p.l, p.n, p.red, t), true);
        assert Span(p.up, Bin(p.l, p.n, p.red, t)) == Span(p, t);
        mem := mem[w := mem[w].(red := true)];
        next := parent;
      } else {
        ghost var q := p;
        var far := w;
        if !mem[mem[w].left].red {
          q := p.(l := RotL(p.l.(r := Black(p.l.r), red := true)));
          RotLKeeps(p.l.(r := Black(p.l.r), red := true));
          assert Span(q, t) == Span(p, t);
          TurnNearLeft(w, p, t);
          HoleCells(q, t);
          far := mem[mem[node].parent].left;
        }
        TurnFarLeft(parent, far, q, t);
        next := RootOf(q.up, Bin(Black(q.l.l), q.l.n, q.red, Bin(q.l.r, q.n, false, t)));
      }
    }

    // One turn of the loop: the sibling becomes black, then the fault moves up or ends.
    method DeleteTurn(node: Ref, ghost p: Path, ghost t: Shape) returns (next: Ref, ghost p': Path, ghost t': Shape)
      requires At(S(), p, t) && node == Root(S(), t) && Deleting(p, t) && !DeleteDone(p, t) && HoleParent(p, t)
      modifies this`root, this`mem
      ensures Sibling(p).Bin? && !BlackSibling(p).Top? && Sibling(BlackSibling(p)).Bin? && !Sibling(BlackSibling(p)).red
      ensures (p', t') == DeleteStep(BlackSibling(p), t) && At(S(), p', t') && next == Root(S(), t')
      ensures Within(old(S()), S(), Span(p, t))
    {
      BlackSiblingKeeps(p, t);
      BlackSiblingSpan(p, t);
      HoleCells(p, t);
      ghost var q := BlackSibling(p);
      if node == mem[mem[node].parent].left {
        var w := mem[mem[node].parent].right;
        if mem[w].red {
          RaiseRight(mem[node].parent, w, p, t);
          HoleCells(q, t);
          w := mem[mem[node].parent].right;
        }
        next := TurnBlackRight(node, w, q, t);
      } else {
        var w := mem[mem[node].parent].left;
        if mem[w].red {
          RaiseLeft(mem[node].parent, w, p, t);
          HoleCells(q, t);
          w := mem[mem[node].parent].left;
        }
        next := TurnBlackLeft(node, w, q, t);
      }
      ghost var step := DeleteStep(q, t);
      p', t' := step.0, step.1;
    }

    // Restores the red-black properties when a black node is missing above `node`.
    method DeleteFixup(node: Ref, ghost p: Path, ghost t: Shape) returns (ghost t': Shape)
      requires At(S(), p, t) && node == Root(S(), t) && Deleting(p, t) && HoleParent(p, t)
      modifies this`root, this`mem
      ensures At(S(), Top(Above(p)), t') && RedBlack(t') && Inorder(t') == Inorder(Zip(p, t))
      ensures Within(old(S()), S(), Span(p, t) + {nil})
    {
      var n := node;
      ghost var q, c := p, t;
      RootPlace(S(), q, c);
      NodeColour(q, c);
      while n != root && !mem[n].red
        invariant At(S(), q, c) && n == Root(S(), c) && n in mem && Deleting(q, c) && HoleParent(q, c)
        invariant DeleteDone(q, c) <==> n == root || mem[n].red
        invariant Above(q) == Above(p) && Inorder(Zip(q, c)) == Inorder(Zip(p, t)) && Span(q, c) == Span(p, t)
        invariant Within(old(S()), S(), Span(p, t))
        decreases DeleteMeasure(q, c)
      {
        DeleteTurnKeeps(q, c);
        n, q, c := DeleteTurn(n, q, c);
        RootPlace(S(), q, c);
        NodeColour(q, c);
      }
      t' := PaintHole(n, q, c);
    }

    lemma NodeColour(p: Path, t: Shape)
      requires At(S(), p, t)
      ensures Root(S(), t) in mem && mem[Root(S(), t)].red == Red(t)
    {
    }

    method PaintHole(n: Ref, ghost p: Path, ghost t: Shape) returns (ghost t': Shape)
      requires At(S(), p, t) && n == Root(S(), t) && Deleting(p, t) && DeleteDone(p, t)
      modifies this`mem
      ensures At(S(), Top(Above(p)), t') && RedBlack(t') && Inorder(t') == Inorder(Zip(p, t))
      ensures Within(old(S()), S(), Span(p, t))
    {
      NodeColour(p, t);
      if t.Bin? {
        PaintAt(S(), p, t, false);
      }
      mem := mem[n := mem[n].(red := false)];
      DeleteEnds(p, t);
      GraftOrder(p, t, Black(t));
      GoTop(S(), p, Black(t));
      t' := Zip(p, Black(t));
    }

    // The leftmost node of a subtree.
    method SubtreeMin(node: Ref, ghost p: Path, ghost c: Shape) returns (y: Ref)
      requires At(S(), p, c) && node == Root(S(), c)
      ensures y == if c.Leaf? then NULL else MinNode(c)
    {
      if node == nil {
        return NULL;
      }
      y := node;
      ghost var q, d := p, c;
      while mem[y].left != nil
        invariant At(S(), q, d) && d.Bin? && y == d.n && y in mem && MinNode(d) == MinNode(c)
        decreases d
      {
        DownLeft(S(), q, d);
        y := mem[y].left;
        q, d := InLeft(q, d.n, d.red, d.r), d.l;
      }
    }

    // `temp` leaves its place; `subst` takes over its link and its parent.
    method Unhook(temp: Ref, subst: Ref, node: Ref, ghost p: Path, ghost c: Shape)
      requires At(S(), p, c) && OneSided(c) && !p.Top? && temp == c.n && subst == Root(S(), Other(c))
      modifies this`mem
      ensures Up(p) in old(mem) && subst in old(mem)
      ensures S() == old(Splice(S(), Up(p), temp, subst, if Up(p) == node then temp else Up(p)))
    {
      SpliceCells(S(), p, c);
      if mem[temp].parent == node {
        mem := mem[subst := mem[subst].(parent := temp)];
      } else {
        mem := mem[subst := mem[subst].(parent := mem[temp].parent)];
      }
      var up := mem[temp].parent;
      if temp == mem[up].left {
        mem := mem[up := mem[up].(left := subst)];
      } else {
        mem := mem[up := mem[up].(right := subst)];
      }
    }

    // `temp` takes over the place, the links and the colour of `node`.
    method TakePlace(temp: Ref, node: Ref)
      requires temp in mem && node in mem && temp != node
      requires node == root || (mem[node].parent in mem && mem[node].parent != node)
      requires node !in {mem[node].left, mem[node].right} && temp !in {mem[node].left, mem[node].right}
      requires mem[node].left in mem && mem[node].right in mem
      modifies this`root, this`mem
      ensures S() == old(Replace(S(), node, temp))
    {
      mem := mem[temp := mem[temp].(parent := mem[node].parent)];
      if node == root {
        root := temp;
      } else if mem[mem[node].parent].left == node {
        mem := mem[mem[node].parent := mem[mem[node].parent].(left := temp)];
      } else {
        mem := mem[mem[node].parent := mem[mem[node].parent].(right := temp)];
      }
      mem := mem[temp := mem[temp].(right := mem[node].right)];
      mem := mem[temp := mem[temp].(left := mem[node].left)];
      if mem[temp].left != nil {
        mem := mem[mem[temp].left := mem[mem[temp].left].(parent := temp)];
      }
      if mem[temp].right != nil {
        mem := mem[mem[temp].right := mem[mem[temp].right].(parent := temp)];
      }
      mem := mem[temp := mem[temp].(red := mem[node].red)];
    }

    method ClearNode(node: Ref, ghost p: Path, ghost c: Shape)
      requires At(S(), p, c) && node in mem && node !in Span(p, c)
      modifies this`mem
      ensures At(S(), p, c) && mem == old(mem)[node := Cell(NULL, NULL, NULL, old(mem[node].red))]
    {
      ghost var cleared := mem[node := Cell(NULL, NULL, NULL, mem[node].red)];
      ClearAt(S(), Store(cleared, root, nil), p, c, node);
      mem := mem[node := mem[node].(left := NULL)];
      mem := mem[node := mem[node].(right := NULL)];
      mem := mem[node := mem[node].(parent := NULL)];
      assert mem == cleared;
      assert S() == Store(cleared, root, nil);
    }

    // What a deletion leaves behind: `node` is out of the tree.
    ghost predicate Removed(s: Store, node: Ref, above': Ref, t': Shape)
      reads this
    {
      && At(S(), Top(above'), t') && RedBlack(t') && Inorder(t') == Without(Inorder(t), node)
      && S().m.Keys == s.m.Keys && Agree(s, S(), s.m.Keys - Nodes(t) - {nil})
      && node in mem && mem[node] == Cell(NULL, NULL, NULL, s.m[node].red)
    }

    // The node is the root and has at most one child.
    method DeleteRoot(node: Ref, subst: Ref, ghost c: Shape) returns (ghost t': Shape)
      requires RedBlack(t) && At(S(), Top(above), t) && OneSided(c) && c == t && node == c.n
        && subst == Root(S(), Other(c))
      modifies this`root, this`mem
      ensures Outer(S(), node, t')
      ensures Removed(old(S()), node, node, t')
      ensures {node, subst} <= old(S()).m.Keys && S() == DeleteRootWrites(old(S()), node, subst)
    {
      RootOneSided(S(), above, c);
      OneSidedDeleting(Top(above), c);
      OneSidedOrder(Top(above), c, nil);
      t' := Black(Other(c));
      BlackOrder(Other(c));
      root := subst;
      mem := mem[subst := mem[subst].(red := false)];
      ClearNode(node, Top(node), t');
    }

    lemma RootOneSided(s: Store, above: Ref, c: Shape)
      requires At(s, Top(above), c) && OneSided(c) && !c.red
      ensures Root(s, Other(c)) in s.m
      ensures var s' := Paint(s.(root := Root(s, Other(c))), Root(s, Other(c)), false);
        At(s', Top(c.n), Black(Other(c)))
      ensures c.n !in Nodes(Black(Other(c)))
    {
      var o := Other(c);
      assert Rep(s, o, c.n) && Apart(o) && Nodes(o) <= Nodes(c) && c.n !in Nodes(o);
      var s1 := s.(root := Root(s, o));
      RepAgree(s, s1, o, c.n);
      assert At(s1, Top(c.n), o);
      if o.Bin? {
        PaintAt(s1, Top(c.n), o, false);
      }
    }

    // After the links are done: repair if a black node is missing.
    method Repair(isblack: bool, subst: Ref, node: Ref, ghost p: Path, ghost c: Shape) returns (ghost t': Shape)
      requires At(S(), p, c) && subst == Root(S(), c) && HoleParent(p, c)
      requires if isblack then Deleting(p, c) else RedBlack(Zip(p, c))
      requires node in mem && node !in Span(p, c) && node != nil
      modifies this`root, this`mem
      ensures At(S(), Top(Above(p)), t') && RedBlack(t') && Inorder(t') == Inorder(Zip(p, c))
      ensures S().m.Keys == old(S()).m.Keys && Agree(old(S()), S(), old(mem.Keys) - Span(p, c) - {nil, node})
      ensures mem[node] == Cell(NULL, NULL, NULL, old(mem[node].red))
    {
      ClearNode(node, p, c);
      if isblack {
        t' := DeleteFixup(subst, p, c);
      } else {
        GoTop(S(), p, c);
        t' := Zip(p, c);
      }
    }

    // The node has at most one child and is not the root.
    method DeleteOuter(node: Ref, subst: Ref, ghost p: Path, ghost c: Shape) returns (ghost t': Shape)
      requires RedBlack(t) && At(S(), p, c) && Zip(p, c) == t && Above(p) == above && !p.Top?
      requires OneSided(c) && node == c.n && subst == Root(S(), Other(c))
      modifies this`root, this`mem
      ensures Removed(old(S()), node, above, t')
    {
      OneSidedDeleting(p, c);
      OneSidedOrder(p, c, nil);
      ZipNodes(p, c);
      SpliceCells(S(), p, c);
      SpliceAt(S(), p, c);
      var isblack := !mem[node].red;
      Unhook(node, subst, node, p, c);
      t' := Repair(isblack, subst, node, p, Other(c));
    }

    lemma SpliceAt(s: Store, p: Path, c: Shape)
      requires At(s, p, c) && OneSided(c) && !p.Top?
      ensures c.n in s.m && s.m[c.n].red == c.red && Up(p) != c.n && Up(p) in s.m && Root(s, Other(c)) in s.m
      ensures var s' := Splice(s, Up(p), c.n, Root(s, Other(c)), Up(p));
        && At(s', p, Other(c)) && s'.m.Keys == s.m.Keys && s'.m[c.n] == s.m[c.n]
        && s'.m[Root(s, Other(c))].parent == Up(p) && c.n !in Span(p, Other(c)) && Span(p, Other(c)) <= Span(p, c)
        && Agree(s, s', s.m.Keys - Span(p, c) - {s.nil})
    {
      SpliceCells(s, p, c);
      SpliceRep(s, p, c, Up(p));
      SpliceKeeps(s, p, c, Up(p));
      assert Apart(Other(c)) && Nodes(Other(c)) <= Nodes(c) && c.n !in Nodes(Other(c));
    }

    // The node has two children: its successor takes over.
    method DeleteInner(node: Ref, ghost p: Path, ghost c: Shape) returns (ghost t': Shape)
      requires RedBlack(t) && At(S(), p, c) && Zip(p, c) == t && Above(p) == above
      requires c.Bin? && c.l.Bin? && c.r.Bin? && node == c.n
      modifies this`root, this`mem
      ensures Removed(old(S()), node, above, t')
    {
      ghost var y := Inner(c).n;
      InnerDeleting(p, c, y);
      InnerOrder(p, c, nil);
      ZipNodes(p, c);
      InnerSpans(p, c, nil);
      var temp, subst, isblack := MoveSuccessor(node, p, c);
      t' := Repair(isblack, subst, node, InnerPath(p, c, y), Inner(c).r);
    }

    method MoveSuccessor(node: Ref, ghost p: Path, ghost c: Shape) returns (temp: Ref, subst: Ref, isblack: bool)
      requires At(S(), p, c) && c.Bin? && c.l.Bin? && c.r.Bin? && node == c.n
      modifies this`root, this`mem
      ensures temp == Inner(c).n && isblack == !Inner(c).red && subst == Root(S(), Inner(c).r)
      ensures At(S(), InnerPath(p, c, temp), Inner(c).r) && HoleParent(InnerPath(p, c, temp), Inner(c).r)
      ensures Within(old(S()), S(), Span(p, c) + {nil}) && node in mem && mem[node].red == old(mem)[node].red
    {
      DownRight(S(), p, c);
      temp := SubtreeMin(mem[node].right, InRight(p, c.l, c.n, c.red), c.r);
      InnerCells(S(), p, c);
      // the leftmost node has nothing on its left
      subst := mem[temp].right;
      isblack := !mem[temp].red;
      SwapIn(temp, subst, node, p, c);
    }

    method SwapIn(temp: Ref, subst: Ref, node: Ref, ghost p: Path, ghost c: Shape)
      requires At(S(), p, c) && c.Bin? && c.r.Bin? && node == c.n && temp == Inner(c).n
      requires subst == Root(S(), Inner(c).r)
      modifies this`root, this`mem
      ensures At(S(), InnerPath(p, c, temp), Inner(c).r) && HoleParent(InnerPath(p, c, temp), Inner(c).r)
      ensures Within(old(S()), S(), Span(p, c) + {nil}) && node in mem && mem[node].red == old(mem)[node].red
    {
      InnerCells(S(), p, c);
      UnlinkInner(S(), p, c);
      ReplaceGuards(S(), p, c);
      Unhook(temp, subst, node, InnerPath(p, c, node), Inner(c));
      TakePlace(temp, node);
    }

    lemma InnerCells(s: Store, p: Path, c: Shape)
      requires At(s, p, c) && c.Bin? && c.r.Bin?
      ensures At(s, InnerPath(p, c, c.n), Inner(c)) && OneSided(Inner(c)) && !InnerPath(p, c, c.n).Top?
      ensures Inner(c).n == MinNode(c.r) && Other(Inner(c)) == Inner(c).r
      ensures Inner(c).n in s.m && s.m[Inner(c).n].red == Inner(c).red
      ensures s.m[Inner(c).n].left == s.nil && s.m[Inner(c).n].right == Root(s, Inner(c).r)
    {
      InnerPlace(s, p, c);
    }

    lemma InnerSpans(p: Path, c: Shape, nil: Ref)
      requires Spread(p, c, nil) && c.Bin? && c.r.Bin?
      ensures var y := Inner(c).n;
        && c.n !in Span(InnerPath(p, c, y), Inner(c).r) && Span(InnerPath(p, c, y), Inner(c).r) <= Span(p, c)
        && Above(InnerPath(p, c, y)) == Above(p)
    {
      var y := Inner(c).n;
      MinPathFacts(InRight(p, c.l, y, c.red), c.r);
      InnerSame(Top(0), InRight(p, c.l, y, c.red), c.r);
      DropMinNodes(c.r);
      ZipNodes(InnerPath(p, c, y), Inner(c).r);
      ZipNodes(p, Bin(c.l, y, c.red, DropMin(c.r)));
    }

    // The cells that the successor takes over.
    lemma ReplaceGuards(s: Store, p: Path, c: Shape)
      requires At(s, p, c) && c.Bin? && c.r.Bin?
      ensures Up(InnerPath(p, c, c.n)) in s.m && Root(s, Inner(c).r) in s.m
      ensures var s1, y := Spliced(s, p, c), Inner(c).n;
        && y in s1.m && c.n in s1.m && y != c.n && (c.n == s1.root
          || (s1.m[c.n].parent in s1.m && s1.m[c.n].parent != c.n))
        && c.n !in {s1.m[c.n].left, s1.m[c.n].right} && y !in {s1.m[c.n].left, s1.m[c.n].right}
        && s1.m[c.n].left in s1.m && s1.m[c.n].right in s1.m
    {
      SplicedKeeps(s, p, c);
      SplicedVacant(s, p, c);
      DropMinPlaced(p, c, s.nil);
      InnerPlace(s, p, c);
    }

    // Takes `node` out of the tree. When the root goes that has at most one child,
    // the parent field of the new root keeps leading to the removed node.
    method Delete(node: Ref)
      requires Sound() && (node != NULL && node != nil ==> node in Nodes(t))
      modifies this`root, this`size, this`mem, this`t, this`above
      ensures Sound() && (old(Valid()) ==> Valid())
      ensures node == NULL || node == nil ==> S() == old(S()) && t == old(t) && size == old(size)
      ensures node != NULL && node != nil ==> Inorder(t) == Without(old(Inorder(t)), node)
      ensures node != NULL && node != nil ==>
        node in old(mem) && node in mem && mem[node] == Cell(NULL, NULL, NULL, old(mem)[node].red)
      ensures above == old(above) || above == node
      ensures Within(old(S()), S(), old(Nodes(t)) + {nil})
    {
      if node != NULL && node != nil {
        DeleteNode(node);
      }
    }

    method DeleteNode(node: Ref)
      requires Sound() && node in Nodes(t)
      modifies this`root, this`size, this`mem, this`t, this`above
      ensures Sound() && (old(Valid()) ==> Valid()) && Inorder(t) == Without(old(Inorder(t)), node)
      ensures node in old(mem) && node in mem && mem[node] == Cell(NULL, NULL, NULL, old(mem)[node].red)
      ensures above == old(above) || above == node
      ensures Within(old(S()), S(), old(Nodes(t)) + {nil})
    {
      WithoutSorted(key, Inorder(t), node);
      InorderNodes(t, node);
      WrapDecrement(|Inorder(t)|);
      size := (size - 1) % UINT_RANGE;
      ghost var before := t;
      t, above := DeleteLinks(node);
      if old(above) !in Nodes(before) {
        RemovalWithin(before, node, old(above));
      }
    }

    method DeleteLinks(node: Ref) returns (ghost t': Shape, ghost above': Ref)
      requires SearchTree(S(), key, above, t) && node in Nodes(t)
      modifies this`root, this`mem
      ensures Removed(old(S()), node, above', t') && (above' == above || (above' == node && Outer(S(), above', t')))
    {
      ghost var p, c := Locate(S(), Top(above), t, node);
      RootPlace(S(), p, c);
      above' := above;
      LocatedCells(S(), p, c);
      if mem[node].left == nil || mem[node].right == nil {
        var subst := if mem[node].left == nil then mem[node].right else mem[node].left;
        if node == root {
          t' := DeleteRoot(node, subst, c);
          above' := node;
        } else {
          t' := DeleteOuter(node, subst, p, c);
        }
      } else {
        t' := DeleteInner(node, p, c);
      }
    }

    lemma RemovalWithin(before: Shape, node: Ref, n: Ref)
      requires Inorder(t) == Without(Inorder(before), node) && n !in Nodes(before)
      ensures n !in Nodes(t)
    {
      InorderNodes(t, n);
      InorderNodes(before, n);
      if n in Inorder(t) {
        WithoutFewer(Inorder(before), node, n);
      }
    }

    lemma LocatedCells(s: Store, p: Path, c: Shape)
      requires At(s, p, c) && c.Bin?
      ensures c.n in s.m && s.m[c.n].left == Root(s, c.l) && s.m[c.n].right == Root(s, c.r)
      ensures c.l.Leaf? <==> s.m[c.n].left == s.nil
      ensures c.r.Leaf? <==> s.m[c.n].right == s.nil
    {
      HeadsApart(s, c);
    }

    // The tree is logarithmic in every state.
    lemma Logarithmic()
      requires Sound()
      ensures Pow2(Height(t)) <= (|Inorder(t)| + 1) * (|Inorder(t)| + 1)
    {
      HeightLogarithmic(t);
    }

    // A node with the key, if there is one.
    method Search(k: int) returns (r: Ref)
      requires Sound()
      ensures r != NULL ==> r in Nodes(t) && r in key && key[r] == k
      ensures r == NULL ==> forall n :: n in Nodes(t) ==> n in key && key[n] != k
    {
      r := root;
      ghost var p, c := Top(above), t;
      while r != nil
        invariant At(S(), p, c) && Zip(p, c) == t && r == Root(S(), c)
        invariant Outside(key, p, k, false)
        decreases c
      {
        OutsideDown(key, p, c, k, false);
        if k < key[r] {
          DownLeft(S(), p, c);
          r := mem[r].left;
          p, c := InLeft(p, c.n, c.red, c.r), c.l;
        } else if k > key[r] {
          DownRight(S(), p, c);
          r := mem[r].right;
          p, c := InRight(p, c.l, c.n, c.red), c.r;
        } else {
          Found(p, c);
          return;
        }
      }
      NotFound(key, p, k);
      r := NULL;
    }

    lemma Found(p: Path, c: Shape)
      requires SearchTree(S(), key, above, t) && At(S(), p, c) && Zip(p, c) == t && c.Bin?
      ensures c.n in Nodes(t) && c.n != NULL
    {
      ZipNodes(p, c);
    }

    // The first node whose key is at least `k`, or the first node of all.
    method Lookup(k: int) returns (r: Ref)
      requires Sound()
      ensures r == if t.Leaf? then NULL else Owner(key, Inorder(t), k)
    {
      if root == nil {
        return NULL;
      }
      var node := NULL;
      var temp := root;
      ghost var p, c := Top(above), t;
      while temp != nil
        invariant At(S(), p, c) && Zip(p, c) == t && temp == Root(S(), c)
        invariant Outside(key, p, k, true)
        invariant if After(p) == [] then node == NULL else node == After(p)[0] && node != NULL
        decreases c
      {
        OutsideDown(key, p, c, k, true);
        if k <= key[temp] {
          node := temp;
          DownLeft(S(), p, c);
          temp := mem[temp].left;
          p, c := InLeft(p, c.n, c.red, c.r), c.l;
        } else {
          DownRight(S(), p, c);
          temp := mem[temp].right;
          p, c := InRight(p, c.l, c.n, c.red), c.r;
        }
      }
      OwnerFound(key, p, k);
      if node != NULL {
        r := node;
      } else {
        MinFirst(t);
        r := SubtreeMin(root, Top(above), t);
      }
    }

    // The nodes in order; `opera` is called on them one after the other.
    method MidTravel() returns (visited: seq<Ref>)
      requires Sound()
      ensures visited == Inorder(t)
    {
      visited := [];
      if root != nil {
        visited := SubtreeTravel(root, Top(above), t);
      }
    }

    method SubtreeTravel(node: Ref, ghost p: Path, ghost c: Shape) returns (visited: seq<Ref>)
      requires At(S(), p, c) && c.Bin? && node == c.n
      ensures visited == Inorder(c)
      decreases c
    {
      visited := [];
      DownLeft(S(), p, c);
      DownRight(S(), p, c);
      if mem[node].left != nil {
        visited := SubtreeTravel(mem[node].left, InLeft(p, c.n, c.red, c.r), c.l);
      }
      visited := visited + [node];
      if mem[node].right != nil {
        var rest := SubtreeTravel(mem[node].right, InRight(p, c.l, c.n, c.red), c.r);
        visited := visited + rest;
      }
    }

    // What a caller sees of an insertion and of a deletion.
    lemma InsertionNodes(before: seq<Ref>, node: Ref)
      requires Sorted(key, before) && node in key && Inorder(t) == Insertion(key, before, node)
      ensures |Inorder(t)| == |before| + 1
      ensures Nodes(t) == (set n | n in before) + {node}
    {
      InsertionSize(key, before, node);
      forall n ensures n in Nodes(t) <==> n in before || n == node {
        InorderNodes(t, n);
        InsertionMembers(key, before, node, n);
      }
    }

    lemma RemovalNodes(before: Shape, node: Ref)
      requires Sound() && Apart(before) && node in Nodes(before) && Inorder(t) == Without(Inorder(before), node)
      ensures Nodes(t) == Nodes(before) - {node}
      ensures |Inorder(t)| == |Inorder(before)| - 1
    {
      InorderSize(before);
      InorderSize(t);
      InorderNodes(before, node);
      WithoutMembers(Inorder(before), node);
      forall n | n in Nodes(before) - {node} ensures n in Nodes(t) {
        InorderNodes(before, n);
        InorderNodes(t, n);
      }
      SameSize(Nodes(before) - {node}, Nodes(t));
    }

    lemma SameSize(a: set<Ref>, b: set<Ref>)
      requires a <= b && |a| == |b|
      ensures a == b
    {
      assert |b - a| == |b| - |a|;
      assert b - a == {};
    }
  }

  // unsigned int arithmetic
  lemma WrapIncrement(n: nat)
    ensures (n % UINT_RANGE + 1) % UINT_RANGE == (n + 1) % UINT_RANGE
  {
  }

  lemma WrapDecrement(n: nat)
    requires n > 0
    ensures (n % UINT_RANGE - 1) % UINT_RANGE == (n - 1) % UINT_RANGE
  {
  }
}
