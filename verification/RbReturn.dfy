// What happens when a node that was deleted as the root is inserted again while the
// parent field of the new root still leads to it: that insertion is right, and a later
// one leaves the tree unbalanced.
module RbReturn {
  import opened TreeShape
  import opened TreeOrder
  import opened RbColour
  import opened RbMemory
  import opened RbRepair
  import opened RbLoop
  import opened RbLate

  // The code for an insertion leads from `s` to `s'`: the descent by the keys ends in
  // the empty place `p`, the node is linked in there, and the repair loop ends.
  ghost predicate Inserted(s: Store, key: map<Ref, int>, p: Path, node: Ref, s': Store) {
    && At(s, p, Leaf) && node in s.m && node in key && (!p.Top? ==> Up(p) in s.m)
    && Between(key, p, key[node]) && FixesUp(Attach(s, p, node), node, s')
  }

  // The parent field of the root leads to the root itself, and the recolouring has come
  // up to it: the loop rotates once too often.
  lemma OwnParent(s: Store, t: Shape)
    requires t.Bin? && t.l.Bin? && At(s, Top(t.n), t) && Inserting(Top(t.n), t)
    ensures t.r.Bin? && TurnReads(s, t.n)
    ensures var s' := Turn(s, t.n).0;
      Step(Point(s, t.n), Point(s', t.n)) && !GoesOn(s', t.n) && At(s', Top(t.n), RotL(t)) && !Balanced(RotL(t))
  {
    assert Rep(s, t.l, t.n) && Rep(s, t.r, t.n);
    assert t.l.n in Nodes(t.l) && BlackHeight(t.l) == BlackHeight(t.r);
    assert Paint(Paint(s, t.n, false), t.n, true).m == s.m;
    RotLAt(s, Top(t.n), t);
    assert Rep(StoreRotL(s, t.n), RotL(t).l, t.r.n);
  }

  // Four nodes at the addresses 2 to 5, with the keys 10, 20, 5 and 1.
  const NIL: Ref := 1
  const KEYS: map<Ref, int> := map[2 := 10, 3 := 20, 4 := 5, 5 := 1]
  const BLANK := Cell(0, 0, 0, false)

  ghost function Memory(a: Cell, b: Cell, c: Cell, d: Cell, root: Ref): Store {
    Store(map[NIL := BLANK, 2 := a, 3 := b, 4 := c, 5 := d], root, NIL)
  }

  ghost function Start(): Store { Memory(BLANK, BLANK, BLANK, BLANK, NIL) }

  // 10 inserted
  ghost function First(): Store { Memory(Cell(1, 1, 1, false), BLANK, BLANK, BLANK, 2) }

  // and 20
  ghost function Two(): Store {
    Memory(Cell(1, 1, 3, false), Cell(2, 1, 1, true), BLANK, BLANK, 2)
  }

  // 10 deleted: the parent field of 20 still leads to it
  ghost function One(): Store { Memory(BLANK, Cell(2, 1, 1, false), BLANK, BLANK, 3) }

  // 10 inserted again
  ghost function Again(): Store {
    Memory(Cell(3, 1, 1, true), Cell(2, 2, 1, false), BLANK, BLANK, 3)
  }

  // 5 inserted: 10 is rotated to the root and becomes its own parent
  ghost function Three(): Store {
    Memory(Cell(2, 4, 3, false), Cell(2, 1, 1, true), Cell(2, 1, 1, true), BLANK, 2)
  }

  // 1 inserted
  ghost function Four(): Store {
    Memory(Cell(3, 4, 1, true), Cell(2, 2, 1, false), Cell(2, 5, 1, false), Cell(4, 1, 1, true), 3)
  }

  // The empty places where the descents end.
  ghost function SecondPlace(): Path { InRight(Top(1), Leaf, 2, false) }

  ghost function AgainPlace(): Path { InLeft(Top(2), 3, false, Leaf) }

  ghost function ThirdPlace(): Path { InLeft(AgainPlace(), 2, true, Leaf) }

  ghost function Single(n: Ref, red: bool): Shape { Bin(Leaf, n, red, Leaf) }

  ghost function FourShape(): Shape { Bin(Bin(Bin(Single(5, true), 4, false, Leaf), 2, true, Leaf), 3, false, Leaf) }

  // The loop ends at once.
  lemma NoTurn(s: Store, node: Ref)
    requires !GoesOn(s, node) && s.root in s.m
    ensures FixesUp(s, node, Paint(s, s.root, false))
  {
    var points := [Point(s, node)];
    assert Trace(points) && Painted(points[|points| - 1], Paint(s, s.root, false));
  }

  lemma LinkFirst()
    ensures At(Start(), Top(1), Leaf) && Between(KEYS, Top(1), 10)
    ensures Attach(Start(), Top(1), 2) == Memory(Cell(1, 1, 1, true), BLANK, BLANK, BLANK, 2)
  {
  }

  lemma InsertFirst()
    ensures Inserted(Start(), KEYS, Top(1), 2, First())
  {
    LinkFirst();
    NoTurn(Memory(Cell(1, 1, 1, true), BLANK, BLANK, BLANK, 2), 2);
    assert Paint(Memory(Cell(1, 1, 1, true), BLANK, BLANK, BLANK, 2), 2, false) == First();
  }

  lemma LinkSecond()
    ensures var p := SecondPlace(); At(First(), p, Leaf) && Between(KEYS, p, 20) && Attach(First(), p, 3) == Two()
  {
  }

  lemma InsertSecond()
    ensures Inserted(First(), KEYS, SecondPlace(), 3, Two())
  {
    LinkSecond();
    NoTurn(Two(), 3);
    assert Paint(Two(), 2, false) == Two();
  }

  lemma DeleteFirst()
    ensures At(Two(), Top(1), Bin(Leaf, 2, false, Single(3, true))) && DeleteRootWrites(Two(), 2, 3) == One()
    ensures At(One(), Top(2), Single(3, false)) && Outer(One(), 2, Single(3, false))
  {
  }

  lemma LinkAgain()
    ensures var p := AgainPlace();
      At(One(), p, Leaf) && Between(KEYS, p, 10) && Attach(One(), p, 2) == Again()
  {
  }

  lemma InsertAgain()
    ensures Inserted(One(), KEYS, AgainPlace(), 2, Again())
  {
    LinkAgain();
    NoTurn(Again(), 2);
    assert Paint(Again(), 3, false) == Again();
  }

  lemma PlaceAgain()
    ensures At(Again(), ThirdPlace(), Leaf) && Between(KEYS, ThirdPlace(), 5)
  {
    assert At(Again(), AgainPlace(), Single(2, true));
    DownLeft(Again(), AgainPlace(), Single(2, true));
    assert After(ThirdPlace()) == [2, 3] && Before(ThirdPlace()) == [];
  }

  lemma LinkThird()
    ensures Attach(Again(), ThirdPlace(), 4)
      == Memory(Cell(3, 4, 1, true), Cell(2, 2, 1, false), Cell(2, 1, 1, true), BLANK, 3)
  {
  }

  // One turn: 10 becomes black, 20 red, and 20 is rotated down.
  lemma TurnThird()
    ensures var s := Memory(Cell(3, 4, 1, true), Cell(2, 2, 1, false), Cell(2, 1, 1, true), BLANK, 3);
      Step(Point(s, 4), Point(Three(), 4))
  {
    var s := Memory(Cell(3, 4, 1, true), Cell(2, 2, 1, false), Cell(2, 1, 1, true), BLANK, 3);
    assert OnTheLeft(s, 4);
    assert SwingRWrites(s, 2) == Three();
  }

  lemma InsertThird()
    ensures Inserted(Again(), KEYS, ThirdPlace(), 4, Three())
  {
    PlaceAgain();
    LinkThird();
    TurnThird();
    var s := Memory(Cell(3, 4, 1, true), Cell(2, 2, 1, false), Cell(2, 1, 1, true), BLANK, 3);
    var points := [Point(s, 4), Point(Three(), 4)];
    assert Trace(points) && Painted(points[|points| - 1], Three());
  }

  ghost function ThreeShape(): Shape { Bin(Single(4, true), 2, false, Single(3, true)) }

  ghost function Linked(): Store {
    Memory(Cell(2, 4, 3, false), Cell(2, 1, 1, true), Cell(2, 5, 1, true), Cell(4, 1, 1, true), 2)
  }

  ghost function Recoloured(): Store {
    Memory(Cell(2, 4, 3, true), Cell(2, 1, 1, false), Cell(2, 5, 1, false), Cell(4, 1, 1, true), 2)
  }

  ghost function RecolouredShape(): Shape { Bin(Bin(Single(5, true), 4, false, Leaf), 2, true, Single(3, false)) }

  lemma PlaceThree()
    ensures At(Three(), Top(2), ThreeShape()) && RedBlack(ThreeShape())
  {
    assert Rep(Three(), Single(4, true), 2) && Rep(Three(), Single(3, true), 2);
  }

  ghost function FourthPlace(): Path { InLeft(InLeft(Top(2), 2, false, Single(3, true)), 4, true, Leaf) }

  lemma LinkFourth()
    ensures At(Three(), FourthPlace(), Leaf) && Between(KEYS, FourthPlace(), 1)
      && Attach(Three(), FourthPlace(), 5) == Linked()
  {
    PlaceThree();
    DownLeft(Three(), Top(2), ThreeShape());
    DownLeft(Three(), InLeft(Top(2), 2, false, Single(3, true)), Single(4, true));
    assert After(FourthPlace()) == [4, 2, 3] && Before(FourthPlace()) == [];
  }

  // The condition on which an insertion goes wrong.
  lemma FourthOverturns()
    ensures FourthPlace() == Descent(KEYS, Top(2), ThreeShape(), 1) && RedUncles(FourthPlace())
      && OwnRoot(FourthPlace(), Single(5, true))
  {
    assert RedUncles(FourthPlace().up.up);
  }

  // The first turn recolours up to the root.
  lemma TurnFourth()
    ensures Step(Point(Linked(), 5), Point(Recoloured(), 2))
  {
    assert OnTheLeft(Linked(), 5);
    assert RecolourWrites(Linked(), 2, 4, 3) == Recoloured();
  }

  // The second one is the turn too many.
  lemma TurnAtRoot()
    ensures Step(Point(Recoloured(), 2), Point(Four(), 2)) && !GoesOn(Four(), 2)
    ensures At(Four(), Top(2), FourShape()) && !Balanced(FourShape())
  {
    var t := RecolouredShape();
    assert At(Recoloured(), Top(2), t) by {
      assert Rep(Recoloured(), t.l, 2) && Rep(Recoloured(), t.r, 2);
    }
    OwnParent(Recoloured(), t);
    assert !OnTheLeft(Recoloured(), 2);
    assert SwingLWrites(Recoloured(), 2) == Four();
  }

  lemma TwoTurns(a: Point, b: Point, c: Point, s': Store)
    requires Step(a, b) && Step(b, c) && Painted(c, s')
    ensures FixesUp(a.s, a.node, s')
  {
    var points := [a, b, c];
    assert Trace(points) && points[0] == Point(a.s, a.node) && Painted(points[|points| - 1], s');
  }

  lemma InsertFourth()
    ensures Inserted(Three(), KEYS, FourthPlace(), 5, Four())
  {
    LinkFourth();
    TurnFourth();
    TurnAtRoot();
    assert Painted(Point(Four(), 2), Four());
    TwoTurns(Point(Linked(), 5), Point(Recoloured(), 2), Point(Four(), 2), Four());
  }

  // 10 and 20 are inserted, 10 is deleted and inserted again, then come 5 and 1: the
  // tree is red-black up to 5, and not balanced after 1.
  lemma ReturningNodeBreaks()
    ensures Inserted(Start(), KEYS, Top(1), 2, First()) && Inserted(First(), KEYS, SecondPlace(), 3, Two())
    ensures DeleteRootWrites(Two(), 2, 3) == One() && Outer(One(), 2, Single(3, false))
    ensures Inserted(One(), KEYS, AgainPlace(), 2, Again()) && Inserted(Again(), KEYS, ThirdPlace(), 4, Three())
    ensures At(Three(), Top(2), ThreeShape()) && RedBlack(ThreeShape())
    ensures FourthPlace() == Descent(KEYS, Top(2), ThreeShape(), 1) && RedUncles(FourthPlace())
    ensures Inserted(Three(), KEYS, FourthPlace(), 5, Four())
    ensures At(Four(), Top(2), FourShape()) && !Balanced(FourShape())
  {
    FourthOverturns();
    InsertFirst();
    InsertSecond();
    DeleteFirst();
    InsertAgain();
    InsertThird();
    PlaceThree();
    InsertFourth();
    TurnAtRoot();
  }
}
