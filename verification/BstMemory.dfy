// The memory of the binary search tree of src/base/config_bst.cc: two links a node.
// The table's root field is used as the left link of a node of its own, HEAD.
module BstMemory {
  import opened TreeShape
  import opened BstTrail

  const NULL: Ref := 0
  const HEAD: Ref := 1

  datatype Links = Links(left: Ref, right: Ref)
  type Memory = map<Ref, Links>

  ghost function RootOf(t: Shape): Ref { if t.Leaf? then NULL else t.n }

  ghost predicate Rep(m: Memory, t: Shape) {
    match t
    case Leaf => true
    case Bin(l, n, _, r) => n in m && m[n] == Links(RootOf(l), RootOf(r)) && Rep(m, l) && Rep(m, r)
  }

  ghost predicate RepPath(m: Memory, p: Path, hole: Ref) {
    match p
    case Top(head) => head in m && m[head].left == hole
    case InLeft(up, n, _, r) => n in m && m[n] == Links(hole, RootOf(r)) && Rep(m, r) && RepPath(m, up, n)
    case InRight(up, l, n, _) => n in m && m[n] == Links(RootOf(l), hole) && Rep(m, l) && RepPath(m, up, n)
  }

  // The whole tree: `t` in the hole of `p`.
  ghost predicate At(m: Memory, p: Path, t: Shape) {
    Placed(p, t, NULL) && Above(p) == HEAD && NULL !in m && RepPath(m, p, RootOf(t)) && Rep(m, t)
  }

  ghost predicate Agree(m: Memory, m': Memory, ns: set<Ref>) {
    forall n :: n in ns && n in m ==> n in m' && m'[n] == m[n]
  }

  lemma {:induction false} RepAgree(m: Memory, m': Memory, t: Shape)
    requires Rep(m, t) && Agree(m, m', Nodes(t))
    ensures Rep(m', t)
  {
    if t.Bin? {
      RepAgree(m, m', t.l);
      RepAgree(m, m', t.r);
    }
  }

  lemma {:induction false} PathAgree(m: Memory, m': Memory, p: Path, hole: Ref)
    requires RepPath(m, p, hole) && Agree(m, m', PathNodes(p) + {Above(p)})
    ensures RepPath(m', p, hole)
  {
    match p
    case Top(_) =>
    case InLeft(up, n, _, r) => RepAgree(m, m', r); PathAgree(m, m', up, n);
    case InRight(up, l, n, _) => RepAgree(m, m', l); PathAgree(m, m', up, n);
  }

  lemma RootNull(m: Memory, t: Shape)
    requires Rep(m, t) && NULL !in m
    ensures RootOf(t) == NULL <==> t.Leaf?
  {
  }

  lemma {:induction false} RepNodes(m: Memory, t: Shape)
    requires Rep(m, t)
    ensures Nodes(t) <= m.Keys
  {
    if t.Bin? {
      RepNodes(m, t.l);
      RepNodes(m, t.r);
    }
  }

  lemma DownLeft(m: Memory, p: Path, t: Shape)
    requires At(m, p, t) && t.Bin?
    ensures At(m, InLeft(p, t.n, t.red, t.r), t.l)
  {
  }

  lemma DownRight(m: Memory, p: Path, t: Shape)
    requires At(m, p, t) && t.Bin?
    ensures At(m, InRight(p, t.l, t.n, t.red), t.r)
  {
  }

  lemma GoUp(m: Memory, p: Path, t: Shape)
    requires At(m, p, t) && !p.Top?
    ensures p.InLeft? ==> At(m, p.up, Bin(t, p.n, p.red, p.r))
    ensures p.InRight? ==> At(m, p.up, Bin(p.l, p.n, p.red, t))
  {
  }

  lemma {:induction false} GoTop(m: Memory, p: Path, t: Shape)
    requires At(m, p, t)
    ensures At(m, Top(HEAD), Zip(p, t))
  {
    match p
    case Top(_) =>
    case InLeft(up, n, red, r) => GoUp(m, p, t); GoTop(m, up, Bin(t, n, red, r));
    case InRight(up, l, n, red) => GoUp(m, p, t); GoTop(m, up, Bin(l, n, red, t));
  }

  // Writes

  ghost function SetLeft(m: Memory, n: Ref, v: Ref): Memory
    requires n in m
  {
    m[n := m[n].(left := v)]
  }

  ghost function SetRight(m: Memory, n: Ref, v: Ref): Memory
    requires n in m
  {
    m[n := m[n].(right := v)]
  }

  // The link into the hole leads to `v`.
  ghost function Plug(m: Memory, p: Path, v: Ref): Memory
    requires Up(p) in m
  {
    if p.InRight? then SetRight(m, Up(p), v) else SetLeft(m, Up(p), v)
  }

  lemma PlugPath(m: Memory, p: Path, hole: Ref, v: Ref)
    requires RepPath(m, p, hole) && PathApart(p) && Above(p) !in PathNodes(p)
    ensures Up(p) in m && RepPath(Plug(m, p, v), p, v)
    ensures Agree(m, Plug(m, p, v), m.Keys - {Up(p)}) && Plug(m, p, v).Keys == m.Keys
    ensures Up(p) in PathNodes(p) + {Above(p)}
  {
    var m' := Plug(m, p, v);
    match p
    case Top(_) =>
    case InLeft(up, n, _, r) => RepAgree(m, m', r); PathAgree(m, m', up, n);
    case InRight(up, l, n, _) => RepAgree(m, m', l); PathAgree(m, m', up, n);
  }

  // Another subtree in the hole, in memory outside the path.
  lemma Graft(m: Memory, m': Memory, p: Path, hole: Ref, t: Shape)
    requires RepPath(m, p, hole) && Placed(p, t, NULL) && Above(p) == HEAD && NULL !in m'
    requires Up(p) in m && m' == Plug(m, p, RootOf(t)) && Rep(m, t)
    ensures At(m', p, t)
  {
    PlugPath(m, p, hole, RootOf(t));
    RepAgree(m, m', t);
  }

  lemma RotLRep(m: Memory, m': Memory, t: Shape)
    requires t.Bin? && t.r.Bin? && Apart(t) && Rep(m, t)
    requires t.n in m && t.r.n in m && m' == SetLeft(SetRight(m, t.n, m[t.r.n].left), t.r.n, t.n)
    ensures Rep(m', RotL(t)) && Agree(m, m', m.Keys - Nodes(t))
  {
    assert Rep(m, t.r) && Apart(t.r) && Nodes(t.r) == Nodes(t.r.l) + {t.r.n} + Nodes(t.r.r);
    RepAgree(m, m', t.l);
    RepAgree(m, m', t.r.l);
    RepAgree(m, m', t.r.r);
    assert Rep(m', RotL(t).l);
  }

  lemma RotLAt(m: Memory, p: Path, t: Shape)
    requires At(m, p, t) && t.Bin? && t.r.Bin?
    ensures t.n in m && t.r.n in m && Up(p) in m && m[t.n].right == t.r.n && Up(p) !in Nodes(t)
    ensures At(Plug(SetLeft(SetRight(m, t.n, m[t.r.n].left), t.r.n, t.n), p, t.r.n), p, RotL(t))
  {
    assert Rep(m, t.r);
    var m1 := SetLeft(SetRight(m, t.n, m[t.r.n].left), t.r.n, t.n);
    RotLRep(m, m1, t);
    RotLKeeps(t);
    assert t.n in Nodes(t) && t.r.n in Nodes(t.r);
    PathAgree(m, m1, p, t.n);
    PlugPath(m, p, t.n, t.r.n);
    Graft(m1, Plug(m1, p, t.r.n), p, t.n, RotL(t));
  }

  lemma RotRRep(m: Memory, m': Memory, t: Shape)
    requires t.Bin? && t.l.Bin? && Apart(t) && Rep(m, t)
    requires t.n in m && t.l.n in m && m' == SetRight(SetLeft(m, t.n, m[t.l.n].right), t.l.n, t.n)
    ensures Rep(m', RotR(t)) && Agree(m, m', m.Keys - Nodes(t))
  {
    assert Rep(m, t.l) && Apart(t.l) && Nodes(t.l) == Nodes(t.l.l) + {t.l.n} + Nodes(t.l.r);
    RepAgree(m, m', t.r);
    RepAgree(m, m', t.l.l);
    RepAgree(m, m', t.l.r);
    assert Rep(m', RotR(t).r);
  }

  lemma RotRAt(m: Memory, p: Path, t: Shape)
    requires At(m, p, t) && t.Bin? && t.l.Bin?
    ensures t.n in m && t.l.n in m && Up(p) in m && m[t.n].left == t.l.n && Up(p) !in Nodes(t)
    ensures At(Plug(SetRight(SetLeft(m, t.n, m[t.l.n].right), t.l.n, t.n), p, t.l.n), p, RotR(t))
  {
    assert Rep(m, t.l);
    var m1 := SetRight(SetLeft(m, t.n, m[t.l.n].right), t.l.n, t.n);
    RotRRep(m, m1, t);
    RotRKeeps(t);
    assert t.n in Nodes(t) && t.l.n in Nodes(t.l);
    PathAgree(m, m1, p, t.n);
    PlugPath(m, p, t.n, t.l.n);
    Graft(m1, Plug(m1, p, t.l.n), p, t.n, RotR(t));
  }

  // Compression writes the link into the hole first.
  lemma RotRInFront(m: Memory, p: Path, t: Shape)
    requires At(m, p, t) && t.Bin? && t.l.Bin?
    ensures t.n in m && t.l.n in m && Up(p) in m && m[t.n].left == t.l.n && Up(p) !in Nodes(t)
    ensures var m1 := Plug(m, p, t.l.n);
      m1[t.l.n] == m[t.l.n] && At(SetRight(SetLeft(m1, t.n, m1[t.l.n].right), t.l.n, t.n), p, RotR(t))
  {
    RotRAt(m, p, t);
    assert t.n in Nodes(t) && t.l.n in Nodes(t.l) && t.n !in Nodes(t.l);
    var m1 := Plug(m, p, t.l.n);
    assert SetRight(SetLeft(m1, t.n, m1[t.l.n].right), t.l.n, t.n)
      == Plug(SetRight(SetLeft(m, t.n, m[t.l.n].right), t.l.n, t.n), p, t.l.n);
  }

  // Deletion

  lemma {:induction false} DropMinRep(m: Memory, t: Shape)
    requires Rep(m, t) && Apart(t) && t.Bin? && t.l.Bin?
    ensures MinFather(t) in Nodes(t) && MinNode(t) in Nodes(t) && MinFather(t) != MinNode(t)
    ensures MinFather(t) in m && MinNode(t) in m
    ensures Rep(SetLeft(m, MinFather(t), m[MinNode(t)].right), DropMin(t))
  {
    assert Rep(m, t.l);
    if t.l.l.Bin? {
      DropMinRep(m, t.l);
    } else {
      assert MinFather(t) == t.n && MinNode(t) == t.l.n && Nodes(t.l.r) <= Nodes(t.l);
      RepAgree(m, SetLeft(m, t.n, m[t.l.n].right), t.l.r);
    }
    RepAgree(m, SetLeft(m, MinFather(t), m[MinNode(t)].right), t.r);
  }

  lemma FreeAt(m: Memory, p: Path, t: Shape, n: Ref)
    requires At(m, p, t) && n !in PathNodes(p) + Nodes(t) && n != HEAD
    ensures At(m - {n}, p, t)
  {
    RepAgree(m, m - {n}, t);
    PathAgree(m, m - {n}, p, RootOf(t));
  }

  // The links that are written before `q` gets its new child.
  ghost predicate Prepared(m: Memory, m': Memory, t: Shape)
    requires t.Bin? && t.n in m
  {
    if t.r.Leaf? then m' == m
    else if t.r.l.Leaf? then t.r.n in m && m' == SetLeft(m, t.r.n, m[t.n].left)
    else
      && MinFather(t.r) in m && MinNode(t.r) in m
      && m' == SetLeft(m, MinFather(t.r), m[MinNode(t.r)].right)[MinNode(t.r) := m[t.n]]
  }

  lemma JoinedNear(m: Memory, m': Memory, t: Shape)
    requires Rep(m, t) && Apart(t) && t.Bin? && t.n in m && t.r.Bin? && t.r.l.Leaf? && Prepared(m, m', t)
    ensures Rep(m', Joined(t.l, t.red, t.r))
  {
    assert Rep(m, t.r) && Apart(t.r) && Nodes(t.r) == {t.r.n} + Nodes(t.r.r);
    RepAgree(m, m', t.l);
    RepAgree(m, m', t.r.r);
  }

  lemma JoinedFar(m: Memory, m': Memory, t: Shape)
    requires Rep(m, t) && Apart(t) && t.Bin? && t.n in m && t.r.Bin? && t.r.l.Bin? && Prepared(m, m', t)
    ensures Rep(m', Joined(t.l, t.red, t.r))
    ensures Agree(m, m', m.Keys - Nodes(t.r)) && m'.Keys == m.Keys
  {
    assert Rep(m, t.r) && Apart(t.r);
    DropMinRep(m, t.r);
    DropMinNodes(t.r);
    RepAgree(m, m', t.l);
    RepAgree(SetLeft(m, MinFather(t.r), m[MinNode(t.r)].right), m', DropMin(t.r));
    assert RootOf(DropMin(t.r)) == t.r.n;
  }

  lemma JoinedRep(m: Memory, m': Memory, t: Shape)
    requires Rep(m, t) && Apart(t) && t.Bin? && t.n in m && Prepared(m, m', t)
    ensures Rep(m', Joined(t.l, t.red, t.r))
    ensures Agree(m, m', m.Keys - Nodes(t.r)) && m'.Keys == m.Keys
  {
    if t.r.Leaf? {
    } else if t.r.l.Leaf? {
      JoinedNear(m, m', t);
    } else {
      JoinedFar(m, m', t);
    }
  }

  lemma JoinedAt(m: Memory, m': Memory, p: Path, t: Shape)
    requires At(m, p, t) && t.Bin? && Prepared(m, m', t)
    ensures var t' := Joined(t.l, t.red, t.r);
      Up(p) in m' && At(Plug(m', p, RootOf(t')), p, t') && t.n !in PathNodes(p) + Nodes(t') && t.n != HEAD
  {
    var t' := Joined(t.l, t.red, t.r);
    JoinedRep(m, m', t);
    JoinedOrder(t.l, t.n, t.red, t.r);
    assert Nodes(t.r) <= Nodes(t);
    PathAgree(m, m', p, t.n);
    PlugPath(m', p, t.n, RootOf(t'));
    Graft(m', Plug(m', p, RootOf(t')), p, t.n, t');
  }

  // Insertion

  lemma HangAt(m: Memory, p: Path, n: Ref)
    requires At(m, p, Leaf) && n !in m && n != NULL
    ensures var m1 := m[n := Links(NULL, NULL)]; Up(p) in m1 && At(Plug(m1, p, n), p, Bin(Leaf, n, false, Leaf))
  {
    var m1 := m[n := Links(NULL, NULL)];
    PathInMemory(m, p, NULL);
    PathAgree(m, m1, p, NULL);
    PlugPath(m1, p, NULL, n);
    Graft(m1, Plug(m1, p, n), p, NULL, Bin(Leaf, n, false, Leaf));
  }

  lemma {:induction false} PathInMemory(m: Memory, p: Path, hole: Ref)
    requires RepPath(m, p, hole)
    ensures PathNodes(p) + {Above(p)} <= m.Keys
  {
    match p
    case Top(_) =>
    case InLeft(up, n, _, r) => RepNodes(m, r); PathInMemory(m, up, n);
    case InRight(up, l, n, _) => RepNodes(m, l); PathInMemory(m, up, n);
  }

  lemma {:induction false} Locate(m: Memory, p: Path, t: Shape, n: Ref) returns (p': Path, t': Shape)
    requires At(m, p, t) && n in Nodes(t)
    ensures At(m, p', t') && t'.Bin? && t'.n == n && Zip(p', t') == Zip(p, t)
    decreases t
  {
    if t.n == n {
      p', t' := p, t;
    } else if n in Nodes(t.l) {
      DownLeft(m, p, t);
      p', t' := Locate(m, InLeft(p, t.n, t.red, t.r), t.l, n);
    } else {
      DownRight(m, p, t);
      p', t' := Locate(m, InRight(p, t.l, t.n, t.red), t.r, n);
    }
  }
}
