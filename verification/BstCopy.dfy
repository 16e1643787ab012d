// bst_copy of src/base/config_bst.cc: a second tree of the same shape, built with an
// explicit stack of pairs of nodes.
module BstCopy {
  import opened TreeShape
  import opened BstBalance
  import opened BstTrail
  import opened BstMemory
  import opened BstTable
  import opened BstTraverser

  // The table that is being built: its links, its items, and the next free address.
  datatype Twin = Twin(mem: Memory, key: map<Ref, int>, payload: map<Ref, nat>, next: Ref)

  // What is copied: keys, payloads, and what becomes of a payload.
  datatype Source = Source(key: map<Ref, int>, payload: map<Ref, nat>, copy: nat -> nat)

  ghost predicate Clean(w: Twin) {
    NULL !in w.mem && HEAD in w.mem && (forall n :: n in w.mem ==> n < w.next) && HEAD < w.next
  }

  ghost predicate Copied(o: Source, w: Twin, n: Ref, n': Ref) {
    && n in o.key && n in o.payload && n' in w.key && n' in w.payload
    && w.key[n'] == o.key[n] && w.payload[n'] == o.copy(o.payload[n])
  }

  // `u` is a tree of the twin with the shape and the items of `t`.
  ghost predicate Mirrors(o: Source, w: Twin, t: Shape, u: Shape) {
    match t
    case Leaf => u.Leaf?
    case Bin(l, n, _, r) =>
      && u.Bin? && u.n in w.mem && w.mem[u.n] == Links(RootOf(u.l), RootOf(u.r)) && Copied(o, w, n, u.n)
      && Mirrors(o, w, l, u.l) && Mirrors(o, w, r, u.r)
  }

  // `q` is the copy of the way `p` as far as it is built: where the way goes to the left,
  // only the left link is there yet.
  ghost predicate Follows(o: Source, w: Twin, p: Path, q: Path, hole: Ref) {
    match p
    case Top(_) => q == Top(HEAD) && HEAD in w.mem && w.mem[HEAD].left == hole
    case InLeft(up, _, _, _) =>
      && q.InLeft? && q.r == Leaf && q.n in w.mem && w.mem[q.n].left == hole && Follows(o, w, up, q.up, q.n)
    case InRight(up, l, n, _) =>
      && q.InRight? && q.n in w.mem && w.mem[q.n] == Links(RootOf(q.l), hole) && Copied(o, w, n, q.n)
      && Mirrors(o, w, l, q.l) && Follows(o, w, up, q.up, q.n)
  }

  // The twin has not changed at `ns`.
  ghost predicate Kept(w: Twin, w': Twin, ns: set<Ref>) {
    forall n :: n in ns ==>
      && (n in w.mem ==> n in w'.mem && w'.mem[n] == w.mem[n])
      && (n in w.key ==> n in w'.key && w'.key[n] == w.key[n])
      && (n in w.payload ==> n in w'.payload && w'.payload[n] == w.payload[n])
  }

  lemma {:induction false} MirrorsKept(o: Source, w: Twin, w': Twin, t: Shape, u: Shape)
    requires Mirrors(o, w, t, u) && Kept(w, w', Nodes(u))
    ensures Mirrors(o, w', t, u)
  {
    if t.Bin? {
      MirrorsKept(o, w, w', t.l, u.l);
      MirrorsKept(o, w, w', t.r, u.r);
    }
  }

  lemma {:induction false} FollowsKept(o: Source, w: Twin, w': Twin, p: Path, q: Path, hole: Ref)
    requires Follows(o, w, p, q, hole) && Kept(w, w', PathNodes(q) + {HEAD})
    ensures Follows(o, w', p, q, hole)
  {
    match p
    case Top(_) =>
    case InLeft(up, _, _, _) => FollowsKept(o, w, w', up, q.up, q.n);
    case InRight(up, l, _, _) => MirrorsKept(o, w, w', l, q.l); FollowsKept(o, w, w', up, q.up, q.n);
  }

  lemma {:induction false} MirrorsNodes(o: Source, w: Twin, t: Shape, u: Shape)
    requires Mirrors(o, w, t, u)
    ensures Nodes(u) <= w.mem.Keys && Size(t) == Size(u) && Rep(w.mem, u)
      && (RootOf(u) == NULL ==> t.Leaf? || NULL in w.mem)
  {
    if t.Bin? {
      MirrorsNodes(o, w, t.l, u.l);
      MirrorsNodes(o, w, t.r, u.r);
    }
  }

  // The same shape with the copied items, node by node.
  lemma {:induction false} MirrorsInorder(o: Source, w: Twin, t: Shape, u: Shape)
    requires Mirrors(o, w, t, u)
    ensures |Inorder(u)| == |Inorder(t)|
    ensures forall i :: 0 <= i < |Inorder(t)| ==> Copied(o, w, Inorder(t)[i], Inorder(u)[i])
  {
    if t.Bin? {
      MirrorsInorder(o, w, t.l, u.l);
      MirrorsInorder(o, w, t.r, u.r);
      forall i | 0 <= i < |Inorder(t)| ensures Copied(o, w, Inorder(t)[i], Inorder(u)[i]) {
        var k := |Inorder(t.l)|;
        if i < k {
          assert Inorder(t)[i] == Inorder(t.l)[i] && Inorder(u)[i] == Inorder(u.l)[i];
        } else if i > k {
          assert Inorder(t)[i] == Inorder(t.r)[i - k - 1] && Inorder(u)[i] == Inorder(u.r)[i - k - 1];
        }
      }
    }
  }

  // The way to a place of the twin, and what hangs there, are in order.
  ghost predicate Sound(w: Twin, q: Path, u: Shape) {
    && Clean(w) && Placed(q, u, NULL) && Above(q) == HEAD && PathNodes(q) + Nodes(u) <= w.mem.Keys
  }

  // Where the copying stands: the node `c.n` and its copy `y`, which has no links yet.
  ghost predicate Standing(o: Source, w: Twin, p: Path, q: Path, c: Shape, y: Ref) {
    c.Bin? && y != NULL && Sound(w, q, Bin(Leaf, y, false, Leaf)) && Follows(o, w, p, q, y)
  }

  // The left subtree of the node is copied: `d`.
  ghost predicate Visiting(o: Source, w: Twin, p: Path, q: Path, c: Shape, y: Ref, d: Shape) {
    && c.Bin? && y in w.mem && y != NULL && Sound(w, q, Bin(d, y, false, Leaf)) && Follows(o, w, p, q, y)
    && Mirrors(o, w, c.l, d) && w.mem[y].left == RootOf(d)
  }

  // The node and both of its subtrees are copied: `u`.
  ghost predicate Complete(o: Source, w: Twin, p: Path, q: Path, c: Shape, u: Shape) {
    Sound(w, q, u) && Follows(o, w, p, q, RootOf(u)) && Mirrors(o, w, c, u)
  }

  // The stack: the nodes above whose right subtree is still to come, with their copies.
  ghost function Pairs(p: Path, q: Path): (s: seq<(Ref, Ref)>)
    ensures |s| <= |Stack(p)| + 1
  {
    match p
    case Top(_) => [(HEAD, HEAD)]
    case InLeft(up, n, _, _) => if q.InLeft? then Pairs(up, q.up) + [(n, q.n)] else []
    case InRight(up, _, _, _) => if q.InRight? then Pairs(up, q.up) else []
  }

  ghost function ToVisit(p: Path, c: Shape): nat { |Inorder(c)| + |After(p)| }

  // A new node of the twin.
  function Allocate(w: Twin): Twin { w.(mem := w.mem[w.next := Links(NULL, NULL)], next := w.next + 1) }

  lemma DownStep(o: Source, w: Twin, p: Path, q: Path, c: Shape, y: Ref)
    requires Standing(o, w, p, q, c, y) && c.l.Bin?
    ensures var w1 := Allocate(w);
      && y in w1.mem && y != w.next
      && Standing(o, w1.(mem := SetLeft(w1.mem, y, w.next)), InLeft(p, c.n, c.red, c.r), InLeft(q, y, false, Leaf),
        c.l, w.next)
  {
    var w1 := Allocate(w);
    var w2 := w1.(mem := SetLeft(w1.mem, y, w.next));
    FollowsKept(o, w, w2, p, q, y);
  }

  lemma LeftDone(o: Source, w: Twin, p: Path, q: Path, c: Shape, y: Ref)
    requires Standing(o, w, p, q, c, y) && c.l.Leaf?
    ensures y in w.mem && Visiting(o, w.(mem := SetLeft(w.mem, y, NULL)), p, q, c, y, Leaf)
  {
    FollowsKept(o, w, w.(mem := SetLeft(w.mem, y, NULL)), p, q, y);
  }

  // The item of the node.
  function WithItem(w: Twin, y: Ref, k: int, data: nat): Twin {
    w.(key := w.key[y := k], payload := w.payload[y := data])
  }

  lemma ItemDone(o: Source, w: Twin, p: Path, q: Path, c: Shape, y: Ref, d: Shape)
    requires Visiting(o, w, p, q, c, y, d) && c.n in o.key && c.n in o.payload
    ensures var w' := WithItem(w, y, o.key[c.n], o.copy(o.payload[c.n]));
      Visiting(o, w', p, q, c, y, d) && Copied(o, w', c.n, y)
  {
    var w' := WithItem(w, y, o.key[c.n], o.copy(o.payload[c.n]));
    FollowsKept(o, w, w', p, q, y);
    MirrorsKept(o, w, w', c.l, d);
  }

  lemma RightStep(o: Source, w: Twin, p: Path, q: Path, c: Shape, y: Ref, d: Shape)
    requires Visiting(o, w, p, q, c, y, d) && c.r.Bin? && Copied(o, w, c.n, y)
    ensures var w1 := Allocate(w);
      && y in w1.mem && y != w.next
      && Standing(o, w1.(mem := SetRight(w1.mem, y, w.next)), InRight(p, c.l, c.n, c.red), InRight(q, d, y, false),
        c.r, w.next)
  {
    var w1 := Allocate(w);
    var w2 := w1.(mem := SetRight(w1.mem, y, w.next));
    FollowsKept(o, w, w2, p, q, y);
    MirrorsKept(o, w, w2, c.l, d);
    RightRoom(w, w2, q, y, d);
  }

  lemma RightRoom(w: Twin, w2: Twin, q: Path, y: Ref, d: Shape)
    requires Sound(w, q, Bin(d, y, false, Leaf)) && y in w.mem
    requires var w1 := Allocate(w); y in w1.mem && w2 == w1.(mem := SetRight(w1.mem, y, w.next))
    ensures Sound(w2, InRight(q, d, y, false), Bin(Leaf, w.next, false, Leaf))
  {
    assert w.next !in w.mem && w2.mem.Keys == w.mem.Keys + {w.next};
  }

  lemma NodeDone(o: Source, w: Twin, p: Path, q: Path, c: Shape, y: Ref, d: Shape)
    requires Visiting(o, w, p, q, c, y, d) && c.r.Leaf? && Copied(o, w, c.n, y)
    ensures Complete(o, w.(mem := SetRight(w.mem, y, NULL)), p, q, c, Bin(d, y, false, Leaf))
  {
    var w' := w.(mem := SetRight(w.mem, y, NULL));
    FollowsKept(o, w, w', p, q, y);
    MirrorsKept(o, w, w', c.l, d);
  }

  // Up over the nodes that are complete when their right subtree is.
  lemma {:induction false} Close(o: Source, w: Twin, m: Memory, p: Path, q: Path, c: Shape, u: Shape)
    returns (p': Path, q': Path, c': Shape, u': Shape)
    requires Complete(o, w, p, q, c, u) && At(m, p, c)
    ensures Complete(o, w, p', q', c', u') && At(m, p', c') && !p'.InRight?
    ensures Zip(p', c') == Zip(p, c) && Pairs(p', q') == Pairs(p, q) && After(p') == After(p)
    decreases p
  {
    if p.InRight? {
      GoUp(m, p, c);
      var v := Bin(q.l, q.n, false, u);
      assert Sound(w, q.up, v);
      p', q', c', u' := Close(o, w, m, p.up, q.up, Bin(p.l, p.n, p.red, c), v);
    } else {
      p', q', c', u' := p, q, c, u;
    }
  }

  lemma PopStep(o: Source, w: Twin, m: Memory, p: Path, q: Path, c: Shape, u: Shape)
    requires Complete(o, w, p, q, c, u) && At(m, p, c) && p.InLeft?
    ensures q.InLeft? && Pairs(p, q) == Pairs(p.up, q.up) + [(p.n, q.n)]
    ensures Visiting(o, w, p.up, q.up, Bin(c, p.n, p.red, p.r), q.n, u) && At(m, p.up, Bin(c, p.n, p.red, p.r))
  {
    GoUp(m, p, c);
    assert Sound(w, q.up, Bin(u, q.n, false, Leaf));
  }

  lemma {:induction false} PairsSome(o: Source, w: Twin, p: Path, q: Path, hole: Ref)
    requires Follows(o, w, p, q, hole)
    ensures |Pairs(p, q)| >= 1
  {
    if !p.Top? {
      PairsSome(o, w, p.up, q.up, q.n);
    }
  }

  lemma WayDown(p: Path, q: Path, c: Shape, y: Ref)
    requires c.Bin?
    ensures var p', q' := InLeft(p, c.n, c.red, c.r), InLeft(q, y, false, Leaf);
      && Pairs(p', q') == Pairs(p, q) + [(c.n, y)] && Zip(p', c.l) == Zip(p, c)
      && (c.l.Bin? ==> ToVisit(p', c.l) == ToVisit(p, c))
  {
  }

  // The loop that copies left links, as far as the stack has room.
  method Down(m: Memory, before: Twin, x0: Ref, y0: Ref, pairs: seq<(Ref, Ref)>, ghost o: Source, ghost p0: Path,
      ghost q0: Path, ghost c0: Shape)
    returns (full: bool, w: Twin, x: Ref, y: Ref, stack: seq<(Ref, Ref)>, ghost p: Path, ghost q: Path, ghost c: Shape)
    requires At(m, p0, c0) && Standing(o, before, p0, q0, c0, y0) && x0 == c0.n && pairs == Pairs(p0, q0)
    ensures full ==> Height(Zip(p0, c0)) > MAX_HEIGHT
    ensures !full ==>
      At(m, p, c) && Zip(p, c) == Zip(p0, c0) && Visiting(o, w, p, q, c, y, Leaf) && x == c.n && c.l.Leaf?
    ensures !full ==> stack == Pairs(p, q) && ToVisit(p, c) == ToVisit(p0, c0)
  {
    full, w, x, y, stack := false, before, x0, y0, pairs;
    p, q, c := p0, q0, c0;
    RootNull(m, c.l);
    while m[x].left != NULL
      invariant At(m, p, c) && Zip(p, c) == Zip(p0, c0) && Standing(o, w, p, q, c, y) && x == c.n
      invariant stack == Pairs(p, q) && ToVisit(p, c) == ToVisit(p0, c0)
      invariant m[x].left == NULL <==> c.l.Leaf?
      decreases c
    {
      if |stack| >= MAX_HEIGHT + 1 {
        DeepPath(m, p, c);
        full := true;
        return;
      }
      DownStep(o, w, p, q, c, y);
      DownLeft(m, p, c);
      WayDown(p, q, c, y);
      var n := w.next;
      w := Allocate(w);
      w := w.(mem := w.mem[y := w.mem[y].(left := n)]);
      stack := stack + [(x, y)];
      x, y := m[x].left, n;
      p, q, c := InLeft(p, c.n, c.red, c.r), InLeft(q, stack[|stack| - 1].1, false, Leaf), c.l;
      RootNull(m, c.l);
    }
    LeftDone(o, w, p, q, c, y);
    w := w.(mem := w.mem[y := w.mem[y].(left := NULL)]);
  }

  // The loop that copies items, up to a node with a right subtree or to the end.
  method Up(m: Memory, o: Source, before: Twin, x0: Ref, y0: Ref, pairs: seq<(Ref, Ref)>, ghost p0: Path,
      ghost q0: Path, ghost c0: Shape, ghost d0: Shape)
    returns (done: bool, w: Twin, x: Ref, y: Ref, stack: seq<(Ref, Ref)>, ghost p: Path, ghost q: Path, ghost c: Shape,
      ghost u: Shape)
    requires At(m, p0, c0) && Visiting(o, before, p0, q0, c0, y0, d0) && x0 == c0.n && pairs == Pairs(p0, q0)
    requires forall n :: n in Nodes(Zip(p0, c0)) ==> n in o.key && n in o.payload
    ensures done ==> Complete(o, w, Top(HEAD), Top(HEAD), Zip(p0, c0), u)
    ensures !done ==>
      At(m, p, c) && Zip(p, c) == Zip(p0, c0) && Standing(o, w, p, q, c, y) && x == c.n && stack == Pairs(p, q)
    ensures !done ==> ToVisit(p, c) <= |Inorder(c0.r)| + |After(p0)|
  {
    done, w, x, y, stack := false, before, x0, y0, pairs;
    p, q, c, u := p0, q0, c0, Leaf;
    ghost var d := d0;
    while true
      invariant At(m, p, c) && Zip(p, c) == Zip(p0, c0) && Visiting(o, w, p, q, c, y, d) && x == c.n
        && stack == Pairs(p, q)
      invariant |Inorder(c.r)| + |After(p)| <= |Inorder(c0.r)| + |After(p0)|
      decreases |stack|
    {
      ZipNodes(p, c);
      ItemDone(o, w, p, q, c, y, d);
      w := WithItem(w, y, o.key[x], o.copy(o.payload[x]));
      RootNull(m, c.r);
      if m[x].right != NULL {
        RightStep(o, w, p, q, c, y, d);
        DownRight(m, p, c);
        var n := w.next;
        w := Allocate(w);
        w := w.(mem := w.mem[y := w.mem[y].(right := n)]);
        p, q, c := InRight(p, c.l, c.n, c.red), InRight(q, d, y, false), c.r;
        x, y := m[x].right, n;
        return;
      }
      NodeDone(o, w, p, q, c, y, d);
      w := w.(mem := w.mem[y := w.mem[y].(right := NULL)]);
      p, q, c, u := Close(o, w, m, p, q, c, Bin(d, y, false, Leaf));
      Finished(o, w, p, q, RootOf(u));
      if |stack| <= 1 {
        done := true;
        return;
      }
      PopStep(o, w, m, p, q, c, u);
      y, x := stack[|stack| - 1].1, stack[|stack| - 1].0;
      stack := stack[..|stack| - 1];
      p, q, c, d := p.up, q.up, Bin(c, p.n, p.red, p.r), u;
    }
  }

  lemma Finished(o: Source, w: Twin, p: Path, q: Path, hole: Ref)
    requires Follows(o, w, p, q, hole) && !p.InRight?
    ensures |Pairs(p, q)| <= 1 <==> p.Top?
    ensures p.Top? ==> q == Top(HEAD)
  {
    if p.InLeft? {
      PairsSome(o, w, p.up, q.up, q.n);
    }
  }

  ghost function TwinOf(table: Table): Twin
    reads table
  {
    Twin(table.mem, table.key, table.payload, 0)
  }

  // A new table with the same items, each passed through `copy`, in a tree of the same
  // shape. When the stack has no room the original is balanced and the copying starts
  // again; false when that cannot be done.
  method Copy(org: Table, copy: nat -> nat) returns (fits: bool, item: Table)
    requires org.Valid()
    modifies org`mem, org`t, org`generation
    ensures fresh(item) && (org.count < 0x1_0000_0000 ==> fits)
    ensures fits ==> org.Valid() && Inorder(org.t) == Inorder(old(org.t))
    ensures fits ==> item.Valid() && item.count == org.count
    ensures fits ==> Mirrors(Source(org.key, org.payload, copy), TwinOf(item), org.t, item.t)
    ensures fits && Height(old(org.t)) <= MAX_HEIGHT ==> org.t == old(org.t)
    decreases if Height(org.t) > MAX_HEIGHT then 1 else 0
  {
    item := new Table();
    fits := true;
    if org.count == 0 {
      return;
    }
    var o := Source(org.key, org.payload, copy);
    var full, w;
    ghost var u;
    full, w, u := CopyNodes(org, o);
    if full {
      fits := org.Balance();
      if fits {
        fits, item := Copy(org, copy);
      }
      return;
    }
    TwinValid(o, w, org.t, u);
    item.mem, item.key, item.payload, item.count, item.t := w.mem, w.key, w.payload, org.count, u;
    MirrorsKept(o, w, TwinOf(item), org.t, u);
  }

  lemma FirstNode(w: Twin, y: Ref)
    requires w.mem.Keys == {HEAD, y} && y > HEAD && y < w.next
    ensures Sound(w, Top(HEAD), Bin(Leaf, y, false, Leaf))
  {
    var u := Bin(Leaf, y, false, Leaf);
    assert Nodes(u.l) == {} && Nodes(u.r) == {} && Nodes(u) == {y};
    assert Apart(u.l) && Apart(u.r) && Apart(u);
    assert PathNodes(Top(HEAD)) == {} && Above(Top(HEAD)) == HEAD && PathApart(Top(HEAD));
    assert Placed(Top(HEAD), u, NULL);
    assert forall n :: n in w.mem ==> n == HEAD || n == y;
  }

  method CopyNodes(org: Table, o: Source) returns (full: bool, w: Twin, ghost u: Shape)
    requires org.Valid() && org.count != 0 && o.key == org.key && o.payload == org.payload
    ensures full ==> Height(org.t) > MAX_HEIGHT
    ensures !full ==> Complete(o, w, Top(HEAD), Top(HEAD), org.t, u)
  {
    // The first turn of the loop, at the root field.
    w := Allocate(Twin(map[HEAD := Links(NULL, NULL)], map[], map[], HEAD + 1));
    var x: Ref, y: Ref := org.mem[HEAD].left, HEAD + 1;
    w := w.(mem := w.mem[HEAD := w.mem[HEAD].(left := y)]);
    var stack := [(HEAD, HEAD)];
    ghost var p, q, c := Top(HEAD), Top(HEAD), org.t;
    u := Leaf;
    FirstNode(w, y);
    var done := false;
    while !done
      invariant !done ==>
        At(org.mem, p, c) && Zip(p, c) == org.t && Standing(o, w, p, q, c, y) && x == c.n && stack == Pairs(p, q)
      invariant done ==> Complete(o, w, Top(HEAD), Top(HEAD), org.t, u)
      decreases if done then 0 else 1 + ToVisit(p, c)
    {
      full, w, x, y, stack, p, q, c := Down(org.mem, w, x, y, stack, o, p, q, c);
      if full {
        return;
      }
      done, w, x, y, stack, p, q, c, u := Up(org.mem, o, w, x, y, stack, p, q, c, Leaf);
    }
    full := false;
  }

  // The twin of a sorted tree is sorted.
  lemma TwinValid(o: Source, w: Twin, t: Shape, u: Shape)
    requires Complete(o, w, Top(HEAD), Top(HEAD), t, u) && Growing(o.key, Inorder(t))
    ensures At(w.mem, Top(HEAD), u) && |Inorder(u)| == |Inorder(t)| && Growing(w.key, Inorder(u))
    ensures Nodes(u) <= w.key.Keys && Nodes(u) <= w.payload.Keys
  {
    MirrorsNodes(o, w, t, u);
    MirrorsInorder(o, w, t, u);
    var s, s' := Inorder(t), Inorder(u);
    forall i | 0 <= i < |s| ensures s[i] in o.key && s'[i] in w.key && s'[i] in w.payload
      && w.key[s'[i]] == o.key[s[i]] {
      assert Copied(o, w, s[i], s'[i]);
    }
    forall n | n in Nodes(u) ensures n in w.key && n in w.payload {
      InorderNodes(u, n);
    }
  }
}
