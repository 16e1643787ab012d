// The binary search tree of src/base/config_bst.cc.
module BstTable {
  import opened TreeShape
  import opened TreeOrder
  import opened BstBalance
  import opened BstTrail
  import opened BstMemory

  const MAX_HEIGHT := 32

  function Compare(a: int, b: int): int { if a < b then -1 else if a > b then 1 else 0 }

  lemma SameInside(p: Path, t: Shape, t': Shape)
    requires Inorder(t) == Inorder(t')
    ensures Inorder(Zip(p, t)) == Inorder(Zip(p, t'))
  {
    InorderZip(p, t);
    InorderZip(p, t');
  }

  // No tree is lower than its number of nodes allows.
  lemma {:induction false} SizeBound(t: Shape)
    ensures Size(t) < Pow2(Height(t))
  {
    if t.Bin? {
      SizeBound(t.l);
      SizeBound(t.r);
      Pow2Mono(Height(t.l), Max(Height(t.l), Height(t.r)));
      Pow2Mono(Height(t.r), Max(Height(t.l), Height(t.r)));
    }
  }

  // Bounds on the number of nodes settle the height.
  lemma HeightSettled(t: Shape, h: nat)
    requires h >= 1 && Height(t) <= h && Pow2(h - 1) <= Size(t)
    ensures Height(t) == h
    ensures forall u: Shape :: Size(u) == Size(t) ==> h <= Height(u)
  {
    forall u: Shape | Size(u) == Size(t) ensures h <= Height(u) {
      SizeBound(u);
      if Height(u) < h {
        Pow2Mono(Height(u), h - 1);
      }
    }
  }

  lemma Pow2Order(h: nat, n: nat)
    requires h >= 1 && Pow2(h - 1) <= n < Pow2(h)
    ensures h <= MAX_HEIGHT <==> n < 0x1_0000_0000
  {
    assert Pow2(32) == 0x1_0000_0000 by {
      Pow2Add(16, 16);
      Pow2Add(8, 8);
      assert Pow2(8) == 256;
    }
    if h <= 32 {
      Pow2Mono(h, 32);
    } else {
      Pow2Mono(32, h - 1);
    }
  }

  ghost predicate Holds(key: map<Ref, int>, t: Shape, n: Ref, k: int) {
    n in Nodes(t) && n in key && key[n] == k
  }

  class Table {
    var mem: Memory
    var key: map<Ref, int>
    var payload: map<Ref, nat>
    var count: nat
    var generation: nat
    ghost var t: Shape

    ghost predicate Valid()
      reads this
    {
      && At(mem, Top(HEAD), t) && count == |Inorder(t)|
      && Growing(key, Inorder(t)) && Nodes(t) <= key.Keys && Nodes(t) <= payload.Keys
    }

    constructor ()
      ensures Valid() && t == Leaf && generation == 0
    {
      mem, key, payload := map[HEAD := Links(NULL, NULL)], map[], map[];
      count, generation, t := 0, 0, Leaf;
    }

    // Searching

    method Find(k: int) returns (r: Ref)
      requires Valid()
      ensures r != NULL ==> r in Nodes(t) && r in key && key[r] == k
      ensures r == NULL ==> forall n :: n in Nodes(t) ==> n in key && key[n] != k
    {
      var p := mem[HEAD].left;
      ghost var path, c := Top(HEAD), t;
      GrowingSorted(key, Inorder(t));
      while p != NULL
        invariant At(mem, path, c) && Zip(path, c) == t && p == RootOf(c)
        invariant Outside(key, path, k, false)
        decreases c
      {
        OutsideDown(key, path, c, k, false);
        var cmp := Compare(k, key[p]);
        if cmp < 0 {
          p := mem[p].left;
          DownLeft(mem, path, c);
          path, c := InLeft(path, c.n, c.red, c.r), c.l;
        } else if cmp > 0 {
          p := mem[p].right;
          DownRight(mem, path, c);
          path, c := InRight(path, c.l, c.n, c.red), c.r;
        } else {
          ZipNodes(path, c);
          return p;
        }
      }
      NotFound(key, path, k);
      r := NULL;
    }

    // The node of an item with key `k`, or the link where it belongs.
    method Position(k: int) returns (p: Ref, q: Ref, dir: int, ghost path: Path)
      requires Valid()
      ensures p != NULL ==> Holds(key, t, p, k)
      ensures p == NULL ==> At(mem, path, Leaf) && Zip(path, Leaf) == t && Outside(key, path, k, false)
      ensures p == NULL ==> q == (if path.Top? then NULL else Up(path)) && (path.Top? || (dir == 1) == path.InRight?)
      ensures p == NULL ==> forall n :: !Holds(key, t, n, k)
    {
      q, p, dir := NULL, mem[HEAD].left, 0;
      path := Top(HEAD);
      ghost var c := t;
      GrowingSorted(key, Inorder(t));
      while p != NULL
        invariant At(mem, path, c) && Zip(path, c) == t && p == RootOf(c)
        invariant Outside(key, path, k, false)
        invariant q == if path.Top? then NULL else Up(path)
        invariant path.Top? || (dir == 1) == path.InRight?
        decreases c
      {
        OutsideDown(key, path, c, k, false);
        var cmp := Compare(k, key[p]);
        if cmp == 0 {
          ZipNodes(path, c);
          return;
        }
        dir := if cmp > 0 then 1 else 0;
        q := p;
        if dir == 0 {
          p := mem[p].left;
          DownLeft(mem, path, c);
          path, c := InLeft(path, c.n, c.red, c.r), c.l;
        } else {
          p := mem[p].right;
          DownRight(mem, path, c);
          path, c := InRight(path, c.l, c.n, c.red), c.r;
        }
      }
      NotFound(key, path, k);
    }

    // Insertion: the node of an equal item, or a new node from the allocator.
    method Probe(k: int, data: nat, node: Ref) returns (r: Ref)
      requires Valid() && node !in mem && node != NULL
      modifies this
      ensures Valid() && generation == old(generation) && Nodes(old(t)) <= Nodes(t)
      ensures Holds(key, t, r, k)
      ensures SameTrails(old(t), t)
      ensures forall n :: n in Nodes(old(t)) ==> key[n] == old(key[n]) && payload[n] == old(payload[n])
      ensures if (exists n :: Holds(old(key), old(t), n, k))
              then t == old(t) && r in Nodes(old(t))
              else r == node && payload[r] == data && Nodes(t) == Nodes(old(t)) + {node} && node !in Nodes(old(t))
    {
      var q, dir;
      ghost var path;
      r, q, dir, path := Position(k);
      if r != NULL {
        SameTrailsSelf();
      } else {
        Hang(node, q, dir, path, k, data);
        r := node;
      }
    }

    // A new node at the end of `path`.
    method Hang(node: Ref, q: Ref, dir: int, ghost path: Path, k: int, data: nat)
      requires Valid() && node !in mem && node != NULL
      requires At(mem, path, Leaf) && Zip(path, Leaf) == t && Outside(key, path, k, false)
      requires q == (if path.Top? then NULL else Up(path)) && (path.Top? || (dir == 1) == path.InRight?)
      modifies this
      ensures Valid() && generation == old(generation) && SameTrails(old(t), t)
      ensures Nodes(t) == Nodes(old(t)) + {node} && node !in Nodes(old(t))
      ensures key == old(key)[node := k] && payload == old(payload)[node := data]
    {
      Linked(path, node, k);
      count := count + 1;
      mem, key, payload := mem[node := Links(NULL, NULL)], key[node := k], payload[node := data];
      if q != NULL {
        mem := if dir == 1 then mem[q := mem[q].(right := node)] else mem[q := mem[q].(left := node)];
      } else {
        mem := mem[HEAD := mem[HEAD].(left := node)];
      }
      t := Zip(path, Bin(Leaf, node, false, Leaf));
    }

    lemma SameTrailsSelf()
      ensures SameTrails(t, t)
    {
    }

    lemma Linked(p: Path, n: Ref, k: int)
      requires Valid() && At(mem, p, Leaf) && Zip(p, Leaf) == t && Outside(key, p, k, false)
      requires n !in mem && n != NULL
      ensures var t' := Zip(p, Bin(Leaf, n, false, Leaf)); var m1 := mem[n := Links(NULL, NULL)];
        && Up(p) in m1 && At(Plug(m1, p, n), Top(HEAD), t') && Nodes(t') == Nodes(t) + {n} && n !in Nodes(t)
        && |Inorder(t')| == count + 1 && Growing(key[n := k], Inorder(t')) && SameTrails(t, t')
    {
      var t', m1 := Zip(p, Bin(Leaf, n, false, Leaf)), mem[n := Links(NULL, NULL)];
      HangAt(mem, p, n);
      GoTop(Plug(m1, p, n), p, Bin(Leaf, n, false, Leaf));
      ZipNodes(p, Leaf);
      ZipNodes(p, Bin(Leaf, n, false, Leaf));
      RepNodes(mem, t);
      SameTrailsZip(p, Leaf, Bin(Leaf, n, false, Leaf));
      GrowingFresh(key, Inorder(t), n, k);
      OutsideFresh(p, n, k);
      GrowingInsert(key[n := k], p, n, false);
    }

    lemma OutsideFresh(p: Path, n: Ref, k: int)
      requires Valid() && Zip(p, Leaf) == t && Outside(key, p, k, false) && n !in Nodes(t)
      ensures Outside(key[n := k], p, k, false)
    {
      InorderZip(p, Leaf);
      forall m | m in Before(p) || m in After(p) ensures m != n {
        assert m in Inorder(t);
        InorderNodes(t, m);
      }
    }

    lemma GrowingFresh(key: map<Ref, int>, s: seq<Ref>, n: Ref, k: int)
      requires Growing(key, s) && n !in Nodes(t) && s == Inorder(t)
      ensures Growing(key[n := k], s)
    {
      InorderNodes(t, n);
    }

    // Insertion without and with replacement of an equal item.
    method Insert(k: int, data: nat, node: Ref) returns (duplicate: bool)
      requires Valid() && node !in mem && node != NULL
      modifies this
      ensures Valid() && generation == old(generation) && Nodes(old(t)) <= Nodes(t)
      ensures forall n :: n in Nodes(old(t)) ==> key[n] == old(key[n]) && payload[n] == old(payload[n])
      ensures duplicate ==> t == old(t) && exists n :: Holds(key, t, n, k) && payload[n] != data
      ensures !duplicate ==> exists n :: Holds(key, t, n, k) && payload[n] == data
      ensures t == old(t) || (Nodes(t) == Nodes(old(t)) + {node} && Holds(key, t, node, k) && payload[node] == data)
    {
      var p := Probe(k, data, node);
      duplicate := payload[p] != data;
    }

    method Replace(k: int, data: nat, node: Ref) returns (replaced: bool, previous: nat)
      requires Valid() && node !in mem && node != NULL
      modifies this
      ensures Valid() && generation == old(generation) && Nodes(old(t)) <= Nodes(t)
      ensures exists r :: Holds(key, t, r, k) && payload[r] == data
      ensures forall n :: n in Nodes(old(t)) ==> key[n] == old(key[n]) && (payload[n] == old(payload[n]) || key[n] == k)
      ensures replaced ==> t == old(t) && exists r :: Holds(key, t, r, k) && old(payload[r]) == previous
      ensures t == old(t) || Nodes(t) == Nodes(old(t)) + {node}
    {
      var p := Probe(k, data, node);
      replaced, previous := payload[p] != data, payload[p];
      if replaced {
        payload := payload[p := data];
      }
    }

    // The node of the item with key `k` and the link that leads to it.
    method Descend(k: int) returns (p: Ref, q: Ref, dir: int, ghost path: Path, ghost c: Shape)
      requires Valid()
      ensures p == NULL ==> forall n :: !Holds(key, t, n, k)
      ensures p != NULL ==> Holds(key, t, p, k) && At(mem, path, c) && Zip(path, c) == t && c.Bin? && p == c.n
      ensures p != NULL ==> q == Up(path) && (dir == 1) == path.InRight?
    {
      var cmp := -1;
      p, q, dir := HEAD, HEAD, 0;
      path, c := Top(HEAD), t;
      GrowingSorted(key, Inorder(t));
      while cmp != 0
        invariant At(mem, path, c) && Zip(path, c) == t && Outside(key, path, k, false)
        invariant cmp != 0 ==> p == Up(path) && (cmp > 0) == path.InRight?
        invariant cmp == 0 ==>
          c.Bin? && p == c.n && q == Up(path) && (dir == 1) == path.InRight? && p in key && key[p] == k
        decreases c, if cmp == 0 then 0 else 1
      {
        PathInMemory(mem, path, RootOf(c));
        dir := if cmp > 0 then 1 else 0;
        q := p;
        p := if dir == 1 then mem[p].right else mem[p].left;
        if p == NULL {
          NotFound(key, path, k);
          return;
        }
        OutsideDown(key, path, c, k, false);
        cmp := Compare(k, key[p]);
        if cmp < 0 {
          DownLeft(mem, path, c);
          path, c := InLeft(path, c.n, c.red, c.r), c.l;
        } else if cmp > 0 {
          DownRight(mem, path, c);
          path, c := InRight(path, c.l, c.n, c.red), c.r;
        }
      }
      ZipNodes(path, c);
    }

    // Deletion of the item with key `k`; the data that was stored with it.
    method Delete(k: int) returns (found: bool, data: nat, ghost y: Ref)
      requires Valid()
      modifies `mem, `t, `count, `generation
      ensures Valid()
      ensures found <==> exists n :: Holds(old(key), old(t), n, k)
      ensures !found ==> t == old(t) && generation == old(generation)
      ensures found ==> Holds(old(key), old(t), y, k) && data == payload[y] && generation == old(generation) + 1
      ensures found ==>
        Inorder(t) == Without(Inorder(old(t)), y) && Nodes(t) == Nodes(old(t)) - {y} && NoDeeper(old(t), t)
      ensures found ==> mem.Keys == old(mem.Keys) - {y}
    {
      var p, q, dir;
      ghost var path, c;
      p, q, dir, path, c := Descend(k);
      if p == NULL {
        return false, 0, NULL;
      }
      assert Holds(old(key), old(t), p, k);
      found, data, y := true, payload[p], p;
      Unlink(p, q, dir, path, c);
      Unlinked(path, c);
      t := Zip(path, Joined(c.l, c.red, c.r));
      mem := mem - {p};
      count := count - 1;
      generation := generation + 1;
    }

    // What the caller of Unlink knows of the new tree.
    lemma Unlinked(p: Path, c: Shape)
      requires Placed(p, c, NULL) && c.Bin? && Zip(p, c) == t && count == |Inorder(t)| && Growing(key, Inorder(t))
      ensures var t' := Zip(p, Joined(c.l, c.red, c.r));
        && Inorder(t') == Without(Inorder(t), c.n) && Nodes(t') == Nodes(t) - {c.n} && NoDeeper(t, t')
        && Growing(key, Inorder(t')) && |Inorder(t')| == count - 1
    {
      DeletedOrder(p, c);
      ZipNodes(p, c);
      ZipNodes(p, Joined(c.l, c.red, c.r));
      JoinedOrder(c.l, c.n, c.red, c.r);
      JoinedNoDeeper(c.l, c.n, c.red, c.r);
      NoDeeperZip(p, c, Joined(c.l, c.red, c.r));
      GrowingWithout(key, Inorder(t), c.n);
      InorderNodes(t, c.n);
    }

    // Takes the node in the hole out of the links.
    method Unlink(p: Ref, q: Ref, dir: int, ghost path: Path, ghost c: Shape)
      requires At(mem, path, c) && c.Bin? && p == c.n && q == Up(path) && (dir == 1) == path.InRight?
      modifies `mem
      ensures mem.Keys == old(mem.Keys)
      ensures At(mem - {p}, Top(HEAD), Zip(path, Joined(c.l, c.red, c.r)))
    {
      var top := Join(p, c);
      JoinedAt(old(mem), mem, path, c);
      mem := if dir == 1 then mem[q := mem[q].(right := top)] else mem[q := mem[q].(left := top)];
      FreeAt(mem, path, Joined(c.l, c.red, c.r), p);
      GoTop(mem - {p}, path, Joined(c.l, c.red, c.r));
    }

    // Makes one tree of the two subtrees of `p`.
    method Join(p: Ref, ghost c: Shape) returns (top: Ref)
      requires Rep(mem, c) && Apart(c) && c.Bin? && p == c.n && NULL !in mem
      modifies `mem
      ensures c.n in old(mem) && Prepared(old(mem), mem, c) && mem.Keys == old(mem.Keys)
      ensures top == RootOf(Joined(c.l, c.red, c.r))
    {
      RootNull(mem, c.r);
      if mem[p].right == NULL {
        top := mem[p].left;
      } else {
        var r := mem[p].right;
        assert Rep(mem, c.r);
        RootNull(mem, c.r.l);
        if mem[r].left == NULL {
          mem := mem[r := mem[r].(left := mem[p].left)];
          top := r;
        } else {
          var s;
          r, s := LeastBelow(r, c.r);
          mem := mem[r := mem[r].(left := mem[s].right)];
          mem := mem[s := mem[s].(left := mem[p].left)];
          mem := mem[s := mem[s].(right := mem[p].right)];
          FarLinks(old(mem), mem, c);
          top := s;
        }
      }
    }

    method LeastBelow(top: Ref, ghost c: Shape) returns (r: Ref, s: Ref)
      requires Rep(mem, c) && Apart(c) && c.Bin? && c.l.Bin? && NULL !in mem && top == c.n
      ensures r == MinFather(c) && s == MinNode(c) && r in mem && s in mem && r != s && r in Nodes(c) && s in Nodes(c)
    {
      r := top;
      ghost var d := c;
      DropMinRep(mem, c);
      while true
        invariant Rep(mem, d) && d.Bin? && d.l.Bin? && r == d.n && MinFather(d) == MinFather(c)
          && MinNode(d) == MinNode(c)
        decreases d
      {
        assert Rep(mem, d.l);
        RootNull(mem, d.l.l);
        s := mem[r].left;
        if mem[s].left == NULL {
          break;
        }
        r := s;
        d := d.l;
      }
    }

    lemma FarLinks(m0: Memory, m: Memory, c: Shape)
      requires c.Bin? && Apart(c) && Rep(m0, c) && c.r.Bin? && c.r.l.Bin?
      requires var r, s := MinFather(c.r), MinNode(c.r);
        && r in m0 && s in m0 && r != s && r in Nodes(c.r) && s in Nodes(c.r) && c.n in m0
        && var m1 := m0[r := m0[r].(left := m0[s].right)];
        && var m2 := m1[s := m1[s].(left := m1[c.n].left)];
        m == m2[s := m2[s].(right := m2[c.n].right)]
      ensures Prepared(m0, m, c)
    {
    }

    // Balancing

    method TreeToVine()
      requires At(mem, Top(HEAD), t)
      modifies `mem, `t
      ensures At(mem, Top(HEAD), t) && Vine(t) && Inorder(t) == Inorder(old(t)) && mem.Keys == old(mem.Keys)
    {
      var q, p := HEAD, mem[HEAD].left;
      ghost var path, c := Top(HEAD), t;
      while p != NULL
        invariant At(mem, path, c) && VinePath(path) && q == Up(path) && p == RootOf(c)
        invariant t == old(t) && Inorder(Zip(path, c)) == Inorder(t) && mem.Keys == old(mem.Keys)
        decreases Size(c), if c.Bin? then Size(c.r) else 0
      {
        if mem[p].right == NULL {
          DownLeft(mem, path, c);
          path, c := InLeft(path, c.n, c.red, c.r), c.l;
          q := p;
          p := mem[p].left;
        } else {
          RotLAt(mem, path, c);
          RotLKeeps(c);
          RotSize(c);
          SameInside(path, c, RotL(c));
          var r := mem[p].right;
          mem := mem[p := mem[p].(right := mem[r].left)];
          mem := mem[r := mem[r].(left := p)];
          p := r;
          mem := mem[q := mem[q].(left := r)];
          c := RotL(c);
        }
      }
      GoTop(mem, path, c);
      VineDone(path, c);
      t := Zip(path, c);
    }

    // `count` rotations down the left spine.
    method CompressSpine(number: nat)
      requires At(mem, Top(HEAD), t) && Compressible(t, number)
      modifies `mem, `t
      ensures At(mem, Top(HEAD), t) && t == Compress(old(t), number) && mem.Keys == old(mem.Keys)
    {
      var root, left := HEAD, number;
      ghost var path, c := Top(HEAD), t;
      while left > 0
        invariant At(mem, path, c) && !path.InRight? && root == Up(path) && Compressible(c, left)
        invariant t == old(t) && Zip(path, Compress(c, left)) == Compress(t, number) && mem.Keys == old(mem.Keys)
      {
        left := left - 1;
        RotRInFront(mem, path, c);
        PathLink(mem, path, c);
        var red := mem[root].left;
        var black := mem[red].left;
        mem := mem[root := mem[root].(left := black)];
        mem := mem[red := mem[red].(left := mem[black].right)];
        mem := mem[black := mem[black].(right := red)];
        root := black;
        DownLeft(mem, path, RotR(c));
        path, c := InLeft(path, c.l.n, c.l.red, Bin(c.l.r, c.n, c.red, c.r)), c.l.l;
      }
      GoTop(mem, path, c);
      t := Zip(path, c);
    }

    lemma PathLink(m: Memory, p: Path, c: Shape)
      requires At(m, p, c) && !p.InRight?
      ensures Up(p) in m && m[Up(p)].left == RootOf(c)
    {
    }

    // The largest power of two that is at most `n + 1`, by clearing low bits.
    method FullLevels(n: nat) returns (leaves: nat)
      ensures leaves == Leaves(n)
    {
      leaves := n + 1;
      AndPred(leaves);
      while And(leaves, leaves - 1) != 0
        invariant 0 < leaves <= n + 1 && Log2(leaves) == Log2(n + 1)
        decreases leaves
      {
        AndPred(leaves);
        leaves := And(leaves, leaves - 1);
      }
      AndPred(leaves);
      Levels(n);
      leaves := n + 1 - leaves;
    }

    method VineToTree() returns (height: nat)
      requires At(mem, Top(HEAD), t) && Vine(t) && count == |Inorder(t)|
      modifies `mem, `t
      ensures At(mem, Top(HEAD), t) && Inorder(t) == Inorder(old(t)) && mem.Keys == old(mem.Keys)
      ensures height >= 1 && Height(t) <= height
      ensures count >= 1 ==> Pow2(height - 1) <= count < Pow2(height)
      ensures count == 0 ==> height == 1
    {
      VineReady(t, count);
      var leaves := FullLevels(count);
      CompressSpine(leaves);
      height := Passes(count - leaves, 1 + (if leaves > 0 then 1 else 0), Log2(count + 1));
      if count >= 1 {
        FinalHeightFits(count);
      }
    }

    // Halves the spine of `2^k - 1` nodes until one node is left.
    method Passes(nodes: nat, levels: nat, ghost k: nat) returns (height: nat)
      requires At(mem, Top(HEAD), t) && nodes == Pow2(k) - 1 && levels >= 1 && Vined(t, nodes, levels - 1)
      modifies `mem, `t
      ensures At(mem, Top(HEAD), t) && Inorder(t) == Inorder(old(t)) && mem.Keys == old(mem.Keys)
      ensures Height(t) <= height && height == if k == 0 then levels else levels + k - 1
    {
      var vine := nodes;
      height := levels;
      ghost var j := k;
      while vine > 1
        invariant At(mem, Top(HEAD), t) && Inorder(t) == Inorder(old(t)) && mem.Keys == old(mem.Keys)
        invariant vine == Pow2(j) - 1 && height >= 1 && Vined(t, vine, height - 1)
        invariant height + j == levels + k && (k >= 1 ==> j >= 1)
        decreases vine
      {
        HalfOfOnes(j);
        CompressPass(t, vine / 2, height - 1);
        CompressOrder(t, vine / 2);
        CompressSpine(vine / 2);
        vine := vine / 2;
        height := height + 1;
        j := j - 1;
      }
      SpineEnd(vine, j, height);
    }

    lemma SpineEnd(vine: nat, j: nat, height: nat)
      requires vine == Pow2(j) - 1 && vine <= 1 && height >= 1 && Vined(t, vine, height - 1)
      ensures Height(t) <= height && j <= 1
    {
      if j > 1 {
        assert Pow2(2) == 4;
        Pow2Mono(2, j);
      }
      if vine == 1 {
        assert Vined(t.l, 0, height - 1);
      }
    }

    // False when the table is too big and the process exits. Otherwise no tree of the
    // same nodes is lower.
    method Balance() returns (fits: bool)
      requires Valid()
      modifies `mem, `t, `generation
      ensures fits <==> count < 0x1_0000_0000
      ensures fits ==> Valid() && generation == old(generation) + 1
      ensures fits ==> Inorder(t) == Inorder(old(t)) && Height(t) <= MAX_HEIGHT
      ensures fits ==> mem.Keys == old(mem.Keys) && Nodes(t) == Nodes(old(t))
      ensures fits ==> forall u: Shape :: Size(u) == count ==> Height(t) <= Height(u)
    {
      TreeToVine();
      var height := VineToTree();
      if count >= 1 {
        Pow2Order(height, count);
        SizeOrder(t);
        HeightSettled(t, height);
      } else {
        SizeOrder(t);
      }
      SameOrderSameNodes(old(t), t);
      fits := height <= MAX_HEIGHT;
      if fits {
        generation := generation + 1;
      }
    }

    // The two writes of a rotation, and what gets smaller.
    static lemma LinksRotated(m: Memory, c: Shape)
      requires Rep(m, c) && Apart(c) && c.Bin? && m[c.n].left != NULL
      ensures c.l.Bin? && m[c.n].left == c.l.n && c.l.n in m && c.n != c.l.n
      ensures var m' := SetRight(SetLeft(m, c.n, m[c.l.n].right), c.l.n, c.n);
        Rep(m', RotR(c)) && m'.Keys == m.Keys
      ensures Apart(RotR(c)) && Inorder(RotR(c)) == Inorder(c) && Nodes(RotR(c)) == Nodes(c)
      ensures Size(RotR(c)) == Size(c) && Size(RotR(c).l) < Size(c.l)
    {
      assert Rep(m, c.l) && c.l.n in Nodes(c.l);
      RotRKeeps(c);
      RotSize(c);
      RotRRep(m, SetRight(SetLeft(m, c.n, m[c.l.n].right), c.l.n, c.n), c);
    }

    // Destruction: the nodes in the order in which their data are destroyed.
    method Destroy() returns (destroyed: seq<Ref>)
      requires Valid()
      modifies `mem
      ensures destroyed == Inorder(t) && mem.Keys == old(mem.Keys) - Nodes(t)
    {
      destroyed := [];
      var p := mem[HEAD].left;
      ghost var c := t;
      RepNodes(mem, t);
      while p != NULL
        invariant Rep(mem, c) && Apart(c) && NULL !in mem && p == RootOf(c)
        invariant destroyed + Inorder(c) == Inorder(t)
        invariant Nodes(c) <= mem.Keys && mem.Keys - Nodes(c) == old(mem.Keys) - Nodes(t)
        decreases Size(c), if c.Bin? then Size(c.l) else 0
      {
        if mem[p].left == NULL {
          var q := mem[p].right;
          destroyed := destroyed + [p];
          RepAgree(mem, mem - {p}, c.r);
          mem := mem - {p};
          p, c := q, c.r;
        } else {
          var q := mem[p].left;
          LinksRotated(mem, c);
          mem := mem[p := mem[p].(left := mem[q].right)];
          mem := mem[q := mem[q].(right := p)];
          p, c := q, RotR(c);
        }
      }
    }
  }
}
