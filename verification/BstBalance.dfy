// Day-Stout-Warren balancing of src/base/config_bst.cc on shapes: vines, compression
// and the height that comes out.
module BstBalance {
  import opened TreeShape

  ghost function Size(t: Shape): nat {
    if t.Leaf? then 0 else Size(t.l) + 1 + Size(t.r)
  }

  lemma {:induction false} SizeOrder(t: Shape)
    ensures Size(t) == |Inorder(t)|
  {
    if t.Bin? {
      SizeOrder(t.l);
      SizeOrder(t.r);
    }
  }

  lemma RotSize(t: Shape)
    requires t.Bin?
    ensures t.r.Bin? ==> Size(RotL(t)) == Size(t) && Size(RotL(t).r) < Size(t.r)
    ensures t.l.Bin? ==> Size(RotR(t)) == Size(t) && Size(RotR(t).l) < Size(t.l)
  {
    if t.r.Bin? {
      assert Size(RotL(t)) == Size(RotL(t).l) + 1 + Size(t.r.r);
    }
    if t.l.Bin? {
      assert Size(RotR(t)) == Size(t.l.l) + 1 + Size(RotR(t).r);
    }
  }

  // A tree whose nodes have no right subtree.
  ghost predicate Vine(t: Shape) {
    t.Bin? ==> t.r.Leaf? && Vine(t.l)
  }

  // The done part of the vine.
  ghost predicate VinePath(p: Path) {
    !p.Top? ==> p.InLeft? && p.r.Leaf? && VinePath(p.up)
  }

  lemma {:induction false} VineDone(p: Path, t: Shape)
    requires VinePath(p) && Vine(t)
    ensures Vine(Zip(p, t))
  {
    if !p.Top? {
      VineDone(p.up, Bin(t, p.n, p.red, p.r));
    }
  }

  // The first `k` nodes of the left spine have right subtrees of height at most `h`,
  // and so has what hangs below them.
  ghost predicate Vined(t: Shape, k: nat, h: nat) {
    if k == 0 then Height(t) <= h
    else t.Bin? && Height(t.r) <= h && Vined(t.l, k - 1, h)
  }

  lemma {:induction false} VineVined(t: Shape)
    requires Vine(t)
    ensures Vined(t, Size(t), 0)
  {
    if t.Bin? {
      VineVined(t.l);
    }
  }

  // `count` right rotations, each one node further down the left spine.
  ghost predicate Compressible(t: Shape, count: nat) {
    count > 0 ==> t.Bin? && t.l.Bin? && Compressible(t.l.l, count - 1)
  }

  ghost function Compress(t: Shape, count: nat): Shape
    requires Compressible(t, count)
  {
    if count == 0 then t
    else Bin(Compress(t.l.l, count - 1), t.l.n, t.l.red, Bin(t.l.r, t.n, t.red, t.r))
  }

  lemma {:induction false} CompressOrder(t: Shape, count: nat)
    requires Compressible(t, count)
    ensures Inorder(Compress(t, count)) == Inorder(t)
  {
    if count > 0 {
      CompressOrder(t.l.l, count - 1);
      RotRKeeps(t);
    }
  }

  // The compression that removes the incomplete bottom level.
  lemma {:induction false} CompressLeaves(t: Shape, k: nat, count: nat)
    requires Vined(t, k, 0) && 2 * count <= k
    ensures Compressible(t, count)
    ensures Vined(Compress(t, count), k - count, if count > 0 then 1 else 0)
  {
    if count > 0 {
      CompressLeaves(t.l.l, k - 2, count - 1);
      if count == 1 {
        VinedMore(t.l.l, k - 2, 0, 1);
      }
    }
  }

  lemma {:induction false} VinedMore(t: Shape, k: nat, h: nat, h': nat)
    requires Vined(t, k, h) && h <= h'
    ensures Vined(t, k, h')
  {
    if k > 0 {
      VinedMore(t.l, k - 1, h, h');
    }
  }

  // A pass halves the spine and adds one level.
  lemma {:induction false} CompressPass(t: Shape, count: nat, h: nat)
    requires Vined(t, 2 * count + 1, h)
    ensures Compressible(t, count)
    ensures Vined(Compress(t, count), count, h + 1)
  {
    if count > 0 {
      CompressPass(t.l.l, count - 1, h);
    }
  }

  // Bitwise and of natural numbers
  function And(x: nat, y: nat): nat
    decreases x + y
  {
    if x == 0 || y == 0 then 0 else 2 * And(x / 2, y / 2) + (if x % 2 == 1 && y % 2 == 1 then 1 else 0)
  }

  ghost function Log2(x: nat): nat
    requires x > 0
  {
    if x == 1 then 0 else 1 + Log2(x / 2)
  }

  lemma {:induction false} Log2Bounds(x: nat)
    requires x > 0
    ensures Pow2(Log2(x)) <= x < 2 * Pow2(Log2(x))
  {
    if x > 1 {
      Log2Bounds(x / 2);
    }
  }

  lemma {:induction false} AndSelf(x: nat)
    ensures And(x, x) == x
  {
    if x > 0 {
      AndSelf(x / 2);
    }
  }

  // x & (x - 1) clears the lowest bit.
  lemma {:induction false} AndPred(x: nat)
    requires x > 0
    ensures And(x, x - 1) < x
    ensures And(x, x - 1) == 0 ==> x == Pow2(Log2(x))
    ensures And(x, x - 1) > 0 ==> Log2(And(x, x - 1)) == Log2(x)
  {
    var y := x / 2;
    if x % 2 == 1 {
      assert (x - 1) / 2 == y;
      AndSelf(y);
    } else {
      assert (x - 1) / 2 == y - 1;
      AndPred(y);
      assert x > 1;
      if y - 1 == 0 {
        assert And(x, x - 1) == 0;
      } else {
        assert And(x, x - 1) == 2 * And(y, y - 1);
      }
    }
  }

  // What the passes need to know about the number of nodes: `2^k - 1` of them make
  // full levels, the rest is the incomplete bottom level.
  lemma Levels(n: nat)
    ensures var k := Log2(n + 1); var leaves := n + 1 - Pow2(k);
      && 0 <= leaves < Pow2(k) && 2 * leaves <= n && n - leaves == Pow2(k) - 1
      && (n >= 1 ==> k >= 1 && Pow2(k - 1) <= n)
      && (if leaves > 0 then Pow2(k) <= n < Pow2(k + 1) else n < Pow2(k))
  {
    Log2Bounds(n + 1);
  }

  lemma HalfOfOnes(j: nat)
    requires j >= 1
    ensures (Pow2(j) - 1) / 2 == Pow2(j - 1) - 1 && Pow2(j) - 1 == 2 * (Pow2(j - 1) - 1) + 1
  {
  }

  // How many nodes make the bottom level, and the height that the passes arrive at.
  ghost function Leaves(n: nat): nat {
    Log2Bounds(n + 1);
    n + 1 - Pow2(Log2(n + 1))
  }

  ghost function FinalHeight(n: nat): nat {
    Log2(n + 1) + (if Leaves(n) > 0 then 1 else 0) + (if n == 0 then 1 else 0)
  }

  lemma FinalHeightFits(n: nat)
    requires n >= 1
    ensures FinalHeight(n) >= 1 && Log2(n + 1) >= 1 && Pow2(FinalHeight(n) - 1) <= n < Pow2(FinalHeight(n))
  {
    Levels(n);
  }

  lemma VineReady(t: Shape, n: nat)
    requires Vine(t) && n == |Inorder(t)|
    ensures Compressible(t, Leaves(n)) && Leaves(n) <= n && n - Leaves(n) == Pow2(Log2(n + 1)) - 1
    ensures Inorder(Compress(t, Leaves(n))) == Inorder(t)
    ensures Vined(Compress(t, Leaves(n)), n - Leaves(n), if Leaves(n) > 0 then 1 else 0)
  {
    SizeOrder(t);
    VineVined(t);
    Levels(n);
    CompressLeaves(t, n, Leaves(n));
    CompressOrder(t, Leaves(n));
  }
}
