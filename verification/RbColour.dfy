// The colours of a red-black tree: equal black heights and no red node under a red one.
module RbColour {
  import opened TreeShape

  // Red-black balance

  ghost predicate Red(t: Shape) { t.Bin? && t.red }

  ghost function Black(t: Shape): Shape { if t.Bin? then t.(red := false) else t }

  ghost function One(red: bool): nat { if red then 0 else 1 }

  ghost function BlackHeight(t: Shape): nat {
    if t.Leaf? then 0 else BlackHeight(t.l) + One(t.red)
  }

  // Every way down from a node passes the same number of black nodes.
  ghost predicate Balanced(t: Shape) {
    t.Bin? ==> Balanced(t.l) && Balanced(t.r) && BlackHeight(t.l) == BlackHeight(t.r)
  }

  // No red node has a red child.
  ghost predicate NoRedRed(t: Shape) {
    t.Bin? ==> NoRedRed(t.l) && NoRedRed(t.r) && (t.red ==> !Red(t.l) && !Red(t.r))
  }

  ghost predicate RedBlack(t: Shape) { Balanced(t) && NoRedRed(t) && !Red(t) }

  // A subtree of black height `h` in the hole makes everything balanced.
  ghost predicate PathBalanced(p: Path, h: nat) {
    match p
    case Top(_) => true
    case InLeft(up, _, red, r) => Balanced(r) && BlackHeight(r) == h && PathBalanced(up, h + One(red))
    case InRight(up, l, _, red) => Balanced(l) && BlackHeight(l) == h && PathBalanced(up, h + One(red))
  }

  // The hole wants a black node: it is the root, or hangs under a red node.
  ghost predicate WantsBlack(p: Path) {
    match p
    case Top(_) => true
    case InLeft(_, _, red, _) => red
    case InRight(_, _, _, red) => red
  }

  ghost predicate PathNoRedRed(p: Path) {
    match p
    case Top(_) => true
    case InLeft(up, _, red, r) => PathNoRedRed(up) && NoRedRed(r) && (red ==> !Red(r) && !WantsBlack(up))
    case InRight(up, l, _, red) => PathNoRedRed(up) && NoRedRed(l) && (red ==> !Red(l) && !WantsBlack(up))
  }

  lemma {:induction false} ZipRedBlack(p: Path, t: Shape)
    requires Balanced(t) && PathBalanced(p, BlackHeight(t))
    requires NoRedRed(t) && PathNoRedRed(p) && (Red(t) ==> !WantsBlack(p))
    ensures RedBlack(Zip(p, t))
  {
    match p
    case Top(_) =>
    case InLeft(up, n, red, r) => ZipRedBlack(up, Bin(t, n, red, r));
    case InRight(up, l, n, red) => ZipRedBlack(up, Bin(l, n, red, t));
  }

  // The other way round: a place in a red-black tree.
  lemma {:induction false} UnzipRedBlack(p: Path, t: Shape)
    requires RedBlack(Zip(p, t))
    ensures Balanced(t) && PathBalanced(p, BlackHeight(t))
    ensures NoRedRed(t) && PathNoRedRed(p) && (Red(t) ==> !WantsBlack(p))
  {
    match p
    case Top(_) =>
    case InLeft(up, n, red, r) => UnzipRedBlack(up, Bin(t, n, red, r));
    case InRight(up, l, n, red) => UnzipRedBlack(up, Bin(l, n, red, t));
  }

  lemma {:induction false} HeightBound(t: Shape)
    requires Balanced(t) && NoRedRed(t)
    ensures Height(t) <= 2 * BlackHeight(t) + 1 - One(Red(t))
    ensures Pow2(BlackHeight(t)) <= |Inorder(t)| + 1
  {
    if t.Bin? {
      HeightBound(t.l);
      HeightBound(t.r);
    }
  }

  lemma SquareMono(b: nat, n: nat)
    requires b <= n
    ensures b * b <= n * n
  {
  }

  // The height of a red-black tree is at most 2 * log2(n + 1).
  lemma HeightLogarithmic(t: Shape)
    requires RedBlack(t)
    ensures Pow2(Height(t)) <= (|Inorder(t)| + 1) * (|Inorder(t)| + 1)
  {
    HeightBound(t);
    Pow2Mono(Height(t), BlackHeight(t) + BlackHeight(t));
    Pow2Add(BlackHeight(t), BlackHeight(t));
    SquareMono(Pow2(BlackHeight(t)), |Inorder(t)| + 1);
  }
}
