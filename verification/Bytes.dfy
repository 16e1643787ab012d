// Bytes and little-endian words.
module Bytes {

  newtype Byte = x: int | 0 <= x < 256

  const WORD := 0x1_0000_0000

  type Word = x: int | 0 <= x < 0x1_0000_0000

  // `256` to the power of `k`.
  function Scale(k: nat): (r: nat)
    requires k < 4
    ensures r > 0
  {
    if k == 0 then 1 else if k == 1 then 0x100 else if k == 2 then 0x1_0000 else 0x100_0000
  }

  // Byte `k` of a word, the lowest one first.
  function ByteOf(w: Word, k: nat): Byte
    requires k < 4
  {
    (w / Scale(k) % 256) as Byte
  }

  function Encode(w: Word): (s: seq<Byte>)
    ensures |s| == 4
  {
    [ByteOf(w, 0), ByteOf(w, 1), ByteOf(w, 2), ByteOf(w, 3)]
  }

  function Decode(s: seq<Byte>): Word
    requires |s| == 4
  {
    s[0] as int + 0x100 * s[1] as int + 0x1_0000 * s[2] as int + 0x100_0000 * s[3] as int
  }

  // What the bytes are, by the powers of 256

  ghost function Power(k: nat): (p: nat)
    ensures p > 0
  {
    if k == 0 then 1 else 256 * Power(k - 1)
  }

  lemma Powers()
    ensures Power(0) == 1 && Power(1) == 0x100 && Power(2) == 0x1_0000 && Power(3) == 0x100_0000
  {
    assert Power(2) == 256 * Power(1) && Power(3) == 256 * Power(2);
  }

  lemma EncodeBytes(w: Word, k: nat)
    requires k < 4
    ensures Encode(w)[k] as int == w / Power(k) % 256
  {
    Powers();
  }

  ghost function ValueOf(s: seq<Byte>): nat {
    if s == [] then 0 else ValueOf(s[..|s| - 1]) + s[|s| - 1] as int * Power(|s| - 1)
  }

  // A word is the sum of its bytes, each times its power of 256.
  lemma DecodeSums(s: seq<Byte>)
    requires |s| == 4
    ensures Decode(s) == ValueOf(s)
  {
    Powers();
    assert s[..3][..2] == s[..2] && s[..2][..1] == s[..1] && s[..1][..0] == [];
    assert ValueOf(s[..1]) == s[0] as int && ValueOf(s[..2]) == s[0] as int + 0x100 * s[1] as int;
    assert ValueOf(s[..3]) == ValueOf(s[..2]) + s[2] as int * Power(2);
  }

  lemma QuotientOn(p: nat, m: int, y: nat)
    requires p > 0
    ensures (p * m + y) / p == m + y / p
  {
    var q, r := y / p, y % p;
    assert p * m + y == p * (m + q) + r;
    Divided(p, m + q, r);
  }

  lemma Divided(p: nat, q: int, r: nat)
    requires r < p
    ensures (p * q + r) / p == q
  {
    var d := (p * q + r) / p;
    if d > q {
      Product(p, q + 1, d);
    } else if d < q {
      Product(p, d + 1, q);
    }
  }

  lemma Product(p: nat, a: int, b: int)
    requires a <= b
    ensures p * a <= p * b
  {
  }

  // A byte of a number does not see what is above it.
  lemma ByteBelow(x: nat, p: nat, r: nat)
    requires p > 0 && r > 0
    ensures p * 256 * r > 0 && x % (p * 256 * r) / p % 256 == x / p % 256
  {
    Positive(p, r);
    var m := p * 256 * r;
    var q, y := x / m, x % m;
    assert x == m * q + y;
    Grouped(p, r, q);
    QuotientOn(p, 256 * (r * q), y);
    LowByteOn(r * q, y / p);
  }

  lemma LowByteOn(m: nat, y: nat)
    ensures (256 * m + y) % 256 == y % 256
  {
  }

  lemma Positive(p: nat, r: nat)
    requires p > 0 && r > 0
    ensures p * 256 * r > 0
  {
  }

  lemma Grouped(p: nat, r: nat, q: nat)
    ensures p * 256 * r * q == p * (256 * (r * q))
  {
  }

  lemma {:induction false} PowerAdd(i: nat, j: nat)
    ensures Power(i + j) == Power(i) * Power(j)
  {
    if i > 0 {
      PowerAdd(i - 1, j);
      assert Power(i + j) == 256 * Power(i - 1 + j);
    }
  }

  lemma WordPower()
    ensures Power(4) == WORD && Power(8) == WORD * WORD
  {
    Powers();
    assert Power(4) == 256 * Power(3);
    PowerAdd(4, 4);
  }

  lemma DivideTwice(x: nat, a: nat, b: nat)
    requires a > 0 && b > 0
    ensures a * b > 0 && x / a / b == x / (a * b)
  {
    var q, r := x / a, x % a;
    var q', r' := q / b, q % b;
    assert x == a * q + r && q == b * q' + r';
    Product(a, r' + 1, b);
    assert a * (b * q') == (a * b) * q';
    assert x == (a * b) * q' + (a * r' + r);
    Divided(a * b, q', a * r' + r);
  }

  // Byte `k` of a number does not see what is from power `n` on.
  lemma ByteMod(x: nat, k: nat, n: nat)
    requires k < n
    ensures x % Power(n) / Power(k) % 256 == x / Power(k) % 256
  {
    PowerAdd(k, n - k);
    assert Power(n - k) == 256 * Power(n - k - 1);
    Grouping(Power(k), Power(n - k - 1));
    ByteBelow(x, Power(k), Power(n - k - 1));
  }

  lemma Grouping(p: nat, r: nat)
    ensures p * (256 * r) == p * 256 * r
  {
  }

  // Dividing twice.
  lemma Quotients(w: nat)
    ensures w / 256 / 256 == w / 0x1_0000 && w / 0x1_0000 / 256 == w / 0x100_0000
  {
  }

  lemma LowByte(w: nat)
    ensures w == w % 256 + 256 * (w / 256)
  {
  }

  lemma DecodeEncode(w: Word)
    ensures Decode(Encode(w)) == w
  {
    Quotients(w);
    LowByte(w);
    LowByte(w / 256);
    LowByte(w / 0x1_0000);
    TopByte(w);
  }

  lemma TopByte(w: Word)
    ensures 0 <= w / 0x100_0000 < 256
  {
  }
}
