// The stream side of src/libconhash/md5.c: how a message that comes in pieces is cut into
// blocks, counted and padded (RFC 1321, sections 3.1 and 3.2). What a block does to the
// digest is a function `process` that is not looked into.
module Md5Stream {
  import opened Bytes
  import opened Common

  const BLOCK := 64

  datatype Digest = Digest(a: Word, b: Word, c: Word, d: Word)

  type Process = (Digest, seq<Byte>) -> Digest

  const INITIAL := Digest(0x67452301, 0xefcdab89, 0x98badcfe, 0x10325476)

  // The digest after the whole blocks of `s`.
  ghost function Blocks(process: Process, h: Digest, s: seq<Byte>): Digest
    decreases |s|
  {
    if |s| < BLOCK then h else Blocks(process, process(h, s[..BLOCK]), s[BLOCK..])
  }

  // What is left behind the whole blocks.
  ghost function Tail(s: seq<Byte>): (t: seq<Byte>)
    ensures |t| < BLOCK
    decreases |s|
  {
    if |s| < BLOCK then s else Tail(s[BLOCK..])
  }

  lemma {:induction false} TailSize(s: seq<Byte>)
    ensures |Tail(s)| == |s| % BLOCK
    decreases |s|
  {
    if |s| >= BLOCK {
      TailSize(s[BLOCK..]);
      ModAdd(|s| / BLOCK, |s| % BLOCK);
    }
  }

  // More of the message only needs the digest and what is left so far.
  lemma {:induction false} Resume(process: Process, h: Digest, s: seq<Byte>, d: seq<Byte>)
    ensures Blocks(process, h, s + d) == Blocks(process, Blocks(process, h, s), Tail(s) + d)
    ensures Tail(s + d) == Tail(Tail(s) + d)
    decreases |s|
  {
    if |s| >= BLOCK {
      assert (s + d)[..BLOCK] == s[..BLOCK] && (s + d)[BLOCK..] == s[BLOCK..] + d;
      Resume(process, process(h, s[..BLOCK]), s[BLOCK..], d);
    }
  }

  lemma ModAdd(q: int, r: int)
    requires 0 <= r < BLOCK
    ensures (BLOCK * q + r) % BLOCK == r
  {
  }

  // The blocks of a message one after the other.
  ghost function Fold(process: Process, h: Digest, blocks: seq<seq<Byte>>): Digest
    decreases |blocks|
  {
    if blocks == [] then h else Fold(process, process(h, blocks[0]), blocks[1..])
  }

  lemma {:induction false} BlocksFold(process: Process, h: Digest, blocks: seq<seq<Byte>>, rest: seq<Byte>)
    requires (forall i :: 0 <= i < |blocks| ==> |blocks[i]| == BLOCK) && |rest| < BLOCK
    ensures Blocks(process, h, Flat(blocks) + rest) == Fold(process, h, blocks) && Tail(Flat(blocks) + rest) == rest
    decreases |blocks|
  {
    if blocks == [] {
      assert Flat(blocks) + rest == rest;
    } else {
      var s := Flat(blocks) + rest;
      assert s[..BLOCK] == blocks[0] && s[BLOCK..] == Flat(blocks[1..]) + rest;
      BlocksFold(process, process(h, blocks[0]), blocks[1..], rest);
    }
  }

  // The message length in bits as two words.
  ghost function CountLow(n: nat): Word { 8 * n % WORD }

  ghost function CountHigh(n: nat): Word { 8 * n / WORD % WORD }

  ghost function Carry(x: nat, y: nat): nat { if x % WORD + y % WORD >= WORD then 1 else 0 }

  lemma QuotientSum(x: nat, y: nat)
    ensures (x + y) / WORD == x / WORD + y / WORD + Carry(x, y)
    ensures (x + y) % WORD == (x % WORD + y % WORD) % WORD
  {
    var q, r := x / WORD + y / WORD, x % WORD + y % WORD;
    assert x + y == WORD * q + r;
    if r >= WORD {
      Quotient(q + 1, r - WORD);
    } else {
      Quotient(q, r);
    }
  }

  lemma Quotient(q: nat, r: nat)
    requires r < WORD
    ensures (WORD * q + r) / WORD == q && (WORD * q + r) % WORD == r
  {
  }

  // Reducing in between does not matter.
  lemma ReduceOnce(x: nat, y: nat)
    ensures (x % WORD + y) % WORD == (x + y) % WORD
  {
    QuotientSum(x, y);
    QuotientSum(x % WORD, y);
  }

  // The carry of the addition is right, whatever the lengths.
  lemma CountAdds(n: nat, more: nat, low: Word, high: Word)
    requires more < 0x8000_0000
    requires low == (CountLow(n) + 8 * more % WORD) % WORD
    requires high == (CountHigh(n) + more / 0x2000_0000 + if low < 8 * more % WORD then 1 else 0) % WORD
    ensures low == CountLow(n + more) && high == CountHigh(n + more)
  {
    var x, y := 8 * n, 8 * more;
    EightTimes(more);
    QuotientSum(x, y);
    OverflowShows(x % WORD, y % WORD);
    ReduceOnce(x / WORD, y / WORD + Carry(x, y));
    assert 8 * (n + more) == x + y;
  }

  lemma EightTimes(n: nat)
    ensures 8 * n / WORD == n / 0x2000_0000
  {
  }

  // An overflow of the low word shows in the sum.
  lemma OverflowShows(a: Word, b: Word)
    ensures (a + b) % WORD < b <==> a + b >= WORD
  {
  }

  // The message with its padding: a one bit, zero bits, and the length in bits as 64 bits.
  ghost function Zeros(n: nat): nat { (55 - n) % BLOCK }

  ghost function Padding(n: nat): (s: seq<Byte>)
    ensures |s| == Zeros(n) + 9
  {
    [0x80] + seq(Zeros(n), _ => 0) + LengthField(8 * n % (WORD * WORD))
  }

  ghost function LengthField(bits: nat): (s: seq<Byte>)
    requires bits < WORD * WORD
    ensures |s| == 8
  {
    Encode(bits % WORD) + Encode(bits / WORD)
  }

  // Sections 3.1 and 3.2: 64 bits less than whole blocks, then the length.
  lemma PaddedFits(n: nat)
    ensures (n + 1 + Zeros(n)) % BLOCK == 56 && Zeros(n) < BLOCK
    ensures (n + |Padding(n)|) % BLOCK == 0
  {
    var q, r := n / BLOCK, n % BLOCK;
    assert n == BLOCK * q + r;
    if r <= 55 {
      ModAdd(-q, 55 - r);
      assert Zeros(n) == 55 - r;
      ModAdd(q, 56);
      ModAdd(q + 1, 0);
    } else {
      ModAdd(-q - 1, 119 - r);
      assert Zeros(n) == 119 - r;
      ModAdd(q + 1, 56);
      ModAdd(q + 2, 0);
    }
  }

  // The place in the block and the number of zeros can be taken from the low word.
  lemma LowTells(n: nat)
    ensures CountLow(n) / 8 % BLOCK == n % BLOCK
    ensures (55 - CountLow(n) / 8) % BLOCK == Zeros(n)
  {
    var k := 8 * n / WORD;
    assert 8 * n == WORD * k + CountLow(n);
    assert n == 0x2000_0000 * k + CountLow(n) / 8;
    var low := CountLow(n) / 8;
    var q, r := low / BLOCK, low % BLOCK;
    assert n == BLOCK * (0x80_0000 * k + q) + r;
    ModAdd(0x80_0000 * k + q, r);
    var z := (55 - low) % BLOCK;
    var p := (55 - low) / BLOCK;
    assert 55 - low == BLOCK * p + z;
    assert 55 - n == BLOCK * (p - 0x80_0000 * k) + z;
    ModAdd(p - 0x80_0000 * k, z);
  }

  // The length field, read as a number, is the number of bits modulo 2^64.
  lemma LengthReads(n: nat)
    ensures var f := LengthField(8 * n % (WORD * WORD));
      Decode(f[..4]) + WORD * Decode(f[4..]) == 8 * n % (WORD * WORD)
  {
    var bits := 8 * n % (WORD * WORD);
    DecodeEncode(bits % WORD);
    DecodeEncode(bits / WORD);
    assert LengthField(bits)[..4] == Encode(bits % WORD) && LengthField(bits)[4..] == Encode(bits / WORD);
  }

  // The bytes of the padding, as section 3 of RFC 1321 has them: a one bit, zeros, and the
  // length in bits, low byte first.
  lemma LengthBytes(n: nat, k: nat)
    requires k < 8
    ensures LengthField(8 * n % (WORD * WORD))[k] as int == 8 * n / Power(k) % 256
  {
    WordPower();
    var x := 8 * n;
    var bits := x % Power(8);
    ByteMod(x, k, 8);
    if k < 4 {
      EncodeBytes(bits % WORD, k);
      ByteMod(bits, k, 4);
    } else {
      EncodeBytes(bits / WORD, k - 4);
      DivideTwice(bits, WORD, Power(k - 4));
      PowerAdd(4, k - 4);
    }
  }

  // `padded` is a message of `n` bytes and behind it what the standard asks for.
  ghost predicate Padded(padded: seq<Byte>, n: nat) {
    && |padded| % BLOCK == 0 && n + 9 <= |padded| < n + 9 + BLOCK && padded[n] == 0x80
    && (forall i :: n < i < |padded| - 8 ==> padded[i] == 0)
    && (forall k :: 0 <= k < 8 ==> padded[|padded| - 8 + k] as int == 8 * n / Power(k) % 256)
  }

  lemma PaddingBytes(message: seq<Byte>)
    ensures Padded(message + Padding(|message|), |message|)
  {
    var n := |message|;
    var padded, field := message + Padding(n), LengthField(8 * n % (WORD * WORD));
    PaddedFits(n);
    forall k | 0 <= k < 8 ensures padded[|padded| - 8 + k] as int == 8 * n / Power(k) % 256 {
      LengthBytes(n, k);
      assert padded[|padded| - 8 + k] == field[k];
    }
  }

  function WordOf(h: Digest, i: nat): Word
    requires i < 4
  {
    if i == 0 then h.a else if i == 1 then h.b else if i == 2 then h.c else h.d
  }

  lemma DigestBytes(h: Digest, i: nat, k: nat)
    requires i < 4 && k < 4
    ensures (Encode(h.a) + Encode(h.b) + Encode(h.c) + Encode(h.d))[4 * i + k] as int == WordOf(h, i) / Power(k) % 256
  {
    EncodeBytes(WordOf(h, i), k);
  }

  lemma CountWords(n: nat)
    ensures var bits := 8 * n % (WORD * WORD); bits % WORD == CountLow(n) && bits / WORD == CountHigh(n)
  {
    var x := 8 * n;
    assert x == WORD * (x / WORD) + x % WORD;
    var q := x / WORD;
    assert q == WORD * (q / WORD) + q % WORD;
    var bits := WORD * (q % WORD) + x % WORD;
    assert x == WORD * WORD * (q / WORD) + bits && 0 <= bits < WORD * WORD;
    Remainder(q / WORD, bits);
    Quotient(q % WORD, x % WORD);
  }

  lemma Remainder(q: nat, r: nat)
    requires r < WORD * WORD
    ensures (WORD * WORD * q + r) % (WORD * WORD) == r
  {
  }

  class State {
    const process: Process
    const buf: array<Byte>
    var low: Word
    var high: Word
    var abcd: Digest

    // Everything that was appended.
    ghost var message: seq<Byte>

    ghost predicate Valid()
      reads this, buf
    {
      && buf.Length == BLOCK && low == CountLow(|message|) && high == CountHigh(|message|)
      && abcd == Blocks(process, INITIAL, message) && buf[..|Tail(message)|] == Tail(message)
    }

    constructor (process: Process)
      ensures Valid() && message == [] && this.process == process && fresh(buf)
    {
      this.process, buf := process, new Byte[BLOCK](_ => 0);
      low, high, abcd, message := 0, 0, INITIAL, [];
    }

    method Append(data: seq<Byte>)
      requires Valid() && |data| < 0x8000_0000
      modifies this, buf
      ensures Valid() && message == old(message) + data
    {
      LowTells(|message|);
      var nbytes := |data|;
      var offset := low / 8 % BLOCK;
      if nbytes <= 0 {
        assert message + data == message;
        return;
      }
      TailSize(message);
      Resume(process, INITIAL, message, data);
      AddLength(nbytes);
      Absorb(data, offset, Tail(message));
      message := message + data;
    }

    method AddLength(nbytes: nat)
      requires nbytes < 0x8000_0000 && low == CountLow(|message|) && high == CountHigh(|message|)
      modifies `low, `high
      ensures low == CountLow(|message| + nbytes) && high == CountHigh(|message| + nbytes)
    {
      var nbits: Word := 8 * nbytes % WORD;
      high := (high + nbytes / 0x2000_0000) % WORD;
      low := (low + nbits) % WORD;
      if low < nbits {
        ReduceOnce(old(high) + nbytes / 0x2000_0000, 1);
        high := (high + 1) % WORD;
      }
      CountAdds(|message|, nbytes, low, high);
    }

    // Fills up a block that has been begun with `waiting`, processes whole blocks, keeps
    // the rest.
    method Absorb(data: seq<Byte>, offset: nat, ghost waiting: seq<Byte>)
      requires buf.Length == BLOCK && |data| > 0 && offset == |waiting| < BLOCK && buf[..offset] == waiting
      modifies `abcd, buf
      ensures abcd == Blocks(process, old(abcd), waiting + data)
      ensures buf[..|Tail(waiting + data)|] == Tail(waiting + data)
    {
      var p, left := 0, |data|;
      if offset > 0 {
        var copy := if offset + left > BLOCK then BLOCK - offset else left;
        forall k | 0 <= k < copy {
          buf[offset + k] := data[k];
        }
        assert buf[..offset + copy] == waiting + data[..copy];
        if offset + copy < BLOCK {
          assert data[..copy] == data;
          return;
        }
        assert (waiting + data)[..BLOCK] == buf[..] && (waiting + data)[BLOCK..] == data[copy..];
        p, left := copy, left - copy;
        abcd := process(abcd, buf[..]);
      } else {
        assert waiting + data == data[p..];
      }
      WholeBlocks(data, p);
    }

    // The whole blocks of `data` from place `from` on, and the rest.
    method WholeBlocks(data: seq<Byte>, from: nat)
      requires buf.Length == BLOCK && from <= |data|
      modifies `abcd, buf
      ensures abcd == Blocks(process, old(abcd), data[from..]) && buf[..|Tail(data[from..])|] == Tail(data[from..])
    {
      var p, left := from, |data| - from;
      while left >= BLOCK
        invariant 0 <= left == |data| - p
        invariant Blocks(process, abcd, data[p..]) == Blocks(process, old(abcd), data[from..])
        invariant Tail(data[p..]) == Tail(data[from..])
      {
        assert data[p..][..BLOCK] == data[p..p + BLOCK] && data[p..][BLOCK..] == data[p + BLOCK..];
        abcd := process(abcd, data[p..p + BLOCK]);
        p, left := p + BLOCK, left - BLOCK;
      }
      if left > 0 {
        forall k | 0 <= k < left {
          buf[k] := data[p + k];
        }
      }
      assert buf[..left] == data[p..];
    }

    // Pads the message, appends its length, and gives out the digest.
    method Finish() returns (digest: seq<Byte>)
      requires Valid()
      modifies this, buf
      ensures var padded := old(message) + Padding(|old(message)|);
        && Valid() && message == padded && |padded| % BLOCK == 0
        && abcd == Blocks(process, INITIAL, padded)
      ensures old(message) <= message && Padded(message, |old(message)|)
      ensures digest == Encode(abcd.a) + Encode(abcd.b) + Encode(abcd.c) + Encode(abcd.d)
      ensures |digest| == 16 && forall i, k ::
        0 <= i < 4 && 0 <= k < 4 ==> digest[4 * i + k] as int == WordOf(abcd, i) / Power(k) % 256
    {
      ghost var n := |message|;
      var data := Encode(low) + Encode(high);
      CountWords(n);
      LowTells(n);
      var zeros := (55 - low / 8) % BLOCK;
      assert zeros == Zeros(n);
      var pad: seq<Byte> := [0x80] + seq(zeros, _ => 0);
      Append(pad);
      Append(data);
      PaddedFits(n);
      assert message == old(message) + Padding(n);
      PaddingBytes(old(message));
      digest := Encode(abcd.a) + Encode(abcd.b) + Encode(abcd.c) + Encode(abcd.d);
      forall i, k | 0 <= i < 4 && 0 <= k < 4
        ensures digest[4 * i + k] as int == WordOf(abcd, i) / Power(k) % 256
      {
        DigestBytes(abcd, i, k);
      }
    }
  }

  // How the message was cut into pieces does not show: two states that got the same
  // message agree in the digest, in the counts, and in what waits in the buffer.
  lemma SplitsAgree(s: State, t: State)
    requires s.Valid() && t.Valid() && s.process == t.process && s.message == t.message
    ensures s.abcd == t.abcd && s.low == t.low && s.high == t.high
    ensures s.buf[..s.low / 8 % BLOCK] == t.buf[..t.low / 8 % BLOCK]
    ensures s.high * WORD + s.low == 8 * |s.message| % (WORD * WORD)
  {
    CountWords(|s.message|);
    LowTells(|s.message|);
    TailSize(s.message);
    assert s.low / 8 % BLOCK == |s.message| % BLOCK;
  }
}
