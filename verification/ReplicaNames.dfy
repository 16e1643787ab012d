// The names that the virtual nodes of a server are hashed by: src/libconhash/conhash_inter.c.
module ReplicaNames {

  // What a buffer of 127 characters holds in front of its end mark.
  const ROOM := 126

  function Decimal(n: nat): string {
    if n < 10 then [('0' as int + n) as char] else Decimal(n / 10) + [('0' as int + n % 10) as char]
  }

  // "%03d"
  function Number(n: nat): string {
    var digits := Decimal(n);
    (if |digits| == 1 then "00" else if |digits| == 2 then "0" else "") + digits
  }

  // "%s-%03d"
  function ReplicaName(iden: string, replica: nat): string {
    var name := iden + "-" + Number(replica);
    if |name| <= ROOM then name else name[..ROOM]
  }

  // Numbers as they are read

  ghost predicate Digits(s: string) { forall i :: 0 <= i < |s| ==> '0' <= s[i] <= '9' }

  ghost function Reads(s: string): int {
    if s == "" then 0 else 10 * Reads(s[..|s| - 1]) + (s[|s| - 1] as int - '0' as int)
  }

  lemma {:induction false} DecimalReads(n: nat)
    ensures Digits(Decimal(n)) && Reads(Decimal(n)) == n && |Decimal(n)| >= 1
    ensures |Decimal(n)| > 1 ==> Decimal(n)[0] != '0'
    ensures Decimal(n)[0] == '0' ==> n == 0
  {
    if n >= 10 {
      DecimalReads(n / 10);
      var front, last := Decimal(n / 10), ('0' as int + n % 10) as char;
      assert Decimal(n) == front + [last] && Decimal(n)[..|front|] == front;
    } else {
      assert Decimal(n)[..0] == "";
    }
  }

  lemma {:induction false} ZerosRead(zeros: string, s: string)
    requires forall i :: 0 <= i < |zeros| ==> zeros[i] == '0'
    ensures Reads(zeros + s) == Reads(s)
    decreases |s|, |zeros|
  {
    if s != "" {
      assert (zeros + s)[..|zeros + s| - 1] == zeros + s[..|s| - 1];
      ZerosRead(zeros, s[..|s| - 1]);
    } else if zeros != "" {
      assert zeros + s == zeros && zeros[..|zeros| - 1] + s == zeros[..|zeros| - 1];
      ZerosRead(zeros[..|zeros| - 1], s);
    }
  }

  // At least three digits, no zero in front of more than three, and they read as the number.
  ghost predicate ThreeDigits(s: string, n: nat) {
    |s| >= 3 && Digits(s) && (|s| > 3 ==> s[0] != '0') && Reads(s) == n
  }

  lemma NumberReads(n: nat)
    ensures ThreeDigits(Number(n), n)
  {
    DecimalReads(n);
    var digits := Decimal(n);
    ZerosRead(if |digits| == 1 then "00" else if |digits| == 2 then "0" else "", digits);
  }

  ghost predicate Fits(iden: string, replica: nat) { |iden| + 1 + |Number(replica)| <= ROOM }

  // A name that fits is the name of the server, a dash, and the number of the replica.
  lemma NameReads(iden: string, replica: nat)
    requires Fits(iden, replica)
    ensures var name := ReplicaName(iden, replica);
      && |name| > |iden| && name[..|iden|] == iden && name[|iden|] == '-' && ThreeDigits(name[|iden| + 1..], replica)
  {
    var name := iden + "-" + Number(replica);
    assert name[|iden| + 1..] == Number(replica);
    NumberReads(replica);
  }

  // So servers and replicas can be told apart by their names, whatever characters they have.
  lemma NamesDiffer(i: string, m: nat, j: string, n: nat)
    requires Fits(i, m) && Fits(j, n) && ReplicaName(i, m) == ReplicaName(j, n)
    ensures i == j && m == n
  {
    NameReads(i, m);
    NameReads(j, n);
    assert |i| == |j|;
  }

  // The names of a server that fills the buffer are all the same.
  lemma LongNames(iden: string, m: nat, n: nat)
    requires |iden| >= ROOM
    ensures ReplicaName(iden, m) == ReplicaName(iden, n) == iden[..ROOM]
  {
    NumberReads(m);
    NumberReads(n);
  }
}
