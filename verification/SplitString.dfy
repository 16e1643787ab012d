// Splitting at delimiters: src/utils/split_string.h.
module SplitString {
  import opened Common

  // How many characters from the start are not delimiters.
  ghost function Run(s: string, d: set<char>): (n: nat)
    ensures n <= |s| && (forall i :: 0 <= i < n ==> s[i] !in d) && (n < |s| ==> s[n] in d)
  {
    if s == "" || s[0] in d then 0 else 1 + Run(s[1..], d)
  }

  // The maximal runs of characters that are not delimiters.
  ghost function Tokens(s: string, d: set<char>): seq<string>
    decreases |s|
  {
    if s == "" then []
    else if s[0] in d then Tokens(s[1..], d)
    else [s[..Run(s, d)]] + Tokens(s[Run(s, d)..], d)
  }

  // The path for a delimiter string of one character.
  method SplitChar(full: string, c: char) returns (result: seq<string>)
    ensures result == Tokens(full, {c})
  {
    result := [];
    var p := 0;
    while p != |full|
      invariant 0 <= p <= |full| && result + Tokens(full[p..], {c}) == Tokens(full, {c})
      decreases |full| - p
    {
      assert full[p..][1..] == full[p + 1..];
      if full[p] == c {
        p := p + 1;
      } else {
        var start := p;
        p := p + 1;
        while p != |full| && full[p] != c
          invariant start < p <= |full| && forall i :: start <= i < p ==> full[i] != c
          decreases |full| - p
        {
          p := p + 1;
        }
        NextToken(full, {c}, start, p);
        result := result + [full[start..p]];
      }
    }
    assert full[p..] == "";
  }

  lemma {:induction false} RunIs(s: string, d: set<char>, n: nat)
    requires n <= |s| && (forall i :: 0 <= i < n ==> s[i] !in d) && (n < |s| ==> s[n] in d)
    ensures Run(s, d) == n
  {
    if n > 0 {
      assert forall i :: 0 <= i < n - 1 ==> s[1..][i] == s[i + 1];
      RunIs(s[1..], d, n - 1);
    }
  }

  method FindFirstNotOf(full: string, delim: string, from: nat) returns (i: nat)
    requires from <= |full|
    ensures from <= i <= |full| && (forall j :: from <= j < i ==> full[j] in delim)
      && (i < |full| ==> full[i] !in delim)
  {
    i := from;
    while i < |full| && full[i] in delim
      invariant from <= i <= |full| && forall j :: from <= j < i ==> full[j] in delim
    {
      i := i + 1;
    }
  }

  method FindFirstOf(full: string, delim: string, from: nat) returns (i: nat)
    requires from <= |full|
    ensures from <= i <= |full| && (forall j :: from <= j < i ==> full[j] !in delim)
      && (i < |full| ==> full[i] in delim)
  {
    i := from;
    while i < |full| && full[i] !in delim
      invariant from <= i <= |full| && forall j :: from <= j < i ==> full[j] !in delim
    {
      i := i + 1;
    }
  }

  ghost function CharSet(delim: string): set<char> { set c | c in delim }

  lemma NextToken(s: string, d: set<char>, begin: nat, end: nat)
    requires begin < end <= |s| && (forall i :: begin <= i < end ==> s[i] !in d) && (end < |s| ==> s[end] in d)
    ensures Tokens(s[begin..], d) == [s[begin..end]] + Tokens(s[end..], d)
  {
    RunIs(s[begin..], d, end - begin);
    assert s[begin..][..end - begin] == s[begin..end] && s[begin..][end - begin..] == s[end..];
  }

  lemma SkipFrom(s: string, d: set<char>, from: nat, to: nat)
    requires from <= to <= |s| && forall i :: from <= i < to ==> s[i] in d
    ensures Tokens(s[from..], d) == Tokens(s[to..], d)
  {
    SkipDelimiters(s[from..], d, to - from);
    assert s[from..][to - from..] == s[to..];
  }

  lemma MoveOne(a: seq<string>, t: string, b: seq<string>)
    ensures (a + [t]) + b == a + ([t] + b)
  {
  }

  // The path for any other delimiter string; the end of the text stands for npos.
  method SplitAny(full: string, delim: string) returns (result: seq<string>)
    ensures result == Tokens(full, CharSet(delim))
  {
    ghost var d := CharSet(delim);
    result := [];
    var begin := FindFirstNotOf(full, delim, 0);
    SkipFrom(full, d, 0, begin);
    assert full[0..] == full;
    while begin != |full|
      invariant begin <= |full| && (begin < |full| ==> full[begin] !in d)
      invariant result + Tokens(full[begin..], d) == Tokens(full, d)
      decreases |full| - begin
    {
      var end := FindFirstOf(full, delim, begin);
      NextToken(full, d, begin, end);
      if end == |full| {
        assert full[begin..] == full[begin..end];
        return result + [full[begin..]];
      }
      MoveOne(result, full[begin..end], Tokens(full[end..], d));
      result := result + [full[begin..end]];
      begin := FindFirstNotOf(full, delim, end);
      SkipFrom(full, d, end, begin);
    }
  }

  lemma {:induction false} SkipDelimiters(s: string, d: set<char>, n: nat)
    requires n <= |s| && forall i :: 0 <= i < n ==> s[i] in d
    ensures Tokens(s, d) == Tokens(s[n..], d)
  {
    if n > 0 {
      assert forall i :: 0 <= i < n - 1 ==> s[1..][i] == s[i + 1];
      SkipDelimiters(s[1..], d, n - 1);
      assert s[1..][n - 1..] == s[n..];
    } else {
      assert s[0..] == s;
    }
  }

  // Both paths do the same.
  method SplitUsing(full: string, delim: string) returns (result: seq<string>)
    ensures result == Tokens(full, CharSet(delim))
  {
    if |delim| == 1 {
      assert CharSet(delim) == {delim[0]};
      result := SplitChar(full, delim[0]);
    } else {
      result := SplitAny(full, delim);
    }
  }

  ghost predicate Plain(t: string, d: set<char>) { t != "" && forall i :: 0 <= i < |t| ==> t[i] !in d }

  // Nothing but the delimiters is lost, and no delimiter is kept.

  ghost function Kept(s: string, d: set<char>): string {
    if s == "" then "" else (if s[0] in d then "" else [s[0]]) + Kept(s[1..], d)
  }

  lemma {:induction false} KeptRun(s: string, d: set<char>, n: nat)
    requires n <= |s| && forall i :: 0 <= i < n ==> s[i] !in d
    ensures Kept(s, d) == s[..n] + Kept(s[n..], d)
  {
    if n > 0 {
      assert forall i :: 0 <= i < n - 1 ==> s[1..][i] == s[i + 1];
      KeptRun(s[1..], d, n - 1);
      assert s[1..][n - 1..] == s[n..];
      assert [s[0]] + s[1..][..n - 1] == s[..n];
    } else {
      assert s[0..] == s;
    }
  }

  lemma {:induction false} TokensKeep(s: string, d: set<char>)
    ensures Flat(Tokens(s, d)) == Kept(s, d)
    ensures forall i :: 0 <= i < |Tokens(s, d)| ==> Plain(Tokens(s, d)[i], d)
    decreases |s|
  {
    if s != "" {
      if s[0] in d {
        TokensKeep(s[1..], d);
      } else {
        var n := Run(s, d);
        TokensKeep(s[n..], d);
        KeptRun(s, d, n);
        assert Plain(s[..n], d);
      }
    }
  }

  // Where the tokens are

  // Token `t` stands at place `at`, and place `i` belongs to it.
  ghost predicate Covers(at: nat, t: string, i: nat) { at <= i < at + |t| }

  // Place `i` belongs to some token.
  ghost predicate Covered(starts: seq<nat>, ts: seq<string>, i: nat)
    requires |starts| == |ts|
  {
    exists k :: 0 <= k < |ts| && Covers(starts[k], ts[k], i)
  }

  // Two places belong to the same token.
  ghost predicate Together(starts: seq<nat>, ts: seq<string>, i: nat, j: nat)
    requires |starts| == |ts|
  {
    exists k :: 0 <= k < |ts| && Covers(starts[k], ts[k], i) && Covers(starts[k], ts[k], j)
  }

  // The tokens stand in the text one behind the other, from place `from` on, with something
  // between any two.
  ghost predicate Stand(s: string, from: nat, starts: seq<nat>, ts: seq<string>) {
    && |starts| == |ts|
    && (forall k :: 0 <= k < |ts| ==>
          from <= starts[k] && starts[k] + |ts[k]| <= |s| && ts[k] == s[starts[k]..starts[k] + |ts[k]|])
    && (forall j, k :: 0 <= j < k < |ts| ==> starts[j] + |ts[j]| < starts[k])
  }

  // Just the characters that are not delimiters belong to tokens.
  ghost predicate AllCovered(s: string, d: set<char>, from: nat, starts: seq<nat>, ts: seq<string>)
    requires |starts| == |ts|
  {
    forall i :: from <= i < |s| ==> (s[i] !in d <==> Covered(starts, ts, i))
  }

  lemma {:induction false} PlacesFrom(s: string, d: set<char>, from: nat) returns (starts: seq<nat>)
    requires from <= |s|
    ensures Stand(s, from, starts, Tokens(s[from..], d)) && AllCovered(s, d, from, starts, Tokens(s[from..], d))
    decreases |s| - from
  {
    var rest := s[from..];
    if rest == "" {
      starts := [];
    } else if rest[0] in d {
      assert rest[1..] == s[from + 1..];
      starts := PlacesFrom(s, d, from + 1);
      NotBelow(s, from + 1, starts, Tokens(s[from + 1..], d), from);
    } else {
      var n := Run(rest, d);
      var end := from + n;
      assert rest[n..] == s[end..] && rest[..n] == s[from..end];
      var more := PlacesFrom(s, d, end);
      starts := [from] + more;
      TokensKeep(s[end..], d);
      OneInFront(s, d, from, end, more, Tokens(s[end..], d));
    }
  }

  lemma NotBelow(s: string, from: nat, starts: seq<nat>, ts: seq<string>, i: nat)
    requires Stand(s, from, starts, ts) && i < from
    ensures forall k :: 0 <= k < |ts| ==> !Covers(starts[k], ts[k], i)
  {
  }

  lemma OneInFront(s: string, d: set<char>, from: nat, end: nat, starts: seq<nat>, ts: seq<string>)
    requires from < end <= |s| && Stand(s, end, starts, ts) && AllCovered(s, d, end, starts, ts)
    requires (forall i :: from <= i < end ==> s[i] !in d) && (end < |s| ==> s[end] in d)
    requires forall k :: 0 <= k < |ts| ==> ts[k] != ""
    ensures Stand(s, from, [from] + starts, [s[from..end]] + ts)
    ensures AllCovered(s, d, from, [from] + starts, [s[from..end]] + ts)
  {
    var starts', ts' := [from] + starts, [s[from..end]] + ts;
    forall k | 0 <= k < |ts| ensures end < starts[k] {
      if starts[k] == end {
        assert Covers(starts[k], ts[k], end);
      }
    }
    forall i | from <= i < |s| ensures s[i] !in d <==> Covered(starts', ts', i) {
      CoveredInFront(starts, ts, from, s[from..end], i);
    }
  }

  lemma CoveredInFront(starts: seq<nat>, ts: seq<string>, at: nat, t: string, i: nat)
    requires |starts| == |ts|
    ensures Covered([at] + starts, [t] + ts, i) <==> Covers(at, t, i) || Covered(starts, ts, i)
  {
    var starts', ts' := [at] + starts, [t] + ts;
    if Covers(at, t, i) {
      assert Covers(starts'[0], ts'[0], i);
    }
    if k :| 0 <= k < |ts| && Covers(starts[k], ts[k], i) {
      assert Covers(starts'[k + 1], ts'[k + 1], i);
    }
  }

  // Every token stands in the text, in order; a character belongs to a token just when it is
  // not a delimiter, and two neighbours belong to the same one just when neither is.
  lemma TokensStand(s: string, d: set<char>) returns (starts: seq<nat>)
    ensures var ts := Tokens(s, d); Stand(s, 0, starts, ts) && AllCovered(s, d, 0, starts, ts)
    ensures forall i, j :: 0 <= i < |s| && j == i + 1 < |s| ==>
      (Together(starts, Tokens(s, d), i, j) <==> s[i] !in d && s[j] !in d)
  {
    assert s[0..] == s;
    starts := PlacesFrom(s, d, 0);
    var ts := Tokens(s, d);
    forall i, j | 0 <= i < |s| && j == i + 1 < |s|
      ensures Together(starts, ts, i, j) <==> s[i] !in d && s[j] !in d
    {
      NeighboursTogether(s, d, starts, ts, i);
    }
  }

  lemma NeighboursTogether(s: string, d: set<char>, starts: seq<nat>, ts: seq<string>, i: nat)
    requires Stand(s, 0, starts, ts) && AllCovered(s, d, 0, starts, ts) && i + 1 < |s|
    ensures Together(starts, ts, i, i + 1) <==> s[i] !in d && s[i + 1] !in d
  {
    if Together(starts, ts, i, i + 1) {
      assert Covered(starts, ts, i) && Covered(starts, ts, i + 1);
    }
    if s[i] !in d && s[i + 1] !in d {
      var j :| 0 <= j < |ts| && Covers(starts[j], ts[j], i);
      var k :| 0 <= k < |ts| && Covers(starts[k], ts[k], i + 1);
      if j != k {
        assert false;
      }
    }
  }

  // Joining and splitting

  ghost function Join(ts: seq<string>, c: char): string {
    if ts == [] then "" else if |ts| == 1 then ts[0] else ts[0] + [c] + Join(ts[1..], c)
  }

  lemma {:induction false} SplitUndoesJoin(ts: seq<string>, c: char)
    requires forall i :: 0 <= i < |ts| ==> Plain(ts[i], {c})
    ensures Tokens(Join(ts, c), {c}) == ts
  {
    if ts != [] {
      var t, s := ts[0], Join(ts, c);
      assert Plain(t, {c});
      RunIs(s, {c}, |t|);
      assert s[..|t|] == t;
      if |ts| == 1 {
        assert s[|t|..] == "";
      } else {
        assert s[|t|..] == [c] + Join(ts[1..], c);
        assert s[|t|..][1..] == Join(ts[1..], c);
        SplitUndoesJoin(ts[1..], c);
      }
    }
  }
}
