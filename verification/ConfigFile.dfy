// The parser of configuration files in src/base/config_file.cc, and its table of
// bindings. The characters come in chunks, as fread delivers them.
module ConfigFile {
  import opened Common

  const COMMENT := '#'
  const SEPARATOR := '='
  const QUOTE := '"'
  const NEWLINE := '\n'
  const NUL := '\0'

  datatype Mode = Initial | Comment | Quoted | Unquoted | HandleNewline | HandleSep

  // `token` is the token buffer, `t` where the next character of a token goes, `got`
  // whether it holds a complete token; `pair` is the key that waits for its value.
  datatype State = State(mode: Mode, token: string, t: nat, got: bool, pair: Option<string>,
      table: map<string, string>, line: nat)

  function Begin(): State { State(Initial, "", 0, false, None, map[], 1) }

  predicate IsSpace(c: char) { c == ' ' || '\t' <= c <= '\r' }

  // *t = c
  function Put(token: string, t: nat, c: char): string {
    if t < |token| then token[t := c] else token + [c]
  }

  // The buffer as a string that ends with NUL.
  function CString(s: string): string {
    if s == "" || s[0] == NUL then "" else [s[0]] + CString(s[1..])
  }

  function EndToken(s: State): State {
    if s.t != 0 then s.(got := true, token := Put(s.token, s.t, NUL)) else s
  }

  function AddChar(s: State, c: char): State { s.(token := Put(s.token, s.t, c), t := s.t + 1) }

  // One turn of the loop on the character `c`, and whether that consumes it.
  function Step(s: State, c: char): (State, bool) {
    match s.mode
    case Initial =>
      if c == COMMENT then (s.(mode := Comment), true)
      else if c == QUOTE then (s.(t := 0, mode := Quoted), true)
      else if c == NEWLINE then (s.(mode := HandleNewline), false)
      else if c == SEPARATOR then (s.(mode := HandleSep), true)
      else if IsSpace(c) then (s, true)
      else (AddChar(s.(t := 0), c).(mode := Unquoted), true)
    case Comment =>
      if c == NEWLINE then (s.(mode := HandleNewline), false) else (s, true)
    case Quoted =>
      if c == QUOTE then (s.(got := true, token := Put(s.token, s.t, NUL), mode := Initial), true)
      else if c == NEWLINE then (s.(mode := HandleNewline), false)
      else (AddChar(s, c), true)
    case Unquoted =>
      if c == COMMENT then (EndToken(s).(mode := Comment), true)
      else if c == NEWLINE then (EndToken(s).(mode := HandleNewline), false)
      else if c == SEPARATOR then (EndToken(s).(mode := HandleSep), true)
      else if IsSpace(c) then (EndToken(s).(mode := Initial), true)
      else (AddChar(s, c), true)
    case HandleSep =>
      var key := CString(s.token);
      (s.(pair := if !s.got || key in s.table then None else Some(key), got := false, mode := Initial), false)
    case HandleNewline =>
      var value := if s.got then CString(s.token) else "";
      (s.(table := if s.pair.Some? then Bind(s.table, s.pair.value, value) else s.table,
          got := false, pair := None, mode := Initial, line := s.line + 1), true)
  }

  // bst_probe keeps a binding that is there.
  function Bind(table: map<string, string>, key: string, value: string): map<string, string> {
    if key in table then table else table[key := value]
  }

  function Rank(mode: Mode): nat {
    match mode
    case HandleSep => 2
    case HandleNewline => 0
    case _ => 1
  }

  // Turns until the character is consumed.
  ghost function Char(s: State, c: char): State
    decreases Rank(s.mode)
  {
    var (s', consumed) := Step(s, c);
    if consumed then s' else Char(s', c)
  }

  ghost function Parse(s: State, text: string): State
    decreases |text|
  {
    if text == "" then s else Parse(Char(s, text[0]), text[1..])
  }

  lemma {:induction false} ParseConcat(s: State, a: string, b: string)
    ensures Parse(s, a + b) == Parse(Parse(s, a), b)
    decreases |a|
  {
    if a == "" {
      assert a + b == b;
    } else {
      assert (a + b)[1..] == a[1..] + b;
      ParseConcat(Char(s, a[0]), a[1..], b);
    }
  }

  // The table depends on the text, not on how it is cut into chunks.
  method ConfigParse(chunks: seq<string>) returns (table: map<string, string>)
    ensures table == Parse(Begin(), Flat(chunks)).table
  {
    var s := Begin();
    var i := 0;
    assert chunks[0..] == chunks;
    while i < |chunks|
      invariant i <= |chunks| && Parse(s, Flat(chunks[i..])) == Parse(Begin(), Flat(chunks))
    {
      assert chunks[i..][1..] == chunks[i + 1..];
      ParseConcat(s, chunks[i], Flat(chunks[i + 1..]));
      s := ParseChunk(s, chunks[i]);
      i := i + 1;
    }
    assert chunks[i..] == [];
    table := s.table;
  }

  method ParseChunk(before: State, buf: string) returns (s: State)
    ensures s == Parse(before, buf)
  {
    s := before;
    var p := 0;
    assert buf[0..] == buf;
    while p < |buf|
      invariant p <= |buf| && Parse(s, buf[p..]) == Parse(before, buf)
      decreases |buf| - p, Rank(s.mode)
    {
      assert buf[p..][0] == buf[p] && buf[p..][1..] == buf[p + 1..];
      var (next, consumed) := Step(s, buf[p]);
      s := next;
      if consumed {
        p := p + 1;
      }
    }
    assert buf[p..] == "";
  }

  // The first binding of a key survives

  ghost predicate Extends(table: map<string, string>, table': map<string, string>) {
    forall k :: k in table ==> k in table' && table'[k] == table[k]
  }

  lemma {:induction false} CharExtends(s: State, c: char)
    ensures Extends(s.table, Char(s, c).table)
    decreases Rank(s.mode)
  {
    var (s', consumed) := Step(s, c);
    if !consumed {
      CharExtends(s', c);
    }
  }

  lemma {:induction false} FirstBindingSurvives(s: State, text: string)
    ensures Extends(s.table, Parse(s, text).table)
    decreases |text|
  {
    if text != "" {
      CharExtends(s, text[0]);
      FirstBindingSurvives(Char(s, text[0]), text[1..]);
    }
  }

  // Rendering and parsing

  datatype Pair = Pair(key: string, value: string)

  ghost function Line(p: Pair): string {
    [QUOTE] + p.key + [QUOTE] + [SEPARATOR] + [QUOTE] + p.value + [QUOTE] + [NEWLINE]
  }

  ghost function Render(ps: seq<Pair>): string {
    if ps == [] then "" else Line(ps[0]) + Render(ps[1..])
  }

  ghost predicate Plain(w: string) { forall i :: 0 <= i < |w| ==> w[i] != QUOTE && w[i] != NEWLINE && w[i] != NUL }

  ghost predicate NoEndMark(w: string) { forall i :: 0 <= i < |w| ==> w[i] != NUL }

  ghost function BindAll(table: map<string, string>, ps: seq<Pair>): map<string, string>
    decreases |ps|
  {
    if ps == [] then table else BindAll(Bind(table, ps[0].key, ps[0].value), ps[1..])
  }

  // Between two lines.
  ghost predicate Fresh(s: State) { s.mode == Initial && !s.got && s.pair == None }

  lemma {:induction false} CStringOf(w: string, rest: string)
    requires NoEndMark(w) && (rest == "" || rest[0] == NUL)
    ensures CString(w + rest) == w
    decreases |w|
  {
    if w == "" {
      assert w + rest == rest;
    } else {
      assert (w + rest)[1..] == w[1..] + rest;
      CStringOf(w[1..], rest);
    }
  }

  // Inside quotes the characters go into the buffer one after the other.
  lemma {:induction false} QuotedRun(s: State, w: string)
    requires s.mode == Quoted && Plain(w) && s.t <= |s.token|
    ensures var s' := Parse(s, w);
      && s' == s.(token := s'.token, t := s.t + |w|)
      && s'.t <= |s'.token| && s'.token[..s'.t] == s.token[..s.t] + w
    decreases |w|
  {
    if w != "" {
      var s1 := Char(s, w[0]);
      assert s1.token[..s1.t] == s.token[..s.t] + [w[0]];
      QuotedRun(s1, w[1..]);
      assert (s.token[..s.t] + [w[0]]) + w[1..] == s.token[..s.t] + w;
    } else {
      assert s.token[..s.t] + w == s.token[..s.t];
    }
  }

  // A quoted word becomes the token.
  lemma QuotedWord(s: State, w: string)
    requires s.mode == Initial && Plain(w)
    ensures var s' := Parse(s, [QUOTE] + w + [QUOTE]);
      s' == s.(token := s'.token, t := |w|, got := true) && CString(s'.token) == w
  {
    var s1 := s.(t := 0, mode := Quoted);
    var s2 := Parse(s1, w);
    ParseConcat(s, [QUOTE] + w, [QUOTE]);
    ParseConcat(s, [QUOTE], w);
    ParseOne(s, QUOTE);
    ParseOne(s2, QUOTE);
    QuotedRun(s1, w);
    WordEnds(s2.token, w);
  }

  lemma WordEnds(token: string, w: string)
    requires |w| <= |token| && token[..|w|] == w && NoEndMark(w)
    ensures CString(Put(token, |w|, NUL)) == w
  {
    var token' := Put(token, |w|, NUL);
    assert token' == w + token'[|w|..];
    CStringOf(w, token'[|w|..]);
  }

  lemma ParseOne(s: State, c: char)
    ensures Parse(s, [c]) == Char(s, c)
  {
    assert [c][1..] == "";
  }

  lemma LineParsed(s: State, p: Pair)
    requires Fresh(s) && Plain(p.key) && Plain(p.value)
    ensures var s' := Parse(s, Line(p)); Fresh(s') && s'.table == Bind(s.table, p.key, p.value)
  {
    var key, value := [QUOTE] + p.key + [QUOTE], [QUOTE] + p.value + [QUOTE];
    assert Line(p) == key + ([SEPARATOR] + (value + [NEWLINE]));
    ParseConcat(s, key, [SEPARATOR] + (value + [NEWLINE]));
    QuotedWord(s, p.key);
    var s1 := Parse(s, key);
    ParseConcat(s1, [SEPARATOR], value + [NEWLINE]);
    ParseOne(s1, SEPARATOR);
    var s2 := Char(s1, SEPARATOR);
    AfterSeparator(s2, p.value);
    var s3 := s2.(pair := if p.key in s.table then None else Some(p.key), got := false, mode := Initial);
    ParseConcat(s3, value, [NEWLINE]);
    ParseConcat(s2, value, [NEWLINE]);
    QuotedWord(s3, p.value);
    ParseOne(Parse(s3, value), NEWLINE);
  }

  // The separator takes effect on the next character, whatever that is.
  lemma AfterSeparator(s: State, w: string)
    requires s.mode == HandleSep
    ensures var key := CString(s.token);
      Parse(s, [QUOTE] + w + [QUOTE])
      == Parse(s.(pair := if !s.got || key in s.table then None else Some(key), got := false, mode := Initial),
        [QUOTE] + w + [QUOTE])
  {
    var s' := Step(s, QUOTE).0;
    assert Char(s, QUOTE) == Char(s', QUOTE);
    var text := [QUOTE] + w + [QUOTE];
    assert text[0] == QUOTE;
  }

  lemma {:induction false} RenderParsed(s: State, ps: seq<Pair>)
    requires Fresh(s) && forall i :: 0 <= i < |ps| ==> Plain(ps[i].key) && Plain(ps[i].value)
    ensures var s' := Parse(s, Render(ps)); Fresh(s') && s'.table == BindAll(s.table, ps)
    decreases |ps|
  {
    if ps != [] {
      ParseConcat(s, Line(ps[0]), Render(ps[1..]));
      LineParsed(s, ps[0]);
      RenderParsed(Parse(s, Line(ps[0])), ps[1..]);
    }
  }

  // All bindings of a map, each once.
  ghost predicate Lists(ps: seq<Pair>, m: map<string, string>) {
    && (forall i :: 0 <= i < |ps| ==> ps[i].key in m && m[ps[i].key] == ps[i].value)
    && (forall k :: k in m ==> exists i :: 0 <= i < |ps| && ps[i].key == k)
  }

  lemma {:induction false} BindAllGives(table: map<string, string>, ps: seq<Pair>, m: map<string, string>)
    requires Extends(table, m) && forall i :: 0 <= i < |ps| ==> ps[i].key in m && m[ps[i].key] == ps[i].value
    ensures Extends(BindAll(table, ps), m) && Extends(table, BindAll(table, ps))
    ensures forall i :: 0 <= i < |ps| ==> ps[i].key in BindAll(table, ps)
    decreases |ps|
  {
    if ps != [] {
      BindAllGives(Bind(table, ps[0].key, ps[0].value), ps[1..], m);
    }
  }

  // Rendering a map and parsing the text gives the map back.
  lemma ParseUndoesRender(ps: seq<Pair>, m: map<string, string>)
    requires Lists(ps, m) && forall i :: 0 <= i < |ps| ==> Plain(ps[i].key) && Plain(ps[i].value)
    ensures Parse(Begin(), Render(ps)).table == m
  {
    RenderParsed(Begin(), ps);
    BindAllOf(ps, m);
  }

  lemma BindAllOf(ps: seq<Pair>, m: map<string, string>)
    requires Lists(ps, m)
    ensures BindAll(map[], ps) == m
  {
    BindAllGives(map[], ps, m);
    var t := BindAll(map[], ps);
    forall k | k in m ensures k in t && t[k] == m[k] {
      var i :| 0 <= i < |ps| && ps[i].key == k;
    }
  }
}
