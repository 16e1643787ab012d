// What the lines of a configuration file mean: words, bare or in quotes, separators, space
// and comments, as src/base/config_file.cc reads them.
module ConfigLines {
  import opened Common
  import opened ConfigFile

  // A piece of a line, with the space in front of it.
  datatype Item =
    | Bare(gap: string, word: string)
    | InQuotes(gap: string, word: string)
    | Separator(gap: string)

  datatype Line = Line(items: seq<Item>, tail: string, comment: Option<string>)

  ghost predicate Blank(s: string) { forall i :: 0 <= i < |s| ==> IsSpace(s[i]) && s[i] != NEWLINE }

  // A word without quotes: a quote may stand in it, but not at its start.
  ghost predicate BareWord(w: string) {
    && w != "" && w[0] != QUOTE
    && forall i :: 0 <= i < |w| ==> w[i] != COMMENT && w[i] != SEPARATOR && !IsSpace(w[i]) && w[i] != NUL
  }

  ghost predicate GoodItem(item: Item) {
    && Blank(item.gap)
    && match item
       case Bare(_, w) => BareWord(w)
       case InQuotes(_, w) => Plain(w)
       case Separator(_) => true
  }

  // Behind a bare word there is space, or a separator, or the end.
  ghost predicate GoodItems(items: seq<Item>) {
    && (forall i :: 0 <= i < |items| ==> GoodItem(items[i]))
    && (forall i :: 0 < i < |items| && items[i - 1].Bare? && !items[i].Separator? ==> items[i].gap != "")
  }

  ghost predicate OneLine(s: string) { forall i :: 0 <= i < |s| ==> s[i] != NEWLINE }

  ghost predicate GoodLine(line: Line) {
    GoodItems(line.items) && Blank(line.tail) && (line.comment.Some? ==> OneLine(line.comment.value))
  }

  ghost function ItemText(item: Item): string {
    item.gap + match item
      case Bare(_, w) => w
      case InQuotes(_, w) => [QUOTE] + w + [QUOTE]
      case Separator(_) => [SEPARATOR]
  }

  ghost function ItemsText(items: seq<Item>): string {
    if items == [] then "" else ItemsText(items[..|items| - 1]) + ItemText(items[|items| - 1])
  }

  ghost function Remark(comment: Option<string>): string {
    if comment.None? then "" else [COMMENT] + comment.value
  }

  ghost function LineText(line: Line): string {
    ItemsText(line.items) + (line.tail + (Remark(line.comment) + [NEWLINE]))
  }

  // The meaning of a line

  // The word at the end, if there is one.
  ghost function LastWord(items: seq<Item>): Option<string> {
    if items == [] || items[|items| - 1].Separator? then None else Some(items[|items| - 1].word)
  }

  ghost function LastSeparator(items: seq<Item>): (i: Option<nat>)
    ensures i.Some? ==> i.value < |items| && items[i.value].Separator?
    ensures forall j :: 0 <= j < |items| && items[j].Separator? ==> i.Some? && j <= i.value
  {
    if items == [] then None
    else if items[|items| - 1].Separator? then Some(|items| - 1)
    else LastSeparator(items[..|items| - 1])
  }

  ghost function OrEmpty(w: Option<string>): string { if w.Some? then w.value else "" }

  // The key is the word in front of the last separator, and the value the last word behind it.
  ghost function Meaning(items: seq<Item>): Option<Pair> {
    var i := LastSeparator(items);
    if i.None? then None
    else
      var key := LastWord(items[..i.value]);
      if key.None? then None else Some(Pair(key.value, OrEmpty(LastWord(items[i.value + 1..]))))
  }

  ghost function BindMeaning(table: map<string, string>, items: seq<Item>): map<string, string> {
    match Meaning(items)
    case None => table
    case Some(p) => Bind(table, p.key, p.value)
  }

  // In the middle of a line

  // The key that waits for its value.
  ghost function Pending(items: seq<Item>, table: map<string, string>): Option<string> {
    if items == [] then None
    else if !items[|items| - 1].Separator? then Pending(items[..|items| - 1], table)
    else
      var key := LastWord(items[..|items| - 1]);
      if key.None? || key.value in table then None else key
  }

  // The token buffer holds the word `last`, if there is one.
  ghost predicate TokenIs(s: State, last: Option<string>) {
    (s.got <==> last.Some?) && (last.Some? ==> CString(s.token) == last.value)
  }

  ghost predicate Stands(s: State, last: Option<string>, pair: Option<string>, table: map<string, string>) {
    && s.table == table
    && match s.mode
       case Initial => s.pair == pair && TokenIs(s, last)
       case Comment => s.pair == pair && TokenIs(s, last)
       case Unquoted =>
         s.pair == pair && last.Some? && NoEndMark(last.value) && 0 < s.t <= |s.token| && s.token[..s.t] == last.value
       case HandleSep =>
         last == None && pair == if !s.got || CString(s.token) in table then None else Some(CString(s.token))
       case Quoted => false
       case HandleNewline => false
  }

  // A separator takes effect before the next character is looked at.
  ghost function Settled(s: State): State {
    if s.mode.HandleSep? then Step(s, NUL).0 else s
  }

  lemma SettledStands(s: State, last: Option<string>, pair: Option<string>, table: map<string, string>, c: char)
    requires Stands(s, last, pair, table)
    ensures Stands(Settled(s), last, pair, table) && !Settled(s).mode.HandleSep?
    ensures Char(s, c) == Char(Settled(s), c)
    ensures s.mode.HandleSep? ==> Settled(s).mode.Initial?
  {
  }

  // The end of a bare word.
  lemma WordStands(s: State, last: Option<string>, pair: Option<string>, table: map<string, string>)
    requires Stands(s, last, pair, table) && s.mode.Unquoted?
    ensures EndToken(s).pair == pair && EndToken(s).table == table && TokenIs(EndToken(s), last)
  {
    WordEnds(s.token, last.value);
  }

  lemma SpaceStands(s: State, last: Option<string>, pair: Option<string>, table: map<string, string>, c: char)
    requires Stands(s, last, pair, table) && !s.mode.Comment? && IsSpace(c) && c != NEWLINE
    ensures Stands(Char(s, c), last, pair, table) && Char(s, c).mode.Initial?
  {
    SettledStands(s, last, pair, table, c);
    if s.mode.Unquoted? {
      WordStands(s, last, pair, table);
    }
  }

  lemma {:induction false} GapStands(s: State, last: Option<string>, pair: Option<string>, table: map<string, string>,
      gap: string)
    requires Stands(s, last, pair, table) && !s.mode.Comment? && Blank(gap)
    ensures Stands(Parse(s, gap), last, pair, table) && !Parse(s, gap).mode.Comment?
    ensures gap != "" || s.mode.Initial? ==> Parse(s, gap).mode.Initial?
    ensures gap == "" ==> Parse(s, gap) == s
    decreases |gap|
  {
    if gap != "" {
      SpaceStands(s, last, pair, table, gap[0]);
      GapStands(Char(s, gap[0]), last, pair, table, gap[1..]);
    }
  }

  lemma SeparatorStands(s: State, last: Option<string>, pair: Option<string>, table: map<string, string>)
    requires Stands(s, last, pair, table) && !s.mode.Comment?
    ensures Stands(Char(s, SEPARATOR), None, if last.None? || last.value in table then None else last, table)
    ensures Char(s, SEPARATOR).mode.HandleSep?
  {
    SettledStands(s, last, pair, table, SEPARATOR);
    if s.mode.Unquoted? {
      WordStands(s, last, pair, table);
    }
  }

  // A bare word goes into the buffer character by character.
  lemma {:induction false} BareRun(s: State, w: string)
    requires s.mode.Unquoted? && 0 < s.t <= |s.token|
    requires forall i :: 0 <= i < |w| ==> w[i] != COMMENT && w[i] != SEPARATOR && !IsSpace(w[i])
    ensures var s' := Parse(s, w);
      && s' == s.(token := s'.token, t := s.t + |w|)
      && s'.t <= |s'.token| && s'.token[..s'.t] == s.token[..s.t] + w
    decreases |w|
  {
    if w != "" {
      var s1 := Char(s, w[0]);
      assert s1 == AddChar(s, w[0]);
      assert s1.token[..s1.t] == s.token[..s.t] + [w[0]];
      BareRun(s1, w[1..]);
      assert (s.token[..s.t] + [w[0]]) + w[1..] == s.token[..s.t] + w;
    } else {
      assert s.token[..s.t] + w == s.token[..s.t];
    }
  }

  lemma BareStands(s: State, last: Option<string>, pair: Option<string>, table: map<string, string>, w: string)
    requires Stands(s, last, pair, table) && (s.mode.Initial? || s.mode.HandleSep?) && BareWord(w)
    ensures Stands(Parse(s, w), Some(w), pair, table) && Parse(s, w).mode.Unquoted?
  {
    SettledStands(s, last, pair, table, w[0]);
    var s1 := AddChar(Settled(s).(t := 0), w[0]).(mode := Unquoted);
    assert Char(s, w[0]) == s1;
    assert s1.token[..1] == [w[0]];
    BareRun(s1, w[1..]);
    assert [w[0]] + w[1..] == w;
  }

  lemma QuotesStand(s: State, last: Option<string>, pair: Option<string>, table: map<string, string>, w: string)
    requires Stands(s, last, pair, table) && (s.mode.Initial? || s.mode.HandleSep?) && Plain(w)
    ensures var s' := Parse(s, [QUOTE] + w + [QUOTE]); Stands(s', Some(w), pair, table) && s'.mode.Initial?
  {
    var text := [QUOTE] + w + [QUOTE];
    SettledStands(s, last, pair, table, QUOTE);
    assert text[0] == QUOTE && Parse(s, text) == Parse(Settled(s), text);
    QuotedWord(Settled(s), w);
  }

  // One more item.
  lemma ItemStands(s: State, items: seq<Item>, item: Item, table: map<string, string>)
    requires Stands(s, LastWord(items), Pending(items, table), table) && !s.mode.Comment? && GoodItem(item)
    requires s.mode.Unquoted? && !item.Separator? ==> item.gap != ""
    ensures var s', items' := Parse(s, ItemText(item)), items + [item];
      && Stands(s', LastWord(items'), Pending(items', table), table) && !s'.mode.Comment?
      && (s'.mode.Unquoted? ==> item.Bare?)
  {
    var last, pair := LastWord(items), Pending(items, table);
    assert (items + [item])[..|items|] == items;
    GapStands(s, last, pair, table, item.gap);
    var s1 := Parse(s, item.gap);
    match item
    case Bare(gap, w) =>
      ParseConcat(s, gap, w);
      BareStands(s1, last, pair, table, w);
    case InQuotes(gap, w) =>
      ParseConcat(s, gap, [QUOTE] + w + [QUOTE]);
      QuotesStand(s1, last, pair, table, w);
    case Separator(gap) =>
      ParseConcat(s, gap, [SEPARATOR]);
      ParseOne(s1, SEPARATOR);
      SeparatorStands(s1, last, pair, table);
  }

  lemma {:induction false} ItemsStand(s: State, items: seq<Item>)
    requires Fresh(s) && GoodItems(items)
    ensures var s' := Parse(s, ItemsText(items));
      && Stands(s', LastWord(items), Pending(items, s.table), s.table) && !s'.mode.Comment?
      && (s'.mode.Unquoted? ==> items != [] && items[|items| - 1].Bare?)
    decreases |items|
  {
    if items != [] {
      var front, item := items[..|items| - 1], items[|items| - 1];
      GoodFront(items);
      ItemsStand(s, front);
      ParseConcat(s, ItemsText(front), ItemText(item));
      assert Parse(s, ItemsText(items)) == Parse(Parse(s, ItemsText(front)), ItemText(item));
      ItemStands(Parse(s, ItemsText(front)), front, item, s.table);
      assert front + [item] == items;
    }
  }

  lemma GoodFront(items: seq<Item>)
    requires GoodItems(items) && items != []
    ensures var front, item := items[..|items| - 1], items[|items| - 1];
      && GoodItems(front) && GoodItem(item)
      && (front != [] && front[|front| - 1].Bare? && !item.Separator? ==> item.gap != "")
  {
  }

  // The end of a line

  lemma {:induction false} CommentRun(s: State, text: string)
    requires s.mode.Comment? && OneLine(text)
    ensures Parse(s, text) == s
    decreases |text|
  {
    if text != "" {
      CommentRun(s, text[1..]);
    }
  }

  lemma RemarkStands(s: State, last: Option<string>, pair: Option<string>, table: map<string, string>,
      comment: Option<string>)
    requires Stands(s, last, pair, table) && !s.mode.Comment? && (comment.Some? ==> OneLine(comment.value))
    ensures Stands(Parse(s, Remark(comment)), last, pair, table)
  {
    if comment.Some? {
      SettledStands(s, last, pair, table, COMMENT);
      if s.mode.Unquoted? {
        WordStands(s, last, pair, table);
      }
      ParseConcat(s, [COMMENT], comment.value);
      ParseOne(s, COMMENT);
      CommentRun(Char(s, COMMENT), comment.value);
    }
  }

  lemma NewlineBinds(s: State, last: Option<string>, pair: Option<string>, table: map<string, string>)
    requires Stands(s, last, pair, table)
    ensures var s' := Char(s, NEWLINE);
      Fresh(s') && s'.table == if pair.Some? then Bind(table, pair.value, OrEmpty(last)) else table
  {
    SettledStands(s, last, pair, table, NEWLINE);
    if s.mode.Unquoted? {
      WordStands(s, last, pair, table);
    }
    EndsLine(Settled(s), last, pair, table);
  }

  lemma EndsLine(s: State, last: Option<string>, pair: Option<string>, table: map<string, string>)
    requires Stands(s, last, pair, table) && !s.mode.HandleSep?
    requires s.mode.Unquoted? ==> EndToken(s).pair == pair && EndToken(s).table == table && TokenIs(EndToken(s), last)
    ensures var s' := Char(s, NEWLINE);
      Fresh(s') && s'.table == if pair.Some? then Bind(table, pair.value, OrEmpty(last)) else table
  {
    var s1 := if s.mode.Unquoted? then EndToken(s).(mode := HandleNewline) else s.(mode := HandleNewline);
    assert Step(s, NEWLINE) == (s1, false);
    assert Char(s, NEWLINE) == Char(s1, NEWLINE);
    assert Char(s1, NEWLINE) == Step(s1, NEWLINE).0;
  }

  // What waits for its value is the key of the line, unless it is bound.
  lemma {:induction false} PendingMeans(items: seq<Item>, table: map<string, string>)
    ensures var pair := Pending(items, table);
      (if pair.Some? then Bind(table, pair.value, OrEmpty(LastWord(items))) else table) == BindMeaning(table, items)
    ensures Pending(items, table) == match LastSeparator(items)
      case None => None
      case Some(i) =>
        var key := LastWord(items[..i]);
        if key.None? || key.value in table then None else key
    decreases |items|
  {
    if items != [] && !items[|items| - 1].Separator? {
      var front := items[..|items| - 1];
      PendingMeans(front, table);
      var i := LastSeparator(items);
      if i.Some? {
        assert front[..i.value] == items[..i.value];
        assert items[i.value + 1..][|items| - i.value - 2] == items[|items| - 1];
      }
    }
  }

  // A line binds what it means, and leaves nothing behind.
  lemma LineMeans(s: State, line: Line)
    requires Fresh(s) && GoodLine(line)
    ensures var s' := Parse(s, LineText(line)); Fresh(s') && s'.table == BindMeaning(s.table, line.items)
  {
    var last, pair := LastWord(line.items), Pending(line.items, s.table);
    var end := Remark(line.comment) + [NEWLINE];
    ParseConcat(s, ItemsText(line.items), line.tail + end);
    ItemsStand(s, line.items);
    var s1 := Parse(s, ItemsText(line.items));
    ParseConcat(s1, line.tail, end);
    GapStands(s1, last, pair, s.table, line.tail);
    var s2 := Parse(s1, line.tail);
    ParseConcat(s2, Remark(line.comment), [NEWLINE]);
    RemarkStands(s2, last, pair, s.table, line.comment);
    var s3 := Parse(s2, Remark(line.comment));
    ParseOne(s3, NEWLINE);
    NewlineBinds(s3, last, pair, s.table);
    PendingMeans(line.items, s.table);
  }

  // The lines that configuration files have

  // A key and a value, each bare or in quotes.
  lemma KeyAndValue(s: State, key: Item, gap: string, value: Item, tail: string, comment: Option<string>)
    requires Fresh(s) && GoodItem(key) && GoodItem(value) && !key.Separator? && !value.Separator?
    requires Blank(gap) && Blank(tail) && (comment.Some? ==> OneLine(comment.value))
    ensures var text := ItemText(key) + (gap + [SEPARATOR]) + ItemText(value) + (tail + (Remark(comment) + [NEWLINE]));
      Fresh(Parse(s, text)) && Parse(s, text).table == Bind(s.table, key.word, value.word)
  {
    var items := [key, Separator(gap), value];
    LineMeans(s, Line(items, tail, comment));
    ThreeItems(key, Separator(gap), value);
    assert ItemText(Separator(gap)) == gap + [SEPARATOR];
    assert ItemsText(items) == ItemText(key) + (gap + [SEPARATOR]) + ItemText(value);
    assert LastSeparator(items) == Some(1) && items[..1] == [key] && items[2..] == [value];
  }

  lemma ThreeItems(a: Item, b: Item, c: Item)
    ensures ItemsText([a, b, c]) == ItemText(a) + ItemText(b) + ItemText(c)
  {
    assert [a, b, c][..2] == [a, b] && [a, b][..1] == [a] && [a][..0] == [];
    assert ItemsText([a]) == ItemsText([]) + ItemText(a) == ItemText(a);
    assert ItemsText([a, b]) == ItemText(a) + ItemText(b);
  }

  // Without quotes: `key = value # comment`.
  lemma BareLine(s: State, key: string, gap: string, gap': string, value: string, tail: string, comment: Option<string>)
    requires Fresh(s) && BareWord(key) && BareWord(value) && Blank(gap) && Blank(gap') && Blank(tail)
    requires comment.Some? ==> OneLine(comment.value)
    ensures var text := key + gap + [SEPARATOR] + gap' + value + tail + Remark(comment) + [NEWLINE];
      Fresh(Parse(s, text)) && Parse(s, text).table == Bind(s.table, key, value)
  {
    KeyAndValue(s, Bare("", key), gap, Bare(gap', value), tail, comment);
    assert "" + key == key;
    Ungroup(key, gap, [SEPARATOR], gap', value, tail, Remark(comment), [NEWLINE]);
  }

  lemma Ungroup(a: string, b: string, c: string, d: string, e: string, f: string, g: string, h: string)
    ensures a + b + c + d + e + f + g + h == a + (b + c) + (d + e) + (f + (g + h))
  {
    assert a + b + c == a + (b + c);
    assert a + (b + c) + d + e == a + (b + c) + (d + e);
    var x := a + (b + c) + (d + e);
    assert x + f + g + h == x + (f + (g + h));
  }

  // A blank line, and a line that is only a comment.
  lemma EmptyLine(s: State, tail: string, comment: Option<string>)
    requires Fresh(s) && Blank(tail) && (comment.Some? ==> OneLine(comment.value))
    ensures var text := tail + Remark(comment) + [NEWLINE];
      Fresh(Parse(s, text)) && Parse(s, text).table == s.table
  {
    LineMeans(s, Line([], tail, comment));
    assert LineText(Line([], tail, comment)) == tail + Remark(comment) + [NEWLINE];
  }

  // A quote that is not closed ends with the line, and is no word: with no word between the last
  // separator and it, the key gets the empty value.
  lemma OpenQuote(s: State, items: seq<Item>, gap: string, w: string)
    requires Fresh(s) && GoodItems(items) && Blank(gap) && Plain(w) && LastWord(items) == None
    ensures var s' := Parse(s, ItemsText(items) + (gap + ([QUOTE] + (w + [NEWLINE]))));
      Fresh(s') && s'.table == BindMeaning(s.table, items)
  {
    var pair := Pending(items, s.table);
    ParseConcat(s, ItemsText(items), gap + ([QUOTE] + (w + [NEWLINE])));
    ItemsStand(s, items);
    var s1 := Parse(s, ItemsText(items));
    ParseConcat(s1, gap, [QUOTE] + (w + [NEWLINE]));
    GapStands(s1, None, pair, s.table, gap);
    var s2 := Parse(s1, gap);
    SettledStands(s2, None, pair, s.table, QUOTE);
    ParseConcat(s2, [QUOTE], w + [NEWLINE]);
    ParseOne(s2, QUOTE);
    var s3 := Settled(s2).(t := 0, mode := Quoted);
    assert Char(s2, QUOTE) == s3;
    ParseConcat(s3, w, [NEWLINE]);
    QuotedRun(s3, w);
    ParseOne(Parse(s3, w), NEWLINE);
    PendingMeans(items, s.table);
  }

  // Nothing is bound before the end of the line.
  lemma {:induction false} NoNewline(s: State, text: string)
    requires !s.mode.HandleNewline? && OneLine(text)
    ensures Parse(s, text).table == s.table && !Parse(s, text).mode.HandleNewline?
    decreases |text|
  {
    if text != "" {
      var s1 := Char(s, text[0]);
      assert s1.table == s.table && !s1.mode.HandleNewline? by {
        if s.mode.HandleSep? {
          assert s1 == Char(Step(s, text[0]).0, text[0]);
        }
      }
      NoNewline(s1, text[1..]);
    }
  }

  // Line after line

  ghost function FileText(lines: seq<Line>): string {
    if lines == [] then "" else LineText(lines[0]) + FileText(lines[1..])
  }

  ghost function BindLines(table: map<string, string>, lines: seq<Line>): map<string, string>
    decreases |lines|
  {
    if lines == [] then table else BindLines(BindMeaning(table, lines[0].items), lines[1..])
  }

  lemma {:induction false} LinesMean(s: State, lines: seq<Line>)
    requires Fresh(s) && forall i :: 0 <= i < |lines| ==> GoodLine(lines[i])
    ensures var s' := Parse(s, FileText(lines)); Fresh(s') && s'.table == BindLines(s.table, lines)
    decreases |lines|
  {
    if lines != [] {
      ParseConcat(s, LineText(lines[0]), FileText(lines[1..]));
      LineMeans(s, lines[0]);
      LinesMean(Parse(s, LineText(lines[0])), lines[1..]);
    }
  }

  // A whole file, in chunks of any size.
  method ParseLines(chunks: seq<string>, ghost lines: seq<Line>) returns (table: map<string, string>)
    requires Flat(chunks) == FileText(lines) && forall i :: 0 <= i < |lines| ==> GoodLine(lines[i])
    ensures table == BindLines(map[], lines)
  {
    LinesMean(Begin(), lines);
    table := ConfigParse(chunks);
  }

  // The first line that means a binding of `k` decides.
  ghost predicate FirstFor(lines: seq<Line>, i: nat, k: string, v: string) {
    && i < |lines| && Meaning(lines[i].items) == Some(Pair(k, v))
    && forall j :: 0 <= j < i ==> Meaning(lines[j].items).None? || Meaning(lines[j].items).value.key != k
  }

  lemma {:induction false} BoundByFirst(table: map<string, string>, lines: seq<Line>, i: nat, k: string, v: string)
    requires FirstFor(lines, i, k, v) && k !in table
    ensures k in BindLines(table, lines) && BindLines(table, lines)[k] == v
    decreases |lines|
  {
    var table1, rest := BindMeaning(table, lines[0].items), lines[1..];
    if i == 0 {
      StaysBound(table1, rest, k);
    } else {
      assert forall j :: 0 <= j < i - 1 ==> rest[j] == lines[j + 1];
      BoundByFirst(table1, rest, i - 1, k, v);
    }
  }

  lemma {:induction false} StaysBound(table: map<string, string>, lines: seq<Line>, k: string)
    requires k in table
    ensures k in BindLines(table, lines) && BindLines(table, lines)[k] == table[k]
    decreases |lines|
  {
    if lines != [] {
      StaysBound(BindMeaning(table, lines[0].items), lines[1..], k);
    }
  }

  // And nothing else binds it.
  lemma {:induction false} BoundSomewhere(table: map<string, string>, lines: seq<Line>, k: string) returns (i: nat)
    requires k !in table && k in BindLines(table, lines)
    ensures FirstFor(lines, i, k, BindLines(table, lines)[k])
    decreases |lines|
  {
    var table1, rest := BindMeaning(table, lines[0].items), lines[1..];
    if k in table1 {
      i := 0;
      StaysBound(table1, rest, k);
    } else {
      var j := BoundSomewhere(table1, rest, k);
      i := j + 1;
      assert forall n :: 0 <= n < j ==> rest[n] == lines[n + 1];
    }
  }
}
