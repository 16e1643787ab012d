// The table behind src/base/config_file.cc: the bindings in a binary search tree that is
// ordered by strcmp, config_get, and config_iterate.
module ConfigTable {
  import opened Common
  import opened TreeShape
  import opened BstMemory
  import opened BstTable
  import opened BstTraverser
  import opened ConfigFile
  import opened ConfigLines

  // strcmp(a, b) < 0
  predicate Precedes(a: string, b: string) {
    b != "" && (a == "" || a[0] < b[0] || (a[0] == b[0] && Precedes(a[1..], b[1..])))
  }

  // One is the start of the other, or it has the smaller character where they differ first.
  lemma {:induction false} PrecedesIs(a: string, b: string)
    ensures Precedes(a, b) <==> exists i: nat :: SmallerAt(a, b, i)
  {
    forall i: nat | i > 0 && SmallerAt(a, b, i) ensures a != "" && b != "" && a[0] == b[0] {
      assert a[..i][0] == a[0] && b[..i][0] == b[0];
    }
    if b != "" && a != "" && a[0] == b[0] {
      PrecedesIs(a[1..], b[1..]);
      if i: nat :| SmallerAt(a[1..], b[1..], i) {
        assert a[..i + 1] == [a[0]] + a[1..][..i] && b[..i + 1] == [b[0]] + b[1..][..i];
        assert SmallerAt(a, b, i + 1);
      }
      if i: nat :| SmallerAt(a, b, i) {
        if i > 0 {
          assert a[1..][..i - 1] == a[..i][1..] && b[1..][..i - 1] == b[..i][1..];
          assert SmallerAt(a[1..], b[1..], i - 1);
        }
      }
    } else if b != "" && (a == "" || a[0] < b[0]) {
      assert SmallerAt(a, b, 0);
    }
  }

  ghost predicate SmallerAt(a: string, b: string, i: nat) {
    i <= |a| && i < |b| && a[..i] == b[..i] && (i == |a| || a[i] < b[i])
  }

  // Strings up to a length are numbers in the same order, so that the tree, whose keys are
  // numbers, is a tree of such strings.

  const BASE := 0x11_0001

  function Power(n: nat): (r: nat)
    ensures r > 0
  {
    if n == 0 then 1 else BASE * Power(n - 1)
  }

  function Digit(s: string): (d: nat)
    ensures d < BASE
  {
    if s == "" then 0 else s[0] as int + 1
  }

  function Tail(s: string): string { if s == "" then "" else s[1..] }

  function Number(s: string, width: nat): nat
    requires |s| <= width
    decreases width
  {
    if width == 0 then 0 else Digit(s) * Power(width - 1) + Number(Tail(s), width - 1)
  }

  lemma DigitsOrdered(d: nat, e: nat, p: nat, r: nat)
    requires d < e && r < p
    ensures d * p + r < e * p && d * p + p <= e * p
  {
    assert (d + 1) * p <= e * p;
  }

  lemma {:induction false} NumberBound(s: string, width: nat)
    requires |s| <= width
    ensures Number(s, width) < Power(width)
    decreases width
  {
    if width > 0 {
      NumberBound(Tail(s), width - 1);
      DigitsOrdered(Digit(s), BASE, Power(width - 1), Number(Tail(s), width - 1));
    }
  }

  lemma {:induction false} NumberOrdered(a: string, b: string, width: nat)
    requires |a| <= width && |b| <= width
    ensures Number(a, width) < Number(b, width) <==> Precedes(a, b)
    ensures Number(a, width) == Number(b, width) <==> a == b
    decreases width
  {
    if width > 0 {
      var p := Power(width - 1);
      NumberBound(Tail(a), width - 1);
      NumberBound(Tail(b), width - 1);
      NumberOrdered(Tail(a), Tail(b), width - 1);
      if Digit(a) < Digit(b) {
        DigitsOrdered(Digit(a), Digit(b), p, Number(Tail(a), width - 1));
      } else if Digit(b) < Digit(a) {
        DigitsOrdered(Digit(b), Digit(a), p, Number(Tail(b), width - 1));
      } else {
        SameDigit(a, b);
      }
    }
  }

  lemma SameDigit(a: string, b: string)
    requires Digit(a) == Digit(b)
    ensures Precedes(a, b) <==> Precedes(Tail(a), Tail(b))
    ensures a == b <==> Tail(a) == Tail(b)
  {
    if a != "" {
      assert b != "" && a[0] == b[0];
      assert a == [a[0]] + a[1..] && b == [b[0]] + b[1..];
    }
  }

  // The nodes of the tree hold exactly the bindings; `place` says where.
  ghost predicate Stores(nodes: set<Ref>, key: map<Ref, int>, payload: map<Ref, nat>, items: map<nat, Pair>,
                         contents: map<string, string>, place: map<string, Ref>, width: nat) {
    && (forall n :: n in nodes ==>
      n in key && n in payload && HoldsPair(n, key[n], payload[n], items, contents, place, width))
    && (forall k :: k in contents ==>
      k in place && place[k] in nodes && payload[place[k]] in items && items[payload[place[k]]].key == k)
  }

  ghost predicate HoldsPair(n: Ref, number: int, item: nat, items: map<nat, Pair>,
                            contents: map<string, string>, place: map<string, Ref>, width: nat) {
    && item in items && items[item].key in contents && contents[items[item].key] == items[item].value
    && items[item].key in place && place[items[item].key] == n
    && |items[item].key| <= width && number == Number(items[item].key, width)
  }

  // A node with the number of a key holds that key.
  lemma NumberTells(nodes: set<Ref>, key: map<Ref, int>, payload: map<Ref, nat>, items: map<nat, Pair>,
                    contents: map<string, string>, place: map<string, Ref>, width: nat, k: string, n: Ref)
    requires Stores(nodes, key, payload, items, contents, place, width) && |k| <= width
    requires n in nodes && key[n] == Number(k, width)
    ensures items[payload[n]].key == k && k in contents && contents[k] == items[payload[n]].value
  {
    assert HoldsPair(n, key[n], payload[n], items, contents, place, width);
    NumberOrdered(k, items[payload[n]].key, width);
  }

  lemma NumberThere(nodes: set<Ref>, key: map<Ref, int>, payload: map<Ref, nat>, items: map<nat, Pair>,
                    contents: map<string, string>, place: map<string, Ref>, width: nat, k: string)
    requires Stores(nodes, key, payload, items, contents, place, width) && k in contents
    ensures |k| <= width && place[k] in nodes && key[place[k]] == Number(k, width)
  {
    assert HoldsPair(place[k], key[place[k]], payload[place[k]], items, contents, place, width);
  }

  lemma KeysShort(nodes: set<Ref>, key: map<Ref, int>, payload: map<Ref, nat>, items: map<nat, Pair>,
                  contents: map<string, string>, place: map<string, Ref>, width: nat, k: string)
    requires Stores(nodes, key, payload, items, contents, place, width)
    ensures k in contents ==> |k| <= width
  {
    if k in contents {
      NumberThere(nodes, key, payload, items, contents, place, width, k);
    }
  }

  // There are not more nodes than bindings.
  lemma {:induction false} NodesBound(nodes: set<Ref>, key: map<Ref, int>, payload: map<Ref, nat>,
      items: map<nat, Pair>,
                                      contents: map<string, string>, place: map<string, Ref>, width: nat)
    requires forall n :: n in nodes ==> n in key && n in payload
    requires forall n :: n in nodes ==> HoldsPair(n, key[n], payload[n], items, contents, place, width)
    ensures |nodes| <= |contents|
    decreases nodes
  {
    if nodes != {} {
      var n :| n in nodes;
      var k := items[payload[n]].key;
      assert HoldsPair(n, key[n], payload[n], items, contents, place, width);
      forall m | m in nodes - {n} ensures HoldsPair(m, key[m], payload[m], items, contents - {k}, place, width) {
        assert HoldsPair(m, key[m], payload[m], items, contents, place, width);
      }
      NodesBound(nodes - {n}, key, payload, items, contents - {k}, place, width);
      assert (contents - {k}).Keys == contents.Keys - {k};
    }
  }

  lemma StoresMore(nodes: set<Ref>, key: map<Ref, int>, payload: map<Ref, nat>, items: map<nat, Pair>,
                   contents: map<string, string>, place: map<string, Ref>, width: nat, p: Pair, r: Ref, item: nat)
    requires Stores(nodes, key, payload, items, contents, place, width)
    requires |p.key| <= width && p.key !in contents && r !in nodes && item !in items
    ensures Stores(nodes + {r}, key[r := Number(p.key, width)], payload[r := item], items[item := p],
                   contents[p.key := p.value], place[p.key := r], width)
  {
    var key', payload', items' := key[r := Number(p.key, width)], payload[r := item], items[item := p];
    forall n | n in nodes + {r}
      ensures HoldsPair(n, key'[n], payload'[n], items', contents[p.key := p.value], place[p.key := r], width)
    {
      assert n in nodes ==> HoldsPair(n, key[n], payload[n], items, contents, place, width);
    }
    forall k | k in contents ensures place[k] in nodes && items'[payload'[place[k]]].key == k {
      assert HoldsPair(place[k], key[place[k]], payload[place[k]], items, contents, place, width);
    }
  }

  // An item that no node has.
  lemma StoresItem(nodes: set<Ref>, key: map<Ref, int>, payload: map<Ref, nat>, items: map<nat, Pair>,
                   contents: map<string, string>, place: map<string, Ref>, width: nat, p: Pair, item: nat)
    requires Stores(nodes, key, payload, items, contents, place, width) && item !in items
    ensures Stores(nodes, key, payload, items[item := p], contents, place, width)
  {
    forall n | n in nodes ensures HoldsPair(n, key[n], payload[n], items[item := p], contents, place, width) {
      assert HoldsPair(n, key[n], payload[n], items, contents, place, width);
    }
    forall k | k in contents ensures items[item := p][payload[place[k]]].key == k {
      assert HoldsPair(place[k], key[place[k]], payload[place[k]], items, contents, place, width);
    }
  }

  lemma StoresSame(nodes: set<Ref>, key: map<Ref, int>, payload: map<Ref, nat>, key': map<Ref, int>,
      payload': map<Ref, nat>,
                   items: map<nat, Pair>, contents: map<string, string>, place: map<string, Ref>, width: nat)
    requires Stores(nodes, key, payload, items, contents, place, width)
    requires forall n :: n in nodes ==> n in key' && n in payload' && key'[n] == key[n] && payload'[n] == payload[n]
    ensures Stores(nodes, key', payload', items, contents, place, width)
  {
    forall n | n in nodes ensures HoldsPair(n, key'[n], payload'[n], items, contents, place, width) {
      assert HoldsPair(n, key[n], payload[n], items, contents, place, width);
    }
    forall k | k in contents ensures place[k] in nodes && items[payload'[place[k]]].key == k {
      assert place[k] in nodes;
    }
  }

  class Config {
    // no key is longer
    const width: nat
    const table: Table
    const traverser: Traverser
    var iterating: bool
    // the pairs by their addresses
    var items: map<nat, Pair>
    ghost var contents: map<string, string>
    ghost var place: map<string, Ref>

    ghost predicate Valid()
      reads this, table, traverser
    {
      && traverser.table == table && table.Valid()
      && Stores(Nodes(table.t), table.key, table.payload, items, contents, place, width)
    }

    constructor (width: nat)
      ensures Valid() && contents == map[] && this.width == width && fresh(table) && fresh(traverser) && !iterating
    {
      this.width := width;
      var t := new Table();
      table := t;
      traverser := new Traverser(t);
      iterating, items, contents, place := false, map[], map[], map[];
    }

    // config_get
    method Get(key: string) returns (value: Option<string>)
      requires Valid()
      ensures value == if key in contents then Some(contents[key]) else None
    {
      if |key| > width {
        KeysShort(Nodes(table.t), table.key, table.payload, items, contents, place, width, key);
        return None;
      }
      var n := table.Find(Number(key, width));
      if n == NULL {
        if key in contents {
          NumberThere(Nodes(table.t), table.key, table.payload, items, contents, place, width, key);
          assert false;
        }
        return None;
      }
      NumberTells(Nodes(table.t), table.key, table.payload, items, contents, place, width, key, n);
      value := Some(items[table.payload[n]].value);
    }

    // bst_probe with a new pair
    method Probe(p: Pair)
      requires Valid() && |p.key| <= width
      modifies table, `items, `contents, `place
      ensures Valid() && contents == Bind(old(contents), p.key, p.value)
    {
      var item := NewItem();
      var node := NewNode();
      ghost var t, key, payload := table.t, table.key, table.payload;
      BoundExactly(p.key);
      var r := Link(Number(p.key, width), item, node, p.key in contents);
      StoresProbed(t, key, payload, p, r, item);
      items := items[item := p];
      if p.key !in contents {
        contents, place := contents[p.key := p.value], place[p.key := r];
      }
    }

    method Link(number: int, item: nat, node: Ref, ghost there: bool) returns (r: Ref)
      requires table.Valid() && node !in table.mem && node != NULL
      requires there <==> HasNumber(table.t, table.key, number)
      modifies table
      ensures table.Valid() && Nodes(old(table.t)) <= Nodes(table.t) <= table.key.Keys
        && Nodes(table.t) <= table.payload.Keys
      ensures forall n :: n in Nodes(old(table.t)) ==>
        n in old(table.key) && n in old(table.payload) && table.key[n] == old(table.key)[n]
          && table.payload[n] == old(table.payload)[n]
      ensures if there then table.t == old(table.t)
              else
                && Nodes(table.t) == Nodes(old(table.t)) + {r} && r !in Nodes(old(table.t))
                && table.payload[r] == item && table.key[r] == number
    {
      r := table.Probe(number, item, node);
    }

    static ghost predicate HasNumber(t: Shape, key: map<Ref, int>, number: int) { exists n :: Holds(key, t, n, number) }

    lemma BoundExactly(k: string)
      requires Valid() && |k| <= width
      ensures k in contents <==> HasNumber(table.t, table.key, Number(k, width))
    {
      if k in contents {
        NumberThere(Nodes(table.t), table.key, table.payload, items, contents, place, width, k);
        assert Holds(table.key, table.t, place[k], Number(k, width));
      }
      if n :| Holds(table.key, table.t, n, Number(k, width)) {
        NumberTells(Nodes(table.t), table.key, table.payload, items, contents, place, width, k, n);
      }
    }

    // A pair whose key is there is not linked in.
    lemma StoresProbed(t: Shape, key: map<Ref, int>, payload: map<Ref, nat>, p: Pair, r: Ref, item: nat)
      requires Stores(Nodes(t), key, payload, items, contents, place, width) && |p.key| <= width && item !in items
      requires Nodes(t) <= Nodes(table.t) <= table.key.Keys && Nodes(table.t) <= table.payload.Keys
      requires forall n :: n in Nodes(t) ==>
        n in key && n in payload && table.key[n] == key[n] && table.payload[n] == payload[n]
      requires if p.key in contents then table.t == t
               else
                 && Nodes(table.t) == Nodes(t) + {r} && r !in Nodes(t)
                 && table.payload[r] == item && table.key[r] == Number(p.key, width)
      ensures p.key in contents ==> Stores(Nodes(table.t), table.key, table.payload, items[item := p], contents, place,
        width)
      ensures p.key !in contents ==>
        Stores(Nodes(table.t), table.key, table.payload, items[item := p], contents[p.key := p.value],
          place[p.key := r], width)
    {
      if p.key in contents {
        StoresSame(Nodes(t), key, payload, table.key, table.payload, items, contents, place, width);
        StoresItem(Nodes(t), table.key, table.payload, items, contents, place, width, p, item);
      } else {
        StoresMore(Nodes(t), key, payload, items, contents, place, width, p, r, item);
        StoresSame(Nodes(table.t), key[r := Number(p.key, width)], payload[r := item], table.key, table.payload,
                   items[item := p], contents[p.key := p.value], place[p.key := r], width);
      }
    }

    // malloc
    method NewItem() returns (item: nat)
      ensures item !in items
    {
      ghost var bound := Bound(items.Keys);
      assert bound !in items;
      item :| item !in items;
    }

    method NewNode() returns (node: Ref)
      ensures node !in table.mem && node != NULL
    {
      ghost var bound := Bound(table.mem.Keys + {NULL});
      assert bound !in table.mem && bound != NULL;
      node :| node !in table.mem && node != NULL;
    }

    // config_reset
    method Reset()
      modifies `iterating
      ensures !iterating
    {
      iterating := false;
    }

    // Every node has a pair.
    ghost predicate Paired()
      reads this, table
    {
      table.Valid() && forall n :: n in Nodes(table.t) ==> n in table.payload && table.payload[n] in items
    }

    // config_iterate: the first pair, then the one after the current one. False when a
    // rebalance cannot be done.
    method Iterate() returns (fits: bool, pair: Option<Pair>)
      requires traverser.table == table && Paired() && (iterating ==> traverser.Valid())
      modifies `iterating, table`mem, table`t, table`generation, traverser
      ensures iterating && traverser.table == table && (table.count < 0x1_0000_0000 ==> fits)
      ensures fits ==> Paired() && traverser.Valid() && Inorder(table.t) == Inorder(old(table.t))
      ensures fits ==> Moved(table.key, Inorder(table.t), if old(iterating) then old(traverser.node) else NULL,
        traverser.node)
      ensures fits ==> pair == if traverser.node == NULL then None
        else Some(PairOf(table.payload, items, traverser.node))
    {
      ghost var t := table.t;
      if iterating {
        fits := traverser.Next();
      } else {
        iterating := true;
        fits := traverser.First();
      }
      pair := None;
      if fits {
        SameOrderSameNodes(t, table.t);
        if traverser.node != NULL {
          pair := Some(items[table.payload[traverser.node]]);
        }
      }
    }

    // Between two calls of config_iterate: the pairs so far, and the current one.
    ghost predicate Halfway(s: seq<Ref>, visited: seq<Ref>, pairs: seq<Pair>, pair: Option<Pair>)
      reads this, table, traverser
    {
      && traverser.table == table && Paired() && traverser.Valid() && iterating && Inorder(table.t) == s
      && Progress(s, visited, traverser.node) && PairsOf(table.payload, items, visited, pairs)
      && pair == if traverser.node == NULL then None else Some(PairOf(table.payload, items, traverser.node))
    }

    method Another(pairs: seq<Pair>, pair: Pair, ghost s: seq<Ref>, ghost visited: seq<Ref>)
      returns (fits: bool, next: Option<Pair>)
      requires Halfway(s, visited, pairs, Some(pair))
      modifies `iterating, table`mem, table`t, table`generation, traverser
      ensures table.count < 0x1_0000_0000 ==> fits
      ensures fits ==> Halfway(s, visited + [old(traverser.node)], pairs + [pair], next)
    {
      PairsMore(table.payload, items, visited, pairs, traverser.node);
      ghost var from := traverser.node;
      NodesInOrder(table);
      fits, next := Iterate();
      if fits {
        NodesInOrder(table);
        FollowingNode(table.key, s, visited, from, traverser.node);
      }
    }

    // All pairs, as a caller of config_iterate gets them.
    method AllPairs() returns (fits: bool, pairs: seq<Pair>)
      requires traverser.table == table && Paired()
      modifies `iterating, table`mem, table`t, table`generation, traverser
      ensures table.count < 0x1_0000_0000 ==> fits
      ensures fits ==> traverser.table == table && table.Valid() && Inorder(table.t) == Inorder(old(table.t))
      ensures fits ==> PairsOf(table.payload, items, Inorder(table.t), pairs)
    {
      ghost var s := Inorder(table.t);
      ghost var visited: seq<Ref> := [];
      pairs := [];
      Reset();
      var pair;
      fits, pair := Iterate();
      if fits {
        NodesInOrder(table);
        FirstNode(table.key, s, traverser.node);
      }
      while fits && pair != None
        invariant (table.count < 0x1_0000_0000 ==> fits) && (fits ==> Halfway(s, visited, pairs, pair))
        invariant |visited| <= |s|
        decreases |s| - |visited|
      {
        ghost var from := traverser.node;
        var current := pair.value;
        fits, pair := Another(pairs, current, s, visited);
        pairs, visited := pairs + [current], visited + [from];
      }
    }

    lemma AllHere()
      requires Valid()
      ensures Paired() && table.count <= |contents|
    {
      InorderSize(table.t);
      NodesBound(Nodes(table.t), table.key, table.payload, items, contents, place, width);
    }

    method All() returns (fits: bool, pairs: seq<Pair>)
      requires Valid()
      modifies `iterating, table`mem, table`t, table`generation, traverser
      ensures |contents| < 0x1_0000_0000 ==> fits
      ensures fits ==> Valid() && Lists(pairs, contents)
      ensures fits ==> forall i, j :: 0 <= i < j < |pairs| ==> Precedes(pairs[i].key, pairs[j].key)
    {
      ghost var t := table.t;
      AllHere();
      fits, pairs := AllPairs();
      if fits {
        SameOrderSameNodes(t, table.t);
        InOrderOfKeys(Inorder(table.t), pairs);
      }
    }

    // The pair of a node.
    static ghost function PairOf(payload: map<Ref, nat>, items: map<nat, Pair>, n: Ref): Pair {
      if n in payload && payload[n] in items then items[payload[n]] else Pair("", "")
    }

    static ghost predicate PairsOf(payload: map<Ref, nat>, items: map<nat, Pair>, ns: seq<Ref>, pairs: seq<Pair>) {
      |pairs| == |ns| && forall i :: 0 <= i < |pairs| ==> pairs[i] == PairOf(payload, items, ns[i])
    }

    static lemma PairsMore(payload: map<Ref, nat>, items: map<nat, Pair>, ns: seq<Ref>, pairs: seq<Pair>, n: Ref)
      requires PairsOf(payload, items, ns, pairs)
      ensures PairsOf(payload, items, ns + [n], pairs + [PairOf(payload, items, n)])
    {
    }

    lemma InOrderOfKeys(s: seq<Ref>, pairs: seq<Pair>)
      requires Valid() && s == Inorder(table.t) && PairsOf(table.payload, items, s, pairs)
      ensures Lists(pairs, contents)
      ensures forall i, j :: 0 <= i < j < |pairs| ==> Precedes(pairs[i].key, pairs[j].key)
    {
      forall n ensures n in s <==> n in Nodes(table.t) {
        InorderNodes(table.t, n);
      }
      forall i | 0 <= i < |s|
        ensures pairs[i].key in contents && contents[pairs[i].key] == pairs[i].value
        ensures |pairs[i].key| <= width && table.key[s[i]] == Number(pairs[i].key, width)
      {
        assert s[i] in Nodes(table.t);
        assert HoldsPair(s[i], table.key[s[i]], table.payload[s[i]], items, contents, place, width);
      }
      forall i, j | 0 <= i < j < |pairs| ensures Precedes(pairs[i].key, pairs[j].key) {
        NumberOrdered(pairs[i].key, pairs[j].key, width);
      }
      forall k | k in contents ensures exists i :: 0 <= i < |pairs| && pairs[i].key == k {
        assert place[k] in s;
        var i :| 0 <= i < |s| && s[i] == place[k];
        assert pairs[i].key == k;
      }
    }
  }

  // The parser with its table

  // No token and no key is longer than what has been read.
  ghost predicate Short(s: State, read: nat) {
    |s.token| <= read + 1 && s.t <= |s.token| && s.t <= read && (s.pair.Some? ==> |s.pair.value| <= read + 1)
  }

  lemma {:induction false} CStringShort(s: string)
    ensures |CString(s)| <= |s|
  {
    if s != "" && s[0] != NUL {
      CStringShort(s[1..]);
    }
  }

  lemma StepShort(s: State, c: char, read: nat)
    requires Short(s, read)
    ensures Short(Step(s, c).0, if Step(s, c).1 then read + 1 else read)
  {
    CStringShort(s.token);
  }

  // What a turn of the loop stores.
  function Stored(s: State): Option<Pair> {
    if s.mode == HandleNewline && s.pair.Some? then Some(Pair(s.pair.value, if s.got then CString(s.token) else ""))
      else None
  }

  lemma StepStores(s: State, c: char)
    ensures Step(s, c).0.table == match Stored(s) case Some(p) => Bind(s.table, p.key, p.value) case None => s.table
  {
  }

  // Before a turn: what it stores goes into the table.
  method Keep(config: Config, s: State, c: char, ghost read: nat)
    requires config.Valid() && config.contents == s.table && Short(s, read) && read < config.width
    modifies config.table, config`items, config`contents, config`place
    ensures config.Valid() && config.contents == Step(s, c).0.table
  {
    StepStores(s, c);
    var stored := Stored(s);
    if stored.Some? {
      config.Probe(stored.value);
    }
  }

  lemma TurnParsed(s: State, buf: string, p: nat)
    requires p < |buf|
    ensures var (next, consumed) := Step(s, buf[p]);
      Parse(s, buf[p..]) == Parse(next, buf[if consumed then p + 1 else p..])
  {
    assert buf[p..][0] == buf[p] && buf[p..][1..] == buf[p + 1..];
    var (next, consumed) := Step(s, buf[p]);
    if !consumed {
      assert Char(s, buf[p]) == Char(next, buf[p]);
    }
  }

  lemma RankFalls(s: State, c: char)
    ensures !Step(s, c).1 ==> Rank(Step(s, c).0.mode) < Rank(s.mode)
  {
  }

  // The loop over a chunk, with the table.
  method LoadChunk(config: Config, before: State, buf: string, ghost read: nat) returns (s: State)
    requires config.Valid() && config.contents == before.table && Short(before, read) && read + |buf| < config.width
    modifies config.table, config`items, config`contents, config`place
    ensures config.Valid() && config.contents == s.table
    ensures s == Parse(before, buf) && Short(s, read + |buf|)
  {
    s := before;
    var p := 0;
    assert buf[0..] == buf;
    while p < |buf|
      invariant p <= |buf| && Parse(s, buf[p..]) == Parse(before, buf) && Short(s, read + p)
      invariant config.Valid() && config.contents == s.table
      decreases |buf| - p, Rank(s.mode)
    {
      s, p := LoadTurn(config, s, buf, p, read);
    }
    assert buf[p..] == "";
  }

  // One turn of the loop: the state and the place in the buffer.
  method LoadTurn(config: Config, s: State, buf: string, p: nat, ghost read: nat) returns (s': State, p': nat)
    requires config.Valid() && config.contents == s.table && Short(s, read + p) && p < |buf|
      && read + |buf| < config.width
    modifies config.table, config`items, config`contents, config`place
    ensures config.Valid() && config.contents == s'.table && Short(s', read + p') && p <= p' <= |buf|
    ensures Parse(s', buf[p'..]) == Parse(s, buf[p..]) && (p' == p ==> Rank(s'.mode) < Rank(s.mode))
  {
    StepShort(s, buf[p], read + p);
    TurnParsed(s, buf, p);
    RankFalls(s, buf[p]);
    Keep(config, s, buf[p], read + p);
    var (next, consumed) := Step(s, buf[p]);
    s', p' := next, if consumed then p + 1 else p;
  }

  method Length(chunks: seq<string>) returns (n: nat)
    ensures n == |Flat(chunks)|
  {
    n := 0;
    var i := |chunks|;
    while i > 0
      invariant 0 <= i <= |chunks| && n == |Flat(chunks[i..])|
    {
      i := i - 1;
      assert chunks[i..][1..] == chunks[i + 1..];
      n := |chunks[i]| + n;
    }
    assert chunks[0..] == chunks;
  }

  // config_parse: the tree holds what the text binds, however the text is cut.
  method Load(chunks: seq<string>) returns (config: Config)
    ensures fresh(config) && fresh(config.table) && fresh(config.traverser)
    ensures config.Valid() && config.contents == ConfigFile.Parse(Begin(), Flat(chunks)).table
  {
    var length := Length(chunks);
    config := new Config(length + 1);
    var s := Begin();
    var i := 0;
    ghost var read: nat := 0;
    assert chunks[0..] == chunks;
    while i < |chunks|
      invariant i <= |chunks| && Parse(s, Flat(chunks[i..])) == Parse(Begin(), Flat(chunks))
      invariant read + |Flat(chunks[i..])| == length && Short(s, read) && config.width == length + 1
      invariant config.Valid() && config.contents == s.table
      invariant fresh(config) && fresh(config.table) && fresh(config.traverser)
    {
      assert chunks[i..][1..] == chunks[i + 1..];
      ParseConcat(s, chunks[i], Flat(chunks[i + 1..]));
      s := LoadChunk(config, s, chunks[i], read);
      read := read + |chunks[i]|;
      i := i + 1;
    }
    assert chunks[i..] == [];
  }

  // A file of lines: the tree holds what they mean, and the first line for a key decides.
  method LoadLines(chunks: seq<string>, ghost lines: seq<Line>) returns (config: Config)
    requires Flat(chunks) == FileText(lines) && forall i :: 0 <= i < |lines| ==> GoodLine(lines[i])
    ensures fresh(config) && config.Valid() && config.contents == BindLines(map[], lines)
  {
    LinesMean(Begin(), lines);
    config := Load(chunks);
  }

  // A rendered map, read and iterated: its bindings in the order of their keys.
  method LoadedInOrder(chunks: seq<string>, ghost ps: seq<Pair>, ghost m: map<string, string>)
    returns (fits: bool, pairs: seq<Pair>)
    requires Flat(chunks) == Render(ps) && Lists(ps, m) && forall i :: 0 <= i < |ps| ==>
      Plain(ps[i].key) && Plain(ps[i].value)
    ensures |m| < 0x1_0000_0000 ==> fits
    ensures fits ==> Lists(pairs, m)
    ensures fits ==> forall i, j :: 0 <= i < j < |pairs| ==> Precedes(pairs[i].key, pairs[j].key)
  {
    ParseUndoesRender(ps, m);
    var config := Load(chunks);
    fits, pairs := config.All();
  }
}
