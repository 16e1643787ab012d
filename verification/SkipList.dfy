// The skip list of src/base/skip_list.cc over values with an order.
module SkipList {
  import opened SkipChains

  datatype Op = NextLevel | NextNode | Finish

  // A comparison result as one of -1, 0 and 1.
  function Normalize(cmp: int): int {
    if cmp <= -1 then -1 else if cmp >= 1 then 1 else 0
  }

  // The level that a node gets after `coins` successful throws.
  function LevelOf(coins: nat): nat {
    if coins < LEVEL_MAX then coins else LEVEL_MAX
  }

  // How a search compares values with what it looks for: below first, then equal, then above.
  ghost predicate Monotone(cmp: int -> int) {
    forall x, y :: x <= y ==> Normalize(cmp(x)) <= Normalize(cmp(y))
  }

  ghost predicate Ascending(key: map<Ref, int>, s: seq<Ref>) {
    && (forall i :: 0 <= i < |s| ==> s[i] in key)
    && (forall i, j :: 0 < i < j < |s| ==> key[s[i]] < key[s[j]])
  }

  // The level of the list: the highest level of a node. Without nodes it is 0 at first
  // and -1 after the last deletion.
  ghost predicate Topped(level: Levels, s: seq<Ref>, top: int)
    requires Known(level, s)
  {
    && -1 <= top <= LEVEL_MAX
    && (forall i :: 0 < i < |s| ==> level[s[i]] <= top)
    && (if |s| <= 1 then top <= 0 else exists i :: 0 < i < |s| && level[s[i]] == top)
  }

  // `k` is stored with `d`.
  ghost predicate StoredIn(s: seq<Ref>, key: map<Ref, int>, data: map<Ref, nat>, k: int, d: nat) {
    exists i :: 0 < i < |s| && s[i] in key && s[i] in data && key[s[i]] == k && data[s[i]] == d
  }

  ghost predicate Named(data: map<Ref, nat>, s: seq<Ref>) { forall i :: 0 <= i < |s| ==> s[i] in data }

  // From one list to another one that has `d` stored with `k`, and is else the same.
  ghost predicate Put(s: seq<Ref>, key: map<Ref, int>, data: map<Ref, nat>,
                      s': seq<Ref>, key': map<Ref, int>, data': map<Ref, nat>, k: int, d: nat) {
    forall k', d' :: StoredIn(s', key', data', k', d') <==> if k' == k then d' == d else StoredIn(s, key, data, k', d')
  }

  // From one list to another one that has nothing stored with `k`, and is else the same.
  ghost predicate Dropped(s: seq<Ref>, s': seq<Ref>, key: map<Ref, int>, data: map<Ref, nat>, k: int) {
    forall k', d' :: StoredIn(s', key, data, k', d') <==> k' != k && StoredIn(s, key, data, k', d')
  }

  // A value is stored anew after the old node is gone.
  lemma PutAfterDrop(s: seq<Ref>, key: map<Ref, int>, data: map<Ref, nat>, s1: seq<Ref>,
                     s': seq<Ref>, key': map<Ref, int>, data': map<Ref, nat>, k: int, d: nat)
    requires Dropped(s, s1, key, data, k) && Put(s1, key, data, s', key', data', k, d)
    ensures Put(s, key, data, s', key', data', k, d)
  {
    forall k', d' ensures (StoredIn(s', key', data', k', d')
      <==> if k' == k then d' == d else StoredIn(s, key, data, k', d')) {
      assert StoredIn(s1, key, data, k', d') <==> k' != k && StoredIn(s, key, data, k', d');
    }
  }

  lemma AddedStores(s: seq<Ref>, key: map<Ref, int>, data: map<Ref, nat>, pos: nat, n: Ref, k: int, d: nat, k': int,
      d': nat)
    requires Ascending(key, s) && Named(data, s) && pos < |s| && n !in s
    requires forall i :: 0 < i < |s| ==> key[s[i]] != k
    ensures StoredIn(Plus(s, pos + 1, n), key[n := k], data[n := d], k', d')
      <==> if k' == k then d' == d else StoredIn(s, key, data, k', d')
  {
    var s', key', data' := Plus(s, pos + 1, n), key[n := k], data[n := d];
    assert s'[pos + 1] == n;
    if i :| 0 < i < |s| && key[s[i]] == k' && data[s[i]] == d' {
      assert s'[if i <= pos then i else i + 1] == s[i];
    }
    assert forall i :: 0 < i < |s'| && i != pos + 1 ==> s'[i] == s[if i <= pos then i else i - 1];
  }

  lemma AddedAll(s: seq<Ref>, key: map<Ref, int>, data: map<Ref, nat>, at: nat, n: Ref, k: int, d: nat)
    requires Ascending(key, s) && Named(data, s) && 0 < at <= |s| && n !in s
    requires forall i :: 0 < i < |s| ==> key[s[i]] != k
    ensures Put(s, key, data, Plus(s, at, n), key[n := k], data[n := d], k, d)
  {
    forall k', d' ensures (StoredIn(Plus(s, at, n), key[n := k], data[n := d], k', d')
                           <==> if k' == k then d' == d else StoredIn(s, key, data, k', d')) {
      AddedStores(s, key, data, at - 1, n, k, d, k', d');
    }
  }

  lemma AddedTop(s: seq<Ref>, level: Levels, at: nat, n: Ref, l: nat, top: int)
    requires Known(level, s) && 0 < at <= |s| && n !in s && n != NULL && Topped(level, s, top) && l <= LEVEL_MAX
    ensures Known(level[n := l], Plus(s, at, n)) && Topped(level[n := l], Plus(s, at, n), if l > top then l else top)
  {
    var s', level', t := Plus(s, at, n), level[n := l], if l > top then l else top;
    assert s'[at] == n;
    assert forall i :: 0 <= i < |s'| && i != at ==> s'[i] == s[if i < at then i else i - 1];
    if l <= top && |s| > 1 {
      var i :| 0 < i < |s| && level[s[i]] == top;
      assert level'[s'[if i < at then i else i + 1]] == t;
    } else {
      assert level'[s'[at]] == l;
    }
  }

  lemma AddedOrder(s: seq<Ref>, key: map<Ref, int>, data: map<Ref, nat>, level: Levels, at: nat, n: Ref, k: int,
      d: nat, l: nat, top: int)
    requires Ascending(key, s) && Named(data, s) && Known(level, s) && 0 < at <= |s| && n !in s && n != NULL
    requires Topped(level, s, top) && l <= LEVEL_MAX
    requires forall i :: 0 < i < |s| ==> if i < at then key[s[i]] < k else k < key[s[i]]
    ensures var s' := Plus(s, at, n);
      && Ascending(key[n := k], s') && Named(data[n := d], s') && s'[0] == s[0]
      && Known(level[n := l], s') && Topped(level[n := l], s', if l > top then l else top)
  {
    AddedTop(s, level, at, n, l, top);
    var s' := Plus(s, at, n);
    assert s'[at] == n;
    assert forall i :: 0 <= i < |s'| && i != at ==> s'[i] == s[if i < at then i else i - 1];
  }

  lemma RemovedStores(s: seq<Ref>, key: map<Ref, int>, data: map<Ref, nat>, at: nat, k': int, d': nat)
    requires Ascending(key, s) && Named(data, s) && 0 < at < |s|
    ensures StoredIn(Minus(s, at), key, data, k', d') <==> k' != key[s[at]] && StoredIn(s, key, data, k', d')
  {
    var s' := Minus(s, at);
    if i :| 0 < i < |s| && key[s[i]] == k' && data[s[i]] == d' {
      if i != at {
        assert s'[if i < at then i else i - 1] == s[i];
      }
    }
    assert forall i :: 0 < i < |s'| ==> s'[i] == s[if i < at then i else i + 1];
  }

  lemma RemovedAll(s: seq<Ref>, key: map<Ref, int>, data: map<Ref, nat>, at: nat)
    requires Ascending(key, s) && Named(data, s) && 0 < at < |s|
    ensures Dropped(s, Minus(s, at), key, data, key[s[at]])
    ensures var s' := Minus(s, at); forall i :: 0 < i < |s'| ==> s'[i] in key && key[s'[i]] != key[s[at]]
  {
    forall k, d ensures StoredIn(Minus(s, at), key, data, k, d) <==> k != key[s[at]] && StoredIn(s, key, data, k, d) {
      RemovedStores(s, key, data, at, k, d);
    }
    var s' := Minus(s, at);
    assert forall i :: 0 < i < |s'| ==> s'[i] == s[if i < at then i else i + 1];
  }

  lemma RemovedOrder(s: seq<Ref>, key: map<Ref, int>, data: map<Ref, nat>, level: Levels, at: nat, top: int)
    requires Ascending(key, s) && Named(data, s) && Known(level, s) && 0 < at < |s|
    requires forall i :: 0 < i < |s| ==> level[s[i]] <= top
    ensures var s' := Minus(s, at);
      Ascending(key, s') && Named(data, s') && Known(level, s') && s'[0] == s[0]
        && forall i :: 0 < i < |s'| ==> level[s'[i]] <= top
  {
    var s' := Minus(s, at);
    assert forall i :: 0 <= i < |s'| ==> s'[i] == s[if i < at then i else i + 1];
  }

  // How far a descent has come, in positions: `u` for the nodes to be updated.
  datatype Way = Way(pos: nat, behind: nat, u: seq<nat>) {
    ghost function Closed(j: nat, l: nat): Way
      requires l < |u|
    {
      Way(pos, if j < behind then j else behind, u[l := pos])
    }
  }

  function Start(count: nat): Way {
    var u: seq<nat> := seq(LEVEL_MAX + 1, _ => 0);
    Way(0, count, u)
  }

  function NoNodes(): (update: seq<Ref>)
    ensures |update| == LEVEL_MAX + 1
  {
    seq(LEVEL_MAX + 1, _ => NULL)
  }

  ghost predicate Sound(links: Links, level: Levels, key: map<Ref, int>, data: map<Ref, nat>,
                        header: Ref, top: int, length: nat, nodes: seq<Ref>) {
    && nodes != [] && nodes[0] == header
    && Chained(links, level, nodes) && level[header] == LEVEL_MAX
    && Ascending(key, nodes) && Named(data, nodes)
    && Topped(level, nodes, top) && length == |nodes| - 1
  }

  class List {
    var links: Links
    var level: Levels
    var key: map<Ref, int>
    var data: map<Ref, nat>
    var header: Ref
    var top: int
    var length: nat
    ghost var nodes: seq<Ref>

    ghost predicate Valid()
      reads this
    {
      Sound(links, level, key, data, header, top, length, nodes)
    }

    ghost predicate Has(k: int)
      reads this
    {
      exists i :: 0 < i < |nodes| && nodes[i] in key && key[nodes[i]] == k
    }

    constructor (node: Ref)
      requires node != NULL
      ensures Valid() && nodes == [node] && length == 0
    {
      links, level := map[node := seq(LEVEL_MAX + 1, _ => NULL)], map[node := LEVEL_MAX];
      key, data := map[node := 0], map[node := 0];
      header, top, length, nodes := node, 0, 0, [node];
    }

    // Searching

    function OpSearch(fwd: Ref, cmp: int -> int): Op
      requires fwd == NULL || fwd in key
      reads this
    {
      if fwd == NULL then NextLevel
      else
        var c := Normalize(cmp(key[fwd]));
        if c == -1 then NextNode else if c == 0 then Finish else NextLevel
    }

    function OpDelete(fwd: Ref, cmp: int -> int): Op
      requires fwd == NULL || fwd in key
      reads this
    {
      if fwd != NULL && Normalize(cmp(key[fwd])) == -1 then NextNode else NextLevel
    }

    // The link of the node at `pos` on level `l`, as a position.
    lemma Forward(pos: nat, l: nat) returns (j: nat)
      requires Valid() && pos < |nodes| && l <= level[nodes[pos]]
      ensures var fwd := links[nodes[pos]][l];
        && pos < j <= |nodes| && fwd == (if j == |nodes| then NULL else nodes[j])
          && (j < |nodes| ==> fwd != NULL && level[fwd] >= l)
        && forall i :: pos < i < j ==> level[nodes[i]] < l
    {
      var rest := nodes[pos + 1..];
      if links[nodes[pos]][l] == NULL {
        j := |rest|;
        assert rest[..j] == rest;
      } else {
        j := NextInIndex(level, rest, l);
      }
      NextInNone(level, rest[..j], l);
      forall i | pos < i < pos + 1 + j ensures level[nodes[i]] < l {
        assert rest[..j][i - pos - 1] == nodes[i];
      }
      j := pos + 1 + j;
    }

    // A way down the levels. What is looked for lies above `pos` and at or below `behind`;
    // the nodes in between are on no level above `l`. For every level above `l`, `update`
    // has the last node up to `pos`.
    ghost predicate Descent(cmp: int -> int, least: int, w: Way, update: seq<Ref>, l: int)
      reads this
    {
      && w.pos < w.behind <= |nodes| && -1 <= l <= top && Level(nodes[w.pos]) >= l
      && (w.pos == 0 || Normalize(cmp(Key(nodes[w.pos]))) == -1)
      && (w.behind == |nodes| || Normalize(cmp(Key(nodes[w.behind]))) >= least)
      && (forall i :: w.pos < i < w.behind ==> Level(nodes[i]) <= l)
      && |update| == |w.u| == LEVEL_MAX + 1
      && (forall i :: l < i <= top && 0 <= i <= LEVEL_MAX ==> LastBefore(w, i) && update[i] == nodes[w.u[i]])
    }

    ghost predicate LastBefore(w: Way, l: nat)
      reads this
      requires l < |w.u| && w.behind <= |nodes|
    {
      var u := w.u[l];
      u <= w.pos < |nodes| && Level(nodes[u]) >= l && forall j :: u < j < w.behind ==> Level(nodes[j]) < l
    }

    ghost function Level(x: Ref): nat
      reads this
    {
      if x in level then level[x] else 0
    }

    ghost function Key(x: Ref): int
      reads this
    {
      if x in key then key[x] else 0
    }

    lemma NodeDone(cmp: int -> int, least: int, w: Way, update: seq<Ref>, l: nat, j: nat)
      requires Valid() && Monotone(cmp) && Descent(cmp, least, w, update, l) && least >= 0
      requires w.pos < j < |nodes| && level[nodes[j]] >= l && Normalize(cmp(key[nodes[j]])) == -1
      ensures Descent(cmp, least, w.(pos := j), update[l := nodes[j]], l)
    {
      forall i | l < i <= top ensures LastBefore(w.(pos := j), i) {
        assert LastBefore(w, i);
      }
    }

    lemma LevelDone(cmp: int -> int, least: int, w: Way, update: seq<Ref>, l: nat, j: nat)
      requires Valid() && Monotone(cmp) && Descent(cmp, least, w, update, l)
      requires w.pos < j <= |nodes| && (j < |nodes| ==> Normalize(cmp(key[nodes[j]])) >= least)
      requires forall i :: w.pos < i < j ==> level[nodes[i]] < l
      ensures Descent(cmp, least, w.Closed(j, l), update[l := nodes[w.pos]], l - 1)
    {
      var w' := w.Closed(j, l);
      forall i | l <= i <= top ensures LastBefore(w', i) && update[l := nodes[w.pos]][i] == nodes[w'.u[i]] {
        assert i > l ==> LastBefore(w, i);
      }
    }

    // At the bottom there is nothing in between.
    lemma Between(cmp: int -> int, least: int, w: Way, update: seq<Ref>, l: int)
      requires Valid() && Descent(cmp, least, w, update, l)
      ensures w.pos + 1 < w.behind ==> level[nodes[w.pos + 1]] <= l
    {
    }

    lemma Bottom(cmp: int -> int, least: int, w: Way, update: seq<Ref>)
      requires Valid() && Monotone(cmp) && Descent(cmp, least, w, update, -1)
      ensures w.behind == w.pos + 1
      ensures forall i :: 0 < i <= w.pos ==> Normalize(cmp(key[nodes[i]])) == -1
      ensures forall i :: w.pos < i < |nodes| ==> Normalize(cmp(key[nodes[i]])) >= least
    {
      Between(cmp, least, w, update, -1);
      forall i | 0 < i <= w.pos ensures Normalize(cmp(key[nodes[i]])) == -1 {
        assert key[nodes[i]] <= key[nodes[w.pos]];
      }
      forall i | w.pos < i < |nodes| ensures Normalize(cmp(key[nodes[i]])) >= least {
        assert key[nodes[w.behind]] <= key[nodes[i]];
      }
    }

    lemma RecordedLast(w: Way, l: nat)
      requires Valid() && l <= top && l < |w.u| && w.behind <= |nodes| && LastBefore(w, l) && w.behind == w.pos + 1
      ensures LastAt(level, nodes, w.pos, l, w.u[l])
    {
      var s := nodes[w.u[l] + 1..w.pos + 1];
      NextInNone(level, s, l);
      forall i | 0 <= i < |s| ensures level[s[i]] < l {
        assert s[i] == nodes[w.u[l] + 1 + i];
      }
    }

    // One look ahead on the way down, and what the turn of the loop makes of it.
    method Look(cur: Ref, l: nat, cmp: int -> int, ghost w: Way, ghost update: seq<Ref>)
      returns (fwd: Ref, op: Op, ghost w': Way)
      requires Valid() && Monotone(cmp) && Descent(cmp, 1, w, update, l) && cur == nodes[w.pos]
      ensures op == Finish ==> fwd in key && Normalize(cmp(key[fwd])) == 0 && exists i ::
        0 < i < |nodes| && nodes[i] == fwd
      ensures op == NextNode ==>
        w.pos < w'.pos < |nodes| && nodes[w'.pos] == fwd && Descent(cmp, 1, w', update[l := fwd], l)
      ensures op == NextLevel ==> w'.pos == w.pos && Descent(cmp, 1, w', update[l := cur], l - 1)
    {
      ghost var j := Forward(w.pos, l);
      fwd := links[cur][l];
      op := OpSearch(fwd, cmp);
      if op == NextNode {
        NodeDone(cmp, 1, w, update, l, j);
        w' := w.(pos := j);
      } else if op == NextLevel {
        LevelDone(cmp, 1, w, update, l, j);
        w' := w.Closed(j, l);
      } else {
        w' := w;
      }
    }

    // The same for a deletion, which goes on below an equal value.
    method LookBelow(cur: Ref, l: nat, cmp: int -> int, ghost w: Way, ghost update: seq<Ref>)
      returns (fwd: Ref, op: Op, ghost w': Way)
      requires Valid() && Monotone(cmp) && Descent(cmp, 0, w, update, l) && cur == nodes[w.pos]
      ensures op == NextNode ==>
        w.pos < w'.pos < |nodes| && nodes[w'.pos] == fwd && Descent(cmp, 0, w', update[l := fwd], l)
      ensures op != NextNode ==> w'.pos == w.pos && Descent(cmp, 0, w', update[l := cur], l - 1)
    {
      ghost var j := Forward(w.pos, l);
      fwd := links[cur][l];
      op := OpDelete(fwd, cmp);
      if op == NextNode {
        NodeDone(cmp, 0, w, update, l, j);
        w' := w.(pos := j);
      } else {
        LevelDone(cmp, 0, w, update, l, j);
        w' := w.Closed(j, l);
      }
    }

    // The node for which `cmp` is zero, or NULL.
    method Search(cmp: int -> int) returns (r: Ref)
      requires Valid() && Monotone(cmp)
      ensures r != NULL ==> (exists i :: 0 < i < |nodes| && nodes[i] == r) && r in key && Normalize(cmp(key[r])) == 0
      ensures r == NULL ==> forall i :: 0 < i < |nodes| ==> Normalize(cmp(key[nodes[i]])) != 0
    {
      var cur, l := header, top;
      ghost var w, update: seq<Ref> := Start(|nodes|), NoNodes();
      while l >= 0
        invariant Descent(cmp, 1, w, update, l) && cur == nodes[w.pos]
        decreases l + 1, |nodes| - w.pos
      {
        var fwd, op;
        fwd, op, w := Look(cur, l, cmp, w, update);
        match op {
          case Finish => return fwd;
          case NextNode =>
            cur, update := fwd, update[l := fwd];
          case NextLevel =>
            update, l := update[l := cur], l - 1;
        }
      }
      Bottom(cmp, 1, w, update);
      r := NULL;
    }

    // Down to the place of what `cmp` looks for, or to a node that has it.
    method DescendInsert(cmp: int -> int) returns (found: Ref, update: seq<Ref>, ghost w: Way)
      requires Valid() && Monotone(cmp)
      ensures found != NULL ==>
        (exists i :: 0 < i < |nodes| && nodes[i] == found) && found in key && Normalize(cmp(key[found])) == 0
      ensures found == NULL ==> Descent(cmp, 1, w, update, -1)
    {
      var cur, l := header, top;
      update, w := NoNodes(), Start(|nodes|);
      while l >= 0
        invariant Descent(cmp, 1, w, update, l) && cur == nodes[w.pos]
        decreases l + 1, |nodes| - w.pos
      {
        var at := l;
        var fwd, op;
        fwd, op, w := Look(cur, l, cmp, w, update);
        match op {
          case Finish => return fwd, update, w;
          case NextNode => cur := fwd;
          case NextLevel => l := l - 1;
        }
        update := update[at := cur];
      }
      found := NULL;
    }

    method DescendDelete(cmp: int -> int) returns (cur: Ref, update: seq<Ref>, ghost w: Way)
      requires Valid() && Monotone(cmp)
      ensures Descent(cmp, 0, w, update, -1) && cur == nodes[w.pos]
    {
      var l := top;
      cur, update, w := header, NoNodes(), Start(|nodes|);
      while l >= 0
        invariant Descent(cmp, 0, w, update, l) && cur == nodes[w.pos]
        decreases l + 1, |nodes| - w.pos
      {
        var at := l;
        var fwd, op;
        fwd, op, w := LookBelow(cur, l, cmp, w, update);
        if op == NextNode {
          cur := fwd;
        } else {
          l := l - 1;
        }
        update := update[at := cur];
      }
    }

    method Contains(k: int) returns (found: bool)
      requires Valid()
      ensures found <==> Has(k)
    {
      var r := Search(x => x - k);
      found := r != NULL;
    }

    // Links `node` in behind position `pos` of `s`.
    static method SpliceIn(links: Links, level: Levels, node: Ref, at: nat, update: seq<Ref>, ghost s: seq<Ref>,
        ghost pos: nat, ghost u: seq<nat>)
      returns (linked: Links)
      requires Chained(links, level, s) && pos < |s| && node != NULL && node !in s && at <= LEVEL_MAX
      requires node in links && |links[node]| == at + 1 && node in level && level[node] == at
      requires |update| == |u| == LEVEL_MAX + 1
      requires forall l :: 0 <= l <= at ==> LastAt(level, s, pos, l, u[l]) && update[l] == s[u[l]]
      ensures Chained(linked, level, Plus(s, pos + 1, node))
    {
      var l := 0;
      linked := links;
      while l <= at
        invariant 0 <= l <= at + 1 && SplicedIn(links, linked, level, s, pos, node, u, l)
      {
        SpliceInStep(links, linked, level, s, pos, node, u, l);
        linked := SetLink(linked, node, l, linked[update[l]][l]);
        linked := SetLink(linked, update[l], l, node);
        l := l + 1;
      }
      SkipChains.SpliceIn(links, linked, level, s, pos, node, u);
    }

    // Takes the node behind position `pos` of `s` out of the links.
    static method SpliceOut(links: Links, level: Levels, top: int, found: Ref, update: seq<Ref>, ghost s: seq<Ref>,
        ghost pos: nat, ghost u: seq<nat>)
      returns (linked: Links)
      requires Chained(links, level, s) && pos + 1 < |s| && found == s[pos + 1] && level[found] <= top <= LEVEL_MAX
      requires |update| == |u| == LEVEL_MAX + 1
      requires forall l :: 0 <= l <= top ==> LastAt(level, s, pos, l, u[l]) && update[l] == s[u[l]]
      ensures Chained(linked - {found}, level, Minus(s, pos + 1)) && linked.Keys == links.Keys
    {
      var l := 0;
      linked := links;
      while l <= top
        invariant 0 <= l <= top + 1 && linked.Keys == links.Keys
        invariant SplicedOut(links, linked, level, s, pos, u, l)
      {
        SpliceOutStep(links, linked, level, s, pos, u, l);
        linked := Bypass(linked, update[l], l, found);
        l := l + 1;
      }
      SkipChains.SpliceOut(links, linked, level, s, pos, u, top + 1);
    }

    // Insertion. `coins` is what the level of the new node is drawn with.
    method Insert(k: int, d: nat, coins: nat, node: Ref)
      requires Valid() && node !in links && node != NULL
      modifies this
      ensures Valid() && header == old(header)
      ensures Put(old(nodes), old(key), old(data), nodes, key, data, k, d)
      ensures length == old(length) + if old(Has(k)) then 0 else 1
      decreases if Has(k) then 1 else 0
    {
      var found, update;
      ghost var w;
      found, update, w := Place(k);
      if found != NULL {
        var ok, at := Delete(key[found]);
        ghost var rest := nodes;
        Insert(k, d, coins, node);
        PutAfterDrop(old(nodes), old(key), old(data), rest, nodes, key, data, k, d);
        return;
      }
      Add(k, d, LevelOf(coins), node, update, w);
    }

    // The node with the value, or where a new one belongs.
    method Place(k: int) returns (found: Ref, update: seq<Ref>, ghost w: Way)
      requires Valid()
      ensures found != NULL <==> Has(k)
      ensures found != NULL ==> found in key && key[found] == k
      ensures found == NULL ==> w.behind == w.pos + 1 <= |nodes| && |w.u| == |update| == LEVEL_MAX + 1
      ensures found == NULL ==> forall i :: -1 < i <= top && 0 <= i <= LEVEL_MAX ==>
        LastBefore(w, i) && update[i] == nodes[w.u[i]]
      ensures found == NULL ==> forall i ::
        0 < i < |nodes| ==> if i <= w.pos then key[nodes[i]] < k else k < key[nodes[i]]
    {
      var cmp := x => x - k;
      found, update, w := DescendInsert(cmp);
      if found == NULL {
        Bottom(cmp, 1, w, update);
        Around(cmp, k, w);
      }
    }

    lemma Around(cmp: int -> int, k: int, w: Way)
      requires Valid() && forall x :: cmp(x) == x - k
      requires forall i :: 0 < i < |nodes| && i <= w.pos ==> Normalize(cmp(key[nodes[i]])) == -1
      requires forall i :: w.pos < i < |nodes| ==> Normalize(cmp(key[nodes[i]])) >= 1
      ensures forall i :: 0 < i < |nodes| ==> if i <= w.pos then key[nodes[i]] < k else k < key[nodes[i]]
      ensures !Has(k)
    {
    }

    // A new node on the levels up to `at`, behind position `w.pos`.
    method Add(k: int, d: nat, at: nat, node: Ref, before: seq<Ref>, ghost w: Way)
      requires Valid() && node !in links && node != NULL && at <= LEVEL_MAX
      requires w.behind == w.pos + 1 <= |nodes| && |w.u| == |before| == LEVEL_MAX + 1
      requires forall i :: -1 < i <= top && 0 <= i <= LEVEL_MAX ==> LastBefore(w, i) && before[i] == nodes[w.u[i]]
      requires forall i :: 0 < i < |nodes| ==> if i <= w.pos then key[nodes[i]] < k else k < key[nodes[i]]
      modifies this
      ensures Valid() && length == old(length) + 1 && header == old(header)
      ensures Put(old(nodes), old(key), old(data), nodes, key, data, k, d)
    {
      var linked := LinkIn(k, d, at, node, before, w);
      PutHere(k, d, node, w);
      var level', key', data', top' := level[node := at], key[node := k], data[node := d], if at > top then at else top;
      links, level, key, data := linked, level', key', data';
      nodes := Plus(nodes, w.pos + 1, node);
      top, length := top', length + 1;
    }

    lemma PutHere(k: int, d: nat, node: Ref, w: Way)
      requires Valid() && node !in links && w.pos + 1 <= |nodes|
      requires forall i :: 0 < i < |nodes| ==> if i <= w.pos then key[nodes[i]] < k else k < key[nodes[i]]
      ensures Put(nodes, key, data, Plus(nodes, w.pos + 1, node), key[node := k], data[node := d], k, d)
    {
      NotIn(node);
      AddedAll(nodes, key, data, w.pos + 1, node, k, d);
    }

    // The links with the new node in them, and that they make a list again.
    method LinkIn(k: int, d: nat, at: nat, node: Ref, before: seq<Ref>, ghost w: Way) returns (linked: Links)
      requires Valid() && node !in links && node != NULL && at <= LEVEL_MAX
      requires w.behind == w.pos + 1 <= |nodes| && |w.u| == |before| == LEVEL_MAX + 1
      requires forall i :: -1 < i <= top && 0 <= i <= LEVEL_MAX ==> LastBefore(w, i) && before[i] == nodes[w.u[i]]
      requires forall i :: 0 < i < |nodes| ==> if i <= w.pos then key[nodes[i]] < k else k < key[nodes[i]]
      ensures Sound(linked, level[node := at], key[node := k], data[node := d], header, if at > top then at else top,
                    length + 1, Plus(nodes, w.pos + 1, node))
    {
      NotIn(node);
      var update;
      ghost var u;
      update, u := HeaderAbove(at, before, w);
      var forward: seq<Ref> := seq(at + 1, _ => NULL);
      ChainedFresh(links, level, nodes, node, forward, at);
      FreshLast(level, nodes, w.pos, u, node, at);
      linked := SpliceIn(links[node := forward], level[node := at], node, at, update, nodes, w.pos, u);
      AddedOrder(nodes, key, data, level, w.pos + 1, node, k, d, at, top);
    }

    lemma NotIn(node: Ref)
      requires Valid() && node !in links
      ensures node !in nodes
    {
    }

    // On levels above that of the list the new node follows the header.
    method HeaderAbove(at: nat, before: seq<Ref>, ghost w: Way) returns (update: seq<Ref>, ghost u: seq<nat>)
      requires Valid() && at <= LEVEL_MAX && w.behind == w.pos + 1 <= |nodes| && |w.u| == |before| == LEVEL_MAX + 1
      requires forall i :: -1 < i <= top && 0 <= i <= LEVEL_MAX ==> LastBefore(w, i) && before[i] == nodes[w.u[i]]
      ensures |update| == |u| == LEVEL_MAX + 1
      ensures forall i :: 0 <= i <= at ==> LastAt(level, nodes, w.pos, i, u[i]) && update[i] == nodes[u[i]]
    {
      update, u := before, w.u;
      Placed(w, update);
      var l := top + 1;
      while l <= at
        invariant top + 1 <= l && (top < at ==> l <= at + 1) && |update| == |u| == LEVEL_MAX + 1
        invariant forall i :: 0 <= i < l && i <= LEVEL_MAX ==>
          LastAt(level, nodes, w.pos, i, u[i]) && update[i] == nodes[u[i]]
      {
        HeaderLast(w.pos, l);
        update := update[l := header];
        u := u[l := 0];
        l := l + 1;
      }
    }

    // Above the level of the list there is only the header.
    lemma HeaderLast(pos: nat, l: nat)
      requires Valid() && top < l <= LEVEL_MAX && pos < |nodes|
      ensures LastAt(level, nodes, pos, l, 0)
    {
      var s := nodes[1..pos + 1];
      NextInNone(level, s, l);
      forall i | 0 <= i < |s| ensures level[s[i]] < l {
        assert s[i] == nodes[1 + i];
      }
    }

    static lemma FreshLast(level: Levels, s: seq<Ref>, pos: nat, u: seq<nat>, n: Ref, at: nat)
      requires Known(level, s) && pos < |s| && n !in s && |u| == LEVEL_MAX + 1 && at <= LEVEL_MAX && n != NULL
      requires forall l :: 0 <= l <= at ==> LastAt(level, s, pos, l, u[l])
      ensures Known(level[n := at], s) && forall l :: 0 <= l <= at ==> LastAt(level[n := at], s, pos, l, u[l])
    {
      forall l | 0 <= l <= at ensures LastAt(level[n := at], s, pos, l, u[l]) {
        assert LastAt(level, s, pos, l, u[l]);
        NextInAgree(level, level[n := at], s[u[l] + 1..pos + 1], l);
      }
    }

    // Deletion. `at` is where the node with `k` was.
    method Delete(k: int) returns (ok: bool, ghost at: nat)
      requires Valid()
      modifies `links, `top, `length, `nodes
      ensures Valid() && header == old(header)
      ensures ok <==> old(Has(k))
      ensures !ok ==> unchanged(this)
      ensures ok ==> 0 < at < |old(nodes)| && key[old(nodes)[at]] == k && nodes == Minus(old(nodes), at)
      ensures ok ==> length == old(length) - 1 && links.Keys == old(links.Keys) - {old(nodes)[at]}
      ensures !Has(k) && Dropped(old(nodes), nodes, key, data, k)
    {
      var found, update;
      ghost var w;
      found, update, w := Before(k);
      at := w.pos + 1;
      if found == NULL || key[found] - k >= 1 {
        return false, at;
      }
      ok := true;
      Remove(found, update, w);
      RemovedAll(old(nodes), key, data, at);
    }

    // The node behind the last one with a smaller value.
    method Before(k: int) returns (found: Ref, update: seq<Ref>, ghost w: Way)
      requires Valid()
      ensures w.behind == w.pos + 1 <= |nodes| && |w.u| == |update| == LEVEL_MAX + 1
      ensures forall i :: -1 < i <= top && 0 <= i <= LEVEL_MAX ==> LastBefore(w, i) && update[i] == nodes[w.u[i]]
      ensures found != NULL ==> found in key
      ensures if found == NULL || key[found] - k >= 1 then !Has(k) && Dropped(nodes, nodes, key, data, k)
              else Has(k) && w.pos + 1 < |nodes| && found == nodes[w.pos + 1] && key[found] == k
    {
      var cur;
      var cmp := x => x - k;
      cur, update, w := DescendDelete(cmp);
      Bottom(cmp, 0, w, update);
      ghost var j := Forward(w.pos, 0);
      found := links[cur][0];
      SmallerBefore(cmp, k, w);
    }

    lemma SmallerBefore(cmp: int -> int, k: int, w: Way)
      requires Valid() && w.pos + 1 <= |nodes| && forall x :: cmp(x) == x - k
      requires forall i :: 0 < i <= w.pos ==> Normalize(cmp(key[nodes[i]])) == -1
      ensures forall i :: 0 < i <= w.pos ==> key[nodes[i]] < k
      ensures w.pos + 1 == |nodes| || key[nodes[w.pos + 1]] > k ==> !Has(k)
    {
      forall i | 0 < i < |nodes| ensures i <= w.pos ==> key[nodes[i]] < k {
      }
    }

    method Remove(found: Ref, update: seq<Ref>, ghost w: Way)
      requires Valid() && w.behind == w.pos + 1 < |nodes| && |w.u| == |update| == LEVEL_MAX + 1
        && found == nodes[w.pos + 1]
      requires forall i :: -1 < i <= top && 0 <= i <= LEVEL_MAX ==> LastBefore(w, i) && update[i] == nodes[w.u[i]]
      modifies `links, `top, `length, `nodes
      ensures Valid() && nodes == Minus(old(nodes), w.pos + 1)
      ensures length == old(length) - 1 && links.Keys == old(links.Keys) - {found}
    {
      Placed(w, update);
      RemovedOrder(nodes, key, data, level, w.pos + 1, top);
      links := SpliceOut(links, level, top, found, update, nodes, w.pos, w.u);
      links := links - {found};
      nodes := Minus(nodes, w.pos + 1);
      top := UsedLevels(links, level, header, top, nodes);
      length := length - 1;
    }

    lemma Placed(w: Way, update: seq<Ref>)
      requires Valid() && w.behind == w.pos + 1 <= |nodes| && |w.u| == |update| == LEVEL_MAX + 1
      requires forall i :: -1 < i <= top && 0 <= i <= LEVEL_MAX ==> LastBefore(w, i) && update[i] == nodes[w.u[i]]
      ensures forall l :: 0 <= l <= top ==> LastAt(level, nodes, w.pos, l, w.u[l]) && update[l] == nodes[w.u[l]]
    {
      forall l | 0 <= l <= top ensures LastAt(level, nodes, w.pos, l, w.u[l]) {
        RecordedLast(w, l);
      }
    }

    // The highest level that a node is on.
    static method UsedLevels(links: Links, level: Levels, header: Ref, top: int, ghost s: seq<Ref>) returns (l: int)
      requires s != [] && s[0] == header && Chained(links, level, s) && level[header] == LEVEL_MAX
        && -1 <= top <= LEVEL_MAX
      requires forall i :: 0 < i < |s| ==> level[s[i]] <= top
      ensures Topped(level, s, l)
    {
      l := top;
      while l >= 0
        invariant -1 <= l <= LEVEL_MAX
        invariant forall i :: 0 < i < |s| ==> level[s[i]] <= l
      {
        assert links[s[0]][l] == NextIn(level, s[1..], l);
        NextInNone(level, s[1..], l);
        if links[header][l] != NULL {
          ghost var j := NextInIndex(level, s[1..], l);
          assert level[s[1 + j]] == l;
          break;
        }
        forall i | 0 < i < |s| ensures level[s[i]] < l {
          assert s[1..][i - 1] == s[i];
        }
        l := l - 1;
      }
      assert |s| > 1 ==> level[s[1]] <= l;
    }

    // The chain of every level is the subsequence of the nodes that are on it.
    lemma ChainsExact(l: nat)
      requires Valid() && l <= LEVEL_MAX
      ensures Known(level, nodes[1..]) && Chain(links, header, l, AtLeast(level, nodes[1..], l))
      ensures l > top ==> links[header][l] == NULL
    {
      ChainExact(links, level, nodes, 0, l);
      if l > top {
        HeaderLast(|nodes| - 1, l);
        assert nodes[1..|nodes|] == nodes[1..];
      }
    }

    // The iterator, from the header to the end.
    method Values() returns (values: seq<Ref>)
      requires Valid()
      ensures values == nodes[1..] && |values| == length
      ensures forall i, j :: 0 <= i < j < |values| ==> key[values[i]] < key[values[j]]
    {
      values := [];
      ghost var j := Forward(0, 0);
      var cur := links[header][0];
      while cur != NULL
        invariant |values| < |nodes| && values == nodes[1..|values| + 1]
        invariant cur == if |values| + 1 < |nodes| then nodes[|values| + 1] else NULL
        decreases |nodes| - |values|
      {
        values := values + [cur];
        j := Forward(|values|, 0);
        cur := links[cur][0];
      }
      forall i, j | 0 <= i < j < |values| ensures key[values[i]] < key[values[j]] {
        assert values[i] == nodes[i + 1] && values[j] == nodes[j + 1];
      }
    }
  }
}
