// The traverser of src/base/config_bst.cc: a node, the nodes above it, and the
// generation of the table when they were put down.
module BstTraverser {
  import opened TreeShape
  import opened BstTrail
  import opened BstMemory
  import opened BstTable

  // Keys, as a caller sees them

  ghost function KeySet(key: map<Ref, int>, s: seq<Ref>): set<int> {
    set n | n in s && n in key :: key[n]
  }

  ghost predicate IsLeast(ks: set<int>, k: int) { k in ks && forall j :: j in ks ==> k <= j }

  ghost predicate Succeeds(ks: set<int>, k: int, k': int) {
    k' in ks && k < k' && forall j :: j in ks && k < j ==> k' <= j
  }

  ghost predicate Exhausted(ks: set<int>, k: int) { forall j :: j in ks ==> j <= k }

  lemma NextKeys(key: map<Ref, int>, p: Path, t: Shape)
    requires Growing(key, Inorder(Zip(p, t))) && t.Bin?
    ensures var ks, rest := KeySet(key, Inorder(Zip(p, t))), Inorder(t.r) + After(p);
      && t.n in key
      && (rest == [] ==> Exhausted(ks, key[t.n]))
      && (rest != [] ==> rest[0] in key && Succeeds(ks, key[t.n], key[rest[0]]))
  {
    NextAfter(key, p, t);
  }

  lemma FirstKey(key: map<Ref, int>, s: seq<Ref>)
    requires Growing(key, s) && s != []
    ensures s[0] in key && IsLeast(KeySet(key, s), key[s[0]])
  {
    forall j | j in KeySet(key, s) ensures key[s[0]] <= j {
      var n :| n in s && key[n] == j;
      var i :| 0 <= i < |s| && s[i] == n;
    }
  }

  // From the item of one node to the item of the next one; NULL stands for no item.
  ghost predicate Moved(key: map<Ref, int>, s: seq<Ref>, from: Ref, to: Ref) {
    && (from != NULL ==> from in key) && (to != NULL ==> to in key)
    && var ks := KeySet(key, s);
    if from == NULL then (if to == NULL then s == [] else IsLeast(ks, key[to]))
    else if to == NULL then Exhausted(ks, key[from])
    else Succeeds(ks, key[from], key[to])
  }

  // A traverser of a table: which trail it holds, if it is up to date, and that its
  // stack has room for the trail, if it is not.
  ghost predicate Tracks(t: Shape, tableGeneration: nat, node: Ref, stack: seq<Ref>, generation: nat) {
    && generation <= tableGeneration
    && (node != NULL ==>
          && node in Nodes(t) && |Trail(t, node)| <= MAX_HEIGHT
          && (generation == tableGeneration ==> stack == Trail(t, node)))
  }

  // A traverser lives through the deletion of another item, a rebalance and an insertion.
  lemma TracksThrough(t: Shape, t': Shape, g: nat, g': nat, node: Ref, stack: seq<Ref>, generation: nat)
    requires Tracks(t, g, node, stack, generation)
    requires node != NULL ==> node in Nodes(t')
    requires (NoDeeper(t, t') && g' == g + 1) || (Height(t') <= MAX_HEIGHT && g' == g + 1)
      || (SameTrails(t, t') && g' == g)
    ensures Tracks(t', g', node, stack, generation)
  {
    if node != NULL && Height(t') <= MAX_HEIGHT {
      TrailHeight(t', node);
    }
  }

  lemma Sides(key: map<Ref, int>, p: Path, t: Shape, n: Ref)
    requires Growing(key, Inorder(Zip(p, t))) && t.Bin? && n in Nodes(t) && n != t.n
    ensures t.n in key && n in key && (n in Nodes(t.l) ==> key[n] < key[t.n])
      && (n !in Nodes(t.l) ==> key[t.n] < key[n])
  {
    InorderZip(p, t);
    var a, b := Before(p) + Inorder(t.l), Inorder(t.r) + After(p);
    Around(Before(p), Inorder(t.l), [t.n], Inorder(t.r), After(p));
    InorderNodes(t.l, n);
    InorderNodes(t.r, n);
    assert if n in Nodes(t.l) then n in a else n in b;
    GrowingAround(key, a, t.n, b, n);
  }

  lemma GrowingAround(key: map<Ref, int>, a: seq<Ref>, m: Ref, b: seq<Ref>, n: Ref)
    requires Growing(key, a + [m] + b) && (n in a || n in b)
    ensures m in key && n in key && (n in a ==> key[n] < key[m]) && (n in b ==> key[m] < key[n])
  {
    var s := a + [m] + b;
    assert s[|a|] == m;
    if n in a {
      var i :| 0 <= i < |a| && a[i] == n;
      assert s[i] == n;
    }
    if n in b {
      var i :| 0 <= i < |b| && b[i] == n;
      assert s[|a| + 1 + i] == n;
    }
  }

  lemma TrailHere(m: Memory, p: Path, t: Shape)
    requires At(m, p, t) && t.Bin?
    ensures t.n in Nodes(Zip(p, t)) && Trail(Zip(p, t), t.n) == Stack(p) && t.n != NULL
  {
    TrailZip(p, t, t.n);
    assert Stack(p) + [] == Stack(p);
  }

  lemma DeepPath(m: Memory, p: Path, t: Shape)
    requires At(m, p, t) && t.Bin? && |Stack(p)| >= MAX_HEIGHT
    ensures Height(Zip(p, t)) > MAX_HEIGHT
  {
    TrailHere(m, p, t);
    TrailHeight(Zip(p, t), t.n);
  }

  // A whole run of calls. `states[i]` holds the keys of the table at the time of call
  // `i`, which moves to `visited[i]`; the last call finds no item. Between the calls
  // items may come and go.
  ghost predicate Run(states: seq<set<int>>, visited: seq<int>) {
    && |states| == |visited| + 1
    && (if visited == [] then states[0] == {}
        else IsLeast(states[0], visited[0]) && Exhausted(states[|visited|], visited[|visited| - 1]))
    && (forall i :: 0 < i < |visited| ==> Succeeds(states[i], visited[i - 1], visited[i]))
  }

  lemma {:induction false} RunAscends(states: seq<set<int>>, visited: seq<int>, i: nat, j: nat)
    requires Run(states, visited) && i < j < |visited|
    ensures visited[i] < visited[j]
    decreases j
  {
    assert Succeeds(states[j], visited[j - 1], visited[j]);
    if i < j - 1 {
      RunAscends(states, visited, i, j - 1);
    }
  }

  // The item with key `k` is there all the time; nothing before `visited[i]` reaches it.
  lemma {:induction false} RunMeets(states: seq<set<int>>, visited: seq<int>, k: int, i: nat) returns (j: nat)
    requires Run(states, visited) && (forall s :: s in states ==> k in s)
    requires i < |visited| && visited[i] <= k
    ensures j < |visited| && visited[j] == k
    decreases |visited| - i
  {
    assert states[|visited|] in states;
    if visited[i] == k {
      j := i;
    } else if i + 1 < |visited| {
      assert states[i + 1] in states && Succeeds(states[i + 1], visited[i], visited[i + 1]);
      j := RunMeets(states, visited, k, i + 1);
    } else {
      assert false;
    }
  }

  // Every item that is there during the whole run is visited, once, and in order.
  lemma RunVisitsAll(states: seq<set<int>>, visited: seq<int>)
    requires Run(states, visited)
    ensures forall i, j :: 0 <= i < j < |visited| ==> visited[i] < visited[j]
    ensures forall i :: 0 <= i < |visited| ==> visited[i] in states[i]
    ensures forall k :: (forall s :: s in states ==> k in s) ==> k in visited
  {
    forall i, j | 0 <= i < j < |visited| ensures visited[i] < visited[j] {
      RunAscends(states, visited, i, j);
    }
    forall i | 0 <= i < |visited| ensures visited[i] in states[i] {
      assert i > 0 ==> Succeeds(states[i], visited[i - 1], visited[i]);
    }
    forall k | forall s :: s in states ==> k in s ensures k in visited {
      assert states[0] in states;
      if visited != [] {
        var j := RunMeets(states, visited, k, 0);
      }
    }
  }

  // The nodes visited so far, and the current one.
  ghost predicate Progress(s: seq<Ref>, visited: seq<Ref>, node: Ref) {
    if node == NULL then visited == s
    else |visited| < |s| && visited == s[..|visited|] && s[|visited|] == node
  }

  lemma FollowingNode(key: map<Ref, int>, s: seq<Ref>, visited: seq<Ref>, from: Ref, to: Ref)
    requires Growing(key, s) && NULL !in s && (to != NULL ==> to in s)
    requires from != NULL && Progress(s, visited, from) && Moved(key, s, from, to)
    ensures Progress(s, visited + [from], to)
  {
    var i := |visited|;
    assert i + 1 < |s| ==> key[s[i + 1]] in KeySet(key, s) && key[s[i]] < key[s[i + 1]];
    if to != NULL {
      var j :| 0 <= j < |s| && s[j] == to;
      assert j > i;
      assert j == i + 1;
    }
  }

  lemma FirstNode(key: map<Ref, int>, s: seq<Ref>, to: Ref)
    requires Growing(key, s) && NULL !in s && (to != NULL ==> to in s) && Moved(key, s, NULL, to)
    ensures Progress(s, [], to)
  {
    if to != NULL {
      var j :| 0 <= j < |s| && s[j] == to;
      assert key[s[0]] in KeySet(key, s);
    }
  }

  class Traverser {
    var table: Table
    var node: Ref
    var stack: seq<Ref>
    var generation: nat

    ghost predicate Valid()
      reads this, table
    {
      table.Valid() && Tracks(table.t, table.generation, node, stack, generation)
    }

    constructor (table: Table)
      requires table.Valid()
      ensures Valid() && this.table == table && node == NULL
    {
      this.table, node, stack, generation := table, NULL, [], table.generation;
    }

    // Down the left links, as far as the stack has room.
    static method DescendLeft(table: Table, top: Ref, above: seq<Ref>, ghost p: Path, ghost d: Shape)
      returns (full: bool, x: Ref, stack: seq<Ref>, ghost path: Path, ghost c: Shape)
      requires At(table.mem, p, d) && d.Bin? && top == d.n && above == Stack(p) && |above| <= MAX_HEIGHT
      ensures full ==> Height(Zip(p, d)) > MAX_HEIGHT
      ensures !full ==> At(table.mem, path, c) && Zip(path, c) == Zip(p, d) && c.Bin? && c.l.Leaf? && x == c.n
      ensures !full ==> stack == Stack(path) && |stack| <= MAX_HEIGHT && x == MinNode(d)
    {
      full, x, stack := false, top, above;
      path, c := p, d;
      RootNull(table.mem, c.l);
      while table.mem[x].left != NULL
        invariant At(table.mem, path, c) && Zip(path, c) == Zip(p, d) && c.Bin? && x == c.n
        invariant stack == Stack(path) && |stack| <= MAX_HEIGHT && MinNode(c) == MinNode(d)
        decreases c
      {
        if |stack| >= MAX_HEIGHT {
          DeepPath(table.mem, path, c);
          full := true;
          return;
        }
        stack := stack + [x];
        x := table.mem[x].left;
        DownLeft(table.mem, path, c);
        path, c := InLeft(path, c.n, c.red, c.r), c.l;
        RootNull(table.mem, c.l);
      }
    }

    // Up the stack, past the nodes whose right subtree is done.
    static method Climb(table: Table, from: Ref, above: seq<Ref>, ghost p: Path, ghost d: Shape)
      returns (x: Ref, stack: seq<Ref>, ghost path: Path, ghost c: Shape)
      requires At(table.mem, p, d) && d.Bin? && from == d.n && above == Stack(p)
      ensures x == NULL ==> After(p) == []
      ensures x != NULL ==> At(table.mem, path, c) && Zip(path, c) == Zip(p, d) && c.Bin? && x == c.n
      ensures x != NULL ==> stack == Stack(path) && |stack| <= |above| && After(p) != [] && After(p)[0] == x
    {
      x, stack := from, above;
      path, c := p, d;
      while true
        invariant At(table.mem, path, c) && Zip(path, c) == Zip(p, d) && c.Bin? && x == c.n && x != NULL
        invariant stack == Stack(path) && |stack| <= |above| && After(path) == After(p)
        decreases path
      {
        if |stack| == 0 {
          return NULL, stack, path, c;
        }
        var y := x;
        x, stack := stack[|stack| - 1], stack[..|stack| - 1];
        GoUp(table.mem, path, c);
        Junction(table.mem, path, c);
        var turn := y == table.mem[x].right;
        if path.InLeft? {
          c, path := Bin(c, path.n, path.red, path.r), path.up;
        } else {
          c, path := Bin(path.l, path.n, path.red, c), path.up;
        }
        if !turn {
          return;
        }
      }
    }

    static lemma Junction(m: Memory, p: Path, c: Shape)
      requires At(m, p, c) && c.Bin? && !p.Top?
      ensures p.n in m && p.n != NULL && (m[p.n].right == c.n <==> p.InRight?)
    {
      if p.InLeft? {
        assert p.r.Bin? ==> p.r.n in PathNodes(p);
      }
    }

    // The trail of the node, by the keys.
    method Refresh()
      requires Valid()
      modifies `stack, `generation
      ensures Valid() && generation == table.generation
    {
      generation := table.generation;
      if node != NULL {
        stack := Retrace(table, node);
      }
    }

    static method Retrace(table: Table, node: Ref) returns (stack: seq<Ref>)
      requires table.Valid() && node in Nodes(table.t) && |Trail(table.t, node)| <= MAX_HEIGHT
      ensures stack == Trail(table.t, node)
    {
      stack := [];
      var i := table.mem[HEAD].left;
      ghost var path, c := Top(HEAD), table.t;
      while i != node
        invariant At(table.mem, path, c) && Zip(path, c) == table.t && node in Nodes(c) && i == RootOf(c)
        invariant stack == Stack(path) && Trail(table.t, node) == stack + Trail(c, node)
        decreases c
      {
        assert |stack| < MAX_HEIGHT && i != NULL;
        Sides(table.key, path, c, node);
        TrailStep(stack, i, if node in Nodes(c.l) then Trail(c.l, node) else Trail(c.r, node));
        stack := stack + [i];
        if Compare(table.key[node], table.key[i]) > 0 {
          DownRight(table.mem, path, c);
          path, c := InRight(path, c.l, c.n, c.red), c.r;
          i := table.mem[i].right;
        } else {
          DownLeft(table.mem, path, c);
          path, c := InLeft(path, c.n, c.red, c.r), c.l;
          i := table.mem[i].left;
        }
      }
    }

    // The item with the least key. False when a rebalance cannot be done.
    method First() returns (fits: bool)
      requires table.Valid()
      modifies this, table`mem, table`t, table`generation
      ensures table == old(table) && (table.count < 0x1_0000_0000 ==> fits)
      ensures fits ==> Valid() && generation == table.generation && Inorder(table.t) == Inorder(old(table.t))
      ensures fits ==> Moved(table.key, Inorder(table.t), NULL, node)
      decreases if Height(table.t) > MAX_HEIGHT then 1 else 0
    {
      fits := true;
      generation, stack := table.generation, [];
      var x := table.mem[HEAD].left;
      if x == NULL {
        node := NULL;
        return;
      }
      var full;
      ghost var path, c;
      full, x, stack, path, c := DescendLeft(table, x, [], Top(HEAD), table.t);
      if full {
        fits := table.Balance();
        if fits {
          fits := First();
        }
        return;
      }
      MinFirst(table.t);
      FirstKey(table.key, Inorder(table.t));
      TrailHere(table.mem, path, c);
      node := x;
    }

    // From an item to the next one, as far as the stack has room.
    static method Step(table: Table, from: Ref, above: seq<Ref>) returns (full: bool, x: Ref, stack: seq<Ref>)
      requires table.Valid() && from in Nodes(table.t) && above == Trail(table.t, from) && |above| <= MAX_HEIGHT
      ensures full ==> Height(table.t) > MAX_HEIGHT
      ensures from in table.key && (!full && x == NULL ==> Exhausted(KeySet(table.key, Inorder(table.t)),
        table.key[from]))
      ensures !full && x != NULL ==>
        x in table.key && Succeeds(KeySet(table.key, Inorder(table.t)), table.key[from], table.key[x])
      ensures !full && x != NULL ==> x in Nodes(table.t) && stack == Trail(table.t, x) && |stack| <= MAX_HEIGHT
    {
      ghost var path, c := Locate(table.mem, Top(HEAD), table.t, from);
      TrailHere(table.mem, path, c);
      NextKeys(table.key, path, c);
      RootNull(table.mem, c.r);
      x, stack := from, above;
      if table.mem[x].right != NULL {
        full := |stack| >= MAX_HEIGHT;
        if full {
          DeepPath(table.mem, path, c);
          return;
        }
        DownRight(table.mem, path, c);
        MinFirst(c.r);
        stack := stack + [x];
        full, x, stack, path, c := DescendLeft(table, table.mem[x].right, stack, InRight(path, c.l, c.n, c.red), c.r);
        if full {
          return;
        }
      } else {
        full := false;
        x, stack, path, c := Climb(table, x, stack, path, c);
        if x == NULL {
          return;
        }
      }
      TrailHere(table.mem, path, c);
    }

    // The item that follows the current one, or the first one.
    method Next() returns (fits: bool)
      requires Valid()
      modifies this, table`mem, table`t, table`generation
      ensures table == old(table) && (table.count < 0x1_0000_0000 ==> fits)
      ensures fits ==> Valid() && generation == table.generation && Inorder(table.t) == Inorder(old(table.t))
      ensures fits ==> Moved(table.key, Inorder(table.t), old(node), node)
      decreases if Height(table.t) > MAX_HEIGHT then 1 else 0
    {
      fits := true;
      if generation != table.generation {
        Refresh();
      }
      if node == NULL {
        fits := First();
        return;
      }
      var full, x;
      full, x, stack := Step(table, node, stack);
      if full {
        fits := table.Balance();
        if fits {
          AfterBalance(table.t, table.generation, node, stack, generation);
          fits := Next();
        }
        return;
      }
      node := x;
    }

    static lemma AfterBalance(t: Shape, g: nat, node: Ref, stack: seq<Ref>, generation: nat)
      requires Height(t) <= MAX_HEIGHT && generation < g && (node != NULL ==> node in Nodes(t))
      ensures Tracks(t, g, node, stack, generation)
    {
      if node != NULL {
        TrailHeight(t, node);
      }
    }
  }

  // All items from the first to the last one, with nothing in between.
  method Iterate(trav: Traverser) returns (fits: bool, visited: seq<Ref>)
    requires trav.table.Valid()
    modifies trav, trav.table`mem, trav.table`t, trav.table`generation
    ensures trav.table == old(trav.table) && (trav.table.count < 0x1_0000_0000 ==> fits)
    ensures fits ==> trav.table.Valid() && Inorder(trav.table.t) == Inorder(old(trav.table.t))
    ensures fits ==> visited == Inorder(old(trav.table.t))
  {
    visited := [];
    ghost var s := Inorder(trav.table.t);
    NodesInOrder(trav.table);
    fits := trav.First();
    if fits {
      NodesInOrder(trav.table);
      FirstNode(trav.table.key, s, trav.node);
    }
    while fits && trav.node != NULL
      invariant trav.table == old(trav.table) && (trav.table.count < 0x1_0000_0000 ==> fits)
      invariant fits ==> trav.Valid() && Inorder(trav.table.t) == s && Progress(s, visited, trav.node)
      invariant |visited| <= |s|
      decreases |s| - |visited|
    {
      ghost var from := trav.node;
      visited := visited + [trav.node];
      fits := trav.Next();
      if fits {
        NodesInOrder(trav.table);
        FollowingNode(trav.table.key, s, visited[..|visited| - 1], from, trav.node);
      }
    }
  }

  lemma NodesInOrder(table: Table)
    requires table.Valid()
    ensures NULL !in Inorder(table.t) && Growing(table.key, Inorder(table.t))
    ensures forall n :: n in Nodes(table.t) ==> n in Inorder(table.t)
  {
    InorderNodes(table.t, NULL);
    forall n | n in Nodes(table.t) ensures n in Inorder(table.t) {
      InorderNodes(table.t, n);
    }
  }
}
