// A traverser at work while its table changes: between two calls items are deleted and
// inserted, and the table is rebalanced, as a schedule says.
module BstSchedule {
  import opened Common
  import opened TreeShape
  import opened BstTrail
  import opened BstMemory
  import opened BstTable
  import opened BstTraverser

  datatype Change = Remove(k: int) | Add(k: int, data: nat) | Rebalance

  // The keys after a change. The current item of a traverser is never deleted.
  ghost function Changed(ks: set<int>, change: Change, current: int): set<int> {
    match change
    case Remove(k) => if k == current then ks else ks - {k}
    case Add(k, _) => ks + {k}
    case Rebalance => ks
  }

  ghost function AllChanged(ks: set<int>, changes: seq<Change>, current: int): set<int> {
    if changes == [] then ks
    else Changed(AllChanged(ks, changes[..|changes| - 1], current), changes[|changes| - 1], current)
  }

  // How many insertions there are in the changes, and in the first `i` stages of a schedule.
  ghost function Adds(changes: seq<Change>): nat {
    if changes == [] then 0
    else Adds(changes[..|changes| - 1]) + if changes[|changes| - 1].Add? then 1 else 0
  }

  ghost function AddsUpTo(schedule: seq<seq<Change>>, i: nat): nat {
    if i == 0 then 0 else AddsUpTo(schedule, i - 1) + Adds(Stage(schedule, i - 1))
  }

  lemma {:induction false} AddsBound(schedule: seq<seq<Change>>, i: nat)
    ensures AddsUpTo(schedule, i) <= AddsUpTo(schedule, |schedule|)
    decreases if i <= |schedule| then |schedule| - i else i
  {
    if i < |schedule| {
      AddsBound(schedule, i + 1);
    } else if i > |schedule| {
      AddsBound(schedule, i - 1);
      assert Stage(schedule, i - 1) == [];
    }
  }

  // What happens while item `i` is the current one.
  ghost function Stage(schedule: seq<seq<Change>>, i: nat): seq<Change> {
    if i < |schedule| then schedule[i] else []
  }

  ghost function Keys(table: Table): set<int>
    reads table
  {
    KeySet(table.key, Inorder(table.t))
  }

  // In terms of nodes

  lemma KeyThere(table: Table, k: int)
    requires table.Valid()
    ensures k in Keys(table) <==> exists n :: Holds(table.key, table.t, n, k)
  {
    if k in Keys(table) {
      var n :| n in Inorder(table.t) && n in table.key && table.key[n] == k;
      InorderNodes(table.t, n);
      assert Holds(table.key, table.t, n, k);
    }
    if n :| Holds(table.key, table.t, n, k) {
      InorderNodes(table.t, n);
    }
  }

  lemma OneNode(table: Table, m: Ref, n: Ref, k: int)
    requires table.Valid() && Holds(table.key, table.t, m, k) && Holds(table.key, table.t, n, k)
    ensures m == n
  {
    InorderNodes(table.t, m);
    InorderNodes(table.t, n);
    var i :| 0 <= i < |Inorder(table.t)| && Inorder(table.t)[i] == m;
    var j :| 0 <= j < |Inorder(table.t)| && Inorder(table.t)[j] == n;
  }

  // Changes of the table

  method RemoveItem(table: Table, k: int)
    requires table.Valid()
    modifies table`mem, table`t, table`count, table`generation
    ensures table.Valid() && Keys(table) == old(Keys(table)) - {k}
    ensures forall n :: n in old(Nodes(table.t)) && !Holds(table.key, old(table.t), n, k) ==> n in Nodes(table.t)
    ensures table.count <= old(table.count)
    ensures if table.t == old(table.t) then table.generation == old(table.generation)
            else table.generation == old(table.generation) + 1 && NoDeeper(old(table.t), table.t)
  {
    ghost var t := table.t;
    forall j ensures j in old(Keys(table)) <==> exists n :: Holds(table.key, t, n, j) {
      KeyThere(table, j);
    }
    if n :| Holds(table.key, t, n, k) {
      forall m | Holds(table.key, t, m, k) ensures m == n {
        OneNode(table, m, n, k);
      }
    }
    var found, data, y := table.Delete(k);
    NoMoreNodes(t, table.t);
    forall j ensures j in Keys(table) <==> exists n :: Holds(table.key, table.t, n, j) {
      KeyThere(table, j);
    }
    forall j ensures j in Keys(table) <==> j in old(Keys(table)) && j != k {
      if n :| Holds(table.key, t, n, j) {
        assert j != k ==> Holds(table.key, table.t, n, j);
      }
      if n :| Holds(table.key, table.t, n, j) {
        assert Holds(table.key, t, n, j);
      }
    }
  }

  method AddItem(table: Table, k: int, data: nat)
    requires table.Valid()
    modifies table
    ensures table.Valid() && Keys(table) == old(Keys(table)) + {k}
    ensures forall n :: n in old(Nodes(table.t)) ==> n in Nodes(table.t) && table.key[n] == old(table.key[n])
    ensures table.generation == old(table.generation) && SameTrails(old(table.t), table.t)
    ensures table.count <= old(table.count) + 1
  {
    ghost var t, key := table.t, table.key;
    forall j ensures j in old(Keys(table)) <==> exists n :: Holds(key, t, n, j) {
      KeyThere(table, j);
    }
    ghost var bound := Bound(table.mem.Keys + {NULL});
    assert bound !in table.mem && bound != NULL;
    var node: Ref :| node !in table.mem && node != NULL;
    var r := table.Probe(k, data, node);
    OneMoreNode(t, table.t, node);
    forall j ensures j in Keys(table) <==> exists n :: Holds(table.key, table.t, n, j) {
      KeyThere(table, j);
    }
    forall j ensures j in Keys(table) <==> j in old(Keys(table)) || j == k {
      if n :| Holds(key, t, n, j) {
        assert Holds(table.key, table.t, n, j);
      }
      if n :| Holds(table.key, table.t, n, j) {
        assert j != k ==> Holds(key, t, n, j);
      }
      assert Holds(table.key, table.t, r, k);
    }
  }

  lemma NoMoreNodes(t: Shape, t': Shape)
    requires Apart(t) && Apart(t') && Nodes(t') <= Nodes(t)
    ensures |Inorder(t')| <= |Inorder(t)|
  {
    InorderSize(t);
    InorderSize(t');
    assert |Nodes(t) - Nodes(t')| == |Nodes(t)| - |Nodes(t')|;
  }

  lemma OneMoreNode(t: Shape, t': Shape, n: Ref)
    requires Apart(t) && Apart(t') && Nodes(t') <= Nodes(t) + {n}
    ensures |Inorder(t')| <= |Inorder(t)| + 1
  {
    InorderSize(t);
    InorderSize(t');
    assert |Nodes(t) + {n} - Nodes(t')| == |Nodes(t) + {n}| - |Nodes(t')|;
  }

  // One change under a traverser with a current item.
  method Apply(trav: Traverser, change: Change) returns (fits: bool)
    requires trav.Valid() && trav.node != NULL
    modifies trav.table
    ensures trav.node in old(trav.table.key)
    ensures !fits ==> trav.table.count >= 0x1_0000_0000
    ensures trav.table.count <= old(trav.table.count) + if change.Add? then 1 else 0
    ensures fits ==>
      trav.Valid() && trav.node in trav.table.key && trav.table.key[trav.node] == old(trav.table.key[trav.node])
    ensures fits ==> Keys(trav.table) == Changed(old(Keys(trav.table)), change, old(trav.table.key[trav.node]))
  {
    fits := true;
    ghost var t, g := trav.table.t, trav.table.generation;
    match change
    case Remove(k) =>
      if trav.table.key[trav.node] != k {
        RemoveItem(trav.table, k);
        if trav.table.t != t {
          TracksThrough(t, trav.table.t, g, trav.table.generation, trav.node, trav.stack, trav.generation);
        }
      }
    case Add(k, data) =>
      AddItem(trav.table, k, data);
      TracksThrough(t, trav.table.t, g, trav.table.generation, trav.node, trav.stack, trav.generation);
    case Rebalance =>
      fits := trav.table.Balance();
      if fits {
        TracksThrough(t, trav.table.t, g, trav.table.generation, trav.node, trav.stack, trav.generation);
      }
  }

  method ApplyAll(trav: Traverser, changes: seq<Change>) returns (fits: bool)
    requires trav.Valid() && trav.node != NULL
    modifies trav.table
    ensures trav.node in old(trav.table.key)
    ensures !fits ==> trav.table.count >= 0x1_0000_0000
    ensures trav.table.count <= old(trav.table.count) + Adds(changes)
    ensures fits ==>
      trav.Valid() && trav.node in trav.table.key && trav.table.key[trav.node] == old(trav.table.key[trav.node])
    ensures fits ==> Keys(trav.table) == AllChanged(old(Keys(trav.table)), changes, old(trav.table.key[trav.node]))
  {
    fits := true;
    var i := 0;
    while fits && i < |changes|
      invariant i <= |changes|
      invariant !fits ==> trav.table.count >= 0x1_0000_0000
      invariant trav.table.count <= old(trav.table.count) + Adds(changes[..i])
      invariant fits ==>
        trav.Valid() && trav.node in trav.table.key && trav.table.key[trav.node] == old(trav.table.key[trav.node])
      invariant fits ==> Keys(trav.table) == AllChanged(old(Keys(trav.table)), changes[..i],
        old(trav.table.key[trav.node]))
    {
      fits := Apply(trav, changes[i]);
      i := i + 1;
      assert changes[..i][..i - 1] == changes[..i - 1];
    }
    assert i == |changes| ==> changes[..i] == changes;
    AddsFront(changes, i);
  }

  lemma {:induction false} AddsFront(changes: seq<Change>, i: nat)
    requires i <= |changes|
    ensures Adds(changes[..i]) <= Adds(changes)
    decreases |changes|
  {
    if i < |changes| {
      AddsFront(changes[..|changes| - 1], i);
      assert changes[..|changes| - 1][..i] == changes[..i];
    } else {
      assert changes[..i] == changes;
    }
  }

  // The keys that are still to come.
  ghost function Ahead(ks: set<int>, k: int): nat { |set j | j in ks && k <= j| }

  lemma AheadFalls(ks: set<int>, k: int, k': int)
    requires k in ks && k < k'
    ensures Ahead(ks, k') < Ahead(ks, k)
  {
    var a, b := set j | j in ks && k <= j, set j | j in ks && k' <= j;
    assert b <= a - {k};
    Smaller(b, a - {k});
  }

  lemma Smaller(a: set<int>, b: set<int>)
    requires a <= b
    ensures |a| <= |b|
  {
    assert |b - a| == |b| - |a|;
  }

  // The run so far: the states, the items visited, and the current item.
  ghost predicate RunUpTo(states: seq<set<int>>, visited: seq<int>, current: int) {
    && |states| == |visited| + 1
    && (if visited == [] then IsLeast(states[0], current)
        else IsLeast(states[0], visited[0]) && Succeeds(states[|visited|], visited[|visited| - 1], current))
    && (forall i :: 0 < i < |visited| ==> Succeeds(states[i], visited[i - 1], visited[i]))
  }

  // The states follow the schedule.
  ghost predicate Follows(states: seq<set<int>>, visited: seq<int>, schedule: seq<seq<Change>>) {
    && |states| == |visited| + 1
    && forall i :: 0 <= i < |visited| ==> states[i + 1] == AllChanged(states[i], Stage(schedule, i), visited[i])
  }

  lemma RunOn(states: seq<set<int>>, visited: seq<int>, current: int, state: set<int>, schedule: seq<seq<Change>>,
      next: int)
    requires RunUpTo(states, visited, current) && Follows(states, visited, schedule) && Succeeds(state, current, next)
    requires state == AllChanged(states[|visited|], Stage(schedule, |visited|), current)
    ensures Follows(states + [state], visited + [current], schedule)
      && RunUpTo(states + [state], visited + [current], next)
  {
  }

  lemma RunEnds(states: seq<set<int>>, visited: seq<int>, current: int, state: set<int>, schedule: seq<seq<Change>>)
    requires RunUpTo(states, visited, current) && Follows(states, visited, schedule) && Exhausted(state, current)
    requires state == AllChanged(states[|visited|], Stage(schedule, |visited|), current)
    ensures Follows(states + [state], visited + [current], schedule) && Run(states + [state], visited + [current])
  {
  }

  // A traverser on its way: what has happened so far, and the current item.
  ghost predicate Driving(trav: Traverser, schedule: seq<seq<Change>>, visited: seq<int>, states: seq<set<int>>)
    reads trav, trav.table
  {
    && trav.Valid() && Follows(states, visited, schedule) && Keys(trav.table) == states[|visited|]
    && if trav.node == NULL then Run(states, visited)
       else trav.node in trav.table.key && RunUpTo(states, visited, trav.table.key[trav.node])
  }

  ghost function Left(trav: Traverser): nat
    reads trav, trav.table
  {
    if trav.node != NULL && trav.node in trav.table.key then Ahead(Keys(trav.table), trav.table.key[trav.node]) + 1
      else 0
  }

  method Begin(trav: Traverser, schedule: seq<seq<Change>>) returns (fits: bool)
    requires trav.table.Valid()
    modifies trav, trav.table
    ensures trav.table == old(trav.table) && trav.table.count == old(trav.table.count)
    ensures !fits ==> trav.table.count >= 0x1_0000_0000
    ensures fits ==> Driving(trav, schedule, [], [old(Keys(trav.table))])
  {
    fits := trav.First();
  }

  // Visits the items from the first one on; while item `i` is the current one, the
  // table goes through stage `i` of the schedule.
  method Drive(trav: Traverser, schedule: seq<seq<Change>>)
    returns (fits: bool, visited: seq<int>, ghost states: seq<set<int>>)
    requires trav.table.Valid()
    modifies trav, trav.table
    ensures trav.table == old(trav.table)
    ensures old(trav.table.count) + AddsUpTo(schedule, |schedule|) < 0x1_0000_0000 ==> fits
    ensures fits ==> Run(states, visited) && states[0] == old(Keys(trav.table)) && Follows(states, visited, schedule)
  {
    visited, states := [], [Keys(trav.table)];
    fits := Begin(trav, schedule);
    while fits && trav.node != NULL
      invariant trav.table == old(trav.table) && (!fits ==> trav.table.count >= 0x1_0000_0000)
      invariant trav.table.count <= old(trav.table.count) + AddsUpTo(schedule, |visited|)
      invariant states != [] && states[0] == old(Keys(trav.table))
        && (fits ==> Driving(trav, schedule, visited, states))
      decreases fits, if |visited| < |schedule| then |schedule| - |visited| else 0, Left(trav)
    {
      fits, visited, states := Stride(trav, schedule, visited, states);
    }
    AddsBound(schedule, |visited|);
  }

  method Stride(trav: Traverser, schedule: seq<seq<Change>>, before: seq<int>, ghost states0: seq<set<int>>)
    returns (fits: bool, visited: seq<int>, ghost states: seq<set<int>>)
    requires Driving(trav, schedule, before, states0) && trav.node != NULL
    modifies trav, trav.table
    ensures trav.table == old(trav.table) && (!fits ==> trav.table.count >= 0x1_0000_0000)
    ensures trav.table.count <= old(trav.table.count) + Adds(Stage(schedule, |before|))
    ensures fits ==> Driving(trav, schedule, visited, states)
    ensures |visited| == |before| + 1 && states0 <= states
    ensures fits && |before| >= |schedule| ==> Left(trav) < old(Left(trav))
  {
    var current := trav.table.key[trav.node];
    ghost var state;
    fits, state := MoveOn(trav, schedule, |before|);
    visited, states := before + [current], states0 + [state];
    if fits {
      if trav.node != NULL {
        RunOn(states0, before, current, state, schedule, trav.table.key[trav.node]);
        if |before| >= |schedule| {
          AheadFalls(state, current, trav.table.key[trav.node]);
        }
      } else {
        RunEnds(states0, before, current, state, schedule);
      }
    }
  }

  // Stage `i` of the schedule, and the call that moves to the next item.
  method MoveOn(trav: Traverser, schedule: seq<seq<Change>>, i: nat) returns (fits: bool, ghost state: set<int>)
    requires trav.Valid() && trav.node != NULL && trav.node in trav.table.key
    modifies trav, trav.table
    ensures trav.table == old(trav.table) && (!fits ==> trav.table.count >= 0x1_0000_0000)
    ensures trav.table.count <= old(trav.table.count) + Adds(Stage(schedule, i))
    ensures fits ==> trav.Valid() && state == Keys(trav.table)
    ensures fits ==> state == AllChanged(old(Keys(trav.table)), Stage(schedule, i), old(trav.table.key[trav.node]))
    ensures fits ==> if trav.node == NULL then Exhausted(state, old(trav.table.key[trav.node]))
                     else trav.node in trav.table.key && Succeeds(state, old(trav.table.key[trav.node]),
                       trav.table.key[trav.node])
  {
    fits, state := true, {};
    if i < |schedule| {
      fits := ApplyAll(trav, schedule[i]);
    }
    if fits {
      state := Keys(trav.table);
      fits := trav.Next();
    }
  }

  // What the caller of the traverser gets out of it: every item that is there all the
  // time is visited, once and in order.
  method VisitAll(trav: Traverser, schedule: seq<seq<Change>>)
    returns (fits: bool, visited: seq<int>, ghost states: seq<set<int>>)
    requires trav.table.Valid()
    modifies trav, trav.table
    ensures trav.table == old(trav.table)
    ensures old(trav.table.count) + AddsUpTo(schedule, |schedule|) < 0x1_0000_0000 ==> fits
    ensures fits ==> states != [] && states[0] == old(Keys(trav.table)) && Follows(states, visited, schedule)
    ensures fits ==> forall i, j :: 0 <= i < j < |visited| ==> visited[i] < visited[j]
    ensures fits ==> forall k :: (forall s :: s in states ==> k in s) ==> k in visited
  {
    fits, visited, states := Drive(trav, schedule);
    if fits {
      RunVisitsAll(states, visited);
    }
  }
}
