// The task table of the primary master: src/server/enviroment.cc, and GetIdleTask,
// TaskCompleted and the exchange of tasks in src/server/master.cc.
module TaskLeases {

  type Id = nat

  // A task that is not leased has the lease time 0.
  datatype Task = Task(lease: int, data: nat)

  datatype Result = Result(id: Id, data: nat)

  // An event of the past: a task was granted, or a result was accepted.
  datatype Event = Event(id: Id, at: int)

  ghost predicate Spaced(grants: seq<Event>, timeout: int) {
    forall i, j :: 0 <= i < j < |grants| && grants[i].id == grants[j].id ==> grants[i].at + timeout < grants[j].at
  }

  ghost predicate Granted(grants: seq<Event>, id: Id, at: int) {
    exists i :: 0 <= i < |grants| && grants[i] == Event(id, at)
  }

  // `e` happened while a lease of its task was running.
  ghost predicate InLease(grants: seq<Event>, timeout: int, e: Event) {
    exists i :: 0 <= i < |grants| && grants[i].id == e.id && grants[i].at <= e.at <= grants[i].at + timeout
  }

  ghost function Ids(rs: seq<Result>): set<Id> { set i | 0 <= i < |rs| :: rs[i].id }

  ghost predicate OncePerId(rs: seq<Result>) {
    forall i, j :: 0 <= i < j < |rs| ==> rs[i].id != rs[j].id
  }

  ghost predicate Enumerates(order: seq<Id>, ids: set<Id>) {
    && (forall i :: 0 <= i < |order| ==> order[i] in ids)
    && (forall id :: id in ids ==> id in order)
    && (forall i, j :: 0 <= i < j < |order| ==> order[i] != order[j])
  }

  // The tasks of `order` whose lease is over.
  ghost function Idle(tasks: map<Id, Task>, now: int, order: seq<Id>): seq<Id> {
    if order == [] then []
    else (if order[0] in tasks && tasks[order[0]].lease < now then [order[0]] else []) + Idle(tasks, now, order[1..])
  }

  lemma IdleStep(tasks: map<Id, Task>, now: int, order: seq<Id>, i: nat, idle: seq<Id>, n: nat)
    requires i < |order| && n <= |idle| && idle[n..] == Idle(tasks, now, order[i..]) && order[i] in tasks
    ensures if tasks[order[i]].lease < now
            then n < |idle| && idle[n] == order[i] && idle[n + 1..] == Idle(tasks, now, order[i + 1..])
            else idle[n..] == Idle(tasks, now, order[i + 1..])
  {
    assert order[i..][0] == order[i] && order[i..][1..] == order[i + 1..];
    if tasks[order[i]].lease < now {
      assert idle[n..] == [order[i]] + Idle(tasks, now, order[i + 1..]);
      assert idle[n..][1..] == idle[n + 1..];
    }
  }

  // The results whose task is pending and in its lease at the time of the result; of two
  // results for a task the first one counts.
  ghost function Accepted(tasks: map<Id, Task>, results: seq<Result>, clock: seq<int>): seq<Result>
    requires |clock| == |results|
  {
    if results == [] then []
    else if results[0].id in tasks && tasks[results[0].id].lease >= clock[0] then
      [results[0]] + Accepted(tasks - {results[0].id}, results[1..], clock[1..])
    else Accepted(tasks, results[1..], clock[1..])
  }

  lemma {:induction false} IdleMembers(tasks: map<Id, Task>, now: int, order: seq<Id>, id: Id)
    ensures id in Idle(tasks, now, order) <==> id in order && id in tasks && tasks[id].lease < now
  {
    if order != [] {
      IdleMembers(tasks, now, order[1..], id);
    }
  }

  // The idle tasks are in the order of the table.
  lemma {:induction false} IdleOrder(tasks: map<Id, Task>, now: int, order: seq<Id>, i: nat, j: nat)
    requires i < j < |Idle(tasks, now, order)|
    ensures exists p, q ::
      0 <= p < q < |order| && order[p] == Idle(tasks, now, order)[i] && order[q] == Idle(tasks, now, order)[j]
  {
    var idle, rest := Idle(tasks, now, order), Idle(tasks, now, order[1..]);
    if order[0] in tasks && tasks[order[0]].lease < now {
      assert idle == [order[0]] + rest;
      if i == 0 {
        assert rest[j - 1] in rest;
        IdleMembers(tasks, now, order[1..], rest[j - 1]);
        var q :| 0 <= q < |order[1..]| && order[1..][q] == rest[j - 1];
        assert order[0] == idle[0] && order[q + 1] == idle[j];
      } else {
        IdleOrder(tasks, now, order[1..], i - 1, j - 1);
        var p, q :| 0 <= p < q < |order[1..]| && order[1..][p] == rest[i - 1] && order[1..][q] == rest[j - 1];
        assert order[p + 1] == idle[i] && order[q + 1] == idle[j];
      }
    } else {
      assert idle == rest;
      IdleOrder(tasks, now, order[1..], i, j);
      var p, q :| 0 <= p < q < |order[1..]| && order[1..][p] == rest[i] && order[1..][q] == rest[j];
      assert order[p + 1] == idle[i] && order[q + 1] == idle[j];
    }
  }

  // A result counts if its task is pending and in its lease at the time of the result, and
  // no earlier result for the task came inside that lease.
  ghost predicate Counts(tasks: map<Id, Task>, results: seq<Result>, clock: seq<int>, i: nat)
    requires |clock| == |results| && i < |results|
  {
    && results[i].id in tasks && clock[i] <= tasks[results[i].id].lease
    && forall j :: 0 <= j < i && results[j].id == results[i].id ==> tasks[results[i].id].lease < clock[j]
  }

  ghost predicate Picked(ps: seq<nat>, results: seq<Result>, done: seq<Result>) {
    && |ps| == |done| && (forall i, j :: 0 <= i < j < |ps| ==> ps[i] < ps[j])
    && (forall k :: 0 <= k < |ps| ==> ps[k] < |results| && done[k] == results[ps[k]])
  }

  // `done` are the results that count, at the places `ps` among those that came.
  ghost predicate Chosen(ps: seq<nat>, tasks: map<Id, Task>, results: seq<Result>, clock: seq<int>, done: seq<Result>)
    requires |clock| == |results|
  {
    && Picked(ps, results, done)
    && (forall i :: 0 <= i < |results| ==> (i in ps <==> Counts(tasks, results, clock, i)))
  }

  // The same places behind one result more in front.
  ghost function Later(ps: seq<nat>): (r: seq<nat>)
    ensures |r| == |ps|
  {
    seq(|ps|, i requires 0 <= i < |ps| => ps[i] + 1)
  }

  lemma LaterHas(ps: seq<nat>, i: nat)
    ensures i + 1 in Later(ps) <==> i in ps
    ensures 0 !in Later(ps)
  {
    if i in ps {
      var k :| 0 <= k < |ps| && ps[k] == i;
      assert Later(ps)[k] == i + 1;
    }
  }

  lemma PickedLater(ps: seq<nat>, results: seq<Result>, done: seq<Result>)
    requires results != [] && Picked(ps, results[1..], done)
    ensures Picked(Later(ps), results, done) && Picked([0] + Later(ps), results, [results[0]] + done)
  {
  }

  lemma {:induction false} AcceptedCount(tasks: map<Id, Task>, results: seq<Result>, clock: seq<int>)
    returns (ps: seq<nat>)
    requires |clock| == |results|
    ensures Chosen(ps, tasks, results, clock, Accepted(tasks, results, clock))
    decreases |results|
  {
    if results == [] {
      ps := [];
    } else {
      var first := results[0].id in tasks && tasks[results[0].id].lease >= clock[0];
      var tasks' := if first then tasks - {results[0].id} else tasks;
      var qs := AcceptedCount(tasks', results[1..], clock[1..]);
      PickedLater(qs, results, Accepted(tasks', results[1..], clock[1..]));
      ps := if first then [0] + Later(qs) else Later(qs);
      forall i | 0 <= i < |results| ensures i in ps <==> Counts(tasks, results, clock, i) {
        PlaceLater(tasks, results, clock, qs, i);
      }
    }
  }

  lemma PlaceLater(tasks: map<Id, Task>, results: seq<Result>, clock: seq<int>, qs: seq<nat>, i: nat)
    requires |clock| == |results| && i < |results|
    requires var first := results[0].id in tasks && tasks[results[0].id].lease >= clock[0];
      forall j :: 0 <= j < |results[1..]| ==>
        (j in qs <==> Counts(if first then tasks - {results[0].id} else tasks, results[1..], clock[1..], j))
    ensures var first := results[0].id in tasks && tasks[results[0].id].lease >= clock[0];
      i in (if first then [0] + Later(qs) else Later(qs)) <==> Counts(tasks, results, clock, i)
  {
    if i > 0 {
      LaterHas(qs, i - 1);
      CountsLater(tasks, results, clock, i - 1);
    } else {
      LaterHas(qs, 0);
    }
  }

  lemma CountsLater(tasks: map<Id, Task>, results: seq<Result>, clock: seq<int>, i: nat)
    requires |clock| == |results| && i + 1 < |results|
    ensures var first := results[0].id in tasks && tasks[results[0].id].lease >= clock[0];
      Counts(tasks, results, clock, i + 1)
      <==> Counts(if first then tasks - {results[0].id} else tasks, results[1..], clock[1..], i)
  {
    var first := results[0].id in tasks && tasks[results[0].id].lease >= clock[0];
    var tasks' := if first then tasks - {results[0].id} else tasks;
    if Counts(tasks, results, clock, i + 1) {
      forall j | 0 <= j < i && results[1..][j].id == results[i + 1].id
        ensures tasks[results[i + 1].id].lease < clock[1..][j]
      {
        assert results[j + 1].id == results[i + 1].id;
      }
    }
    if Counts(tasks', results[1..], clock[1..], i) {
      forall j | 0 <= j < i + 1 && results[j].id == results[i + 1].id
        ensures tasks[results[i + 1].id].lease < clock[j]
      {
        if j > 0 {
          assert results[1..][j - 1].id == results[1..][i].id;
        }
      }
    }
  }

  // What is promised of all that has happened.
  ghost predicate History(tasks: map<Id, Task>, timeout: nat, now: int, grants: seq<Event>, last: map<Id, int>,
      accepted: seq<Event>) {
    && Spaced(grants, timeout)
    && (forall i :: 0 <= i < |grants| ==> grants[i].id in last && grants[i].at <= last[grants[i].id])
    && (forall id :: id in last ==> last[id] <= now && Granted(grants, id, last[id]))
    && (forall id :: id in tasks ==> tasks[id].lease == if id in last then last[id] + timeout else 0)
    && (forall i :: 0 <= i < |accepted| ==> InLease(grants, timeout, accepted[i]))
  }

  lemma GrantHistory(tasks: map<Id, Task>, timeout: nat, now: int, grants: seq<Event>, last: map<Id, int>,
      accepted: seq<Event>, id: Id)
    requires History(tasks, timeout, now, grants, last, accepted) && id in tasks && tasks[id].lease < now
    ensures var t := tasks[id].(lease := now + timeout);
      History(tasks[id := t], timeout, now, grants + [Event(id, now)], last[id := now], accepted)
  {
    var grants', last' := grants + [Event(id, now)], last[id := now];
    forall k | k in last' ensures last'[k] <= now && Granted(grants', k, last'[k]) {
      if k == id {
        assert grants'[|grants|] == Event(id, now);
      } else {
        var i :| 0 <= i < |grants| && grants[i] == Event(k, last[k]);
        assert grants'[i] == grants[i];
      }
    }
    forall i | 0 <= i < |accepted| ensures InLease(grants', timeout, accepted[i]) {
      assert InLease(grants, timeout, accepted[i]);
      var k :| 0 <= k < |grants| && grants[k].id == accepted[i].id
        && grants[k].at <= accepted[i].at <= grants[k].at + timeout;
      assert grants'[k] == grants[k];
    }
  }

  lemma AcceptHistory(tasks: map<Id, Task>, timeout: nat, now: int, grants: seq<Event>, last: map<Id, int>,
      accepted: seq<Event>, id: Id)
    requires History(tasks, timeout, now, grants, last, accepted) && id in tasks && tasks[id].lease >= now > 0
    ensures History(tasks - {id}, timeout, now, grants, last, accepted + [Event(id, now)])
  {
    var i :| 0 <= i < |grants| && grants[i] == Event(id, last[id]);
    assert grants[i].at <= now <= grants[i].at + timeout;
    assert InLease(grants, timeout, Event(id, now));
  }

  // Later, nothing is different.
  lemma LaterHistory(tasks: map<Id, Task>, timeout: nat, now: int, grants: seq<Event>, last: map<Id, int>,
      accepted: seq<Event>, later: int)
    requires History(tasks, timeout, now, grants, last, accepted) && now <= later
    ensures History(tasks, timeout, later, grants, last, accepted)
  {
  }

  class Table {
    const timeout: nat
    var tasks: map<Id, Task>
    var completed: seq<Result>

    // The last reading of the clock, and what has happened since the start.
    ghost var now: int
    ghost var imported: set<Id>
    ghost var exported: seq<Result>
    ghost var grants: seq<Event>
    ghost var last: map<Id, int>
    ghost var accepted: seq<Event>

    ghost predicate Valid()
      reads this
    {
      Sound(tasks, timeout, now, grants, last, accepted) && Conserved(tasks, completed, exported, imported, accepted)
        && last.Keys <= imported
    }

    static ghost predicate Sound(tasks: map<Id, Task>, timeout: nat, now: int, grants: seq<Event>, last: map<Id, int>,
        accepted: seq<Event>) {
      now > 0 && History(tasks, timeout, now, grants, last, accepted)
    }

    // Every task that was ever imported is pending, completed or exported, and just one
    // of these; and every result that was ever accepted is still there or was exported,
    // in the order of acceptance.
    static ghost predicate Conserved(tasks: map<Id, Task>, completed: seq<Result>, exported: seq<Result>,
        imported: set<Id>, accepted: seq<Event>) {
      && imported == tasks.Keys + Ids(exported + completed) && tasks.Keys !! Ids(exported + completed)
      && OncePerId(exported + completed)
      && |accepted| == |exported + completed|
      && (forall i :: 0 <= i < |accepted| ==> accepted[i].id == (exported + completed)[i].id)
    }

    constructor (timeout: nat, now: int)
      requires now > 0
      ensures Valid() && this.timeout == timeout && tasks == map[] && completed == [] && exported == [] && grants == []
        && accepted == []
    {
      this.timeout, tasks, completed := timeout, map[], [];
      this.now, imported, exported, grants, last, accepted := now, {}, [], [], map[], [];
    }

    // A task with an id that is pending is turned away. The promises outlive the import
    // just when every other id is new: the table does not know the ids that are done.
    method AddTask(id: Id, data: nat) returns (ok: bool)
      requires Valid()
      modifies `tasks, `imported
      ensures Valid() <==> id in old(tasks) || id !in old(imported)
      ensures ok <==> id !in old(tasks)
      ensures tasks == if ok then old(tasks)[id := Task(0, data)] else old(tasks)
      ensures imported == old(imported) + {id}
    {
      if id in tasks {
        return false;
      }
      tasks := tasks[id := Task(0, data)];
      imported := imported + {id};
      ok := true;
    }

    // Leases idle tasks, `order` being the order of the table. True when there were as
    // many as wanted; what there was is granted anyway.
    method GetIdleTask(count: int, time: int, order: seq<Id>) returns (full: bool, granted: seq<Result>)
      requires Valid() && time >= now && Enumerates(order, tasks.Keys)
      modifies `tasks, `now, `grants, `last
      ensures Valid() && now == time
      ensures var idle := Idle(old(tasks), time, order);
        && FirstOf(granted, idle, old(tasks))
        && (count >= 1 ==>
              |granted| == (if |idle| < count then |idle| else count) && (full <==> |idle| >= count))
        && (count < 1 ==> |granted| == (if idle == [] then 0 else 1) && (full <==> idle != []))
      ensures Recorded(old(grants), grants, granted, time) && Leased(old(tasks), tasks, granted, time + timeout)
    {
      LaterHistory(tasks, timeout, now, grants, last, accepted, time);
      now := time;
      granted := [];
      var left := count;
      ghost var idle := Idle(tasks, time, order);
      Ready(tasks, order, time, timeout);
      for i := 0 to |order|
        invariant Valid() && now == time && left == count - |granted| && (granted == [] || left > 0)
        invariant Underway(old(tasks), tasks, granted, idle, order, i, time, timeout)
        invariant Recorded(old(grants), grants, granted, time)
      {
        var idleTask;
        idleTask, granted := LookAt(order[i], time, granted, old(tasks), old(grants), idle, order, i);
        if idleTask {
          left := left - 1;
          if left <= 0 {
            return true, granted;
          }
        }
      }
      Looked(old(tasks), tasks, granted, idle, order, time, timeout);
      full := false;
    }

    // The idle tasks are the ones that were never granted, and those whose last lease is over.
    lemma IdleTasks(time: int, order: seq<Id>)
      requires Valid() && time >= now && Enumerates(order, tasks.Keys)
      ensures forall id :: id in Idle(tasks, time, order) <==>
        id in tasks && (id in last ==> last[id] + timeout < time)
    {
      var idle := Idle(tasks, time, order);
      forall id ensures id in idle <==> id in tasks && (id in last ==> last[id] + timeout < time) {
        IdleMembers(tasks, time, order, id);
      }
    }

    // Leases a task if it is idle.
    method LookAt(id: Id, time: int, granted: seq<Result>, ghost tasks0: map<Id, Task>, ghost grants0: seq<Event>,
        ghost idle: seq<Id>, ghost order: seq<Id>, ghost i: nat)
      returns (found: bool, more: seq<Result>)
      requires Valid() && now == time && i < |order| && order[i] == id && Enumerates(order, tasks0.Keys)
      requires Underway(tasks0, tasks, granted, idle, order, i, time, timeout)
        && Recorded(grants0, grants, granted, time)
      modifies `tasks, `grants, `last
      ensures Valid() && |more| == |granted| + (if found then 1 else 0)
      ensures Underway(tasks0, tasks, more, idle, order, i + 1, time, timeout) && Recorded(grants0, grants, more, time)
    {
      Turn(tasks0, tasks, granted, idle, order, i, time, timeout);
      found, more := false, granted;
      if tasks[id].lease < time {
        RecordedMore(grants0, grants, granted, time, Result(id, tasks[id].data));
        var r := Lease(id, time);
        found, more := true, granted + [r];
      }
    }

    // The first `i` tasks of the order have been looked at.
    static ghost predicate Underway(tasks: map<Id, Task>, tasks': map<Id, Task>, granted: seq<Result>, idle: seq<Id>,
                                    order: seq<Id>, i: nat, time: int, timeout: nat) {
      && i <= |order| && |granted| <= |idle| && idle[|granted|..] == Idle(tasks, time, order[i..])
      && Leased(tasks, tasks', granted, time + timeout) && FirstOf(granted, idle, tasks)
      && forall k :: i <= k < |order| ==> order[k] in tasks && order[k] !in Ids(granted)
    }

    static lemma Ready(tasks: map<Id, Task>, order: seq<Id>, time: int, timeout: nat)
      requires Enumerates(order, tasks.Keys)
      ensures Underway(tasks, tasks, [], Idle(tasks, time, order), order, 0, time, timeout)
    {
      assert order[0..] == order && Idle(tasks, time, order)[0..] == Idle(tasks, time, order);
    }

    static lemma Looked(tasks: map<Id, Task>, tasks': map<Id, Task>, granted: seq<Result>, idle: seq<Id>,
        order: seq<Id>, time: int, timeout: nat)
      requires Underway(tasks, tasks', granted, idle, order, |order|, time, timeout)
      ensures |granted| == |idle|
    {
      assert order[|order|..] == [];
    }

    static lemma Turn(tasks: map<Id, Task>, tasks': map<Id, Task>, granted: seq<Result>, idle: seq<Id>, order: seq<Id>,
        i: nat, time: int, timeout: nat)
      requires Underway(tasks, tasks', granted, idle, order, i, time, timeout) && i < |order|
        && Enumerates(order, tasks.Keys)
      ensures order[i] in tasks'
      ensures tasks'[order[i]].lease >= time ==> Underway(tasks, tasks', granted, idle, order, i + 1, time, timeout)
      ensures var id := order[i]; tasks'[id].lease < time ==>
        Underway(tasks, tasks'[id := tasks'[id].(lease := time + timeout)], granted + [Result(id, tasks'[id].data)],
          idle, order, i + 1, time, timeout)
    {
      var id := order[i];
      IdleStep(tasks, time, order, i, idle, |granted|);
      if tasks'[id].lease < time {
        OneMore(tasks, tasks', granted, idle, id, order, i, time + timeout);
      }
    }

    // The tasks granted are the first ones of `idle`, with their data.
    static ghost predicate FirstOf(granted: seq<Result>, idle: seq<Id>, tasks: map<Id, Task>) {
      |granted| <= |idle| && forall i :: 0 <= i < |granted| ==>
        idle[i] in tasks && granted[i] == Result(idle[i], tasks[idle[i]].data)
    }

    // The tasks granted have a new lease, the others the old one.
    static ghost predicate Leased(tasks: map<Id, Task>, tasks': map<Id, Task>, granted: seq<Result>, until: int) {
      && tasks'.Keys == tasks.Keys
      && (forall id :: id in tasks ==> tasks'[id] == if id in Ids(granted) then tasks[id].(lease := until)
        else tasks[id])
    }

    static lemma OneMore(tasks: map<Id, Task>, tasks': map<Id, Task>, granted: seq<Result>, idle: seq<Id>, id: Id,
        order: seq<Id>, i: nat, until: int)
      requires Leased(tasks, tasks', granted, until) && id in tasks && id !in Ids(granted) && i < |order|
        && order[i] == id
      requires Enumerates(order, tasks.Keys) && FirstOf(granted, idle, tasks) && |granted| < |idle|
        && idle[|granted|] == id
      requires forall k :: i <= k < |order| ==> order[k] !in Ids(granted)
      ensures var r := Result(id, tasks'[id].data);
        && Leased(tasks, tasks'[id := tasks'[id].(lease := until)], granted + [r], until)
        && FirstOf(granted + [r], idle, tasks)
        && forall k :: i + 1 <= k < |order| ==> order[k] !in Ids(granted + [r])
    {
      var r := Result(id, tasks'[id].data);
      IdsMore(granted, r);
    }

    static lemma IdsMore(rs: seq<Result>, r: Result)
      ensures Ids(rs + [r]) == Ids(rs) + {r.id}
    {
      forall id ensures id in Ids(rs + [r]) <==> id in Ids(rs) || id == r.id {
        if id in Ids(rs) {
          var i :| 0 <= i < |rs| && rs[i].id == id;
          assert (rs + [r])[i].id == id;
        }
        if id == r.id {
          assert (rs + [r])[|rs|].id == id;
        }
      }
    }

    // The tasks granted are the latest grants of the history.
    static ghost predicate Recorded(before: seq<Event>, grants: seq<Event>, granted: seq<Result>, time: int) {
      && |grants| == |before| + |granted| && before <= grants
      && forall i :: 0 <= i < |granted| ==> grants[|before| + i] == Event(granted[i].id, time)
    }

    static lemma RecordedMore(before: seq<Event>, grants: seq<Event>, granted: seq<Result>, time: int, r: Result)
      requires Recorded(before, grants, granted, time)
      ensures Recorded(before, grants + [Event(r.id, time)], granted + [r], time)
    {
    }

    static lemma ConservedLonger(tasks: map<Id, Task>, tasks': map<Id, Task>, completed: seq<Result>,
        exported: seq<Result>,
                                 imported: set<Id>, accepted: seq<Event>)
      requires Conserved(tasks, completed, exported, imported, accepted) && tasks'.Keys == tasks.Keys
      ensures Conserved(tasks', completed, exported, imported, accepted)
    {
    }

    method Lease(id: Id, time: int) returns (r: Result)
      requires Valid() && id in tasks && tasks[id].lease < time == now
      modifies `tasks, `grants, `last
      ensures Valid() && tasks == old(tasks)[id := old(tasks)[id].(lease := time + timeout)]
      ensures grants == old(grants) + [Event(id, time)] && r == Result(id, old(tasks)[id].data)
    {
      Leasable(id);
      r := Result(id, tasks[id].data);
      tasks := tasks[id := tasks[id].(lease := time + timeout)];
      grants, last := grants + [Event(id, time)], last[id := time];
    }

    lemma Leasable(id: Id)
      requires Valid() && id in tasks && tasks[id].lease < now
      ensures var tasks' := tasks[id := tasks[id].(lease := now + timeout)];
        && Sound(tasks', timeout, now, grants + [Event(id, now)], last[id := now], accepted)
        && Conserved(tasks', completed, exported, imported, accepted) && last[id := now].Keys <= imported
    {
      GrantHistory(tasks, timeout, now, grants, last, accepted, id);
      ConservedLonger(tasks, tasks[id := tasks[id].(lease := now + timeout)], completed, exported, imported, accepted);
    }

    // Results come back, each checked at its own reading of the clock. False when there
    // are none.
    method TaskCompleted(results: seq<Result>, clock: seq<int>) returns (ok: bool)
      requires Valid() && |clock| == |results|
      requires forall i, j :: 0 <= i < j < |clock| ==> clock[i] <= clock[j]
      requires forall i :: 0 <= i < |clock| ==> now <= clock[i]
      modifies `tasks, `completed, `now, `accepted
      ensures Valid() && (ok <==> results != [])
      ensures var done := Accepted(old(tasks), results, clock);
        && completed == old(completed) + done && tasks == old(tasks) - Ids(done)
        && exists ps :: Chosen(ps, old(tasks), results, clock, done)
      ensures old(accepted) <= accepted && now == if results == [] then old(now) else clock[|clock| - 1]
    {
      ghost var ps := AcceptedCount(tasks, results, clock);
      if |results| == 0 {
        return false;
      }
      ghost var done := [];
      FoldStart(tasks, results, clock);
      for i := 0 to |results|
        invariant Checked(clock, i, old(completed), old(accepted), done)
          && Folded(old(tasks), tasks, results, clock, done, i)
      {
        done := Check(results, clock, i, old(tasks), old(completed), old(accepted), done);
      }
      FoldEnd(old(tasks), tasks, results, clock, done);
      ok := true;
    }

    // The clock, and what has been accepted, after `i` results.
    ghost predicate Checked(clock: seq<int>, i: nat, completed0: seq<Result>, accepted0: seq<Event>, done: seq<Result>)
      reads this
    {
      && Valid() && i <= |clock| && (forall k :: i <= k < |clock| ==> now <= clock[k])
        && (i > 0 ==> now == clock[i - 1])
      && accepted0 <= accepted && completed == completed0 + done
    }

    // One of the results.
    method Check(results: seq<Result>, clock: seq<int>, i: nat, ghost tasks0: map<Id, Task>,
                 ghost completed0: seq<Result>, ghost accepted0: seq<Event>, ghost done: seq<Result>)
      returns (ghost done': seq<Result>)
      requires |clock| == |results| && i < |results| && (forall j, k :: 0 <= j < k < |clock| ==> clock[j] <= clock[k])
      requires Checked(clock, i, completed0, accepted0, done) && Folded(tasks0, tasks, results, clock, done, i)
      modifies `tasks, `completed, `now, `accepted
      ensures Checked(clock, i + 1, completed0, accepted0, done') && Folded(tasks0, tasks, results, clock, done', i + 1)
    {
      FoldStep(tasks0, tasks, results, clock, done, i);
      var accept := Accept(results[i], clock[i]);
      done' := done;
      if accept {
        assert completed0 + done + [results[i]] == completed0 + (done + [results[i]]);
        done' := done + [results[i]];
      }
    }

    // The first `i` results have been looked at.
    static ghost predicate Folded(tasks: map<Id, Task>, tasks': map<Id, Task>, results: seq<Result>, clock: seq<int>,
        done: seq<Result>, i: nat)
      requires |clock| == |results|
    {
      i <= |results| && tasks' == tasks - Ids(done)
        && done + Accepted(tasks', results[i..], clock[i..]) == Accepted(tasks, results, clock)
    }

    static lemma FoldStart(tasks: map<Id, Task>, results: seq<Result>, clock: seq<int>)
      requires |clock| == |results|
      ensures Folded(tasks, tasks, results, clock, [], 0)
    {
      assert results[0..] == results && clock[0..] == clock && tasks == tasks - Ids([]);
    }

    static lemma FoldEnd(tasks: map<Id, Task>, tasks': map<Id, Task>, results: seq<Result>, clock: seq<int>,
        done: seq<Result>)
      requires |clock| == |results| && Folded(tasks, tasks', results, clock, done, |results|)
      ensures done == Accepted(tasks, results, clock)
    {
      assert results[|results|..] == [] && done + [] == done;
    }

    static lemma FoldStep(tasks: map<Id, Task>, tasks': map<Id, Task>, results: seq<Result>, clock: seq<int>,
        done: seq<Result>, i: nat)
      requires |clock| == |results| && Folded(tasks, tasks', results, clock, done, i) && i < |results|
      ensures if results[i].id in tasks' && tasks'[results[i].id].lease >= clock[i]
              then Folded(tasks, tasks' - {results[i].id}, results, clock, done + [results[i]], i + 1)
              else Folded(tasks, tasks', results, clock, done, i + 1)
    {
      var rs, cs, r := results[i..], clock[i..], results[i];
      assert rs[0] == r && cs[0] == clock[i] && rs[1..] == results[i + 1..] && cs[1..] == clock[i + 1..];
      if r.id in tasks' && tasks'[r.id].lease >= clock[i] {
        IdsMore(done, r);
        var rest := Accepted(tasks' - {r.id}, results[i + 1..], clock[i + 1..]);
        assert done + ([r] + rest) == (done + [r]) + rest;
        assert tasks' - {r.id} == tasks - Ids(done + [r]);
      }
    }

    // A result is accepted if its task is pending and the lease is not over.
    method Accept(r: Result, time: int) returns (done: bool)
      requires Valid() && time >= now
      modifies `tasks, `completed, `now, `accepted
      ensures Valid() && now == time
      ensures done <==> r.id in old(tasks) && old(tasks)[r.id].lease >= time
      ensures done <==> r.id in old(tasks) && r.id in last && time <= last[r.id] + timeout
      ensures if done then tasks == old(tasks) - {r.id} && completed == old(completed) + [r]
        && accepted == old(accepted) + [Event(r.id, time)]
              else tasks == old(tasks) && completed == old(completed) && accepted == old(accepted)
    {
      LaterHistory(tasks, timeout, now, grants, last, accepted, time);
      now := time;
      if r.id !in tasks {
        return false;
      }
      if tasks[r.id].lease < time {
        return false;
      }
      AcceptHistory(tasks, timeout, now, grants, last, accepted, r.id);
      Moved(tasks, completed, exported, imported, accepted, r, time);
      tasks := tasks - {r.id};
      completed := completed + [r];
      accepted := accepted + [Event(r.id, time)];
      done := true;
    }

    static lemma Moved(tasks: map<Id, Task>, completed: seq<Result>, exported: seq<Result>, imported: set<Id>,
        accepted: seq<Event>, r: Result, time: int)
      requires Conserved(tasks, completed, exported, imported, accepted) && r.id in tasks
      ensures Conserved(tasks - {r.id}, completed + [r], exported, imported, accepted + [Event(r.id, time)])
    {
      var rs, rs' := exported + completed, exported + (completed + [r]);
      assert rs' == rs + [r];
      IdsMore(rs, r);
    }

    // The completed tasks go to the user's export function.
    method Export() returns (out: seq<Result>)
      requires Valid()
      modifies `completed, `exported
      ensures Valid() && out == old(completed) && completed == [] && exported == old(exported) + out
    {
      out := [];
      for i := 0 to |completed|
        invariant out == completed[..i]
      {
        out := out + [completed[i]];
      }
      assert exported + completed == (exported + completed) + [];
      exported := exported + completed;
      completed := [];
    }

    // What Valid means to a caller, over every run: two grants of a task are more than
    // the lease timeout apart, a result is accepted only inside a lease, and at most one
    // result for each task.
    lemma Promises()
      requires Valid()
      ensures forall i, j ::
        0 <= i < j < |grants| && grants[i].id == grants[j].id ==> grants[i].at + timeout < grants[j].at
      ensures forall i :: 0 <= i < |accepted| ==> InLease(grants, timeout, accepted[i])
      ensures forall i, j :: 0 <= i < j < |accepted| ==> accepted[i].id != accepted[j].id
      ensures forall id :: id in imported <==> id in tasks || id in Ids(completed) || id in Ids(exported)
      ensures tasks.Keys !! Ids(completed) && tasks.Keys !! Ids(exported) && Ids(completed) !! Ids(exported)
    {
      var rs := exported + completed;
      forall id ensures id in Ids(rs) <==> id in Ids(completed) || id in Ids(exported) {
        if id in Ids(completed) {
          var i :| 0 <= i < |completed| && completed[i].id == id;
          assert rs[|exported| + i].id == id;
        }
        if id in Ids(exported) {
          var i :| 0 <= i < |exported| && exported[i].id == id;
          assert rs[i].id == id;
        }
      }
      assert forall i, j :: 0 <= i < |completed| && 0 <= j < |exported| ==> completed[i].id != exported[j].id by {
        forall i, j | 0 <= i < |completed| && 0 <= j < |exported| ensures completed[i].id != exported[j].id {
          assert rs[j].id != rs[|exported| + i].id;
        }
      }
    }
  }
}
