// The queue of src/server/signaling_queue.cc as a monitor: threads that wait on one of its
// two condition variables, and who wakes whom. A step is what a thread does between taking
// the mutex and letting go of it or going to sleep.
module QueueMonitor {
  type Thread = nat

  // `sizes` are the sizes of the messages in the queue, the oldest one first. A sleeping
  // thread has not been notified; a woken one has, but does not hold the mutex yet.
  datatype State = State(
    sizes: seq<nat>,
    finished: set<int>,
    sleepingConsumers: set<Thread>,
    wokenConsumers: set<Thread>,
    sleepingProducers: map<Thread, nat>,
    wokenProducers: map<Thread, nat>)

  datatype Config = Config(capacity: nat, producers: nat)

  datatype Step =
    | Add(thread: Thread, size: nat, blocking: bool, wakes: Thread)
    | AddAgain(thread: Thread, wakes: Thread)
    | Remove(thread: Thread, blocking: bool, wakes: Thread)
    | RemoveAgain(thread: Thread, wakes: Thread)
    | Finish(producer: int)
    | WakeUp(thread: Thread)

  ghost function Sum(sizes: seq<nat>): nat {
    if sizes == [] then 0 else sizes[0] + Sum(sizes[1..])
  }

  ghost predicate Done(c: Config, s: State) { |s.finished| >= c.producers }

  ghost predicate Fits(c: Config, s: State, size: nat) { Sum(s.sizes) + size <= c.capacity }

  // cond_not_empty_.Signal(): some sleeping consumer is notified, if there is one.
  ghost function SignalNotEmpty(s: State, wakes: Thread): State {
    if wakes in s.sleepingConsumers
    then s.(sleepingConsumers := s.sleepingConsumers - {wakes}, wokenConsumers := s.wokenConsumers + {wakes})
    else s
  }

  // cond_not_full_.Signal()
  ghost function SignalNotFull(s: State, wakes: Thread): State {
    if wakes in s.sleepingProducers
    then s.(sleepingProducers := s.sleepingProducers - {wakes},
      wokenProducers := s.wokenProducers[wakes := s.sleepingProducers[wakes]])
    else s
  }

  ghost function Push(s: State, size: nat, wakes: Thread): State {
    SignalNotEmpty(s.(sizes := s.sizes + [size]), wakes)
  }

  ghost function Pop(s: State, wakes: Thread): State
    requires s.sizes != []
  {
    SignalNotFull(s.(sizes := s.sizes[1..]), wakes)
  }

  ghost predicate Idle(s: State, t: Thread) {
    t !in s.sleepingConsumers && t !in s.wokenConsumers && t !in s.sleepingProducers && t !in s.wokenProducers
  }

  // A signal wakes a thread if one sleeps.
  ghost predicate WakesConsumer(s: State, wakes: Thread) { s.sleepingConsumers != {} ==> wakes in s.sleepingConsumers }

  ghost predicate WakesProducer(s: State, wakes: Thread) {
    s.sleepingProducers != map[] ==> wakes in s.sleepingProducers
  }

  ghost predicate Possible(c: Config, s: State, step: Step) {
    match step
    case Add(t, _, _, wakes) => Idle(s, t) && WakesConsumer(s, wakes)
    case AddAgain(t, wakes) => t in s.wokenProducers && WakesConsumer(s, wakes)
    case Remove(t, _, wakes) => Idle(s, t) && WakesProducer(s, wakes)
    case RemoveAgain(t, wakes) => t in s.wokenConsumers && WakesProducer(s, wakes)
    case Finish(_) => true
    case WakeUp(t) => t in s.sleepingConsumers || t in s.sleepingProducers
  }

  ghost function Take(c: Config, s: State, step: Step): State
    requires Possible(c, s, step)
  {
    match step
    case Add(t, size, blocking, wakes) =>
      if size > c.capacity || size == 0 || Done(c, s) then s
      else if Fits(c, s, size) then Push(s, size, wakes)
      else if blocking then s.(sleepingProducers := s.sleepingProducers[t := size])
      else s
    case AddAgain(t, wakes) =>
      var size := s.wokenProducers[t];
      var s1 := s.(wokenProducers := s.wokenProducers - {t});
      if Fits(c, s, size) then Push(s1, size, wakes)
      else s1.(sleepingProducers := s.sleepingProducers[t := size])
    case Remove(t, blocking, wakes) =>
      if s.sizes != [] then Pop(s, wakes)
      else if !blocking || Done(c, s) then s
      else s.(sleepingConsumers := s.sleepingConsumers + {t})
    case RemoveAgain(t, wakes) =>
      var s1 := s.(wokenConsumers := s.wokenConsumers - {t});
      if s.sizes != [] then Pop(s1, wakes)
      else if Done(c, s) then s1
      else s1.(sleepingConsumers := s.sleepingConsumers + {t})
    case Finish(p) =>
      var s1 := s.(finished := s.finished + {p});
      if Done(c, s1) then s1.(sleepingConsumers := {}, wokenConsumers := s.wokenConsumers + s.sleepingConsumers) else s1
    case WakeUp(t) =>
      if t in s.sleepingConsumers then SignalNotEmpty(s, t) else SignalNotFull(s, t)
  }

  ghost predicate Reaches(c: Config, s: State, steps: seq<Step>, s': State)
    decreases |steps|
  {
    if steps == [] then s == s'
    else Possible(c, s, steps[0]) && Reaches(c, Take(c, s, steps[0]), steps[1..], s')
  }

  function Start(): State { State([], {}, {}, {}, map[], map[]) }

  // No wake-up is lost: a consumer sleeps only if every message has a woken consumer; a
  // producer sleeps at an empty queue only if a producer is woken; no consumer sleeps
  // when all producers are done.
  ghost predicate NoLostWakeUp(c: Config, s: State) {
    && (s.sleepingConsumers != {} ==> |s.sizes| <= |s.wokenConsumers|)
    && (s.sizes == [] && s.sleepingProducers != map[] ==> s.wokenProducers != map[])
    && (Done(c, s) ==> s.sleepingConsumers == {})
  }

  ghost predicate Valid(c: Config, s: State) {
    && NoLostWakeUp(c, s)
    && Sum(s.sizes) <= c.capacity && (forall i :: 0 <= i < |s.sizes| ==> s.sizes[i] >= 1)
    && (forall t :: t in s.sleepingProducers ==> 1 <= s.sleepingProducers[t] <= c.capacity && t !in s.wokenProducers)
    && (forall t :: t in s.wokenProducers ==> 1 <= s.wokenProducers[t] <= c.capacity)
    && s.sleepingConsumers !! s.wokenConsumers
  }

  lemma {:induction false} SumAppend(a: seq<nat>, n: nat)
    ensures Sum(a + [n]) == Sum(a) + n
  {
    if a == [] {
      assert [n][1..] == [];
    } else {
      assert (a + [n])[1..] == a[1..] + [n];
      SumAppend(a[1..], n);
    }
  }

  lemma PushValid(c: Config, s: State, s1: State, size: nat, wakes: Thread)
    requires Valid(c, s) && s1.(wokenProducers := s.wokenProducers) == s
      && s1.wokenProducers.Keys <= s.wokenProducers.Keys
    requires (forall t :: t in s1.wokenProducers ==> s1.wokenProducers[t] == s.wokenProducers[t])
    requires 1 <= size && Fits(c, s, size) && WakesConsumer(s, wakes)
    ensures Valid(c, Push(s1, size, wakes))
  {
    SumAppend(s.sizes, size);
  }

  lemma PopValid(c: Config, s: State, s1: State, wakes: Thread)
    requires Valid(c, s) && s.sizes != [] && s1.(wokenConsumers := s.wokenConsumers) == s
    requires s1.wokenConsumers <= s.wokenConsumers && |s1.wokenConsumers| >= |s.wokenConsumers| - 1
    requires WakesProducer(s, wakes)
    ensures Valid(c, Pop(s1, wakes))
  {
    var s' := Pop(s1, wakes);
    assert s.sizes == [s.sizes[0]] + s'.sizes;
    if s.sleepingProducers != map[] {
      assert wakes in s'.wokenProducers;
    }
  }

  lemma AddValid(c: Config, s: State, step: Step)
    requires Valid(c, s) && Possible(c, s, step) && step.Add?
    ensures Valid(c, Take(c, s, step))
  {
    if 1 <= step.size && Fits(c, s, step.size) {
      PushValid(c, s, s, step.size, step.wakes);
    }
  }

  // A producer that still does not fit goes back to sleep at a queue that is not empty.
  lemma AddAgainValid(c: Config, s: State, step: Step)
    requires Valid(c, s) && Possible(c, s, step) && step.AddAgain?
    ensures Valid(c, Take(c, s, step))
  {
    var t := step.thread;
    if Fits(c, s, s.wokenProducers[t]) {
      PushValid(c, s, s.(wokenProducers := s.wokenProducers - {t}), s.wokenProducers[t], step.wakes);
    }
  }

  lemma RemoveValid(c: Config, s: State, step: Step)
    requires Valid(c, s) && Possible(c, s, step) && (step.Remove? || step.RemoveAgain?)
    ensures Valid(c, Take(c, s, step))
  {
    if s.sizes != [] {
      if step.Remove? {
        PopValid(c, s, s, step.wakes);
      } else {
        PopValid(c, s, s.(wokenConsumers := s.wokenConsumers - {step.thread}), step.wakes);
      }
    }
  }

  lemma WakeUpValid(c: Config, s: State, step: Step)
    requires Valid(c, s) && Possible(c, s, step) && step.WakeUp?
    ensures Valid(c, Take(c, s, step))
  {
    var s' := Take(c, s, step);
    if step.thread !in s.sleepingConsumers {
      assert step.thread in s'.wokenProducers;
    }
  }

  lemma TakeValid(c: Config, s: State, step: Step)
    requires Valid(c, s) && Possible(c, s, step)
    ensures Valid(c, Take(c, s, step))
  {
    match step
    case Add(_, _, _, _) => AddValid(c, s, step);
    case AddAgain(_, _) => AddAgainValid(c, s, step);
    case Remove(_, _, _) => RemoveValid(c, s, step);
    case RemoveAgain(_, _) => RemoveValid(c, s, step);
    case Finish(_) =>
    case WakeUp(_) => WakeUpValid(c, s, step);
  }

  lemma {:induction false} RunValid(c: Config, s: State, steps: seq<Step>, s': State)
    requires Valid(c, s) && Reaches(c, s, steps, s')
    ensures Valid(c, s')
    decreases |steps|
  {
    if steps != [] {
      TakeValid(c, s, steps[0]);
      RunValid(c, Take(c, s, steps[0]), steps[1..], s');
    }
  }

  lemma NeverLost(c: Config, steps: seq<Step>, s: State)
    requires Reaches(c, Start(), steps, s)
    ensures NoLostWakeUp(c, s)
  {
    RunValid(c, Start(), steps, s);
  }

  // EmptyAndNoMoreAdd, and when its answer is final

  ghost predicate EmptyAndNoMoreAdd(c: Config, s: State) { s.sizes == [] && Done(c, s) }

  ghost predicate NoAddPending(s: State) { s.sleepingProducers == map[] && s.wokenProducers == map[] }

  ghost predicate Final(c: Config, s: State) {
    forall steps: seq<Step>, s': State :: Reaches(c, s, steps, s') ==> EmptyAndNoMoreAdd(c, s')
  }

  lemma MoreDone(a: set<int>, x: int)
    ensures |a + {x}| >= |a|
  {
    if x in a {
      assert a + {x} == a;
    }
  }

  lemma {:induction false} StaysEmpty(c: Config, s: State, steps: seq<Step>, s': State)
    requires Valid(c, s) && EmptyAndNoMoreAdd(c, s) && NoAddPending(s) && Reaches(c, s, steps, s')
    ensures EmptyAndNoMoreAdd(c, s')
    decreases |steps|
  {
    if steps != [] {
      var s1 := Take(c, s, steps[0]);
      TakeValid(c, s, steps[0]);
      if steps[0].Finish? {
        MoreDone(s.finished, steps[0].producer);
      }
      StaysEmpty(c, s1, steps[1..], s');
    }
  }

  // Once true, the answer stays true in every run just when no Add is pending.
  lemma FinalExactly(c: Config, s: State)
    requires Valid(c, s) && EmptyAndNoMoreAdd(c, s)
    ensures Final(c, s) <==> NoAddPending(s)
  {
    if NoAddPending(s) {
      forall steps: seq<Step>, s': State | Reaches(c, s, steps, s') ensures EmptyAndNoMoreAdd(c, s') {
        StaysEmpty(c, s, steps, s');
      }
    } else {
      assert s.wokenProducers != map[];
      var t :| t in s.wokenProducers;
      var step := AddAgain(t, 0);
      assert Possible(c, s, step);
      var s' := Take(c, s, step);
      assert Reaches(c, s', [], s');
      assert [step][1..] == [];
      assert Reaches(c, s, [step], s');
      assert s'.sizes != [];
    }
  }
}
