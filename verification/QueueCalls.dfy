// The calls of SignalingQueue as steps of QueueMonitor: whatever the threads do, the byte
// queue is in the state that the monitor says.
module QueueCalls {
  import opened Bytes
  import opened QueueMonitor
  import opened SignalingQueue

  ghost function Sizes(ms: seq<seq<Byte>>): (sizes: seq<nat>)
    ensures |sizes| == |ms|
  {
    seq(|ms|, i requires 0 <= i < |ms| => |ms[i]|)
  }

  lemma {:induction false} SizesTotal(sizes: seq<nat>, ps: seq<Position>)
    requires |sizes| == |ps| && forall i :: 0 <= i < |ps| ==> sizes[i] == ps[i].size
    ensures Sum(sizes) == Total(ps)
  {
    if ps != [] {
      SizesTotal(sizes[1..], ps[1..]);
    }
  }

  ghost predicate Matches(q: Queue, c: Config, s: State)
    reads q, q.buffer
  {
    && q.Valid() && c == Config(q.buffer.Length, q.producers)
    && s.sizes == Sizes(q.Contents()) && s.finished == q.finished
  }

  // What the steps ask is what the calls on the byte queue ask: whether a message fits,
  // whether there is a message, and whether all producers are done.
  lemma SameQuestions(q: Queue, c: Config, s: State)
    requires Matches(q, c, s)
    ensures forall size: nat :: Fits(c, s, size) <==> size <= q.free
    ensures s.sizes == [] <==> q.Contents() == []
    ensures Done(c, s) <==> |q.finished| >= q.producers
  {
    MessagesCount(q.buffer[..], q.positions, q.start);
    SizesTotal(s.sizes, q.positions);
  }

  // The messages that the waiting producers hold.
  ghost predicate Held(s: State, texts: map<Thread, seq<Byte>>) {
    && (forall t :: t in s.sleepingProducers ==> t in texts && |texts[t]| == s.sleepingProducers[t])
    && (forall t :: t in s.wokenProducers ==> t in texts && |texts[t]| == s.wokenProducers[t])
  }

  // An Add that has to wait keeps its message.
  function Holds(step: Step, waits: bool, text: seq<Byte>, texts: map<Thread, seq<Byte>>): map<Thread, seq<Byte>> {
    if step.Add? && waits then texts[step.thread := text] else texts
  }

  lemma HeldAfter(c: Config, s: State, step: Step, text: seq<Byte>, texts: map<Thread, seq<Byte>>)
    requires Possible(c, s, step) && Held(s, texts) && (step.Add? ==> step.size == |text|)
    ensures step.Add? ==>
      Held(Take(c, s, step), Holds(step, step.thread in Take(c, s, step).sleepingProducers, text, texts))
    ensures !step.Add? ==> Held(Take(c, s, step), texts)
  {
  }

  // The call of an idle thread.
  method StepAdd(q: Queue, src: seq<Byte>, isBlocking: bool, ghost c: Config, ghost s: State, ghost step: Step)
    returns (r: int, waits: bool)
    requires Matches(q, c, s) && Possible(c, s, step) && step.Add? && step.size == |src| && step.blocking == isBlocking
    modifies q, q.buffer
    ensures Matches(q, c, Take(c, s, step))
    ensures waits <==> step.thread in Take(c, s, step).sleepingProducers
  {
    SameQuestions(q, c, s);
    r, waits := q.Add(src, isBlocking);
  }

  // The call goes on when its thread has been woken.
  method StepAddAgain(q: Queue, src: seq<Byte>, ghost c: Config, ghost s: State, ghost step: Step)
    returns (r: int, waits: bool)
    requires Matches(q, c, s) && QueueMonitor.Valid(c, s)
    requires Possible(c, s, step) && step.AddAgain? && s.wokenProducers[step.thread] == |src|
    modifies q, q.buffer
    ensures Matches(q, c, Take(c, s, step))
    ensures waits <==> step.thread in Take(c, s, step).sleepingProducers
  {
    SameQuestions(q, c, s);
    r, waits := q.Put(src, true);
  }

  method StepRemove(q: Queue, max: int, isBlocking: bool, ghost c: Config, ghost s: State, ghost step: Step)
    returns (r: int, dest: seq<Byte>, waits: bool)
    requires Matches(q, c, s) && QueueMonitor.Valid(c, s) && Possible(c, s, step)
    requires if isBlocking && step.RemoveAgain? then true else step.Remove? && step.blocking == isBlocking
    modifies q`free, q`positions, q`start, q`taken
    ensures Matches(q, c, Take(c, s, step))
    ensures waits <==> step.thread in Take(c, s, step).sleepingConsumers
  {
    SameQuestions(q, c, s);
    r, dest, waits := q.Remove(max, isBlocking);
  }

  method StepSignal(q: Queue, producer: int, ghost c: Config, ghost s: State) returns (broadcast: bool)
    requires Matches(q, c, s)
    modifies q`finished
    ensures Matches(q, c, Take(c, s, Finish(producer)))
    ensures broadcast ==> Take(c, s, Finish(producer)).sleepingConsumers == {}
    ensures !broadcast ==> Take(c, s, Finish(producer)).sleepingConsumers == s.sleepingConsumers
  {
    SameQuestions(q, c, s);
    broadcast := q.Signal(producer);
  }

  // One step of some thread: `text` is the message of a new Add, `texts` holds those of
  // the producers that wait, and `max` is the room that a consumer has.
  method Call(q: Queue, step: Step, text: seq<Byte>, max: int, texts: map<Thread, seq<Byte>>, ghost c: Config,
      ghost s: State)
    returns (texts': map<Thread, seq<Byte>>)
    requires Matches(q, c, s) && QueueMonitor.Valid(c, s) && Possible(c, s, step) && Held(s, texts)
    requires step.Add? ==> step.size == |text|
    modifies q, q.buffer
    ensures Matches(q, c, Take(c, s, step)) && Held(Take(c, s, step), texts')
  {
    HeldAfter(c, s, step, text, texts);
    var waits := false;
    match step {
      case Add(_, _, blocking, _) =>
        var _, w := StepAdd(q, text, blocking, c, s, step);
        waits := w;
      case AddAgain(thread, _) =>
        var _, _ := StepAddAgain(q, texts[thread], c, s, step);
      case Remove(_, blocking, _) =>
        var _, _, _ := StepRemove(q, max, blocking, c, s, step);
      case RemoveAgain(_, _) =>
        var _, _, _ := StepRemove(q, max, true, c, s, step);
      case Finish(producer) =>
        var _ := StepSignal(q, producer, c, s);
      case WakeUp(_) =>
    }
    texts' := Holds(step, waits, text, texts);
  }

  // Any run of any threads over a new queue: the byte queue follows the monitor to its end,
  // and all messages that were ever accepted have been taken out or are still there.
  method Play(q: Queue, steps: seq<Step>, texts: seq<seq<Byte>>, limits: seq<int>, ghost c: Config, ghost s: State)
    requires Matches(q, c, Start()) && Reaches(c, Start(), steps, s) && |texts| == |steps| == |limits|
    requires forall i :: 0 <= i < |steps| ==> steps[i].Add? ==> steps[i].size == |texts[i]|
    modifies q, q.buffer
    ensures Matches(q, c, s) && NoLostWakeUp(c, s) && q.accepted == q.taken + q.Contents()
  {
    var held: map<Thread, seq<Byte>> := map[];
    ghost var s1 := Start();
    var i := 0;
    while i < |steps|
      invariant 0 <= i <= |steps| && Reaches(c, s1, steps[i..], s)
      invariant Matches(q, c, s1) && QueueMonitor.Valid(c, s1) && Held(s1, held)
    {
      assert steps[i..][1..] == steps[i + 1..];
      held := Call(q, steps[i], texts[i], limits[i], held, c, s1);
      TakeValid(c, s1, steps[i]);
      s1 := Take(c, s1, steps[i]);
      i := i + 1;
    }
  }
}
