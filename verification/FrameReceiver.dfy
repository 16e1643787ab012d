// The receiving side of src/server/connector.cc: messages with their length in front,
// taken out of a stream of bytes that comes in chunks.
module FrameReceiver {
  import opened Bytes
  import opened Common

  const HEADER := 4

  // The messages of a stream, what is left behind them, and whether a length of zero has
  // ended it.
  datatype Parsed = Parsed(messages: seq<seq<Byte>>, rest: seq<Byte>, ended: bool)

  ghost function Size(s: seq<Byte>): nat
    requires |s| >= HEADER
  {
    Decode(s[..HEADER])
  }

  ghost function Parse(s: seq<Byte>): Parsed
    decreases |s|
  {
    if |s| < HEADER then Parsed([], s, false)
    else if Size(s) == 0 then Parsed([], s[..HEADER], true)
    else if |s| < HEADER + Size(s) then Parsed([], s, false)
    else
      var more := Parse(s[HEADER + Size(s)..]);
      more.(messages := [s[HEADER..HEADER + Size(s)]] + more.messages)
  }

  // A frame that is not complete yet.
  ghost predicate Open(s: seq<Byte>) {
    |s| >= HEADER ==> Size(s) > 0 && |s| < HEADER + Size(s)
  }

  lemma {:induction false} ParseRest(s: seq<Byte>)
    ensures !Parse(s).ended ==> Open(Parse(s).rest)
    ensures forall i :: 0 <= i < |Parse(s).messages| ==> Parse(s).messages[i] != []
    decreases |s|
  {
    if |s| >= HEADER && Size(s) > 0 && |s| >= HEADER + Size(s) {
      ParseRest(s[HEADER + Size(s)..]);
    }
  }

  // Puts messages in front of what was parsed.
  ghost function After(ms: seq<seq<Byte>>, p: Parsed): Parsed { p.(messages := ms + p.messages) }

  lemma AfterAfter(a: seq<seq<Byte>>, b: seq<seq<Byte>>, p: Parsed)
    ensures After(a, After(b, p)) == After(a + b, p)
  {
    assert a + (b + p.messages) == (a + b) + p.messages;
  }

  lemma ParseFrame(s: seq<Byte>, d: seq<Byte>)
    requires |s| >= HEADER && Size(s) > 0 && |s| >= HEADER + Size(s)
    ensures Parse(s + d) == After([s[HEADER..HEADER + Size(s)]], Parse(s[HEADER + Size(s)..] + d))
  {
    var n := HEADER + Size(s);
    assert (s + d)[..HEADER] == s[..HEADER];
    assert (s + d)[n..] == s[n..] + d && (s + d)[HEADER..n] == s[HEADER..n];
  }

  // Where a stream is cut into chunks does not matter: parsing goes on from what is left.
  lemma {:induction false} Resume(s: seq<Byte>, d: seq<Byte>)
    ensures Parse(s + d) == if Parse(s).ended then Parse(s) else After(Parse(s).messages, Parse(Parse(s).rest + d))
    decreases |s|
  {
    if |s| >= HEADER && Size(s) > 0 && |s| >= HEADER + Size(s) {
      var m, t := s[HEADER..HEADER + Size(s)], s[HEADER + Size(s)..];
      ParseFrame(s, d);
      ParseFrame(s, []);
      assert s + [] == s && t + [] == t;
      Resume(t, d);
      AfterAfter([m], Parse(t).messages, Parse(Parse(t).rest + d));
    } else if |s| >= HEADER {
      assert (s + d)[..HEADER] == s[..HEADER];
    }
  }

  // A chunk after what was parsed so far, and chunk after chunk.

  ghost function Feed(p: Parsed, chunk: seq<Byte>): Parsed {
    if p.ended then p else After(p.messages, Parse(p.rest + chunk))
  }

  ghost function FeedAll(p: Parsed, chunks: seq<seq<Byte>>): Parsed
    decreases |chunks|
  {
    if chunks == [] then p else FeedAll(Feed(p, chunks[0]), chunks[1..])
  }

  lemma {:induction false} ChunksAgree(s: seq<Byte>, p: Parsed, chunks: seq<seq<Byte>>)
    requires p == Parse(s)
    ensures FeedAll(p, chunks) == Parse(s + Flat(chunks))
    decreases |chunks|
  {
    if chunks == [] {
      assert s + [] == s;
    } else {
      FeedOne(s, p, chunks[0]);
      ChunksAgree(s + chunks[0], Feed(p, chunks[0]), chunks[1..]);
      Regroup(s, chunks[0], Flat(chunks[1..]));
    }
  }

  lemma FeedOne(s: seq<Byte>, p: Parsed, chunk: seq<Byte>)
    requires p == Parse(s)
    ensures Feed(p, chunk) == Parse(s + chunk)
  {
    Resume(s, chunk);
  }

  lemma Regroup(a: seq<Byte>, b: seq<Byte>, c: seq<Byte>)
    ensures (a + b) + c == a + (b + c)
  {
  }

  // Framing and parsing

  ghost function Framed(ms: seq<seq<Byte>>): seq<Byte>
    requires forall i :: 0 <= i < |ms| ==> |ms[i]| < WORD
  {
    if ms == [] then [] else Encode(|ms[0]|) + ms[0] + Framed(ms[1..])
  }

  // A stream of framed messages, and anything behind a length of zero, gives the messages.
  lemma ParseFramed(ms: seq<seq<Byte>>, tail: seq<Byte>)
    requires forall i :: 0 <= i < |ms| ==> 0 < |ms[i]| < WORD
    ensures Parse(Framed(ms)) == Parsed(ms, [], false)
    ensures Parse(Framed(ms) + (Encode(0) + tail)) == Parsed(ms, Encode(0), true)
  {
    var s := Encode(0) + tail;
    DecodeEncode(0);
    assert s[..HEADER] == Encode(0);
    ParseFront(ms, s);
    ParseFront(ms, []);
    assert Framed(ms) + [] == Framed(ms);
    assert ms + [] == ms;
  }

  // The length in front of a message is the sum of its bytes, each times a power of 256, the
  // lowest one first.
  lemma SizeSums(s: seq<Byte>)
    requires |s| >= HEADER
    ensures Size(s) == ValueOf(s[..HEADER])
    ensures Size(s) == s[0] as int + 256 * s[1] as int + 256 * 256 * s[2] as int + 256 * 256 * 256 * s[3] as int
  {
    DecodeSums(s[..HEADER]);
  }

  lemma FiveBytes()
    ensures Parse([5, 0, 0, 0, 104, 101, 108, 108, 111]) == Parsed([[104, 101, 108, 108, 111]], [], false)
  {
    var s: seq<Byte> := [5, 0, 0, 0, 104, 101, 108, 108, 111];
    SizeSums(s);
    assert s[HEADER..HEADER + 5] == [104, 101, 108, 108, 111] && s[HEADER + 5..] == [];
  }

  lemma {:induction false} ParseFront(ms: seq<seq<Byte>>, rest: seq<Byte>)
    requires forall i :: 0 <= i < |ms| ==> 0 < |ms[i]| < WORD
    ensures Parse(Framed(ms) + rest) == After(ms, Parse(rest))
  {
    if ms == [] {
      assert Framed(ms) + rest == rest;
      assert [] + Parse(rest).messages == Parse(rest).messages;
    } else {
      ParseFront(ms[1..], rest);
      FramedStep(ms[0], Framed(ms[1..]) + rest);
      Regroup(Encode(|ms[0]|) + ms[0], Framed(ms[1..]), rest);
      AfterAfter([ms[0]], ms[1..], Parse(rest));
      assert [ms[0]] + ms[1..] == ms;
    }
  }

  lemma FramedStep(m: seq<Byte>, rest: seq<Byte>)
    requires 0 < |m| < WORD
    ensures Parse(Encode(|m|) + m + rest) == After([m], Parse(rest))
  {
    var s := Encode(|m|) + m + rest;
    DecodeEncode(|m|);
    assert s[..HEADER] == Encode(|m|);
    assert s[HEADER..HEADER + |m|] == m && s[HEADER + |m|..] == rest;
  }

  ghost function Count(body: nat): Word { (HEADER + body) % WORD }

  // The 32-bit byte count tells header from body exactly for sizes that leave room for
  // the header.
  lemma CountTells(size: nat)
    ensures (forall k: nat :: k <= size ==> Count(k) >= HEADER) <==> size < WORD - HEADER
  {
    if size >= WORD - HEADER {
      assert Count(WORD - HEADER) == 0;
    }
  }

  lemma CountOn(body: nat, len: nat)
    requires body < WORD - HEADER && body + len < WORD
    ensures Count(body) == HEADER + body && (Count(body) + len) % WORD == Count(body + len)
    ensures if body + len < WORD - HEADER then Count(body + len) == HEADER + body + len
            else Count(body + len) == HEADER + body + len - WORD < HEADER
  {
  }

  // All messages of a stream leave room for the header, and what has come of the frame
  // begun: the count never wraps around.
  ghost predicate Small(p: Parsed) {
    (forall i :: 0 <= i < |p.messages| ==> |p.messages[i]| < WORD - HEADER) && |p.rest| < WORD
  }

  lemma SmallRest(ms: seq<seq<Byte>>, p: Parsed)
    requires Small(After(ms, p))
    ensures Small(p)
  {
    var all := ms + p.messages;
    forall i | 0 <= i < |p.messages| ensures |p.messages[i]| < WORD - HEADER {
      assert all[|ms| + i] == p.messages[i];
    }
  }

  // What a queue for messages up to `capacity` bytes takes, before it refuses one.
  ghost function Taken(ms: seq<seq<Byte>>, capacity: nat): seq<seq<Byte>> {
    if ms == [] || |ms[0]| > capacity then [] else [ms[0]] + Taken(ms[1..], capacity)
  }

  lemma FirstBack(a: seq<seq<Byte>>, b: seq<seq<Byte>>)
    requires a != []
    ensures [a[0]] + (a[1..] + b) == a + b
  {
  }

  lemma {:induction false} TakenAfter(a: seq<seq<Byte>>, b: seq<seq<Byte>>, capacity: nat)
    requires AllSmall(a, capacity)
    ensures Taken(a + b, capacity) == a + Taken(b, capacity)
  {
    if a == [] {
      assert a + b == b;
    } else {
      assert (a + b)[0] == a[0] && (a + b)[1..] == a[1..] + b;
      TakenAfter(a[1..], b, capacity);
      FirstBack(a, Taken(b, capacity));
    }
  }

  // What a call does for the caller: the messages up to one that is refused go into the
  // queue, and if none is refused, what is left is the frame that has been begun.
  ghost predicate Received(p: Parsed, capacity: nat, before: seq<seq<Byte>>, queue: seq<seq<Byte>>, r: int,
      current: seq<Byte>) {
    var taken := Taken(p.messages, capacity);
    && queue == before + taken
    && (r == -1 <==> |taken| < |p.messages|)
    && (r == 0 <==> |taken| == |p.messages| && p.ended)
    && (r != -1 ==> current == p.rest && -1 <= r <= 1)
  }

  lemma AllTaken(p: Parsed, ms: seq<seq<Byte>>, last: Parsed, capacity: nat, before: seq<seq<Byte>>)
    requires p == After(ms, last) && last.messages == [] && AllSmall(ms, capacity)
    ensures Received(p, capacity, before, before + ms, if last.ended then 0 else 1, last.rest)
  {
    TakenAfter(ms, [], capacity);
    assert ms + [] == ms;
  }

  lemma OneRefused(p: Parsed, ms: seq<seq<Byte>>, last: Parsed, capacity: nat, before: seq<seq<Byte>>,
      current: seq<Byte>)
    requires p == After(ms, last) && last.messages != [] && |last.messages[0]| > capacity
    requires AllSmall(ms, capacity)
    ensures Received(p, capacity, before, before + ms, -1, current)
  {
    TakenAfter(ms, last.messages, capacity);
    assert ms + [] == ms;
  }

  lemma MoreTaken(before: seq<seq<Byte>>, a: seq<seq<Byte>>, m: seq<Byte>, goal: Parsed, p: Parsed, capacity: nat)
    requires goal == After(a, After([m], p)) && AllSmall(a, capacity) && |m| <= capacity
    ensures (before + a) + [m] == before + (a + [m]) && goal == After(a + [m], p) && AllSmall(a + [m], capacity)
  {
    AfterAfter(a, [m], p);
    AllSmallMore(a, m, capacity);
  }

  ghost predicate AllSmall(ms: seq<seq<Byte>>, capacity: nat) {
    ms != [] ==> |ms[0]| <= capacity && AllSmall(ms[1..], capacity)
  }

  lemma {:induction false} AllSmallMore(ms: seq<seq<Byte>>, m: seq<Byte>, capacity: nat)
    requires AllSmall(ms, capacity) && |m| <= capacity
    ensures AllSmall(ms + [m], capacity)
  {
    if ms == [] {
      assert (ms + [m])[1..] == [];
    } else {
      assert (ms + [m])[1..] == ms[1..] + [m];
      AllSmallMore(ms[1..], m, capacity);
    }
  }

  datatype Outcome = Go | End | Refused

  class Receiver {
    const capacity: nat
    var sizeBytes: seq<Byte>
    var message: seq<Byte>
    var bytesCount: Word
    var queue: seq<seq<Byte>>

    ghost predicate Valid()
      reads this
    {
      && |sizeBytes| == HEADER && (bytesCount < HEADER ==> message == [])
      && (bytesCount >= HEADER ==> bytesCount == HEADER + |message|)
    }

    // The bytes of the frame that has been begun.
    ghost function Current(): (s: seq<Byte>)
      reads this
      ensures Valid() ==> |s| == bytesCount
    {
      if bytesCount < |sizeBytes| then sizeBytes[..bytesCount] else sizeBytes + message
    }

    ghost predicate Ended()
      reads this
    {
      |sizeBytes| == bytesCount == HEADER && Decode(sizeBytes) == 0
    }

    constructor (capacity: nat)
      ensures Valid() && Current() == [] && queue == [] && this.capacity == capacity
    {
      this.capacity := capacity;
      sizeBytes, message, bytesCount, queue := [0, 0, 0, 0], [], 0, [];
    }

    method Clear()
      requires |sizeBytes| == HEADER
      modifies `sizeBytes, `message, `bytesCount
      ensures Valid() && Current() == []
    {
      sizeBytes, message, bytesCount := [0, 0, 0, 0], [], 0;
    }

    // One chunk from the socket. The result is 0 after the end of the stream, -1 if the
    // queue has refused a message, and else 1.
    method Receive(chunk: seq<Byte>) returns (r: int)
      requires Valid() && (Ended() || Open(Current())) && Small(Parse(Current() + chunk))
      modifies this
      ensures Valid()
      ensures old(Ended()) ==> r == 0 && queue == old(queue) && Current() == old(Current())
      ensures !old(Ended()) ==> Received(Parse(old(Current()) + chunk), capacity, old(queue), queue, r, Current())
      ensures r == 1 ==> Open(Current())
      ensures r == 0 ==> Ended()
    {
      EndedOrOpen();
      if bytesCount >= HEADER && Decode(sizeBytes) == 0 {
        return 0;
      }
      r := Consume(chunk);
    }

    lemma EndedOrOpen()
      requires Valid() && (Ended() || Open(Current()))
      ensures bytesCount >= HEADER && Decode(sizeBytes) == 0 <==> Ended()
    {
      if bytesCount >= HEADER {
        assert Current()[..HEADER] == sizeBytes;
      }
    }

    // Goes through the bytes of a chunk.
    method Consume(chunk: seq<Byte>) returns (r: int)
      requires Valid() && Open(Current()) && Small(Parse(Current() + chunk))
      modifies this
      ensures Valid() && Received(Parse(old(Current()) + chunk), capacity, old(queue), queue, r, Current())
      ensures r == 1 ==> Open(Current())
      ensures r == 0 ==> Ended()
    {
      ghost var goal := Parse(Current() + chunk);
      var outcome;
      ghost var taken, last;
      AtStart(chunk, goal);
      assert queue + [] == queue;
      outcome, taken, last := Turns(chunk, goal);
      match outcome
      case Go =>
        AtEnd(Current(), chunk);
        AllTaken(goal, taken, last, capacity, old(queue));
        r := 1;
      case End =>
        AllTaken(goal, taken, last, capacity, old(queue));
        r := 0;
      case Refused =>
        OneRefused(goal, taken, last, capacity, old(queue), Current());
        r := -1;
    }

    // Between two turns: `taken` has gone into the queue, `togo` is what there is to parse.
    ghost predicate Underway(goal: Parsed, before: seq<seq<Byte>>, taken: seq<seq<Byte>>, togo: Parsed)
      reads this
    {
      Valid() && goal == After(taken, togo) && queue == before + taken && AllSmall(taken, capacity)
    }

    // A frame has been begun, and `bytes` are still to come.
    ghost predicate Waiting(bytes: seq<Byte>, togo: Parsed)
      reads this
    {
      Open(Current()) && togo == Parse(Current() + bytes)
    }

    // How the loop can end early.
    ghost predicate Closed(outcome: Outcome, last: Parsed)
      reads this
    {
      match outcome
      case Go => false
      case End => Ended() && last == Parsed([], Current(), true)
      case Refused => last.messages != [] && |last.messages[0]| > capacity
    }

    // The loop: `taken` has gone into the queue, `last` is what there was to parse then.
    method Turns(chunk: seq<Byte>, ghost goal: Parsed)
      returns (outcome: Outcome, ghost taken: seq<seq<Byte>>, ghost last: Parsed)
      requires Underway(goal, queue, [], goal) && Waiting(chunk[0..], goal) && Small(goal)
      modifies this
      ensures Underway(goal, old(queue), taken, last)
      ensures if outcome == Go then Waiting(chunk[|chunk|..], last) else Closed(outcome, last)
    {
      var pointer := 0;
      taken, last, outcome := [], goal, Go;
      while outcome == Go && pointer < |chunk|
        invariant pointer <= |chunk| && Underway(goal, old(queue), taken, last)
        invariant if outcome == Go then Waiting(chunk[pointer..], last) else Closed(outcome, last)
        decreases |chunk| - pointer
      {
        var len;
        len, outcome, taken, last := Turn(chunk, pointer, goal, old(queue), taken, last);
        pointer := pointer + len;
      }
    }

    static lemma AtStart(chunk: seq<Byte>, goal: Parsed)
      ensures chunk[0..] == chunk && After([], goal) == goal
    {
      assert [] + goal.messages == goal.messages;
    }

    static lemma AtEnd(s: seq<Byte>, chunk: seq<Byte>)
      requires Open(s)
      ensures s + chunk[|chunk|..] == s && Parse(s) == Parsed([], s, false)
    {
    }

    // One turn of the loop: some bytes of the chunk, and the message if it is complete.
    method Turn(chunk: seq<Byte>, pointer: nat, ghost goal: Parsed, ghost before: seq<seq<Byte>>,
        ghost taken: seq<seq<Byte>>, ghost togo: Parsed)
      returns (len: nat, outcome: Outcome, ghost more: seq<seq<Byte>>, ghost left: Parsed)
      requires Underway(goal, before, taken, togo) && Small(goal)
      requires pointer < |chunk| && Waiting(chunk[pointer..], togo)
      modifies this
      ensures Underway(goal, before, more, left) && 0 < len && pointer + len <= |chunk|
      ensures if outcome == Go then Waiting(chunk[pointer + len..], left) else Closed(outcome, left)
    {
      SmallRest(taken, togo);
      HeaderRoom(Current(), chunk[pointer..]);
      len := Fill(chunk, pointer);
      more, left := taken, togo;
      ghost var rest := chunk[pointer + len..];
      if bytesCount >= HEADER && |message| == Decode(sizeBytes) {
        Whole(rest);
        if |message| == 0 {
          return len, End, more, left;
        }
        if |message| > capacity {
          return len, Refused, more, left;
        }
        left := Parse(rest);
        MoreTaken(before, taken, message, goal, left, capacity);
        more := taken + [message];
        Deliver();
        assert [] + rest == rest;
      }
      outcome := Go;
    }

    // The message goes into the queue.
    method Deliver()
      requires Valid()
      modifies this
      ensures Valid() && queue == old(queue) + [old(message)] && Current() == []
    {
      queue := queue + [message];
      Clear();
    }

    // Takes from the chunk what the frame can use.
    method Fill(chunk: seq<Byte>, pointer: nat) returns (len: nat)
      requires Valid() && Open(Current()) && pointer < |chunk|
      requires BodyFits(Current(), chunk[pointer..])
      modifies `sizeBytes, `message, `bytesCount
      ensures Valid() && 0 < len && pointer + len <= |chunk|
        && Current() == old(Current()) + chunk[pointer..pointer + len]
      ensures Current() + chunk[pointer + len..] == old(Current()) + chunk[pointer..]
      ensures bytesCount >= HEADER ==>
        Size(Current()) == Decode(sizeBytes) && (|message| == Decode(sizeBytes) || Open(Current()))
    {
      ghost var before := Current();
      if bytesCount < HEADER {
        len := FillHeader(chunk, pointer);
      } else {
        assert before[..HEADER] == sizeBytes;
        len := FillBody(chunk, pointer);
      }
      Moved(before, chunk, pointer, len);
    }

    method FillHeader(chunk: seq<Byte>, pointer: nat) returns (len: nat)
      requires Valid() && bytesCount < HEADER && pointer < |chunk|
      modifies `sizeBytes, `bytesCount
      ensures Valid() && 0 < len && pointer + len <= |chunk|
        && Current() == old(Current()) + chunk[pointer..pointer + len]
      ensures message == [] && bytesCount <= HEADER && (bytesCount == HEADER ==> Current()[..HEADER] == sizeBytes)
    {
      len := if HEADER - bytesCount <= |chunk| - pointer then HEADER - bytesCount else |chunk| - pointer;
      ghost var before := sizeBytes[..bytesCount];
      sizeBytes := sizeBytes[..bytesCount] + chunk[pointer..pointer + len] + sizeBytes[bytesCount + len..];
      bytesCount := (bytesCount + len) % WORD;
      assert sizeBytes[..bytesCount] == before + chunk[pointer..pointer + len];
    }

    // A body that leaves no room for the header makes the count wrap around, and the
    // receiver takes the rest of the body for a header.
    method FillBody(chunk: seq<Byte>, pointer: nat) returns (len: nat)
      requires Valid() && bytesCount >= HEADER && |message| < Decode(sizeBytes) && pointer < |chunk|
      modifies `message, `bytesCount
      ensures 0 < len && pointer + len <= |chunk| && message == old(message) + chunk[pointer..pointer + len]
      ensures |message| <= Decode(sizeBytes) && bytesCount == Count(|message|)
      ensures Valid() <==> |message| < WORD - HEADER
      ensures Valid() ==> bytesCount >= HEADER && Current() == old(Current()) + chunk[pointer..pointer + len]
      ensures Valid() ==> Current()[..HEADER] == sizeBytes
    {
      var need := HEADER + Decode(sizeBytes) - bytesCount;
      len := if need <= |chunk| - pointer then need else |chunk| - pointer;
      CountOn(|message|, len);
      message := message + chunk[pointer..pointer + len];
      bytesCount := (bytesCount + len) % WORD;
    }

    static lemma Moved(s: seq<Byte>, chunk: seq<Byte>, pointer: nat, len: nat)
      requires pointer + len <= |chunk|
      ensures (s + chunk[pointer..pointer + len]) + chunk[pointer + len..] == s + chunk[pointer..]
    {
    }

    static ghost predicate BodyFits(s: seq<Byte>, d: seq<Byte>) {
      |s| >= HEADER ==> Size(s) < WORD - HEADER || |s + d| < WORD
    }

    static lemma HeaderRoom(s: seq<Byte>, d: seq<Byte>)
      requires Open(s) && Small(Parse(s + d))
      ensures BodyFits(s, d)
    {
      if |s| >= HEADER {
        assert (s + d)[..HEADER] == s[..HEADER];
        if |s + d| >= HEADER + Size(s) {
          assert |Parse(s + d).messages[0]| == Size(s);
        }
      }
    }

    // A frame that is complete, or the end.
    lemma Whole(rest: seq<Byte>)
      requires Valid() && bytesCount >= HEADER && |message| == Decode(sizeBytes) == Size(Current())
      ensures if |message| == 0 then Parse(Current() + rest) == Parsed([], Current(), true)
              else Parse(Current() + rest) == After([message], Parse(rest))
    {
      var s := Current();
      assert (s + rest)[..HEADER] == s[..HEADER];
      if |message| == 0 {
        assert (s + rest)[..HEADER] == s;
      } else {
        ParseFrame(s, rest);
        assert s[HEADER..] == message && s[|s|..] + rest == rest;
        assert (s + rest)[|s|..] == rest;
      }
    }
  }

  // Chunk after chunk

  lemma {:induction false} TakenAll(ms: seq<seq<Byte>>, capacity: nat)
    ensures |Taken(ms, capacity)| <= |ms|
    ensures |Taken(ms, capacity)| == |ms| ==> AllSmall(ms, capacity) && Taken(ms, capacity) == ms
  {
    if ms != [] && |ms[0]| <= capacity {
      TakenAll(ms[1..], capacity);
      assert [ms[0]] + ms[1..] == ms;
    }
  }

  lemma {:induction false} TakenStops(a: seq<seq<Byte>>, b: seq<seq<Byte>>, capacity: nat)
    requires |Taken(a, capacity)| < |a|
    ensures Taken(a + b, capacity) == Taken(a, capacity)
  {
    if |a[0]| <= capacity {
      assert (a + b)[1..] == a[1..] + b;
      TakenStops(a[1..], b, capacity);
    }
  }

  lemma ReceivedOn(p: Parsed, q: Parsed, capacity: nat, before: seq<seq<Byte>>, queue: seq<seq<Byte>>,
      current: seq<Byte>,
                   queue': seq<seq<Byte>>, r: int, current': seq<Byte>)
    requires Received(p, capacity, before, queue, 1, current)
    requires Received(q, capacity, queue, queue', r, current')
    ensures !p.ended && current == p.rest && Received(After(p.messages, q), capacity, before, queue', r, current')
  {
    TakenAll(p.messages, capacity);
    TakenAfter(p.messages, q.messages, capacity);
    assert before + (p.messages + Taken(q.messages, capacity)) == (before + p.messages) + Taken(q.messages, capacity);
  }

  lemma ReceivedMore(s: seq<Byte>, d: seq<Byte>, capacity: nat, before: seq<seq<Byte>>, queue: seq<seq<Byte>>,
      current: seq<Byte>,
                     queue': seq<seq<Byte>>, r: int, current': seq<Byte>)
    requires Received(Parse(s), capacity, before, queue, 1, current)
    requires Received(Parse(current + d), capacity, queue, queue', r, current')
    ensures Received(Parse(s + d), capacity, before, queue', r, current')
  {
    ReceivedOn(Parse(s), Parse(current + d), capacity, before, queue, current, queue', r, current');
    Resume(s, d);
  }

  // The end of the stream and a refused message end the receiving.
  lemma ReceivedLast(s: seq<Byte>, d: seq<Byte>, capacity: nat, before: seq<seq<Byte>>, queue: seq<seq<Byte>>, r: int,
      current: seq<Byte>)
    requires Received(Parse(s), capacity, before, queue, r, current) && r <= 0
    ensures Received(Parse(s + d), capacity, before, queue, r, current)
  {
    Resume(s, d);
    TakenAll(Parse(s).messages, capacity);
    if r == -1 {
      var more := Parse(Parse(s).rest + d).messages;
      TakenStops(Parse(s).messages, more, capacity);
    }
  }

  lemma SmallFront(s: seq<Byte>, d: seq<Byte>)
    requires Small(Parse(s + d))
    ensures Small(Parse(s))
    ensures !Parse(s).ended ==> Small(Parse(Parse(s).rest + d))
  {
    Resume(s, d);
    if !Parse(s).ended {
      var a, p := Parse(s).messages, Parse(Parse(s).rest + d);
      SmallRest(a, p);
      forall i | 0 <= i < |a| ensures |a[i]| < WORD - HEADER {
        assert (a + p.messages)[i] == a[i];
      }
      ParseRest(s);
      Receiver.HeaderRoom(Parse(s).rest, d);
    }
  }

  // A connection: chunk after chunk comes in until the stream has ended, a message has
  // been refused, or nothing more comes. However the stream is cut, the queue gets what
  // parsing the whole stream gives.
  method ReceiveAll(receiver: Receiver, chunks: seq<seq<Byte>>) returns (r: int)
    requires receiver.Valid() && receiver.Current() == [] && Small(Parse(Flat(chunks)))
    modifies receiver
    ensures receiver.Valid()
    ensures Received(Parse(Flat(chunks)), receiver.capacity, old(receiver.queue), receiver.queue, r, receiver.Current())
  {
    r := 1;
    var i := 0;
    ghost var s: seq<Byte> := [];
    assert chunks[0..] == chunks && s + Flat(chunks) == Flat(chunks);
    while i < |chunks| && r == 1
      invariant i <= |chunks| && receiver.Valid() && Flat(chunks) == s + Flat(chunks[i..]) && -1 <= r <= 1
      invariant Received(Parse(s), receiver.capacity, old(receiver.queue), receiver.queue, r, receiver.Current())
      invariant r == 1 ==> Open(receiver.Current())
    {
      assert chunks[i..][1..] == chunks[i + 1..];
      Regroup(s, chunks[i], Flat(chunks[i + 1..]));
      r := ReceiveOne(receiver, chunks[i], s, Flat(chunks[i + 1..]), old(receiver.queue));
      s := s + chunks[i];
      i := i + 1;
    }
    if r == 1 {
      assert s + [] == s;
    } else {
      ReceivedLast(s, Flat(chunks[i..]), receiver.capacity, old(receiver.queue), receiver.queue, r, receiver.Current());
    }
  }

  // A message is refused just when there is one that is too long for the queue.
  lemma RefusedExactly(p: Parsed, capacity: nat, before: seq<seq<Byte>>, queue: seq<seq<Byte>>, r: int,
      current: seq<Byte>)
    requires Received(p, capacity, before, queue, r, current)
    ensures r == -1 <==> exists m :: m in p.messages && |m| > capacity
  {
    TakenAll(p.messages, capacity);
    if r != -1 {
      AllSmallEach(p.messages, capacity);
    } else if forall m :: m in p.messages ==> |m| <= capacity {
      NoneRefused(p.messages, capacity);
    }
  }

  lemma {:induction false} AllSmallEach(ms: seq<seq<Byte>>, capacity: nat)
    requires AllSmall(ms, capacity)
    ensures forall m :: m in ms ==> |m| <= capacity
  {
    if ms != [] {
      AllSmallEach(ms[1..], capacity);
      assert forall m :: m in ms ==> m == ms[0] || m in ms[1..];
    }
  }

  // Unless a message is too long for the queue, it gets all of them.
  lemma AllReceived(p: Parsed, capacity: nat, before: seq<seq<Byte>>, queue: seq<seq<Byte>>, r: int, current: seq<Byte>)
    requires Received(p, capacity, before, queue, r, current) && forall m :: m in p.messages ==> |m| <= capacity
    ensures r != -1 && queue == before + p.messages && (r == 0 <==> p.ended) && current == p.rest
  {
    NoneRefused(p.messages, capacity);
  }

  // One chunk after the bytes `s`, of which everything was taken.
  method ReceiveOne(receiver: Receiver, chunk: seq<Byte>, ghost s: seq<Byte>, ghost rest: seq<Byte>,
      ghost before: seq<seq<Byte>>)
    returns (r: int)
    requires receiver.Valid() && Open(receiver.Current()) && Small(Parse((s + chunk) + rest))
    requires Received(Parse(s), receiver.capacity, before, receiver.queue, 1, receiver.Current())
    modifies receiver
    ensures receiver.Valid() && -1 <= r <= 1 && (r == 1 ==> Open(receiver.Current()))
    ensures Received(Parse(s + chunk), receiver.capacity, before, receiver.queue, r, receiver.Current())
  {
    ghost var queue, current := receiver.queue, receiver.Current();
    SmallFront(s + chunk, rest);
    TakenAll(Parse(s).messages, receiver.capacity);
    SmallFront(s, chunk);
    NotEnded(receiver);
    r := receiver.Receive(chunk);
    ReceivedMore(s, chunk, receiver.capacity, before, queue, current, receiver.queue, r, receiver.Current());
  }

  lemma NotEnded(receiver: Receiver)
    requires receiver.Valid() && Open(receiver.Current())
    ensures !receiver.Ended()
  {
    assert |receiver.sizeBytes| == receiver.bytesCount ==> receiver.Current()[..HEADER] == receiver.sizeBytes;
  }

  lemma {:induction false} NoneRefused(ms: seq<seq<Byte>>, capacity: nat)
    requires forall m :: m in ms ==> |m| <= capacity
    ensures Taken(ms, capacity) == ms
  {
    if ms != [] {
      assert forall m :: m in ms[1..] ==> m in ms;
      NoneRefused(ms[1..], capacity);
      assert [ms[0]] + ms[1..] == ms;
    }
  }
}
