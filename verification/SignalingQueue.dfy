// The circular byte queue of src/server/signaling_queue.cc. The calls are modelled one at
// a time: where the code would wait, `waits` is returned and nothing has changed yet. How
// the waiting threads wake each other is in QueueMonitor.
module SignalingQueue {

  import opened Bytes

  // Where a message starts in the buffer, and how long it is.
  datatype Position = Position(first: nat, size: nat)

  // `x` in a buffer of `n` bytes, after at most one lap.
  function Wrap(x: nat, n: nat): (r: nat)
    requires x < 2 * n
    ensures r < n
  {
    if x < n then x else x - n
  }

  ghost function Total(ps: seq<Position>): nat {
    if ps == [] then 0 else ps[0].size + Total(ps[1..])
  }

  // The messages follow each other from place `at` on, without a gap.
  ghost predicate Tiled(ps: seq<Position>, at: nat, n: nat) {
    at < n && (ps != [] ==> ps[0].first == at && 1 <= ps[0].size <= n && Tiled(ps[1..], Wrap(at + ps[0].size, n), n))
  }

  // The byte `k` places behind place `at`.
  ghost function Cell(q: seq<Byte>, at: nat, k: nat): Byte
    requires at < |q| && k < |q|
  {
    q[Wrap(at + k, |q|)]
  }

  ghost function Read(q: seq<Byte>, first: nat, size: nat): seq<Byte>
    requires first < |q| && size <= |q|
  {
    seq(size, k requires 0 <= k < size => Cell(q, first, k))
  }

  ghost function Messages(q: seq<Byte>, ps: seq<Position>, at: nat): seq<seq<Byte>>
    requires Tiled(ps, at, |q|)
  {
    if ps == [] then [] else [Read(q, at, ps[0].size)] + Messages(q, ps[1..], Wrap(at + ps[0].size, |q|))
  }

  lemma {:induction false} TotalAppend(ps: seq<Position>, p: Position)
    ensures Total(ps + [p]) == Total(ps) + p.size
  {
    if ps == [] {
      assert [p][1..] == [];
    } else {
      assert (ps + [p])[1..] == ps[1..] + [p];
      TotalAppend(ps[1..], p);
    }
  }

  lemma {:induction false} TiledAppend(ps: seq<Position>, at: nat, n: nat, p: Position)
    requires Tiled(ps, at, n) && Total(ps) <= n && p.first == Wrap(at + Total(ps), n) && 1 <= p.size <= n
    ensures Tiled(ps + [p], at, n)
  {
    if ps == [] {
      assert [p][1..] == [];
    } else {
      assert (ps + [p])[1..] == ps[1..] + [p];
      TiledAppend(ps[1..], Wrap(at + ps[0].size, n), n, p);
    }
  }

  lemma {:induction false} MessagesAppend(q: seq<Byte>, ps: seq<Position>, at: nat, p: Position)
    requires Tiled(ps, at, |q|) && Total(ps) <= |q| && p.first == Wrap(at + Total(ps), |q|) && 1 <= p.size <= |q|
    ensures Tiled(ps + [p], at, |q|)
    ensures Messages(q, ps + [p], at) == Messages(q, ps, at) + [Read(q, p.first, p.size)]
  {
    TiledAppend(ps, at, |q|, p);
    if ps == [] {
      assert [p][1..] == [];
    } else {
      assert (ps + [p])[1..] == ps[1..] + [p];
      MessagesAppend(q, ps[1..], Wrap(at + ps[0].size, |q|), p);
    }
  }

  lemma CellShift(q: seq<Byte>, at: nat, size: nat, k: nat)
    requires at < |q| && size + k < |q|
    ensures Cell(q, Wrap(at + size, |q|), k) == Cell(q, at, size + k)
  {
  }

  // Bytes outside the messages do not matter.
  lemma {:induction false} MessagesSame(q: seq<Byte>, q': seq<Byte>, ps: seq<Position>, at: nat)
    requires |q| == |q'| && Tiled(ps, at, |q|) && Total(ps) <= |q|
    requires forall k :: 0 <= k < Total(ps) ==> Cell(q', at, k) == Cell(q, at, k)
    ensures Messages(q', ps, at) == Messages(q, ps, at)
  {
    if ps != [] {
      var size, next := ps[0].size, Wrap(at + ps[0].size, |q|);
      forall k | 0 <= k < Total(ps[1..]) ensures Cell(q', next, k) == Cell(q, next, k) {
        CellShift(q, at, size, k);
        CellShift(q', at, size, k);
      }
      MessagesSame(q, q', ps[1..], next);
      assert Read(q', at, size) == Read(q, at, size);
    }
  }

  lemma {:induction false} MessagesCount(q: seq<Byte>, ps: seq<Position>, at: nat)
    requires Tiled(ps, at, |q|)
    ensures |Messages(q, ps, at)| == |ps|
    ensures forall i :: 0 <= i < |ps| ==> |Messages(q, ps, at)[i]| == ps[i].size
  {
    if ps != [] {
      MessagesCount(q, ps[1..], Wrap(at + ps[0].size, |q|));
    }
  }

  // The bytes of `src` stand in the buffer from `first` on, and all other bytes are as before.
  ghost predicate Written(q: seq<Byte>, q': seq<Byte>, first: nat, src: seq<Byte>)
    requires first < |q| && |src| <= |q|
  {
    && |q'| == |q|
    && (forall k :: 0 <= k < |q| ==> Cell(q', first, k) == if k < |src| then src[k] else Cell(q, first, k))
  }

  // A cell of the messages lies behind the bytes written, around the end.
  lemma CellKept(q: seq<Byte>, q': seq<Byte>, at: nat, total: nat, src: seq<Byte>, k: nat)
    requires at < |q| && total + |src| <= |q| && 1 <= |src| && k < total
    requires Written(q, q', Wrap(at + total, |q|), src)
    ensures Cell(q', at, k) == Cell(q, at, k)
  {
    var first, j := Wrap(at + total, |q|), k + |q| - total;
    assert Wrap(first + j, |q|) == Wrap(at + k, |q|);
    assert Cell(q', first, j) == Cell(q, first, j);
  }

  lemma ReadBack(q: seq<Byte>, q': seq<Byte>, first: nat, src: seq<Byte>)
    requires first < |q| && |src| <= |q| && Written(q, q', first, src)
    ensures Read(q', first, |src|) == src
  {
    var r := Read(q', first, |src|);
    forall k | 0 <= k < |src| ensures r[k] == src[k] {
      assert Cell(q', first, k) == src[k];
    }
  }

  lemma MessagesKept(q: seq<Byte>, q': seq<Byte>, ps: seq<Position>, at: nat, total: nat, src: seq<Byte>)
    requires Tiled(ps, at, |q|) && total == Total(ps) && total + |src| <= |q| && 1 <= |src|
    requires Written(q, q', Wrap(at + total, |q|), src)
    ensures Messages(q', ps, at) == Messages(q, ps, at)
  {
    forall k | 0 <= k < total ensures Cell(q', at, k) == Cell(q, at, k) {
      CellKept(q, q', at, total, src, k);
    }
    MessagesSame(q, q', ps, at);
  }

  lemma WrittenRead(q: seq<Byte>, q': seq<Byte>, ps: seq<Position>, at: nat, src: seq<Byte>)
    requires Tiled(ps, at, |q|) && Total(ps) + |src| <= |q| && 1 <= |src|
    requires Written(q, q', Wrap(at + Total(ps), |q|), src)
    ensures Messages(q', ps, at) == Messages(q, ps, at)
    ensures Read(q', Wrap(at + Total(ps), |q|), |src|) == src
  {
    MessagesKept(q, q', ps, at, Total(ps), src);
    ReadBack(q, q', Wrap(at + Total(ps), |q|), src);
  }

  class Queue {
    const buffer: array<Byte>
    const producers: nat
    var free: nat
    var writePointer: nat
    var positions: seq<Position>
    var finished: set<int>

    // Where the oldest message starts, and everything that was ever accepted and taken out.
    ghost var start: nat
    ghost var accepted: seq<seq<Byte>>
    ghost var taken: seq<seq<Byte>>

    ghost predicate Valid()
      reads this, buffer
    {
      && Tiled(positions, start, buffer.Length) && Total(positions) + free == buffer.Length
      && writePointer == Wrap(start + Total(positions), buffer.Length)
      && accepted == taken + Contents()
    }

    // The messages in the queue, the oldest one first.
    ghost function Contents(): seq<seq<Byte>>
      reads this, buffer
      requires Tiled(positions, start, buffer.Length)
    {
      Messages(buffer[..], positions, start)
    }

    constructor (size: nat, producers: nat)
      requires size > 0
      ensures Valid() && fresh(buffer) && buffer.Length == size && this.producers == producers
      ensures Contents() == [] && free == size && finished == {} && accepted == [] && taken == []
    {
      buffer := new Byte[size](_ => 0);
      free, writePointer, this.producers, positions, finished := size, 0, producers, [], {};
      start, accepted, taken := 0, [], [];
    }

    // Puts a message behind the others. The result is its size, 0 if there is no room for
    // it now, or -1.
    method Add(src: seq<Byte>, isBlocking: bool) returns (r: int, waits: bool)
      requires Valid()
      modifies this, buffer
      ensures Valid() && finished == old(finished) && taken == old(taken)
      ensures waits <==> 0 < |src| <= buffer.Length && |old(finished)| < producers && |src| > old(free) && isBlocking
      ensures r == if |src| > buffer.Length || |src| == 0 || |old(finished)| >= producers then -1
                   else if |src| > old(free) then 0 else |src|
      ensures if r > 0 then Contents() == old(Contents()) + [src] && free == old(free) - |src|
        && accepted == old(accepted) + [src]
              else Contents() == old(Contents()) && free == old(free) && accepted == old(accepted)
    {
      var size := |src|;
      if size > buffer.Length || size <= 0 {
        return -1, false;
      }
      if |finished| >= producers {
        return -1, false;
      }
      r, waits := Put(src, isBlocking);
    }

    // The rest of Add, from the loop on in which it waits: a woken producer comes back here.
    method Put(src: seq<Byte>, isBlocking: bool) returns (r: int, waits: bool)
      requires Valid() && 0 < |src| <= buffer.Length
      modifies this, buffer
      ensures Valid() && finished == old(finished) && taken == old(taken)
      ensures waits <==> |src| > old(free) && isBlocking
      ensures r == if |src| > old(free) then 0 else |src|
      ensures if r > 0 then Contents() == old(Contents()) + [src] && free == old(free) - |src|
        && accepted == old(accepted) + [src]
              else Contents() == old(Contents()) && free == old(free) && accepted == old(accepted)
    {
      var size := |src|;
      if size > free {
        return 0, isBlocking;
      }
      ghost var q, ps := buffer[..], positions;
      positions := positions + [Position(writePointer, size)];
      free := free - size;
      Write(src);
      WrittenRead(q, buffer[..], ps, start, src);
      MessagesAppend(buffer[..], ps, start, positions[|ps|]);
      TotalAppend(ps, positions[|ps|]);
      accepted := accepted + [src];
      return size, false;
    }

    // Up to the end of the buffer, and on from its start.
    method Write(src: seq<Byte>)
      requires 1 <= |src| <= buffer.Length && writePointer < buffer.Length
      modifies `writePointer, buffer
      ensures Written(old(buffer[..]), buffer[..], old(writePointer), src)
      ensures writePointer == Wrap(old(writePointer) + |src|, buffer.Length)
    {
      var size := |src|;
      if writePointer + size <= buffer.Length {
        forall k | 0 <= k < size {
          buffer[writePointer + k] := src[k];
        }
        writePointer := writePointer + size;
        if writePointer == buffer.Length {
          writePointer := 0;
        }
      } else {
        var partial := buffer.Length - writePointer;
        forall k | 0 <= k < partial {
          buffer[writePointer + k] := src[k];
        }
        forall k | 0 <= k < size - partial {
          buffer[k] := src[partial + k];
        }
        writePointer := size - partial;
      }
    }

    // The bytes of the oldest message.
    method Front() returns (dest: seq<Byte>)
      requires Valid() && positions != []
      ensures Contents() != [] && dest == Contents()[0] && |dest| == positions[0].size
    {
      var pos := positions[0];
      if pos.first + pos.size <= buffer.Length {
        dest := buffer[pos.first..pos.first + pos.size];
      } else {
        var partial := buffer.Length - pos.first;
        dest := buffer[pos.first..] + buffer[..pos.size - partial];
      }
      assert dest == Read(buffer[..], pos.first, pos.size);
    }

    // Drops the oldest message.
    method Pop()
      requires Valid() && positions != []
      modifies `free, `positions, `start, `taken
      ensures Valid() && old(Contents()) != [] && Contents() == old(Contents())[1..]
      ensures free == old(free) + old(positions)[0].size && taken == old(taken) + [old(Contents())[0]]
    {
      free := free + positions[0].size;
      taken := taken + [Contents()[0]];
      start := Wrap(start + positions[0].size, buffer.Length);
      positions := positions[1..];
    }

    // Takes out the oldest message. The result is its size; -1, if it is longer than `max`
    // and lost; or 0, if there is none.
    method Remove(max: int, isBlocking: bool) returns (r: int, dest: seq<Byte>, waits: bool)
      requires Valid()
      modifies `free, `positions, `start, `taken
      ensures Valid()
      ensures waits <==> old(Contents()) == [] && isBlocking && |finished| < producers
      ensures old(Contents()) == [] ==>
        r == 0 && dest == [] && Contents() == [] && free == old(free) && taken == old(taken)
      ensures old(Contents()) != [] ==> var m := old(Contents())[0];
        && Contents() == old(Contents())[1..] && free == old(free) + |m| && taken == old(taken) + [m]
        && (if |m| > max then r == -1 && dest == [] else r == |m| && dest == m)
    {
      MessagesCount(buffer[..], positions, start);
      if positions == [] {
        return 0, [], isBlocking && |finished| < producers;
      }
      waits, dest := false, [];
      if positions[0].size > max {
        r := -1;
      } else {
        dest := Front();
        r := positions[0].size;
      }
      Pop();
    }

    // The same into a string, which any message fits into.
    method RemoveString(isBlocking: bool) returns (r: int, dest: seq<Byte>, waits: bool)
      requires Valid()
      modifies `free, `positions, `start, `taken
      ensures Valid()
      ensures waits <==> old(Contents()) == [] && isBlocking && |finished| < producers
      ensures old(Contents()) == [] ==>
        r == 0 && dest == [] && Contents() == [] && free == old(free) && taken == old(taken)
      ensures old(Contents()) != [] ==> var m := old(Contents())[0];
        && Contents() == old(Contents())[1..] && free == old(free) + |m| && taken == old(taken) + [m]
        && r == |m| && dest == m
    {
      MessagesCount(buffer[..], positions, start);
      if positions == [] {
        return 0, [], isBlocking && |finished| < producers;
      }
      waits := false;
      dest := Front();
      r := positions[0].size;
      Pop();
    }

    // A producer is done. True when that wakes up every waiting consumer.
    method Signal(producer: int) returns (broadcast: bool)
      requires Valid()
      modifies `finished
      ensures Valid() && finished == old(finished) + {producer} && (broadcast <==> |finished| >= producers)
    {
      finished := finished + {producer};
      broadcast := |finished| >= producers;
    }

    method EmptyAndNoMoreAdd() returns (b: bool)
      requires Valid()
      ensures b <==> Contents() == [] && |finished| >= producers
    {
      MessagesCount(buffer[..], positions, start);
      b := |positions| == 0 && |finished| >= producers;
    }
  }
}
