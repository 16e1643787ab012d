// The ring protocol of the masters: src/server/master.cc and src/server/tracker.cc.
// A master that gets a message answers with messages of its own; the network delivers
// whatever is in flight in any order.
module MasterRing {
  import opened Common
  import opened RingOrder

  datatype Kind = AskTracker | Election | Coordinator | JoinGroup | GroupChanged

  // `origin` is who started the message, `trail` are the masters that sent it on.
  datatype Message = Message(kind: Kind, origin: Addr, trail: seq<Addr>, result: Option<Addr>)

  datatype Envelope = Envelope(to: Addr, msg: Message)

  // What a master knows afterwards, and what it sends.
  datatype Reaction = Reaction(primary: Option<Addr>, sent: seq<Envelope>)

  function Begin(kind: Kind, self: Addr): Message { Message(kind, self, [], None) }

  function Sent(self: Addr, m: Message): Message { m.(trail := m.trail + [self]) }

  function To(next: Option<Addr>, self: Addr, m: Message): seq<Envelope> {
    if next.None? then [] else [Envelope(next.value, Sent(self, m))]
  }

  predicate Closed(self: Addr, m: Message) { m.origin == self || self in m.trail }

  // The last address of the group that is in `passed`.
  function Winner(g: seq<Addr>, passed: seq<Addr>): (w: Option<Addr>)
    ensures w.Some? ==> w.value in g && w.value in passed
    ensures w.None? ==> forall a :: a in g ==> a !in passed
  {
    if g == [] then None
    else if g[|g| - 1] in passed then Some(g[|g| - 1])
    else Winner(g[..|g| - 1], passed)
  }

  // What a master does, as a function of what it knows and whom it can reach

  function Elect(g: seq<Addr>, self: Addr, primary: Option<Addr>, reach: Addr -> bool): Reaction
    requires self in g
  {
    var next := NextHop(g, self, reach);
    Reaction(if next.None? then Some(self) else primary, To(next, self, Begin(Election, self)))
  }

  function Announce(g: seq<Addr>, self: Addr, primary: Option<Addr>, reach: Addr -> bool, winner: Addr): Reaction
    requires self in g
  {
    var next := NextHop(g, self, reach);
    Reaction(if next.None? then Some(self) else primary,
      To(next, self, Begin(Coordinator, self).(result := Some(winner))))
  }

  function Ask(g: seq<Addr>, self: Addr, primary: Option<Addr>, reach: Addr -> bool): Reaction
    requires self in g
  {
    var next := NextHop(g, self, reach);
    if next.None? then Elect(g, self, primary, reach) else Reaction(primary, To(next, self, Begin(AskTracker, self)))
  }

  function Forward(g: seq<Addr>, self: Addr, reach: Addr -> bool, m: Message): seq<Envelope>
    requires self in g
  {
    To(NextHop(g, self, reach), self, m)
  }

  function Join(g: seq<Addr>, self: Addr, primary: Option<Addr>, reach: Addr -> bool): seq<Envelope> {
    if primary.None? || primary.value == self || primary.value !in g || !reach(primary.value) then []
    else To(primary, self, Begin(JoinGroup, self))
  }

  function Changed(g: seq<Addr>, self: Addr, primary: Option<Addr>, reach: Addr -> bool): seq<Envelope>
    requires self in g
  {
    if primary != Some(self) then [] else Forward(g, self, reach, Begin(GroupChanged, self))
  }

  function Handle(g: seq<Addr>, self: Addr, primary: Option<Addr>, m: Message, reach: Addr -> bool): Reaction
    requires self in g
  {
    match m.kind
    case Election =>
      if Closed(self, m) then
        var w := Winner(g, m.trail + [self]);
        if w.None? then Reaction(primary, []) else Announce(g, self, primary, reach, w.value)
      else Reaction(primary, Forward(g, self, reach, m))
    case Coordinator =>
      Reaction(m.result, if Closed(self, m) then [] else Join(g, self, m.result, reach) + Forward(g, self, reach, m))
    case AskTracker =>
      if Closed(self, m) then
        if m.result.None? then Elect(g, self, primary, reach)
        else Reaction(m.result, Join(g, self, m.result, reach))
      else if m.result.None? then Reaction(primary, Forward(g, self, reach, m.(result := primary)))
      else if primary.Some? && primary != m.result then Elect(g, self, primary, reach)
      else Reaction(primary, Forward(g, self, reach, m))
    case JoinGroup => Reaction(primary, Changed(g, self, primary, reach))
    case GroupChanged => Reaction(primary, if Closed(self, m) then [] else Forward(g, self, reach, m))
  }

  // A master as the code has it; `outbox` is what SendProtocol has queued.
  class Master {
    const group: seq<Addr>
    const self: Addr
    var primary: Option<Addr>
    var outbox: seq<Envelope>

    constructor (group: seq<Addr>, self: Addr)
      ensures this.group == group && this.self == self && primary == None && outbox == []
    {
      this.group, this.self, primary, outbox := group, self, None, [];
    }

    ghost predicate Valid() { Distinct(group) && self in group }

    method SendProtocol(m: Message, to: Addr)
      modifies `outbox
      ensures outbox == old(outbox) + [Envelope(to, Sent(self, m))]
    {
      outbox := outbox + [Envelope(to, m.(trail := m.trail + [self]))];
    }

    method StartElection(reach: Addr -> bool)
      requires Valid()
      modifies this
      ensures var r := Elect(group, self, old(primary), reach); primary == r.primary && outbox == old(outbox) + r.sent
    {
      RingStops(group, self, reach);
      var next := FindNextMaster(group, self, reach);
      if next == None {
        primary := Some(self);
        return;
      }
      SendProtocol(Begin(Election, self), next.value);
    }

    method StartCoordinator(winner: Addr, reach: Addr -> bool)
      requires Valid()
      modifies this
      ensures var r := Announce(group, self, old(primary), reach, winner);
        primary == r.primary && outbox == old(outbox) + r.sent
    {
      RingStops(group, self, reach);
      var next := FindNextMaster(group, self, reach);
      if next == None {
        primary := Some(self);
        return;
      }
      SendProtocol(Begin(Coordinator, self).(result := Some(winner)), next.value);
    }

    // The heartbeat of a master that does not know the primary master.
    method AskForTracker(reach: Addr -> bool)
      requires Valid()
      modifies this
      ensures var r := Ask(group, self, old(primary), reach); primary == r.primary && outbox == old(outbox) + r.sent
    {
      RingStops(group, self, reach);
      var next := FindNextMaster(group, self, reach);
      if next == None {
        StartElection(reach);
      } else {
        SendProtocol(Begin(AskTracker, self), next.value);
      }
    }

    method ContinueTransferProto(m: Message, reach: Addr -> bool)
      requires Valid()
      modifies `outbox
      ensures outbox == old(outbox) + Forward(group, self, reach, m)
    {
      RingStops(group, self, reach);
      var next := FindNextMaster(group, self, reach);
      if next != None {
        SendProtocol(m, next.value);
      }
    }

    method JoinMasterGroup(reach: Addr -> bool)
      requires Valid()
      modifies `outbox
      ensures outbox == old(outbox) + Join(group, self, primary, reach)
    {
      if primary == None || primary.value == self {
        return;
      }
      if primary.value !in group || !reach(primary.value) {
        return;
      }
      SendProtocol(Begin(JoinGroup, self), primary.value);
    }

    method MasterGroupChanged(reach: Addr -> bool)
      requires Valid()
      modifies `outbox
      ensures outbox == old(outbox) + Changed(group, self, primary, reach)
    {
      if primary != Some(self) {
        return;
      }
      ContinueTransferProto(Begin(GroupChanged, self), reach);
    }

    // The last master of the group that the election has passed.
    method ElectionResult(passed: seq<Addr>) returns (winner: Option<Addr>)
      ensures winner == Winner(group, passed)
    {
      var i := |group|;
      assert group[..i] == group;
      while i > 0
        invariant 0 <= i <= |group| && Winner(group, passed) == Winner(group[..i], passed)
      {
        i := i - 1;
        assert group[..i + 1][..i] == group[..i];
        if group[i] in passed {
          return Some(group[i]);
        }
      }
      winner := None;
    }

    method ProtocolProcess(m: Message, reach: Addr -> bool)
      requires Valid()
      modifies this
      ensures var r := Handle(group, self, old(primary), m, reach);
        primary == r.primary && outbox == old(outbox) + r.sent
    {
      var closed := Closed(self, m);
      match m.kind
      case Election =>
        if closed {
          var winner := ElectionResult(m.trail + [self]);
          if winner != None {
            StartCoordinator(winner.value, reach);
          }
        } else {
          ContinueTransferProto(m, reach);
        }
      case Coordinator =>
        primary := m.result;
        if !closed {
          JoinMasterGroup(reach);
          ContinueTransferProto(m, reach);
        }
      case AskTracker =>
        if closed {
          if m.result == None {
            StartElection(reach);
          } else {
            primary := m.result;
            JoinMasterGroup(reach);
          }
        } else if m.result == None {
          ContinueTransferProto(if primary != None then m.(result := primary) else m, reach);
        } else if primary != m.result && primary != None {
          StartElection(reach);
        } else {
          ContinueTransferProto(m, reach);
        }
      case JoinGroup =>
        MasterGroupChanged(reach);
      case GroupChanged =>
        if !closed {
          ContinueTransferProto(m, reach);
        }
    }
  }
}
