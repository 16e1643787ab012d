// Runs of the masters: who is primary, and that the messages come to an end.
module MasterRuns {
  import opened Common
  import opened RingOrder
  import opened MasterRing

  // What every master knows, and the messages in flight.
  datatype Net = Net(primary: map<Addr, Option<Addr>>, flight: seq<Envelope>)

  function Removed(flight: seq<Envelope>, i: nat): seq<Envelope>
    requires i < |flight|
  {
    flight[..i] + flight[i + 1..]
  }

  // Message `i` reaches its master, which can reach the masters `reach`.
  function Deliver(g: seq<Addr>, s: Net, i: nat, reach: Addr -> bool): Net
    requires i < |s.flight| && s.flight[i].to in g && s.flight[i].to in s.primary
  {
    var e := s.flight[i];
    var r := Handle(g, e.to, s.primary[e.to], e.msg, reach);
    Net(s.primary[e.to := r.primary], Removed(s.flight, i) + r.sent)
  }

  // A master that does not know the primary master asks for it.
  function Beat(g: seq<Addr>, s: Net, a: Addr, reach: Addr -> bool): Net
    requires a in g && a in s.primary && s.primary[a].None?
  {
    var r := Ask(g, a, s.primary[a], reach);
    Net(s.primary[a := r.primary], s.flight + r.sent)
  }

  // Everybody reaches the masters of `live`.
  function Among(live: set<Addr>): Addr -> bool { x => x in live }

  // Safety, with a fixed set of masters that reach each other

  datatype Step = Delivery(i: nat) | HeartBeat(a: Addr) | Loss(i: nat)

  ghost predicate Possible(g: seq<Addr>, s: Net, step: Step) {
    match step
    case Delivery(i) => i < |s.flight| && s.flight[i].to in g && s.flight[i].to in s.primary
    case HeartBeat(a) => a in g && a in s.primary && s.primary[a].None?
    case Loss(i) => i < |s.flight|
  }

  ghost function Take(g: seq<Addr>, live: set<Addr>, s: Net, step: Step): Net
    requires Possible(g, s, step)
  {
    match step
    case Delivery(i) => Deliver(g, s, i, Among(live))
    case HeartBeat(a) => Beat(g, s, a, Among(live))
    case Loss(i) => s.(flight := Removed(s.flight, i))
  }

  ghost function Start(live: set<Addr>): Net { Net(map a | a in live :: None, []) }

  ghost predicate Reaches(g: seq<Addr>, live: set<Addr>, s: Net, steps: seq<Step>, s': Net)
    decreases |steps|
  {
    if steps == [] then s == s'
    else Possible(g, s, steps[0]) && Reaches(g, live, Take(g, live, s, steps[0]), steps[1..], s')
  }

  // The last live master in the order of the group.
  ghost predicate IsLeader(g: seq<Addr>, live: set<Addr>, a: Addr) {
    exists i :: 0 <= i < |g| && g[i] == a && a in live && forall j :: i < j < |g| ==> g[j] !in live
  }

  ghost predicate Setting(g: seq<Addr>, live: set<Addr>) {
    Distinct(g) && live != {} && forall a :: a in live ==> a in g
  }

  // Only the leader is ever known as primary master.
  ghost predicate Known(g: seq<Addr>, live: set<Addr>, p: Option<Addr>) {
    p.Some? ==> IsLeader(g, live, p.value)
  }

  // Everybody on the trail sent to the next live master.
  ghost predicate Trail(g: seq<Addr>, live: set<Addr>, t: seq<Addr>, to: Addr) {
    && (forall k :: 0 <= k < |t| ==> t[k] in live && t[k] in g)
    && (forall k :: 0 < k < |t| ==> Hop(g, live, t[k - 1], t[k]))
    && (t != [] ==> Hop(g, live, t[|t| - 1], to))
  }

  ghost predicate Hop(g: seq<Addr>, live: set<Addr>, a: Addr, b: Addr) {
    a in g && NextHop(g, a, Among(live)) == Some(b)
  }

  // A message on its way around.
  ghost predicate OnWay(g: seq<Addr>, live: set<Addr>, e: Envelope) {
    e.msg.trail != [] && e.msg.trail[0] == e.msg.origin && Trail(g, live, e.msg.trail, e.to)
  }

  ghost predicate Fine(g: seq<Addr>, live: set<Addr>, e: Envelope) {
    && e.to in live && Known(g, live, e.msg.result)
    && (e.msg.kind.Coordinator? ==> e.msg.result.Some?)
    && (!e.msg.kind.JoinGroup? ==> OnWay(g, live, e))
  }

  ghost predicate Safe(g: seq<Addr>, live: set<Addr>, s: Net) {
    && s.primary.Keys == live
    && (forall a :: a in live ==> Known(g, live, s.primary[a]))
    && (forall e :: e in s.flight ==> Fine(g, live, e))
  }

  lemma LeaderUnique(g: seq<Addr>, live: set<Addr>, a: Addr, b: Addr)
    requires IsLeader(g, live, a) && IsLeader(g, live, b)
    ensures a == b
  {
  }

  // From a member of a set that is closed under taking the next live master, every live
  // master is reached.
  lemma {:induction false} ClosedHasAll(g: seq<Addr>, live: set<Addr>, t: seq<Addr>, a: Addr, b: Addr)
    requires Setting(g, live) && a in t && b in live
    requires forall x :: x in t ==> x in live
    requires forall x :: x in t && x in g && NextHop(g, x, Among(live)).Some? ==> NextHop(g, x, Among(live)).value in t
    ensures b in t
    decreases Distance(g, IndexOf(g, a), IndexOf(g, b))
  {
    if a != b {
      NextHopNearest(g, a, Among(live));
      var c := NextHop(g, a, Among(live)).value;
      DistanceSum(g, IndexOf(g, a), IndexOf(g, c), IndexOf(g, b));
      ClosedHasAll(g, live, t, c, b);
    }
  }

  lemma DistanceSum(g: seq<Addr>, i: nat, j: nat, k: nat)
    requires i < |g| && j < |g| && k < |g| && i != j && Distance(g, i, j) <= Distance(g, i, k)
    ensures Distance(g, j, k) < Distance(g, i, k)
  {
  }

  // A message that has come around has seen every live master.
  lemma AroundSeesAll(g: seq<Addr>, live: set<Addr>, e: Envelope)
    requires Setting(g, live) && OnWay(g, live, e) && Closed(e.to, e.msg) && e.to in live
    ensures forall a :: a in live <==> a in e.msg.trail
  {
    var t := e.msg.trail;
    assert e.to in t;
    forall x | x in t && x in g && NextHop(g, x, Among(live)).Some?
      ensures NextHop(g, x, Among(live)).value in t
    {
      var k :| 0 <= k < |t| && t[k] == x;
      if k + 1 < |t| {
        assert Hop(g, live, t[k + 1 - 1], t[k + 1]);
      }
    }
    forall b | b in live ensures b in t {
      ClosedHasAll(g, live, t, t[0], b);
    }
  }

  // The winner of an election that has come around is the leader.
  lemma {:induction false} WinnerLeads(g: seq<Addr>, live: set<Addr>, passed: seq<Addr>)
    requires (forall a :: a in live ==> a in passed) && (forall a :: a in passed && a in g ==> a in live)
    ensures Winner(g, passed).Some? ==> IsLeader(g, live, Winner(g, passed).value)
  {
    if g != [] {
      if g[|g| - 1] !in passed {
        var h := g[..|g| - 1];
        WinnerLeads(h, live, passed);
        if Winner(h, passed).Some? {
          var w := Winner(h, passed).value;
          var i :| 0 <= i < |h| && h[i] == w && w in live && forall j :: i < j < |h| ==> h[j] !in live;
          assert g[i] == w && forall j :: i < j < |g| ==> g[j] !in live;
        }
      } else {
        assert g[|g| - 1] in live;
      }
    }
  }

  lemma AloneLeads(g: seq<Addr>, live: set<Addr>, a: Addr)
    requires Setting(g, live) && a in live && NextHop(g, a, Among(live)).None?
    ensures IsLeader(g, live, a)
  {
    NextHopNearest(g, a, Among(live));
    var i := IndexOf(g, a);
    assert g[i] == a && forall j :: i < j < |g| ==> g[j] !in live;
  }

  lemma HopLive(g: seq<Addr>, live: set<Addr>, a: Addr)
    requires Setting(g, live) && a in live && NextHop(g, a, Among(live)).Some?
    ensures NextHop(g, a, Among(live)).value in live
  {
  }

  // A new message, and a message that is sent on, are on their way.
  lemma NewOnWay(g: seq<Addr>, live: set<Addr>, a: Addr, m: Message, e: Envelope)
    requires Setting(g, live) && a in live && m.origin == a && m.trail == []
      && e in To(NextHop(g, a, Among(live)), a, m)
    ensures e.to in live && OnWay(g, live, e) && e.msg.kind == m.kind && e.msg.result == m.result
  {
    HopLive(g, live, a);
  }

  lemma SentOnWay(g: seq<Addr>, live: set<Addr>, e: Envelope, m: Message, f: Envelope)
    requires Setting(g, live) && OnWay(g, live, e) && e.to in live && m == e.msg.(result := m.result)
    requires f in Forward(g, e.to, Among(live), m)
    ensures f.to in live && OnWay(g, live, f) && f.msg.kind == m.kind && f.msg.result == m.result
  {
    HopLive(g, live, e.to);
    TrailGrows(g, live, e.msg.trail, e.to, f.to);
  }

  lemma TrailGrows(g: seq<Addr>, live: set<Addr>, t: seq<Addr>, to: Addr, next: Addr)
    requires Trail(g, live, t, to) && to in live && Hop(g, live, to, next)
    ensures Trail(g, live, t + [to], next)
  {
    var t' := t + [to];
    forall k | 0 < k < |t'| ensures Hop(g, live, t'[k - 1], t'[k]) {
      if k < |t| {
        assert t'[k - 1] == t[k - 1] && t'[k] == t[k];
      }
    }
  }

  ghost predicate AllFine(g: seq<Addr>, live: set<Addr>, es: seq<Envelope>) {
    forall e :: e in es ==> Fine(g, live, e)
  }

  lemma ElectFine(g: seq<Addr>, live: set<Addr>, a: Addr, p: Option<Addr>)
    requires Setting(g, live) && a in live && Known(g, live, p)
    ensures var r := Elect(g, a, p, Among(live)); Known(g, live, r.primary) && AllFine(g, live, r.sent)
  {
    var r := Elect(g, a, p, Among(live));
    if NextHop(g, a, Among(live)).None? {
      AloneLeads(g, live, a);
    }
    forall e | e in r.sent ensures Fine(g, live, e) {
      NewOnWay(g, live, a, Begin(Election, a), e);
    }
  }

  lemma AnnounceFine(g: seq<Addr>, live: set<Addr>, a: Addr, p: Option<Addr>, w: Addr)
    requires Setting(g, live) && a in live && Known(g, live, p) && IsLeader(g, live, w)
    ensures var r := Announce(g, a, p, Among(live), w); Known(g, live, r.primary) && AllFine(g, live, r.sent)
  {
    var r := Announce(g, a, p, Among(live), w);
    if NextHop(g, a, Among(live)).None? {
      AloneLeads(g, live, a);
    }
    forall e | e in r.sent ensures Fine(g, live, e) {
      NewOnWay(g, live, a, Begin(Coordinator, a).(result := Some(w)), e);
    }
  }

  lemma AskFine(g: seq<Addr>, live: set<Addr>, a: Addr, p: Option<Addr>)
    requires Setting(g, live) && a in live && Known(g, live, p)
    ensures var r := Ask(g, a, p, Among(live)); Known(g, live, r.primary) && AllFine(g, live, r.sent)
  {
    var r := Ask(g, a, p, Among(live));
    if NextHop(g, a, Among(live)).None? {
      ElectFine(g, live, a, p);
    } else {
      forall e | e in r.sent ensures Fine(g, live, e) {
        NewOnWay(g, live, a, Begin(AskTracker, a), e);
      }
    }
  }

  lemma ForwardFine(g: seq<Addr>, live: set<Addr>, e: Envelope, m: Message)
    requires Setting(g, live) && Fine(g, live, e) && !e.msg.kind.JoinGroup?
    requires m == e.msg.(result := m.result) && Known(g, live, m.result) && (m.kind.Coordinator? ==> m.result.Some?)
    ensures AllFine(g, live, Forward(g, e.to, Among(live), m))
  {
    forall f | f in Forward(g, e.to, Among(live), m) ensures Fine(g, live, f) {
      SentOnWay(g, live, e, m, f);
    }
  }

  lemma JoinFine(g: seq<Addr>, live: set<Addr>, a: Addr, p: Option<Addr>)
    requires Setting(g, live) && a in live && Known(g, live, p)
    ensures AllFine(g, live, Join(g, a, p, Among(live))) && AllFine(g, live, Changed(g, a, p, Among(live)))
  {
    forall e | e in Changed(g, a, p, Among(live)) ensures Fine(g, live, e) {
      NewOnWay(g, live, a, Begin(GroupChanged, a), e);
    }
  }

  lemma ElectionFine(g: seq<Addr>, live: set<Addr>, p: Option<Addr>, e: Envelope)
    requires Setting(g, live) && Known(g, live, p) && Fine(g, live, e) && e.msg.kind.Election?
    ensures var r := Handle(g, e.to, p, e.msg, Among(live)); Known(g, live, r.primary) && AllFine(g, live, r.sent)
  {
    if Closed(e.to, e.msg) {
      AroundSeesAll(g, live, e);
      var passed := e.msg.trail + [e.to];
      WinnerLeads(g, live, passed);
      if Winner(g, passed).Some? {
        AnnounceFine(g, live, e.to, p, Winner(g, passed).value);
      }
    } else {
      ForwardFine(g, live, e, e.msg);
    }
  }

  lemma AskTrackerFine(g: seq<Addr>, live: set<Addr>, p: Option<Addr>, e: Envelope)
    requires Setting(g, live) && Known(g, live, p) && Fine(g, live, e) && e.msg.kind.AskTracker?
    ensures var r := Handle(g, e.to, p, e.msg, Among(live)); Known(g, live, r.primary) && AllFine(g, live, r.sent)
  {
    if Closed(e.to, e.msg) {
      ElectFine(g, live, e.to, p);
      JoinFine(g, live, e.to, e.msg.result);
    } else if e.msg.result.None? {
      ForwardFine(g, live, e, e.msg.(result := p));
    } else {
      ElectFine(g, live, e.to, p);
      ForwardFine(g, live, e, e.msg);
    }
  }

  lemma HandleFine(g: seq<Addr>, live: set<Addr>, p: Option<Addr>, e: Envelope)
    requires Setting(g, live) && Known(g, live, p) && Fine(g, live, e)
    ensures var r := Handle(g, e.to, p, e.msg, Among(live)); Known(g, live, r.primary) && AllFine(g, live, r.sent)
  {
    match e.msg.kind
    case Election => ElectionFine(g, live, p, e);
    case AskTracker => AskTrackerFine(g, live, p, e);
    case Coordinator =>
      JoinFine(g, live, e.to, e.msg.result);
      ForwardFine(g, live, e, e.msg);
    case JoinGroup => JoinFine(g, live, e.to, p);
    case GroupChanged => ForwardFine(g, live, e, e.msg);
  }

  // Every step keeps the masters safe.
  lemma TakeSafe(g: seq<Addr>, live: set<Addr>, s: Net, step: Step)
    requires Setting(g, live) && Safe(g, live, s) && Possible(g, s, step)
    ensures Safe(g, live, Take(g, live, s, step))
  {
    match step
    case Delivery(i) =>
      assert s.flight[i] in s.flight;
      HandleFine(g, live, s.primary[s.flight[i].to], s.flight[i]);
    case HeartBeat(a) => AskFine(g, live, a, s.primary[a]);
    case Loss(i) =>
  }

  lemma {:induction false} RunSafe(g: seq<Addr>, live: set<Addr>, s: Net, steps: seq<Step>, s': Net)
    requires Setting(g, live) && Safe(g, live, s) && Reaches(g, live, s, steps, s')
    ensures Safe(g, live, s')
    decreases |steps|
  {
    if steps != [] {
      TakeSafe(g, live, s, steps[0]);
      RunSafe(g, live, Take(g, live, s, steps[0]), steps[1..], s');
    }
  }

  // In every state that any run reaches from a start without a primary master, whoever is
  // known as primary master, or named in a message, is the last live master of the group;
  // so at most one master takes itself for it.
  lemma OnePrimary(g: seq<Addr>, live: set<Addr>, steps: seq<Step>, s: Net)
    requires Setting(g, live) && Reaches(g, live, Start(live), steps, s)
    ensures s.primary.Keys == live
    ensures forall a :: a in live && s.primary[a].Some? ==> IsLeader(g, live, s.primary[a].value)
    ensures forall e :: e in s.flight && e.msg.result.Some? ==> IsLeader(g, live, e.msg.result.value)
    ensures forall a, b :: a in live && b in live && s.primary[a] == Some(a) && s.primary[b] == Some(b) ==> a == b
  {
    RunSafe(g, live, Start(live), steps, s);
    forall a, b | a in live && b in live && s.primary[a] == Some(a) && s.primary[b] == Some(b) ensures a == b {
      LeaderUnique(g, live, a, b);
    }
  }

  // The end of the messages, with nothing known about who reaches whom: between two
  // deliveries that may change.

  // The trail names masters of the group, its origin first, and none twice.
  ghost predicate Sound(g: seq<Addr>, e: Envelope) {
    && e.to in g && Distinct(e.msg.trail) && e.msg.trail != [] && e.msg.trail[0] == e.msg.origin
    && (forall k :: 0 <= k < |e.msg.trail| ==> e.msg.trail[k] in g)
  }

  ghost predicate AllSound(g: seq<Addr>, es: seq<Envelope>) { forall i :: 0 <= i < |es| ==> Sound(g, es[i]) }

  ghost function Members(s: seq<Addr>): set<Addr> { set a | a in s }

  lemma {:induction false} DistinctSize(s: seq<Addr>)
    requires Distinct(s)
    ensures |Members(s)| == |s|
  {
    if s != [] {
      DistinctSize(s[1..]);
      assert Members(s) == {s[0]} + Members(s[1..]);
    }
  }

  lemma {:induction false} SizeMembers(s: seq<Addr>)
    ensures |Members(s)| <= |s|
  {
    if s != [] {
      SizeMembers(s[1..]);
      assert Members(s) == {s[0]} + Members(s[1..]);
    }
  }

  lemma SubsetSize(a: set<Addr>, b: set<Addr>)
    requires a <= b
    ensures |a| <= |b|
  {
    assert b == a + (b - a);
  }

  lemma TrailFits(g: seq<Addr>, t: seq<Addr>)
    requires Distinct(t) && forall k :: 0 <= k < |t| ==> t[k] in g
    ensures |t| <= |g|
  {
    DistinctSize(t);
    SizeMembers(g);
    SubsetSize(Members(t), Members(g));
  }

  // How many deliveries a message and all that follows from it can still cost in a group
  // of `n` masters.
  ghost function Cost(n: nat, m: Message): nat {
    var rest := if |m.trail| <= n then n - |m.trail| else 0;
    match m.kind
    case GroupChanged => rest + 1
    case JoinGroup => n + 2
    case Coordinator => (rest + 1) * (n + 3)
    case Election => Rounds(n) + rest + 1
    case AskTracker => Rounds(n) + n + 1 + rest + 1
  }

  ghost function Rounds(n: nat): nat { (n + 1) * (n + 3) }

  ghost function Total(n: nat, es: seq<Envelope>): nat {
    if es == [] then 0 else Cost(n, es[0].msg) + Total(n, es[1..])
  }

  lemma {:induction false} TotalConcat(n: nat, a: seq<Envelope>, b: seq<Envelope>)
    ensures Total(n, a + b) == Total(n, a) + Total(n, b)
  {
    if a == [] {
      assert a + b == b;
    } else {
      assert (a + b)[1..] == a[1..] + b;
      TotalConcat(n, a[1..], b);
    }
  }

  lemma TotalOne(n: nat, e: Envelope)
    ensures Total(n, [e]) == Cost(n, e.msg)
  {
    assert [e][1..] == [];
  }

  lemma BeginCost(g: seq<Addr>, next: Option<Addr>, self: Addr, m: Message)
    requires self in g && (next.Some? ==> next.value in g) && m.trail == [] && m.origin == self
    ensures AllSound(g, To(next, self, m))
    ensures Total(|g|, To(next, self, m)) <= Cost(|g|, m.(trail := [self]))
  {
    if next.Some? {
      TotalOne(|g|, Envelope(next.value, Sent(self, m)));
      assert [] + [self] == [self];
    }
  }

  lemma ForwardCost(g: seq<Addr>, e: Envelope, m: Message, reach: Addr -> bool)
    requires Sound(g, e) && !Closed(e.to, e.msg) && m == e.msg.(result := m.result)
    ensures AllSound(g, Forward(g, e.to, reach, m)) && |m.trail| < |g|
    ensures Total(|g|, Forward(g, e.to, reach, m)) <= Cost(|g|, m.(trail := m.trail + [e.to]))
  {
    var t := m.trail + [e.to];
    TrailFits(g, t);
    var next := NextHop(g, e.to, reach);
    if next.Some? {
      TotalOne(|g|, Envelope(next.value, Sent(e.to, m)));
    }
  }

  lemma CoordinatorSum(n: nat, m: Message, join: nat, forward: nat, a: Addr)
    requires m.kind.Coordinator? && |m.trail| < n && join <= n + 2 && forward <= Cost(n, m.(trail := m.trail + [a]))
    ensures join + forward < Cost(n, m)
  {
    var rest := n - |m.trail|;
    assert (rest + 1) * (n + 3) == rest * (n + 3) + n + 3;
  }

  lemma RoundsBound(n: nat, rest: nat)
    requires rest <= n
    ensures (rest + 1) * (n + 3) <= Rounds(n) && n + 2 < Rounds(n)
  {
  }

  lemma ElectCost(g: seq<Addr>, self: Addr, p: Option<Addr>, reach: Addr -> bool)
    requires self in g
    ensures AllSound(g, Elect(g, self, p, reach).sent) && Total(|g|, Elect(g, self, p, reach).sent) <= Rounds(|g|) + |g|
  {
    BeginCost(g, NextHop(g, self, reach), self, Begin(Election, self));
    assert Cost(|g|, Begin(Election, self).(trail := [self])) == Rounds(|g|) + |g|;
  }

  lemma AnnounceCost(g: seq<Addr>, self: Addr, p: Option<Addr>, reach: Addr -> bool, w: Addr)
    requires self in g
    ensures AllSound(g, Announce(g, self, p, reach, w).sent)
      && Total(|g|, Announce(g, self, p, reach, w).sent) <= Rounds(|g|)
  {
    var m := Begin(Coordinator, self).(result := Some(w));
    BeginCost(g, NextHop(g, self, reach), self, m);
    RoundsBound(|g|, |g| - 1);
    assert Cost(|g|, m.(trail := [self])) == |g| * (|g| + 3);
  }

  lemma JoinCost(g: seq<Addr>, self: Addr, p: Option<Addr>, reach: Addr -> bool)
    requires self in g
    ensures AllSound(g, Join(g, self, p, reach)) && Total(|g|, Join(g, self, p, reach)) <= |g| + 2
    ensures AllSound(g, Changed(g, self, p, reach)) && Total(|g|, Changed(g, self, p, reach)) <= |g| + 1
  {
    BeginCost(g, NextHop(g, self, reach), self, Begin(GroupChanged, self));
    if p.Some? && p.value in g {
      BeginCost(g, p, self, Begin(JoinGroup, self));
    }
  }

  // What is sent in reaction to a message is sound and costs less than the message.
  ghost predicate Cheaper(g: seq<Addr>, p: Option<Addr>, e: Envelope, reach: Addr -> bool)
    requires e.to in g
  {
    var sent := Handle(g, e.to, p, e.msg, reach).sent;
    AllSound(g, sent) && Total(|g|, sent) < Cost(|g|, e.msg)
  }

  lemma ElectionCheaper(g: seq<Addr>, p: Option<Addr>, e: Envelope, reach: Addr -> bool)
    requires Sound(g, e) && e.msg.kind.Election?
    ensures Cheaper(g, p, e, reach)
  {
    if Closed(e.to, e.msg) {
      var w := Winner(g, e.msg.trail + [e.to]);
      if w.Some? {
        AnnounceCost(g, e.to, p, reach, w.value);
      }
    } else {
      ForwardCost(g, e, e.msg, reach);
    }
  }

  lemma CoordinatorCheaper(g: seq<Addr>, p: Option<Addr>, e: Envelope, reach: Addr -> bool)
    requires Sound(g, e) && e.msg.kind.Coordinator?
    ensures Cheaper(g, p, e, reach)
  {
    var n, m := |g|, e.msg;
    if !Closed(e.to, m) {
      var join, forward := Join(g, e.to, m.result, reach), Forward(g, e.to, reach, m);
      ForwardCost(g, e, m, reach);
      JoinCost(g, e.to, m.result, reach);
      TotalConcat(n, join, forward);
      CoordinatorSum(n, m, Total(n, join), Total(n, forward), e.to);
    }
  }

  lemma AskTrackerCheaper(g: seq<Addr>, p: Option<Addr>, e: Envelope, reach: Addr -> bool)
    requires Sound(g, e) && e.msg.kind.AskTracker?
    ensures Cheaper(g, p, e, reach)
  {
    var n, m := |g|, e.msg;
    RoundsBound(n, 0);
    if Closed(e.to, m) {
      if m.result.None? {
        ElectCost(g, e.to, p, reach);
      } else {
        JoinCost(g, e.to, m.result, reach);
      }
    } else if m.result.None? {
      ForwardCost(g, e, m.(result := p), reach);
    } else if p.Some? && p != m.result {
      ElectCost(g, e.to, p, reach);
    } else {
      ForwardCost(g, e, m, reach);
    }
  }

  lemma HandleCost(g: seq<Addr>, p: Option<Addr>, e: Envelope, reach: Addr -> bool)
    requires Sound(g, e)
    ensures Cheaper(g, p, e, reach)
  {
    match e.msg.kind
    case Election => ElectionCheaper(g, p, e, reach);
    case Coordinator => CoordinatorCheaper(g, p, e, reach);
    case AskTracker => AskTrackerCheaper(g, p, e, reach);
    case JoinGroup => JoinCost(g, e.to, p, reach);
    case GroupChanged =>
      if !Closed(e.to, e.msg) {
        ForwardCost(g, e, e.msg, reach);
      }
  }

  lemma RemovedTotal(n: nat, es: seq<Envelope>, i: nat, sent: seq<Envelope>)
    requires i < |es|
    ensures Total(n, Removed(es, i) + sent) == Total(n, es) - Cost(n, es[i].msg) + Total(n, sent)
  {
    assert es == es[..i] + [es[i]] + es[i + 1..];
    TotalConcat(n, es[..i] + [es[i]], es[i + 1..]);
    TotalConcat(n, es[..i], [es[i]]);
    TotalConcat(n, es[..i], es[i + 1..]);
    TotalConcat(n, Removed(es, i), sent);
    TotalOne(n, es[i]);
  }

  lemma DeliverCost(g: seq<Addr>, s: Net, i: nat, reach: Addr -> bool)
    requires AllSound(g, s.flight) && Possible(g, s, Delivery(i))
    ensures var s' := Deliver(g, s, i, reach);
      AllSound(g, s'.flight) && Total(|g|, s'.flight) < Total(|g|, s.flight) && s'.primary.Keys == s.primary.Keys
  {
    var e := s.flight[i];
    var sent := Handle(g, e.to, s.primary[e.to], e.msg, reach).sent;
    HandleCost(g, s.primary[e.to], e, reach);
    RemovedTotal(|g|, s.flight, i, sent);
    RemovedSound(g, s.flight, i, sent);
  }

  lemma RemovedSound(g: seq<Addr>, es: seq<Envelope>, i: nat, sent: seq<Envelope>)
    requires i < |es| && AllSound(g, es) && AllSound(g, sent)
    ensures AllSound(g, Removed(es, i) + sent)
  {
  }

  // Deliveries one after the other, each with its own reachability.
  ghost predicate Delivers(g: seq<Addr>, s: Net, steps: seq<(nat, Addr -> bool)>)
    decreases |steps|
  {
    steps != [] ==>
      Possible(g, s, Delivery(steps[0].0)) && Delivers(g, Deliver(g, s, steps[0].0, steps[0].1), steps[1..])
  }

  // Without heartbeats every run of deliveries ends, and how soon is known from the
  // messages that are in flight.
  lemma {:induction false} MessagesEnd(g: seq<Addr>, s: Net, steps: seq<(nat, Addr -> bool)>)
    requires AllSound(g, s.flight) && Delivers(g, s, steps)
    ensures |steps| <= Total(|g|, s.flight)
    decreases |steps|
  {
    if steps != [] {
      DeliverCost(g, s, steps[0].0, steps[0].1);
      MessagesEnd(g, Deliver(g, s, steps[0].0, steps[0].1), steps[1..]);
    }
  }

  // A heartbeat puts at most one sound message in flight.
  lemma BeatCost(g: seq<Addr>, s: Net, a: Addr, reach: Addr -> bool)
    requires AllSound(g, s.flight) && Possible(g, s, HeartBeat(a))
    ensures AllSound(g, Beat(g, s, a, reach).flight)
    ensures |Beat(g, s, a, reach).flight| <= |s.flight| + 1
  {
    BeginCost(g, NextHop(g, a, reach), a, Begin(AskTracker, a));
    ElectCost(g, a, s.primary[a], reach);
  }
}
