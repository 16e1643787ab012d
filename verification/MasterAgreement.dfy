// Once a heartbeat has come and no message is lost, the masters agree: when nothing is in
// flight any more, every live master knows the primary master.
module MasterAgreement {
  import opened Common
  import opened RingOrder
  import opened MasterRing
  import opened MasterRuns

  ghost predicate Knows(s: Net, a: Addr) { a in s.primary && s.primary[a].Some? }

  ghost predicate AllKnow(live: set<Addr>, s: Net) { forall a :: a in live ==> Knows(s, a) }

  // An announcement on its way: whoever it has passed knows, its origin excepted.
  ghost predicate Announces(s: Net, e: Envelope) {
    e.msg.kind.Coordinator? && forall k :: 0 < k < |e.msg.trail| ==> Knows(s, e.msg.trail[k])
  }

  // Nobody knows anything yet, and a question or an election is on its way.
  ghost predicate Unknown(live: set<Addr>, s: Net) {
    && (forall a :: a in live ==> !Knows(s, a))
    && (forall e :: e in s.flight ==> e.msg.result.None?)
  }

  ghost predicate Seeks(e: Envelope) { e.msg.kind.AskTracker? || e.msg.kind.Election? }

  ghost predicate Others(live: set<Addr>) { exists a, b :: a in live && b in live && a != b }

  // What holds after the first heartbeat.
  ghost predicate Underway(live: set<Addr>, s: Net) {
    || AllKnow(live, s)
    || (Others(live)
        && ((exists e :: e in s.flight && Announces(s, e))
            || (Unknown(live, s) && exists e :: e in s.flight && Seeks(e))))
  }

  // What holds before it.
  ghost predicate Quiet(live: set<Addr>, s: Net) { Unknown(live, s) && s.flight == [] }

  ghost predicate Regular(g: seq<Addr>, live: set<Addr>, s: Net) {
    Setting(g, live) && Safe(g, live, s) && AllSound(g, s.flight)
  }

  lemma InFlight(flight: seq<Envelope>, i: nat, sent: seq<Envelope>, e: Envelope)
    requires i < |flight|
    ensures e in flight ==> e == flight[i] || e in Removed(flight, i) + sent
    ensures e in Removed(flight, i) + sent ==> e in flight || e in sent
    ensures e in sent ==> e in Removed(flight, i) + sent
  {
    if e in flight && e != flight[i] {
      var j :| 0 <= j < |flight| && flight[j] == e;
      assert if j < i then flight[..i][j] == e else flight[i + 1..][j - i - 1] == e;
    }
  }

  lemma NextThere(g: seq<Addr>, live: set<Addr>, a: Addr)
    requires Setting(g, live) && Others(live) && a in live
    ensures NextHop(g, a, Among(live)).Some?
  {
    NextHopNearest(g, a, Among(live));
    var b, c :| b in live && c in live && b != c;
    assert if b == a then c in g && c != a else b in g;
  }

  // A master is the next one of one master only.
  lemma OneBefore(g: seq<Addr>, live: set<Addr>, a: Addr, c: Addr, b: Addr)
    requires Setting(g, live) && a in live && c in live && Hop(g, live, a, b) && Hop(g, live, c, b)
    ensures a == c
  {
    NextHopNearest(g, a, Among(live));
    NextHopNearest(g, c, Among(live));
    Opposite(g, IndexOf(g, a), IndexOf(g, b), IndexOf(g, c));
  }

  lemma Opposite(g: seq<Addr>, i: nat, j: nat, k: nat)
    requires i < |g| && j < |g| && k < |g| && i != j && k != j
    ensures i != k ==> Distance(g, i, j) > Distance(g, i, k) || Distance(g, k, j) > Distance(g, k, i)
  {
  }

  // A message closes its circle at the master that started it.
  lemma ClosesAtOrigin(g: seq<Addr>, live: set<Addr>, e: Envelope)
    requires Setting(g, live) && OnWay(g, live, e) && Sound(g, e) && Closed(e.to, e.msg)
    ensures e.to == e.msg.origin
  {
    var t := e.msg.trail;
    if e.to != e.msg.origin {
      var k :| 0 <= k < |t| && t[k] == e.to;
      assert Hop(g, live, t[k - 1], t[k]) && Hop(g, live, t[|t| - 1], e.to);
      OneBefore(g, live, t[k - 1], t[|t| - 1], e.to);
    }
  }

  // What one master does

  // Nobody forgets the primary master, and an announcement is believed.
  lemma PrimaryKept(g: seq<Addr>, live: set<Addr>, p: Option<Addr>, e: Envelope)
    requires e.to in g && Fine(g, live, e)
    ensures p.Some? || e.msg.kind.Coordinator? ==> Handle(g, e.to, p, e.msg, Among(live)).primary.Some?
  {
  }

  // An announcement is sent on, or has come back to where it started.
  lemma AnnouncementHandled(g: seq<Addr>, live: set<Addr>, p: Option<Addr>, e: Envelope)
    requires Setting(g, live) && Others(live) && Fine(g, live, e) && Sound(g, e) && e.msg.kind.Coordinator?
    ensures if Closed(e.to, e.msg) then e.to == e.msg.origin && forall a :: a in live ==> a in e.msg.trail
            else exists f :: f in Handle(g, e.to, p, e.msg, Among(live)).sent && f.msg == Sent(e.to, e.msg)
  {
    if Closed(e.to, e.msg) {
      AroundSeesAll(g, live, e);
      ClosesAtOrigin(g, live, e);
    } else {
      AnnouncementSent(g, live, p, e);
    }
  }

  lemma AnnouncementSent(g: seq<Addr>, live: set<Addr>, p: Option<Addr>, e: Envelope)
    requires Setting(g, live) && Others(live) && e.to in live && e.msg.kind.Coordinator? && !Closed(e.to, e.msg)
    ensures exists f :: f in Handle(g, e.to, p, e.msg, Among(live)).sent && f.msg == Sent(e.to, e.msg)
  {
    NextThere(g, live, e.to);
    var f := Forward(g, e.to, Among(live), e.msg)[0];
    assert f in Handle(g, e.to, p, e.msg, Among(live)).sent && f.msg == Sent(e.to, e.msg);
  }

  // As long as nobody knows the primary master, a master sends nothing that names one,
  // and asks or elects further, or it starts the announcement.
  ghost predicate GoesOn(e: Envelope, r: Reaction) {
    || (exists f :: f in r.sent && f.msg.kind.Coordinator? && |f.msg.trail| == 1)
    || (r.primary.None? && (forall f :: f in r.sent ==> f.msg.result.None?)
      && (Seeks(e) ==> exists f :: f in r.sent && Seeks(f)))
  }

  lemma ElectionHandled(g: seq<Addr>, live: set<Addr>, e: Envelope)
    requires Setting(g, live) && Others(live) && Fine(g, live, e) && e.msg.kind.Election? && e.msg.result.None?
    ensures GoesOn(e, Handle(g, e.to, None, e.msg, Among(live)))
  {
    var r := Handle(g, e.to, None, e.msg, Among(live));
    NextThere(g, live, e.to);
    if Closed(e.to, e.msg) {
      assert e.to in g && e.to in e.msg.trail + [e.to];
      assert r.sent[0] in r.sent && r.sent[0].msg.kind.Coordinator? && |r.sent[0].msg.trail| == 1;
    } else {
      assert r.sent[0] in r.sent && Seeks(r.sent[0]);
    }
  }

  lemma AskHandled(g: seq<Addr>, live: set<Addr>, e: Envelope)
    requires Setting(g, live) && Others(live) && Fine(g, live, e) && e.msg.kind.AskTracker? && e.msg.result.None?
    ensures GoesOn(e, Handle(g, e.to, None, e.msg, Among(live)))
  {
    var r := Handle(g, e.to, None, e.msg, Among(live));
    NextThere(g, live, e.to);
    assert r.sent[0] in r.sent && Seeks(r.sent[0]);
  }

  lemma SeekingHandled(g: seq<Addr>, live: set<Addr>, e: Envelope)
    requires Setting(g, live) && Others(live) && Fine(g, live, e) && e.msg.result.None?
    ensures GoesOn(e, Handle(g, e.to, None, e.msg, Among(live)))
  {
    if e.msg.kind.Election? {
      ElectionHandled(g, live, e);
    } else if e.msg.kind.AskTracker? {
      AskHandled(g, live, e);
    }
  }

  // The network

  // Message `i` is gone, its master has reacted with `r`.
  ghost function Reacted(s: Net, i: nat, r: Reaction): Net
    requires i < |s.flight|
  {
    Net(s.primary[s.flight[i].to := r.primary], Removed(s.flight, i) + r.sent)
  }

  ghost predicate Remembers(s: Net, i: nat, r: Reaction)
    requires i < |s.flight|
  {
    Knows(s, s.flight[i].to) ==> r.primary.Some?
  }

  lemma StillAnnounced(live: set<Addr>, s: Net, i: nat, r: Reaction, e: Envelope)
    requires i < |s.flight| && Remembers(s, i, r) && Others(live) && e in s.flight && Announces(s, e)
      && e != s.flight[i]
    ensures Underway(live, Reacted(s, i, r))
  {
    InFlight(s.flight, i, r.sent, e);
    assert Announces(Reacted(s, i, r), e);
  }

  lemma SentOn(live: set<Addr>, s: Net, i: nat, r: Reaction, f: Envelope)
    requires i < |s.flight| && Remembers(s, i, r) && r.primary.Some? && Others(live) && Announces(s, s.flight[i])
    requires f in r.sent && f.msg == Sent(s.flight[i].to, s.flight[i].msg)
    ensures Underway(live, Reacted(s, i, r))
  {
    InFlight(s.flight, i, r.sent, f);
    assert Announces(Reacted(s, i, r), f);
  }

  lemma ComeBack(live: set<Addr>, s: Net, i: nat, r: Reaction)
    requires i < |s.flight| && Remembers(s, i, r) && r.primary.Some? && Announces(s, s.flight[i])
    requires var e := s.flight[i];
      e.msg.trail != [] && e.msg.trail[0] == e.msg.origin == e.to && forall a :: a in live ==> a in e.msg.trail
    ensures AllKnow(live, Reacted(s, i, r))
  {
    var e, s' := s.flight[i], Reacted(s, i, r);
    forall a | a in live ensures Knows(s', a) {
      var k :| 0 <= k < |e.msg.trail| && e.msg.trail[k] == a;
    }
  }

  lemma StillSeeking(live: set<Addr>, s: Net, i: nat, r: Reaction, e: Envelope)
    requires i < |s.flight| && Others(live) && Unknown(live, s) && e in s.flight && Seeks(e) && GoesOn(s.flight[i], r)
    ensures Underway(live, Reacted(s, i, r))
  {
    var d, s' := s.flight[i], Reacted(s, i, r);
    if f :| f in r.sent && f.msg.kind.Coordinator? && |f.msg.trail| == 1 {
      InFlight(s.flight, i, r.sent, f);
      assert Announces(s', f);
    } else {
      forall f | f in s'.flight ensures f.msg.result.None? {
        InFlight(s.flight, i, r.sent, f);
      }
      assert Unknown(live, s');
      var f :| if e == d then f in r.sent && Seeks(f) else f == e;
      InFlight(s.flight, i, r.sent, f);
      assert f in s'.flight && Seeks(f);
    }
  }

  lemma DeliveryReacted(g: seq<Addr>, live: set<Addr>, s: Net, i: nat, r: Reaction)
    requires Setting(g, live) && i < |s.flight| && Underway(live, s) && s.primary.Keys == live
    requires Fine(g, live, s.flight[i]) && Sound(g, s.flight[i])
    requires r == Handle(g, s.flight[i].to, s.primary[s.flight[i].to], s.flight[i].msg, Among(live))
    ensures Underway(live, Reacted(s, i, r))
  {
    var d := s.flight[i];
    PrimaryKept(g, live, s.primary[d.to], d);
    if AllKnow(live, s) {
      assert AllKnow(live, Reacted(s, i, r));
    } else if e :| e in s.flight && Announces(s, e) {
      if e != d {
        StillAnnounced(live, s, i, r, e);
      } else {
        AnnouncementHandled(g, live, s.primary[d.to], d);
        if Closed(d.to, d.msg) {
          ComeBack(live, s, i, r);
        } else {
          var f :| f in r.sent && f.msg == Sent(d.to, d.msg);
          SentOn(live, s, i, r, f);
        }
      }
    } else {
      var e :| e in s.flight && Seeks(e);
      assert !Knows(s, d.to) && d in s.flight;
      SeekingHandled(g, live, d);
      StillSeeking(live, s, i, r, e);
    }
  }

  lemma DeliveryUnderway(g: seq<Addr>, live: set<Addr>, s: Net, i: nat)
    requires Regular(g, live, s) && Possible(g, s, Delivery(i)) && Underway(live, s)
    ensures Underway(live, Deliver(g, s, i, Among(live)))
  {
    var d := s.flight[i];
    assert d in s.flight && Fine(g, live, d) && Sound(g, d);
    DeliveryReacted(g, live, s, i, Handle(g, d.to, s.primary[d.to], d.msg, Among(live)));
  }

  // Whoever has a next master is not alone.
  lemma NotAlone(g: seq<Addr>, live: set<Addr>, a: Addr)
    requires Setting(g, live) && a in live
    ensures if NextHop(g, a, Among(live)).None? then forall b :: b in live ==> b == a else Others(live)
  {
    NextHopNearest(g, a, Among(live));
    if NextHop(g, a, Among(live)).Some? {
      assert NextHop(g, a, Among(live)).value in live;
    }
  }

  lemma QuestionSent(live: set<Addr>, s: Net, s': Net, e: Envelope)
    requires Others(live) && (Quiet(live, s) || Underway(live, s)) && !AllKnow(live, s)
    requires s' == Net(s.primary, s.flight + [e]) && Seeks(e) && e.msg.result.None?
    ensures Underway(live, s')
  {
    assert e in s'.flight && forall f :: f in s'.flight <==> f in s.flight || f == e;
    if f :| f in s.flight && Announces(s, f) {
      assert Announces(s', f);
    } else {
      assert Unknown(live, s) && Unknown(live, s');
    }
  }

  // The first heartbeat, and any other one.
  lemma BeatUnderway(g: seq<Addr>, live: set<Addr>, s: Net, a: Addr)
    requires Setting(g, live) && s.primary.Keys == live && Possible(g, s, HeartBeat(a))
      && (Quiet(live, s) || Underway(live, s))
    ensures Underway(live, Beat(g, s, a, Among(live)))
  {
    var s' := Beat(g, s, a, Among(live));
    NotAlone(g, live, a);
    if NextHop(g, a, Among(live)).None? {
      assert Knows(s', a);
    } else {
      assert !Knows(s, a) && s'.primary == s.primary;
      QuestionSent(live, s, s', Envelope(NextHop(g, a, Among(live)).value, Sent(a, Begin(AskTracker, a))));
    }
  }

  ghost predicate NothingLost(steps: seq<Step>) { forall step :: step in steps ==> !step.Loss? }

  lemma StepUnderway(g: seq<Addr>, live: set<Addr>, s: Net, step: Step)
    requires Regular(g, live, s) && Possible(g, s, step) && !step.Loss?
    requires Underway(live, s) || Quiet(live, s)
    ensures Regular(g, live, Take(g, live, s, step)) && Underway(live, Take(g, live, s, step))
    ensures Quiet(live, s) ==> step.HeartBeat?
  {
    TakeSafe(g, live, s, step);
    match step {
      case Delivery(i) =>
        DeliverCost(g, s, i, Among(live));
        DeliveryUnderway(g, live, s, i);
      case HeartBeat(a) =>
        BeatCost(g, s, a, Among(live));
        BeatUnderway(g, live, s, a);
    }
  }

  lemma {:induction false} RunUnderway(g: seq<Addr>, live: set<Addr>, s: Net, steps: seq<Step>, s': Net)
    requires Regular(g, live, s) && Reaches(g, live, s, steps, s') && NothingLost(steps)
    requires Underway(live, s) || (Quiet(live, s) && steps != [])
    ensures Underway(live, s')
    decreases |steps|
  {
    if steps != [] {
      assert steps[0] in steps;
      StepUnderway(g, live, s, steps[0]);
      RunUnderway(g, live, Take(g, live, s, steps[0]), steps[1..], s');
    }
  }

  // In every run from a start without a primary master in which anything happens and no
  // message is lost: when nothing is in flight any more, every live master knows the last
  // live master of the group as primary master.
  lemma Agreement(g: seq<Addr>, live: set<Addr>, steps: seq<Step>, s: Net)
    requires Setting(g, live) && Reaches(g, live, Start(live), steps, s)
    requires NothingLost(steps) && steps != [] && s.flight == []
    ensures exists leader :: IsLeader(g, live, leader) && forall a :: a in live ==>
      a in s.primary && s.primary[a] == Some(leader)
  {
    RunUnderway(g, live, Start(live), steps, s);
    assert AllKnow(live, s);
    OnePrimary(g, live, steps, s);
    SameLeader(g, live, s);
  }

  lemma SameLeader(g: seq<Addr>, live: set<Addr>, s: Net)
    requires Setting(g, live) && AllKnow(live, s)
    requires forall a :: a in live && a in s.primary && s.primary[a].Some? ==> IsLeader(g, live, s.primary[a].value)
    ensures exists leader :: IsLeader(g, live, leader) && forall a :: a in live ==>
      a in s.primary && s.primary[a] == Some(leader)
  {
    var a :| a in live;
    assert Knows(s, a);
    var leader := s.primary[a].value;
    forall b | b in live ensures b in s.primary && s.primary[b] == Some(leader) {
      assert Knows(s, b);
      LeaderUnique(g, live, s.primary[b].value, leader);
    }
  }
}
