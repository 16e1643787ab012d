// How a master that does not know the primary master learns of it, and how the others learn
// of the new member.
module MasterNews {
  import opened Common
  import opened RingOrder
  import opened MasterRing
  import opened MasterRuns
  import opened MasterAgreement

  // The messages that reach their masters in a run, one after the other.
  ghost function Delivered(g: seq<Addr>, live: set<Addr>, s: Net, steps: seq<Step>): seq<Envelope>
    decreases |steps|
  {
    if steps == [] || !Possible(g, s, steps[0]) then []
    else
      var rest := Delivered(g, live, Take(g, live, s, steps[0]), steps[1..]);
      if steps[0].Delivery? then [s.flight[steps[0].i]] + rest else rest
  }

  // Master `x` is told that the group of `p` has changed.
  ghost predicate Told(ds: seq<Envelope>, p: Addr, x: Addr) {
    exists d :: d in ds && d.to == x && d.msg.kind.GroupChanged? && d.msg.origin == p
  }

  lemma ToldOn(g: seq<Addr>, live: set<Addr>, s: Net, steps: seq<Step>, p: Addr, x: Addr)
    requires steps != [] && Possible(g, s, steps[0])
    ensures Told(Delivered(g, live, Take(g, live, s, steps[0]), steps[1..]), p, x) ==>
      Told(Delivered(g, live, s, steps), p, x)
    ensures steps[0].Delivery? ==>
      var d := s.flight[steps[0].i];
      d.to == x && d.msg.kind.GroupChanged? && d.msg.origin == p ==> Told(Delivered(g, live, s, steps), p, x)
  {
    var ds, rest := Delivered(g, live, s, steps), Delivered(g, live, Take(g, live, s, steps[0]), steps[1..]);
    if Told(rest, p, x) {
      var e :| e in rest && e.to == x && e.msg.kind.GroupChanged? && e.msg.origin == p;
      assert e in ds;
    }
    if steps[0].Delivery? {
      assert s.flight[steps[0].i] in ds;
    }
  }

  // What a step leaves in flight, and what it puts there.
  lemma StillThere(g: seq<Addr>, live: set<Addr>, s: Net, step: Step, e: Envelope)
    requires Possible(g, s, step) && !step.Loss? && e in s.flight
    ensures e in Take(g, live, s, step).flight || (step.Delivery? && s.flight[step.i] == e)
  {
    if step.Delivery? {
      var d := s.flight[step.i];
      InFlight(s.flight, step.i, Handle(g, d.to, s.primary[d.to], d.msg, Among(live)).sent, e);
    }
  }

  lemma NewThere(g: seq<Addr>, live: set<Addr>, s: Net, i: nat, f: Envelope)
    requires Possible(g, s, Delivery(i))
    requires f in Handle(g, s.flight[i].to, s.primary[s.flight[i].to], s.flight[i].msg, Among(live)).sent
    ensures f in Take(g, live, s, Delivery(i)).flight
  {
    var d := s.flight[i];
    InFlight(s.flight, i, Handle(g, d.to, s.primary[d.to], d.msg, Among(live)).sent, f);
  }

  // Where a message in flight comes from.
  lemma FromStep(g: seq<Addr>, live: set<Addr>, s: Net, step: Step, f: Envelope)
    requires Possible(g, s, step) && f in Take(g, live, s, step).flight
    ensures f in s.flight
      || (step.HeartBeat? && f in Ask(g, step.a, s.primary[step.a], Among(live)).sent)
      || (step.Delivery? && var d := s.flight[step.i];
            f in Handle(g, d.to, s.primary[d.to], d.msg, Among(live)).sent)
  {
    match step
    case Delivery(i) =>
      var d := s.flight[i];
      InFlight(s.flight, i, Handle(g, d.to, s.primary[d.to], d.msg, Among(live)).sent, f);
    case HeartBeat(a) =>
    case Loss(i) =>
      InFlight(s.flight, i, [], f);
      assert Removed(s.flight, i) + [] == Removed(s.flight, i);
  }

  ghost predicate Routed(g: seq<Addr>, live: set<Addr>, e: Envelope) {
    e.to in live && OnWay(g, live, e) && Sound(g, e)
  }

  lemma RoutedOn(g: seq<Addr>, live: set<Addr>, e: Envelope, m: Message) returns (f: Envelope)
    requires Setting(g, live) && Others(live) && Routed(g, live, e) && !Closed(e.to, e.msg)
      && m == e.msg.(result := m.result)
    ensures Forward(g, e.to, Among(live), m) == [f] && Routed(g, live, f) && f.msg == Sent(e.to, m)
  {
    NextThere(g, live, e.to);
    f := Forward(g, e.to, Among(live), m)[0];
    ForwardCost(g, e, m, Among(live));
    SentOnWay(g, live, e, m, f);
  }

  lemma RoutedNew(g: seq<Addr>, live: set<Addr>, a: Addr, m: Message) returns (f: Envelope)
    requires Setting(g, live) && Others(live) && a in live && m.origin == a && m.trail == []
    ensures Forward(g, a, Among(live), m) == [f] && Routed(g, live, f) && f.msg == Sent(a, m)
  {
    NextThere(g, live, a);
    f := Forward(g, a, Among(live), m)[0];
    BeginCost(g, NextHop(g, a, Among(live)), a, m);
    NewOnWay(g, live, a, m, f);
  }

  // Alone, there is nobody to tell.
  lemma OnlyOne(live: set<Addr>, x: Addr, y: Addr)
    requires !Others(live) && x in live && y in live
    ensures x == y
  {
  }

  // An announcement of a change goes around: in every run in which nothing is lost, when
  // nothing is in flight any more, every live master that it had not passed has got it.
  lemma {:induction false} Circulates(g: seq<Addr>, live: set<Addr>, s: Net, steps: seq<Step>, s': Net, e: Envelope,
      x: Addr)
    requires Setting(g, live) && s.primary.Keys == live && Reaches(g, live, s, steps, s') && NothingLost(steps)
    requires e in s.flight && e.msg.kind.GroupChanged? && Routed(g, live, e) && s'.flight == [] && x in live
    ensures x in e.msg.trail || Told(Delivered(g, live, s, steps), e.msg.origin, x)
    decreases |steps|
  {
    var s1, p := Take(g, live, s, steps[0]), e.msg.origin;
    assert steps[0] in steps;
    StillThere(g, live, s, steps[0], e);
    ToldOn(g, live, s, steps, p, x);
    if e in s1.flight {
      Circulates(g, live, s1, steps[1..], s', e, x);
    } else if Closed(e.to, e.msg) {
      AroundSeesAll(g, live, e);
    } else if Others(live) {
      var f := ChangeOn(g, live, s, steps[0].i, e);
      Circulates(g, live, s1, steps[1..], s', f, x);
    } else {
      OnlyOne(live, x, e.msg.trail[0]);
    }
  }

  lemma ChangeOn(g: seq<Addr>, live: set<Addr>, s: Net, i: nat, e: Envelope) returns (f: Envelope)
    requires Setting(g, live) && Others(live) && Possible(g, s, Delivery(i)) && s.flight[i] == e
    requires e.msg.kind.GroupChanged? && Routed(g, live, e) && !Closed(e.to, e.msg)
    ensures f in Take(g, live, s, Delivery(i)).flight && Routed(g, live, f) && f.msg == Sent(e.to, e.msg)
  {
    f := RoutedOn(g, live, e, e.msg);
    assert Handle(g, e.to, s.primary[e.to], e.msg, Among(live)).sent == [f];
    NewThere(g, live, s, i, f);
  }

  // `p` takes itself for the primary master in every state of the run.
  ghost predicate StaysPrimary(g: seq<Addr>, live: set<Addr>, s: Net, steps: seq<Step>, p: Addr)
    decreases |steps|
  {
    && p in s.primary && s.primary[p] == Some(p)
    && (steps != [] && Possible(g, s, steps[0]) ==>
          StaysPrimary(g, live, Take(g, live, s, steps[0]), steps[1..], p))
  }

  // A master that joins makes the primary master tell all others.
  lemma {:induction false} JoinAnnounced(g: seq<Addr>, live: set<Addr>, s: Net, steps: seq<Step>, s': Net, j: Envelope,
      p: Addr, x: Addr)
    requires Setting(g, live) && s.primary.Keys == live && Reaches(g, live, s, steps, s') && NothingLost(steps)
    requires j in s.flight && j.msg.kind.JoinGroup? && j.to == p && p in live && StaysPrimary(g, live, s, steps, p)
    requires s'.flight == [] && x in live && x != p
    ensures Told(Delivered(g, live, s, steps), p, x)
    decreases |steps|
  {
    var s1 := Take(g, live, s, steps[0]);
    assert steps[0] in steps;
    StillThere(g, live, s, steps[0], j);
    ToldOn(g, live, s, steps, p, x);
    if j in s1.flight {
      JoinAnnounced(g, live, s1, steps[1..], s', j, p, x);
    } else {
      assert Others(live);
      var f := JoinHandled(g, live, s, steps[0].i, p);
      Circulates(g, live, s1, steps[1..], s', f, x);
    }
  }

  lemma JoinHandled(g: seq<Addr>, live: set<Addr>, s: Net, i: nat, p: Addr) returns (f: Envelope)
    requires Setting(g, live) && Others(live) && p in live && Possible(g, s, Delivery(i))
    requires s.flight[i].msg.kind.JoinGroup? && s.flight[i].to == p && s.primary[p] == Some(p)
    ensures f in Take(g, live, s, Delivery(i)).flight && Routed(g, live, f) && f.msg == Sent(p, Begin(GroupChanged, p))
  {
    f := RoutedNew(g, live, p, Begin(GroupChanged, p));
    NewThere(g, live, s, i, f);
  }

  // One live master, `a`, does not know the primary master, and all others know `p`

  ghost predicate News(g: seq<Addr>, live: set<Addr>, a: Addr, p: Addr, e: Envelope) {
    && e.to in live && Sound(g, e)
    && match e.msg.kind
       case AskTracker =>
         OnWay(g, live, e) && e.msg.origin == a && e.msg.result == if |e.msg.trail| == 1 then None else Some(p)
       case JoinGroup => e.to == p != a
       case GroupChanged => OnWay(g, live, e) && e.msg.origin == p
       case Election => false
       case Coordinator => false
  }

  ghost predicate AllNews(g: seq<Addr>, live: set<Addr>, a: Addr, p: Addr, es: seq<Envelope>) {
    forall e :: e in es ==> News(g, live, a, p, e)
  }

  ghost predicate Informed(live: set<Addr>, a: Addr, p: Addr, primary: map<Addr, Option<Addr>>) {
    && primary.Keys == live && (forall x :: x in live && x != a ==> primary[x] == Some(p))
    && (a in live ==> primary[a] == None || primary[a] == Some(p))
  }

  ghost predicate Learning(g: seq<Addr>, live: set<Addr>, a: Addr, p: Addr, s: Net) {
    && Setting(g, live) && Others(live) && a in live && p in live
    && Informed(live, a, p, s.primary) && AllNews(g, live, a, p, s.flight)
  }

  // A question has come back only after it has passed another master.
  lemma NotBackAtOnce(g: seq<Addr>, live: set<Addr>, e: Envelope)
    requires Setting(g, live) && Routed(g, live, e) && e.to == e.msg.origin
    ensures |e.msg.trail| > 1
  {
    NextHopNearest(g, e.msg.origin, Among(live));
    assert Hop(g, live, e.msg.trail[|e.msg.trail| - 1], e.to);
  }

  lemma QuestionBack(g: seq<Addr>, live: set<Addr>, a: Addr, p: Addr, e: Envelope)
    requires Setting(g, live) && a in live && p in live && News(g, live, a, p, e)
      && e.msg.kind.AskTracker? && Closed(e.to, e.msg)
    ensures e.to == a && e.msg.result == Some(p) && AllNews(g, live, a, p, Join(g, a, Some(p), Among(live)))
    ensures p != a ==> Envelope(p, Sent(a, Begin(JoinGroup, a))) in Join(g, a, Some(p), Among(live))
  {
    ClosesAtOrigin(g, live, e);
    NotBackAtOnce(g, live, e);
    JoinCost(g, a, Some(p), Among(live));
  }

  lemma QuestionFurther(g: seq<Addr>, live: set<Addr>, a: Addr, p: Addr, e: Envelope) returns (f: Envelope)
    requires Setting(g, live) && Others(live) && News(g, live, a, p, e)
      && e.msg.kind.AskTracker? && !Closed(e.to, e.msg)
    ensures Forward(g, e.to, Among(live), e.msg.(result := Some(p))) == [f]
      && News(g, live, a, p, f) && f.msg.kind.AskTracker?
  {
    f := RoutedOn(g, live, e, e.msg.(result := Some(p)));
  }

  lemma QuestionNews(g: seq<Addr>, live: set<Addr>, a: Addr, p: Addr, k: Option<Addr>, e: Envelope)
    requires Setting(g, live) && Others(live) && a in live && p in live && News(g, live, a, p, e)
      && e.msg.kind.AskTracker?
    requires if e.to == a then k == None || k == Some(p) else k == Some(p)
    ensures var r := Handle(g, e.to, k, e.msg, Among(live));
      && AllNews(g, live, a, p, r.sent) && r.primary == (if e.to == a then Some(p) else k)
      && if e.to == a then p != a ==> Envelope(p, Sent(a, Begin(JoinGroup, a))) in r.sent
         else exists f :: f in r.sent && f.msg.kind.AskTracker?
  {
    var r := Handle(g, e.to, k, e.msg, Among(live));
    if Closed(e.to, e.msg) {
      QuestionBack(g, live, a, p, e);
      assert r == Reaction(Some(p), Join(g, a, Some(p), Among(live)));
    } else {
      var f := QuestionFurther(g, live, a, p, e);
      assert e.to != a && (e.msg.result == Some(p) ==> e.msg == e.msg.(result := Some(p)));
      assert r == Reaction(k, [f]) && f in r.sent;
    }
  }

  lemma ReactionNews(g: seq<Addr>, live: set<Addr>, a: Addr, p: Addr, k: Option<Addr>, e: Envelope)
    requires Setting(g, live) && Others(live) && a in live && p in live && News(g, live, a, p, e)
      && !e.msg.kind.AskTracker?
    ensures var r := Handle(g, e.to, k, e.msg, Among(live)); AllNews(g, live, a, p, r.sent) && r.primary == k
  {
    match e.msg.kind {
      case JoinGroup => ChangedNews(g, live, a, p, k);
      case GroupChanged =>
        if !Closed(e.to, e.msg) {
          ChangeNews(g, live, a, p, e);
        }
    }
  }

  lemma ChangedNews(g: seq<Addr>, live: set<Addr>, a: Addr, p: Addr, k: Option<Addr>)
    requires Setting(g, live) && Others(live) && p in live
    ensures AllNews(g, live, a, p, Changed(g, p, k, Among(live)))
  {
    var f := RoutedNew(g, live, p, Begin(GroupChanged, p));
    assert News(g, live, a, p, f);
  }

  lemma ChangeNews(g: seq<Addr>, live: set<Addr>, a: Addr, p: Addr, e: Envelope)
    requires Setting(g, live) && Others(live) && News(g, live, a, p, e) && e.msg.kind.GroupChanged?
      && !Closed(e.to, e.msg)
    ensures AllNews(g, live, a, p, Forward(g, e.to, Among(live), e.msg))
  {
    var f := RoutedOn(g, live, e, e.msg);
    assert News(g, live, a, p, f);
  }

  lemma SentNews(g: seq<Addr>, live: set<Addr>, a: Addr, p: Addr, s: Net, i: nat)
    requires Learning(g, live, a, p, s) && Possible(g, s, Delivery(i))
    ensures var e := s.flight[i]; var r := Handle(g, e.to, s.primary[e.to], e.msg, Among(live));
      && AllNews(g, live, a, p, r.sent)
      && r.primary == if e.msg.kind.AskTracker? && e.to == a then Some(p) else s.primary[e.to]
  {
    var e := s.flight[i];
    assert e in s.flight && News(g, live, a, p, e);
    if e.msg.kind.AskTracker? {
      QuestionNews(g, live, a, p, s.primary[e.to], e);
    } else {
      ReactionNews(g, live, a, p, s.primary[e.to], e);
    }
  }

  lemma LearningKept(g: seq<Addr>, live: set<Addr>, a: Addr, p: Addr, s: Net, step: Step)
    requires Learning(g, live, a, p, s) && Possible(g, s, step)
    ensures Learning(g, live, a, p, Take(g, live, s, step))
  {
    var s' := Take(g, live, s, step);
    match step {
      case Delivery(i) => SentNews(g, live, a, p, s, i);
      case HeartBeat(x) => AskNews(g, live, a, p);
      case Loss(i) =>
    }
    forall f | f in s'.flight ensures News(g, live, a, p, f) {
      FromStep(g, live, s, step, f);
    }
  }

  lemma AskNews(g: seq<Addr>, live: set<Addr>, a: Addr, p: Addr)
    requires Setting(g, live) && Others(live) && a in live && p in live
    ensures var r := Ask(g, a, None, Among(live));
      r.primary == None && AllNews(g, live, a, p, r.sent) && exists f :: f in r.sent && f.msg.kind.AskTracker?
  {
    var f := RoutedNew(g, live, a, Begin(AskTracker, a));
    assert Ask(g, a, None, Among(live)).sent == [f] && f in [f];
  }

  // The question is still on its way, or the answer has come.
  ghost predicate Pursued(a: Addr, p: Addr, s: Net) {
    (a in s.primary && s.primary[a] == Some(p)) || exists e :: e in s.flight && e.msg.kind.AskTracker?
  }

  lemma PursuedKept(g: seq<Addr>, live: set<Addr>, a: Addr, p: Addr, s: Net, step: Step)
    requires Learning(g, live, a, p, s) && Possible(g, s, step) && !step.Loss? && (Pursued(a, p, s) || step.HeartBeat?)
    ensures Pursued(a, p, Take(g, live, s, step))
  {
    var s' := Take(g, live, s, step);
    if step.HeartBeat? {
      AskNews(g, live, a, p);
      var f :| f in Ask(g, a, None, Among(live)).sent && f.msg.kind.AskTracker?;
      assert f in s'.flight;
    } else if s.primary[a] == Some(p) {
      SentNews(g, live, a, p, s, step.i);
    } else {
      var e :| e in s.flight && e.msg.kind.AskTracker?;
      StillThere(g, live, s, step, e);
      if e !in s'.flight {
        QuestionNews(g, live, a, p, s.primary[e.to], e);
        if e.to != a {
          var f :| f in Handle(g, e.to, s.primary[e.to], e.msg, Among(live)).sent && f.msg.kind.AskTracker?;
          NewThere(g, live, s, step.i, f);
        }
      }
    }
  }

  // Whatever is delivered, lost or asked again: the others keep what they know, the one
  // learns nothing else, and nobody starts an election or an announcement.
  lemma {:induction false} NoElection(g: seq<Addr>, live: set<Addr>, a: Addr, p: Addr, s: Net, steps: seq<Step>,
      s': Net)
    requires Learning(g, live, a, p, s) && Reaches(g, live, s, steps, s')
    ensures Informed(live, a, p, s'.primary)
    ensures forall e :: e in s'.flight ==> !e.msg.kind.Election? && !e.msg.kind.Coordinator?
    ensures Learning(g, live, a, p, s')
    decreases |steps|
  {
    if steps != [] {
      LearningKept(g, live, a, p, s, steps[0]);
      NoElection(g, live, a, p, Take(g, live, s, steps[0]), steps[1..], s');
    }
  }

  // If nothing is lost, it learns `p`: in every run in which anything happens, when nothing is
  // in flight any more, it knows.
  lemma {:induction false} LearnsPrimary(g: seq<Addr>, live: set<Addr>, a: Addr, p: Addr, s: Net, steps: seq<Step>,
      s': Net)
    requires Learning(g, live, a, p, s) && Reaches(g, live, s, steps, s') && NothingLost(steps) && s'.flight == []
    requires Pursued(a, p, s) || (s.flight == [] && steps != [])
    ensures forall x :: x in live ==> x in s'.primary && s'.primary[x] == Some(p)
    decreases |steps|
  {
    if steps == [] {
    } else {
      assert steps[0] in steps;
      LearningKept(g, live, a, p, s, steps[0]);
      PursuedKept(g, live, a, p, s, steps[0]);
      LearnsPrimary(g, live, a, p, Take(g, live, s, steps[0]), steps[1..], s');
    }
  }

  lemma {:induction false} LearningStays(g: seq<Addr>, live: set<Addr>, a: Addr, p: Addr, s: Net, steps: seq<Step>)
    requires Learning(g, live, a, p, s) && a != p
    ensures StaysPrimary(g, live, s, steps, p)
    decreases |steps|
  {
    if steps != [] && Possible(g, s, steps[0]) {
      LearningKept(g, live, a, p, s, steps[0]);
      LearningStays(g, live, a, p, Take(g, live, s, steps[0]), steps[1..]);
    }
  }

  // The question comes back, its master joins, and everybody is told.
  lemma {:induction false} QuestionAnnounced(g: seq<Addr>, live: set<Addr>, a: Addr, p: Addr, s: Net, steps: seq<Step>,
      s': Net, e: Envelope, x: Addr)
    requires Learning(g, live, a, p, s) && a != p && Reaches(g, live, s, steps, s') && NothingLost(steps)
    requires e in s.flight && e.msg.kind.AskTracker? && s'.flight == [] && x in live && x != p
    ensures Told(Delivered(g, live, s, steps), p, x)
    decreases |steps|
  {
    var s1 := Take(g, live, s, steps[0]);
    assert steps[0] in steps;
    LearningKept(g, live, a, p, s, steps[0]);
    StillThere(g, live, s, steps[0], e);
    ToldOn(g, live, s, steps, p, x);
    if e in s1.flight {
      QuestionAnnounced(g, live, a, p, s1, steps[1..], s', e, x);
    } else {
      QuestionNews(g, live, a, p, s.primary[e.to], e);
      if e.to == a {
        var j := Envelope(p, Sent(a, Begin(JoinGroup, a)));
        NewThere(g, live, s, steps[0].i, j);
        LearningStays(g, live, a, p, s1, steps[1..]);
        JoinAnnounced(g, live, s1, steps[1..], s', j, p, x);
      } else {
        var f :| f in Handle(g, e.to, s.primary[e.to], e.msg, Among(live)).sent && f.msg.kind.AskTracker?;
        NewThere(g, live, s, steps[0].i, f);
        QuestionAnnounced(g, live, a, p, s1, steps[1..], s', f, x);
      }
    }
  }

  // From rest: after the new member has asked, and everything that follows has arrived, every
  // live master other than `p` has been told by `p` that the group has changed.
  lemma NewMemberTold(g: seq<Addr>, live: set<Addr>, a: Addr, p: Addr, s: Net, steps: seq<Step>, s': Net, x: Addr)
    requires Learning(g, live, a, p, s) && a != p && Reaches(g, live, s, steps, s') && NothingLost(steps)
    requires s.flight == [] && steps != [] && s'.flight == [] && x in live && x != p
    ensures Told(Delivered(g, live, s, steps), p, x)
  {
    var s1 := Take(g, live, s, steps[0]);
    assert steps[0] in steps;
    LearningKept(g, live, a, p, s, steps[0]);
    AskNews(g, live, a, p);
    var f :| f in Ask(g, a, None, Among(live)).sent && f.msg.kind.AskTracker?;
    assert f in s1.flight;
    QuestionAnnounced(g, live, a, p, s1, steps[1..], s', f, x);
    ToldOn(g, live, s, steps, p, x);
  }

  // Who joins and who announces in the runs from a start without a primary master

  // A passing announcement, or a question that has come back with an answer, makes a master
  // join the one named, unless that is the master itself.
  lemma JoinsNamed(g: seq<Addr>, live: set<Addr>, k: Option<Addr>, e: Envelope, p: Addr)
    requires Setting(g, live) && e.to in live && p in live && e.msg.result == Some(p)
    requires (e.msg.kind.Coordinator? && !Closed(e.to, e.msg)) || (e.msg.kind.AskTracker? && Closed(e.to, e.msg))
    ensures var r := Handle(g, e.to, k, e.msg, Among(live));
      && r.primary == Some(p)
      && (Envelope(p, Message(JoinGroup, e.to, [e.to], None)) in r.sent <==> e.to != p)
  {
    assert Begin(JoinGroup, e.to).trail + [e.to] == [e.to];
  }

  // A circle that has closed ends: an announcement or a change is not sent on.
  lemma CircleEnds(g: seq<Addr>, self: Addr, k: Option<Addr>, m: Message, reach: Addr -> bool)
    requires self in g && (m.kind.Coordinator? || m.kind.GroupChanged?)
    ensures Handle(g, self, k, m, reach).sent == [] <==>
      || Closed(self, m)
      || (NextHop(g, self, reach).None? && (m.kind.GroupChanged? || Join(g, self, m.result, reach) == []))
  {
  }

  // Joins go from other live masters to the leader, and only a master that knows itself as
  // primary announces a change.
  ghost predicate Proper(g: seq<Addr>, live: set<Addr>, s: Net, e: Envelope) {
    && (e.msg.kind.JoinGroup? ==> IsLeader(g, live, e.to) && e.msg.origin in live && e.msg.origin != e.to)
    && (e.msg.kind.GroupChanged? ==> e.msg.origin in s.primary && s.primary[e.msg.origin] == Some(e.msg.origin))
  }

  ghost predicate AllProper(g: seq<Addr>, live: set<Addr>, s: Net) {
    forall e :: e in s.flight ==> Proper(g, live, s, e)
  }

  ghost predicate ProperFrom(g: seq<Addr>, live: set<Addr>, k: Option<Addr>, e: Envelope, f: Envelope) {
    && (f.msg.kind.JoinGroup? ==> IsLeader(g, live, f.to) && f.msg.origin in live && f.msg.origin != f.to)
    && (f.msg.kind.GroupChanged? ==>
          (e.msg.kind.GroupChanged? && f.msg.origin == e.msg.origin) || (f.msg.origin == e.to && k == Some(e.to)))
  }

  lemma SentProper(g: seq<Addr>, live: set<Addr>, k: Option<Addr>, e: Envelope, f: Envelope)
    requires e.to in live && e.to in g && Known(g, live, e.msg.result)
    requires f in Handle(g, e.to, k, e.msg, Among(live)).sent
    ensures ProperFrom(g, live, k, e, f)
  {
    match e.msg.kind {
      case Election =>
      case Coordinator => AnnouncementProper(g, live, k, e, f);
      case AskTracker => JoinProper(g, live, e.to, e.msg.result);
      case JoinGroup =>
      case GroupChanged =>
    }
  }

  lemma AnnouncementProper(g: seq<Addr>, live: set<Addr>, k: Option<Addr>, e: Envelope, f: Envelope)
    requires e.to in live && e.to in g && Known(g, live, e.msg.result) && e.msg.kind.Coordinator?
    requires f in Handle(g, e.to, k, e.msg, Among(live)).sent
    ensures ProperFrom(g, live, k, e, f)
  {
    var join, forward := Join(g, e.to, e.msg.result, Among(live)), Forward(g, e.to, Among(live), e.msg);
    JoinProper(g, live, e.to, e.msg.result);
    assert f in join || f in forward;
  }

  lemma JoinProper(g: seq<Addr>, live: set<Addr>, self: Addr, p: Option<Addr>)
    requires self in live && Known(g, live, p)
    ensures forall f :: f in Join(g, self, p, Among(live)) ==>
      f.msg.kind.JoinGroup? && IsLeader(g, live, f.to) && f.msg.origin == self != f.to
  {
  }

  lemma PrimaryStays(g: seq<Addr>, live: set<Addr>, s: Net, step: Step, p: Addr)
    requires Setting(g, live) && Safe(g, live, s) && Possible(g, s, step) && p in s.primary && s.primary[p] == Some(p)
    ensures var s' := Take(g, live, s, step); p in s'.primary && s'.primary[p] == Some(p)
  {
    TakeSafe(g, live, s, step);
    var s' := Take(g, live, s, step);
    if step.Delivery? {
      var e := s.flight[step.i];
      assert e in s.flight;
      PrimaryKept(g, live, s.primary[e.to], e);
      if e.to == p {
        LeaderUnique(g, live, p, s'.primary[p].value);
      }
    }
  }

  lemma ProperKept(g: seq<Addr>, live: set<Addr>, s: Net, step: Step)
    requires Setting(g, live) && Safe(g, live, s) && AllProper(g, live, s) && Possible(g, s, step)
    ensures AllProper(g, live, Take(g, live, s, step))
  {
    var s' := Take(g, live, s, step);
    forall f | f in s'.flight ensures Proper(g, live, s', f) {
      FromStep(g, live, s, step, f);
      if f !in s.flight && step.Delivery? {
        var e := s.flight[step.i];
        assert e in s.flight && Fine(g, live, e) && Proper(g, live, s, e);
        SentProper(g, live, s.primary[e.to], e, f);
      }
      if f.msg.kind.GroupChanged? {
        PrimaryStays(g, live, s, step, f.msg.origin);
      }
    }
  }

  lemma {:induction false} RunProper(g: seq<Addr>, live: set<Addr>, s: Net, steps: seq<Step>, s': Net)
    requires Setting(g, live) && Safe(g, live, s) && AllProper(g, live, s) && Reaches(g, live, s, steps, s')
    ensures AllProper(g, live, s')
    decreases |steps|
  {
    if steps != [] {
      TakeSafe(g, live, s, steps[0]);
      ProperKept(g, live, s, steps[0]);
      RunProper(g, live, Take(g, live, s, steps[0]), steps[1..], s');
    }
  }

  lemma OnlyPrimaryAnnounces(g: seq<Addr>, live: set<Addr>, steps: seq<Step>, s: Net)
    requires Setting(g, live) && Reaches(g, live, Start(live), steps, s)
    ensures AllProper(g, live, s)
  {
    RunProper(g, live, Start(live), steps, s);
  }

  // Whatever a master can reach: it sends to reachable masters of the group only, and never
  // to itself.
  lemma SentToReachable(g: seq<Addr>, self: Addr, k: Option<Addr>, m: Message, reach: Addr -> bool)
    requires Distinct(g) && self in g
    ensures forall e :: e in Handle(g, self, k, m, reach).sent ==> Reachable(g, self, reach, e)
  {
    NextReachable(g, self, reach);
    if m.kind.Coordinator? && !Closed(self, m) {
      var join, forward := Join(g, self, m.result, reach), Forward(g, self, reach, m);
      forall e | e in join + forward ensures Reachable(g, self, reach, e) {
        assert e in join || e in forward;
      }
    }
  }

  ghost predicate Reachable(g: seq<Addr>, self: Addr, reach: Addr -> bool, e: Envelope) {
    e.to in g && e.to != self && reach(e.to)
  }

  lemma NextReachable(g: seq<Addr>, self: Addr, reach: Addr -> bool)
    requires Distinct(g) && self in g
    ensures forall m, e :: e in To(NextHop(g, self, reach), self, m) ==> Reachable(g, self, reach, e)
  {
    NextHopNearest(g, self, reach);
  }
}
