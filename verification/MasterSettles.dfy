// What one question comes to, whatever the masters believe when it is asked: the answer, if
// the others agree, and an election, if they do not.
module MasterSettles {
  import opened Common
  import opened RingOrder
  import opened MasterRing
  import opened MasterRuns
  import opened MasterAgreement
  import opened MasterNews

  type Beliefs = map<Addr, Option<Addr>>

  // All others that believe anything believe `p`.
  ghost predicate Agreed(live: set<Addr>, a: Addr, k: Beliefs, p: Addr)
    requires k.Keys == live
  {
    && (forall x :: x in live && x != a ==> k[x] == None || k[x] == Some(p))
    && exists x :: x in live && x != a && k[x] == Some(p)
  }

  ghost predicate Contested(live: set<Addr>, a: Addr, k: Beliefs)
    requires k.Keys == live
  {
    forall p :: !Agreed(live, a, k, p)
  }

  // What is to come out: `a` believes what the others agree on, or all believe the leader.
  ghost predicate Outcome(g: seq<Addr>, live: set<Addr>, a: Addr, k: Beliefs, k': Beliefs)
    requires k.Keys == live
  {
    && (forall p :: Agreed(live, a, k, p) ==> k' == k[a := Some(p)])
    && (Contested(live, a, k) ==> exists l :: IsLeader(g, live, l) && AllBelieve(live, l, k'))
  }

  ghost predicate AllBelieve(live: set<Addr>, l: Addr, k: Beliefs) {
    forall x :: x in live ==> x in k && k[x] == Some(l)
  }

  // Joins and announced changes do not matter here.
  ghost predicate Noise(g: seq<Addr>, live: set<Addr>, e: Envelope) {
    e.to in live && (e.msg.kind.JoinGroup? || (e.msg.kind.GroupChanged? && Routed(g, live, e)))
  }

  ghost predicate AllNoise(g: seq<Addr>, live: set<Addr>, es: seq<Envelope>) {
    forall j :: 0 <= j < |es| ==> Noise(g, live, es[j])
  }

  // Message `i` is the only one that matters.
  ghost predicate Alone(g: seq<Addr>, live: set<Addr>, es: seq<Envelope>, i: nat) {
    i < |es| && forall j :: 0 <= j < |es| && j != i ==> Noise(g, live, es[j])
  }

  lemma OneNoise(g: seq<Addr>, live: set<Addr>, f: Envelope)
    requires Noise(g, live, f)
    ensures AllNoise(g, live, [f]) && AllNoise(g, live, [])
  {
  }

  lemma JoinHandledQuietly(g: seq<Addr>, live: set<Addr>, k: Option<Addr>, e: Envelope)
    requires Setting(g, live) && Others(live) && e.to in live && e.msg.kind.JoinGroup?
    ensures AllNoise(g, live, Changed(g, e.to, k, Among(live)))
  {
    var f := RoutedNew(g, live, e.to, Begin(GroupChanged, e.to));
    OneNoise(g, live, f);
  }

  lemma ChangeHandledQuietly(g: seq<Addr>, live: set<Addr>, e: Envelope)
    requires Setting(g, live) && Others(live) && e.msg.kind.GroupChanged? && Routed(g, live, e) && !Closed(e.to, e.msg)
    ensures AllNoise(g, live, Forward(g, e.to, Among(live), e.msg))
  {
    var f := RoutedOn(g, live, e, e.msg);
    OneNoise(g, live, f);
  }

  lemma NoiseHandled(g: seq<Addr>, live: set<Addr>, k: Option<Addr>, e: Envelope)
    requires Setting(g, live) && Others(live) && Noise(g, live, e)
    ensures var r := Handle(g, e.to, k, e.msg, Among(live)); r.primary == k && AllNoise(g, live, r.sent)
  {
    match e.msg.kind {
      case JoinGroup => JoinHandledQuietly(g, live, k, e);
      case GroupChanged =>
        if !Closed(e.to, e.msg) {
          ChangeHandledQuietly(g, live, e);
        }
    }
  }

  lemma JoinNoise(g: seq<Addr>, live: set<Addr>, a: Addr, p: Option<Addr>)
    ensures AllNoise(g, live, Join(g, a, p, Among(live)))
  {
  }

  lemma TokenGone(g: seq<Addr>, live: set<Addr>, es: seq<Envelope>, i: nat, sent: seq<Envelope>)
    requires Alone(g, live, es, i) && AllNoise(g, live, sent)
    ensures AllNoise(g, live, Removed(es, i) + sent)
  {
  }

  lemma TokenNext(g: seq<Addr>, live: set<Addr>, es: seq<Envelope>, i: nat, noise: seq<Envelope>, f: Envelope)
    requires Alone(g, live, es, i) && AllNoise(g, live, noise)
    ensures var es', j := Removed(es, i) + (noise + [f]), |es| - 1 + |noise|;
      Alone(g, live, es', j) && es'[j] == f
  {
  }

  lemma TokenStays(g: seq<Addr>, live: set<Addr>, es: seq<Envelope>, i: nat, j: nat, sent: seq<Envelope>)
    requires Alone(g, live, es, i) && AllNoise(g, live, sent) && j < |es| && i != j
    ensures var es', i' := Removed(es, j) + sent, if j < i then i - 1 else i;
      Alone(g, live, es', i') && es'[i'] == es[i]
  {
  }

  lemma NoiseStays(g: seq<Addr>, live: set<Addr>, es: seq<Envelope>, j: nat, sent: seq<Envelope>)
    requires AllNoise(g, live, es) && AllNoise(g, live, sent) && j < |es|
    ensures AllNoise(g, live, Removed(es, j) + sent)
  {
  }

  // What the masters on the trail believe, the one that asks left out.
  ghost predicate Heard(k: Beliefs, t: seq<Addr>, result: Option<Addr>) {
    && (forall i :: 0 < i < |t| ==> t[i] in k && (k[t[i]] == None || k[t[i]] == result))
    && (result.Some? ==> exists i :: 0 < i < |t| && t[i] in k && k[t[i]] == result)
  }

  ghost predicate Asking(g: seq<Addr>, live: set<Addr>, a: Addr, k: Beliefs, k': Beliefs, e: Envelope) {
    && k' == k && e.msg.kind.AskTracker? && Routed(g, live, e) && e.msg.origin == a
    && Heard(k, e.msg.trail, e.msg.result)
  }

  ghost predicate Electing(g: seq<Addr>, live: set<Addr>, e: Envelope) { e.msg.kind.Election? && Routed(g, live, e) }

  // An announcement of the leader, whom all believe that it has passed, its origin excepted.
  ghost predicate Telling(g: seq<Addr>, live: set<Addr>, l: Addr, k': Beliefs, e: Envelope) {
    && e.msg.kind.Coordinator? && Routed(g, live, e) && e.msg.result == Some(l) && IsLeader(g, live, l)
    && forall i :: 0 < i < |e.msg.trail| ==> e.msg.trail[i] in k' && k'[e.msg.trail[i]] == Some(l)
  }

  ghost predicate Token(g: seq<Addr>, live: set<Addr>, a: Addr, k: Beliefs, k': Beliefs, e: Envelope)
    requires k.Keys == live
  {
    || Asking(g, live, a, k, k', e)
    || (Contested(live, a, k) && (Electing(g, live, e) || exists l :: Telling(g, live, l, k', e)))
  }

  ghost predicate Settling(g: seq<Addr>, live: set<Addr>, a: Addr, k: Beliefs, s: Net) {
    && k.Keys == live && s.primary.Keys == live
    && ((exists i: nat :: Alone(g, live, s.flight, i) && Token(g, live, a, k, s.primary, s.flight[i]))
        || (AllNoise(g, live, s.flight) && Outcome(g, live, a, k, s.primary)))
  }

  // The question

  lemma AllAgreed(live: set<Addr>, a: Addr, k: Beliefs, t: seq<Addr>, p: Addr)
    requires k.Keys == live && Distinct(t) && t != [] && t[0] == a && Heard(k, t, Some(p))
    requires forall x :: x in live <==> x in t
    ensures Agreed(live, a, k, p)
  {
    var i :| 0 < i < |t| && t[i] in k && k[t[i]] == Some(p);
    assert t[i] in live && t[i] != a;
    forall x | x in live && x != a ensures k[x] == None || k[x] == Some(p) {
      var j :| 0 <= j < |t| && t[j] == x;
    }
  }

  lemma NoneKnows(live: set<Addr>, a: Addr, k: Beliefs, t: seq<Addr>)
    requires k.Keys == live && t != [] && t[0] == a && Heard(k, t, None) && forall x :: x in live <==> x in t
    ensures Contested(live, a, k)
  {
    forall x | x in live && x != a ensures k[x] == None {
      var j :| 0 <= j < |t| && t[j] == x;
    }
  }

  lemma Differ(live: set<Addr>, a: Addr, k: Beliefs, t: seq<Addr>, p: Addr, x: Addr)
    requires k.Keys == live && Distinct(t) && t != [] && t[0] == a && Heard(k, t, Some(p))
    requires x in live && x != a && k[x].Some? && k[x] != Some(p)
    ensures Contested(live, a, k)
  {
    var i :| 0 < i < |t| && t[i] in k && k[t[i]] == Some(p);
    assert t[i] in live && t[i] != a;
  }

  lemma HeardMore(k: Beliefs, t: seq<Addr>, result: Option<Addr>, x: Addr)
    requires t != [] && Heard(k, t, result) && x in k && (k[x] == None || result == None || k[x] == result)
    ensures Heard(k, t + [x], if result.None? then k[x] else result)
  {
    var t', result' := t + [x], if result.None? then k[x] else result;
    if result'.Some? {
      if result.Some? {
        var i :| 0 < i < |t| && t[i] in k && k[t[i]] == result;
        assert t'[i] == t[i];
      } else {
        assert t'[|t|] == x;
      }
    }
    forall i | 0 < i < |t'| ensures t'[i] in k && (k[t'[i]] == None || k[t'[i]] == result') {
      if i < |t| {
        assert t'[i] == t[i];
      }
    }
  }

  // The election starts, and the announcement.
  lemma ElectStarts(g: seq<Addr>, live: set<Addr>, a: Addr, p: Option<Addr>) returns (f: Envelope)
    requires Setting(g, live) && Others(live) && a in live
    ensures Elect(g, a, p, Among(live)) == Reaction(p, [f]) && Electing(g, live, f)
  {
    f := RoutedNew(g, live, a, Begin(Election, a));
  }

  // What a master does with the question: it is answered, or becomes an election, or goes on.

  lemma AskingBack(g: seq<Addr>, live: set<Addr>, a: Addr, k: Beliefs, e: Envelope)
    requires Setting(g, live) && Others(live) && k.Keys == live && Asking(g, live, a, k, k, e) && Closed(e.to, e.msg)
    ensures e.to == a
    ensures if e.msg.result.None? then Contested(live, a, k)
            else Agreed(live, a, k, e.msg.result.value) && Outcome(g, live, a, k, k[a := e.msg.result])
  {
    AroundSeesAll(g, live, e);
    ClosesAtOrigin(g, live, e);
    if e.msg.result.None? {
      NoneKnows(live, a, k, e.msg.trail);
    } else {
      AllAgreed(live, a, k, e.msg.trail, e.msg.result.value);
      AgreedOutcome(g, live, a, k, e.msg.result.value);
    }
  }

  lemma AgreedOutcome(g: seq<Addr>, live: set<Addr>, a: Addr, k: Beliefs, p: Addr)
    requires k.Keys == live && Agreed(live, a, k, p)
    ensures Outcome(g, live, a, k, k[a := Some(p)])
  {
  }

  // The answer may become known on the way.
  ghost function Answered(k: Beliefs, e: Envelope): Message
    requires e.to in k
  {
    if e.msg.result.None? then e.msg.(result := k[e.to]) else e.msg
  }

  lemma AskingFurther(g: seq<Addr>, live: set<Addr>, a: Addr, k: Beliefs, e: Envelope) returns (f: Envelope)
    requires Setting(g, live) && Others(live) && k.Keys == live && Asking(g, live, a, k, k, e) && !Closed(e.to, e.msg)
    requires e.msg.result.None? || k[e.to].None? || k[e.to] == e.msg.result
    ensures Forward(g, e.to, Among(live), Answered(k, e)) == [f] && Asking(g, live, a, k, k, f)
  {
    f := RoutedOn(g, live, e, Answered(k, e));
    HeardMore(k, e.msg.trail, e.msg.result, e.to);
  }

  ghost predicate Proceeds(g: seq<Addr>, live: set<Addr>, a: Addr, k: Beliefs, k': Beliefs, sent: seq<Envelope>)
    requires k.Keys == live
  {
    || (AllNoise(g, live, sent) && Outcome(g, live, a, k, k'))
    || exists noise, f :: sent == noise + [f] && AllNoise(g, live, noise) && Token(g, live, a, k, k', f)
  }

  lemma OneProceeds(g: seq<Addr>, live: set<Addr>, a: Addr, k: Beliefs, k': Beliefs, f: Envelope)
    requires k.Keys == live && Token(g, live, a, k, k', f)
    ensures Proceeds(g, live, a, k, k', [f])
  {
    var none: seq<Envelope> := [];
    assert [f] == none + [f] && AllNoise(g, live, none);
  }

  lemma AskingOn(g: seq<Addr>, live: set<Addr>, a: Addr, k: Beliefs, e: Envelope)
    requires Setting(g, live) && Others(live) && k.Keys == live && Asking(g, live, a, k, k, e) && a in live
    ensures var r := Handle(g, e.to, k[e.to], e.msg, Among(live));
      Proceeds(g, live, a, k, k[e.to := r.primary], r.sent)
  {
    var x, m := e.to, e.msg;
    var r := Handle(g, x, k[x], m, Among(live));
    if Closed(x, m) {
      AskingBack(g, live, a, k, e);
      if m.result.None? {
        var f := ElectStarts(g, live, x, k[x]);
        assert r == Reaction(k[x], [f]) && k[x := k[x]] == k;
        OneProceeds(g, live, a, k, k, f);
      } else {
        JoinNoise(g, live, a, m.result);
        assert r == Reaction(m.result, Join(g, a, m.result, Among(live)));
      }
    } else if m.result.Some? && k[x].Some? && k[x] != m.result {
      Differ(live, a, k, m.trail, m.result.value, x);
      var f := ElectStarts(g, live, x, k[x]);
      assert r == Reaction(k[x], [f]) && k[x := k[x]] == k;
      OneProceeds(g, live, a, k, k, f);
    } else {
      var f := AskingFurther(g, live, a, k, e);
      assert r == Reaction(k[x], [f]) && k[x := k[x]] == k;
      OneProceeds(g, live, a, k, k, f);
    }
  }

  lemma ElectingOn(g: seq<Addr>, live: set<Addr>, a: Addr, k: Beliefs, p: Beliefs, e: Envelope)
    requires Setting(g, live) && Others(live) && k.Keys == p.Keys == live && Contested(live, a, k)
      && Electing(g, live, e)
    ensures var r := Handle(g, e.to, p[e.to], e.msg, Among(live));
      Proceeds(g, live, a, k, p[e.to := r.primary], r.sent)
  {
    var r := Handle(g, e.to, p[e.to], e.msg, Among(live));
    var k' := p[e.to := r.primary];
    if Closed(e.to, e.msg) {
      AroundSeesAll(g, live, e);
      var passed := e.msg.trail + [e.to];
      WinnerLeads(g, live, passed);
      assert e.to in g && e.to in passed;
      var l := Winner(g, passed).value;
      var f := RoutedNew(g, live, e.to, Begin(Coordinator, e.to).(result := Some(l)));
      assert Telling(g, live, l, k', f);
      assert r.sent == [f];
      OneProceeds(g, live, a, k, k', f);
    } else {
      var f := RoutedOn(g, live, e, e.msg);
      assert r.sent == [f];
      OneProceeds(g, live, a, k, k', f);
    }
  }

  lemma TellingBack(g: seq<Addr>, live: set<Addr>, l: Addr, p: Beliefs, e: Envelope)
    requires Setting(g, live) && p.Keys == live && Telling(g, live, l, p, e) && Closed(e.to, e.msg)
    ensures AllBelieve(live, l, p[e.to := Some(l)])
  {
    AroundSeesAll(g, live, e);
    ClosesAtOrigin(g, live, e);
    forall x | x in live ensures p[e.to := Some(l)][x] == Some(l) {
      var j :| 0 <= j < |e.msg.trail| && e.msg.trail[j] == x;
    }
  }

  lemma TellingFurther(g: seq<Addr>, live: set<Addr>, l: Addr, p: Beliefs, e: Envelope) returns (f: Envelope)
    requires Setting(g, live) && Others(live) && p.Keys == live && Telling(g, live, l, p, e) && !Closed(e.to, e.msg)
    ensures Forward(g, e.to, Among(live), e.msg) == [f] && Telling(g, live, l, p[e.to := Some(l)], f)
  {
    f := RoutedOn(g, live, e, e.msg);
  }

  lemma TellingOn(g: seq<Addr>, live: set<Addr>, a: Addr, k: Beliefs, p: Beliefs, l: Addr, e: Envelope)
    requires Setting(g, live) && Others(live) && k.Keys == p.Keys == live && Contested(live, a, k)
      && Telling(g, live, l, p, e)
    ensures var r := Handle(g, e.to, p[e.to], e.msg, Among(live));
      Proceeds(g, live, a, k, p[e.to := r.primary], r.sent)
  {
    var r := Handle(g, e.to, p[e.to], e.msg, Among(live));
    var k' := p[e.to := Some(l)];
    if Closed(e.to, e.msg) {
      TellingBack(g, live, l, p, e);
      assert r == Reaction(Some(l), []) && AllNoise(g, live, []);
    } else {
      var join := Join(g, e.to, e.msg.result, Among(live));
      JoinNoise(g, live, e.to, e.msg.result);
      var f := TellingFurther(g, live, l, p, e);
      assert r == Reaction(Some(l), join + [f]) && Token(g, live, a, k, k', f);
    }
  }

  lemma TokenOn(g: seq<Addr>, live: set<Addr>, a: Addr, k: Beliefs, s: Net, i: nat)
    requires Setting(g, live) && Others(live) && a in live && k.Keys == s.primary.Keys == live
    requires Alone(g, live, s.flight, i) && Token(g, live, a, k, s.primary, s.flight[i])
      && Possible(g, s, Delivery(i))
    ensures Settling(g, live, a, k, Deliver(g, s, i, Among(live)))
  {
    var e := s.flight[i];
    var r := Handle(g, e.to, s.primary[e.to], e.msg, Among(live));
    var s' := Deliver(g, s, i, Among(live));
    if Asking(g, live, a, k, s.primary, e) {
      AskingOn(g, live, a, k, e);
    } else if Electing(g, live, e) {
      ElectingOn(g, live, a, k, s.primary, e);
    } else {
      var l :| Telling(g, live, l, s.primary, e);
      TellingOn(g, live, a, k, s.primary, l, e);
    }
    if AllNoise(g, live, r.sent) && Outcome(g, live, a, k, s'.primary) {
      TokenGone(g, live, s.flight, i, r.sent);
    } else {
      var noise, f :| r.sent == noise + [f] && AllNoise(g, live, noise) && Token(g, live, a, k, s'.primary, f);
      TokenNext(g, live, s.flight, i, noise, f);
    }
  }

  lemma DeliverySettling(g: seq<Addr>, live: set<Addr>, a: Addr, k: Beliefs, s: Net, j: nat)
    requires Setting(g, live) && Others(live) && a in live && Settling(g, live, a, k, s) && Possible(g, s, Delivery(j))
    ensures Settling(g, live, a, k, Deliver(g, s, j, Among(live)))
  {
    var e := s.flight[j];
    var r := Handle(g, e.to, s.primary[e.to], e.msg, Among(live));
    if i: nat :| Alone(g, live, s.flight, i) && Token(g, live, a, k, s.primary, s.flight[i]) {
      if i == j {
        TokenOn(g, live, a, k, s, i);
      } else {
        NoiseHandled(g, live, s.primary[e.to], e);
        TokenStays(g, live, s.flight, i, j, r.sent);
        assert Deliver(g, s, j, Among(live)).primary == s.primary;
      }
    } else {
      NoiseHandled(g, live, s.primary[e.to], e);
      NoiseStays(g, live, s.flight, j, r.sent);
      assert Deliver(g, s, j, Among(live)).primary == s.primary;
    }
  }

  ghost predicate OnlyDeliveries(steps: seq<Step>) { forall step :: step in steps ==> step.Delivery? }

  lemma {:induction false} RunSettling(g: seq<Addr>, live: set<Addr>, a: Addr, k: Beliefs, s: Net, steps: seq<Step>,
      s': Net)
    requires Setting(g, live) && Others(live) && a in live && Settling(g, live, a, k, s)
    requires Reaches(g, live, s, steps, s') && OnlyDeliveries(steps)
    ensures Settling(g, live, a, k, s')
    decreases |steps|
  {
    if steps != [] {
      assert steps[0] in steps;
      DeliverySettling(g, live, a, k, s, steps[0].i);
      RunSettling(g, live, a, k, Take(g, live, s, steps[0]), steps[1..], s');
    }
  }

  // From rest, with any beliefs of any masters: `a`, which has none, asks, and everything that
  // follows is delivered in any order. At the end `a` believes what the others agree on, and
  // nobody else has changed; or, if none of them believes anything or two of them differ, all
  // live masters believe the last one of the group.
  lemma QuestionSettles(g: seq<Addr>, live: set<Addr>, a: Addr, s: Net, steps: seq<Step>, s': Net)
    requires Setting(g, live) && Others(live) && a in live && s.primary.Keys == live && s.primary[a] == None
    requires s.flight == [] && s'.flight == [] && OnlyDeliveries(steps)
    requires Reaches(g, live, Take(g, live, s, HeartBeat(a)), steps, s')
    ensures Outcome(g, live, a, s.primary, s'.primary)
  {
    var f := RoutedNew(g, live, a, Begin(AskTracker, a));
    var s1 := Take(g, live, s, HeartBeat(a));
    assert s1.flight == [f] && s1.primary == s.primary;
    assert Asking(g, live, a, s.primary, s1.primary, f) && Alone(g, live, s1.flight, 0);
    RunSettling(g, live, a, s.primary, s1, steps, s');
  }
}
