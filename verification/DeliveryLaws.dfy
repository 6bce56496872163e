/** What every run of the two clients promises beside the exactly-once delivery of QoS 2. */
module DeliveryLaws {
  import opened QosProtocol
  import opened ProtocolClient
  import opened MessageLists
  import opened TwoClients

  // What an action comes to: a crash inside a handler is the handler with its packet lost
  datatype Effect =
    | Idle
    | Passing(topic: string, payload: seq<int>, sent: bool)
    | Stepping(step: Step)
    | Resending(ps: seq<Packet>)

  ghost predicate Has(v: World, w: World, e: Effect) {
    match e
    case Idle => w.n == v.n && w.app == v.app
    case Passing(topic, payload, sent) => Passes(v.n, w.n, topic, payload, sent) && w.app == v.app
    case Stepping(step) =>
      && (step.DoPublish? || step.SenderReceives? || step.ReceiverReceives? || step.Lose?) && Next(v.n, w.n, step)
      && w.app == v.app + if step.ReceiverReceives? then GivenFor(v.n.toR[0], v.n.r.inbound) else []
    case Resending(ps) => w.n == v.n.(toR := v.n.toR + ps) && w.app == v.app && AreRepeats(v.n.s, ps)
  }

  ghost predicate AreRepeats(s: Sender, ps: seq<Packet>) {
    forall i :: 0 <= i < |ps| ==> ps[i].id in s.out && Repeats(ps[i], ps[i].id, s.out[ps[i].id])
  }

  // Which action it is the effect of
  ghost predicate Of(v: World, act: Action, e: Effect) {
    match e
    case Passing(topic, payload, _) =>
      act.DoPublishNow? && act.qos == 0 && act.topic == topic && act.payload == payload
    case Stepping(DoPublish(_, qos, topic, payload, sent)) =>
      || (act.DoPublishNow? && act.qos == qos && act.topic == topic && act.payload == payload && sent == v.senderUp)
      || (act.CrashAtPublish? && act.qos == qos && act.topic == topic && act.payload == payload && !sent)
    case Stepping(SenderReceives(sent)) => (act.DeliverToSender? && sent == v.senderUp) || (act.CrashAtAck? && !sent)
    case Stepping(ReceiverReceives(sent)) => act.DeliverToReceiver? && sent == v.receiverUp
    case Stepping(Lose(keepToR, keepToS)) => act == LoseInFlight(keepToR, keepToS)
    case Resending(_) => act.RetryDue?
    case _ => true
  }

  lemma EffectOf(v: World, w: World, act: Action) returns (e: Effect)
    requires Sound(v.n, v.app) && Moves(v, w, act)
    ensures Has(v, w, e) && Of(v, act, e)
  {
    hide Sound, Inv, Next, Crowded, Passes, GivenFor, Publishes, CrashPublishes, RetriesTo, CrashesIn, AreRepeats;
    e := Idle;
    assert v.app + [] == v.app;
    match act {
      case DoPublishNow(qos, _, topic, payload, _) =>
        if qos == 0 {
          e := Passing(topic, payload, v.senderUp);
        } else if 1 <= qos <= 2 {
          e := PublishEffect(v, w, act);
        }
      case DeliverToSender => if v.n.toS != [] { e := Stepping(SenderReceives(v.senderUp)); }
      case DeliverToReceiver(_) => if v.n.toR != [] { e := Stepping(ReceiverReceives(v.receiverUp)); }
      case RetryDue(due, room, _) => e := RetryEffect(v, w, due, room);
      case LoseInFlight(keepToR, keepToS) =>
        if keepToR <= |v.n.toR| && keepToS <= |v.n.toS| { e := Stepping(QosProtocol.Step.Lose(keepToR, keepToS)); }
      case CrashAtAck => e := AckCrashEffect(v, w);
      case CrashAtPublish(qos, _, topic, payload) => if 1 <= qos <= 2 && w != v { e := PublishCrashEffect(v, w, act); }
      case _ =>
    }
  }

  lemma PublishEffect(v: World, w: World, act: Action) returns (e: Effect)
    requires act.DoPublishNow? && 1 <= act.qos <= 2 && w == v.(n := w.n)
    requires Publishes(v.n, w.n, act.qos, act.topic, act.payload, v.senderUp)
    ensures Has(v, w, e) && Of(v, act, e)
  {
    e := Idle;
    hide Crowded, Next;
    if !(w.n == v.n && Crowded(v.n.s)) {
      var id :| Next(v.n, w.n, DoPublish(id, act.qos, act.topic, act.payload, v.senderUp));
      e := Stepping(DoPublish(id, act.qos, act.topic, act.payload, v.senderUp));
    }
  }

  lemma PublishCrashEffect(v: World, w: World, act: Action) returns (e: Effect)
    requires Sound(v.n, v.app) && act.CrashAtPublish? && w.app == v.app
    requires CrashPublishes(v.n, w.n, act.qos, act.topic, act.payload)
    ensures Has(v, w, e) && Of(v, act, e)
  {
    hide Next, Inv;
    var id :| Next(v.n, w.n, QosProtocol.Step.CrashInPublish(id, act.qos, act.topic, act.payload));
    CrashIsLostStep(v.n, w.n, QosProtocol.Step.CrashInPublish(id, act.qos, act.topic, act.payload));
    e := Stepping(DoPublish(id, act.qos, act.topic, act.payload, false));
  }

  lemma AckCrashEffect(v: World, w: World) returns (e: Effect)
    requires Sound(v.n, v.app) && Moves(v, w, CrashAtAck)
    ensures Has(v, w, e) && Of(v, CrashAtAck, e)
  {
    hide Next, Inv, CrashesIn;
    e := Idle;
    if CrashesIn(v.n, CrashInPubrec) {
      CrashIsLostStep(v.n, w.n, CrashInPubrec);
      e := Stepping(SenderReceives(false));
    } else if CrashesIn(v.n, CrashInPubcomp) {
      CrashIsLostStep(v.n, w.n, CrashInPubcomp);
      e := Stepping(SenderReceives(false));
    }
  }

  lemma RetryEffect(v: World, w: World, due: set<int>, room: nat) returns (e: Effect)
    requires w == v.(n := w.n, senderUp := w.senderUp) && RetriesTo(v.n, w.n, due, room, v.senderUp, w.senderUp)
    ensures e.Resending? && Has(v, w, e)
  {
    var ps := w.n.toR[|v.n.toR|..];
    e := Resending(ps);
    hide NoneTwice, DueOf;
    forall i | 0 <= i < |ps| ensures ps[i].id in v.n.s.out && Repeats(ps[i], ps[i].id, v.n.s.out[ps[i].id]) {
      assert IsResent(v.n.s, ps[i], due);
    }
  }

  // ---------------- the application loses nothing ----------------

  lemma {:induction false} Gained(trace: seq<World>, script: seq<Action>, i: nat, j: nat)
    requires Traced(trace, script) && i <= j <= |script|
    ensures trace[i].app <= trace[j].app && trace[i].n.serial <= trace[j].n.serial
    decreases j
  {
    hide Sound, Moves, Init;
    if i < j {
      Gained(trace, script, i, j - 1);
      TraceSound(trace, script, j - 1);
      var e := EffectOf(trace[j - 1], trace[j], script[j - 1]);
    }
  }

  // ---------------- PUBACK ----------------

  ghost predicate IsPublish1(p: Packet, id: int) { p.Publish? && p.id == id && p.qos == 1 }

  // The receiver takes the QoS 1 publication p, with this id, off the connection
  ghost predicate Takes1(v: World, act: Action, id: int, p: Publication) {
    act.DeliverToReceiver? && v.n.toR != [] && IsPublish1(v.n.toR[0], id) && v.n.toR[0].pub == p
  }

  lemma PubackAppears(v: World, w: World, act: Action, e: Effect, id: int)
    requires Sound(v.n, v.app) && Has(v, w, e) && Of(v, act, e) && Puback(id) !in v.n.toS && Puback(id) in w.n.toS
    ensures v.n.toR != [] && Takes1(v, act, id, v.n.toR[0].pub) && v.n.toR[0].pub in w.app
  {
    hide Sound;
  }

  // Whenever a PUBACK is on its way, the application has got the publication that it answers
  lemma {:induction false} PubackIsDelivered(trace: seq<World>, script: seq<Action>, i: nat, id: int)
    requires Traced(trace, script) && i <= |script| && Puback(id) in trace[i].n.toS
    ensures exists j, p :: 0 <= j < i && Takes1(trace[j], script[j], id, p) && p in trace[i].app
  {
    hide Sound, Moves, Takes1, Has, Of;
    if i > 0 {
      TraceSound(trace, script, i - 1);
      var v, w := trace[i - 1], trace[i];
      var e := EffectOf(v, w, script[i - 1]);
      Gained(trace, script, i - 1, i);
      if Puback(id) in v.n.toS {
        PubackIsDelivered(trace, script, i - 1, id);
        var j, p :| 0 <= j < i - 1 && Takes1(trace[j], script[j], id, p) && p in v.app;
        assert p in w.app;
      } else {
        PubackAppears(v, w, script[i - 1], e, id);
      }
    }
  }

  // ---------------- DUP ----------------

  // What an action has written to the connection
  ghost function Written(v: World, w: World): seq<Packet> {
    if |v.n.toR| <= |w.n.toR| then w.n.toR[|v.n.toR|..] else []
  }

  ghost predicate First(p: Packet) { p.Publish? && !p.dup }

  lemma FirstAppears(v: World, w: World, act: Action, p: Packet)
    requires Sound(v.n, v.app) && Moves(v, w, act) && p in Written(v, w) && First(p)
    ensures act.DoPublishNow? && act.qos == p.qos && Written(v, w) == [p] && w.n.toR == v.n.toR + [p]
    ensures p.pub == Publication(v.n.serial, act.topic, act.payload) && w.n.serial == v.n.serial + 1
  {
    hide Sound, Moves, Has, Of, Written, First;
    var e := EffectOf(v, w, act);
    FirstOf(v, w, act, e, p);
  }

  lemma FirstOf(v: World, w: World, act: Action, e: Effect, p: Packet)
    requires Has(v, w, e) && Of(v, act, e) && p in Written(v, w) && First(p)
    ensures act.DoPublishNow? && act.qos == p.qos && Written(v, w) == [p] && w.n.toR == v.n.toR + [p]
    ensures p.pub == Publication(v.n.serial, act.topic, act.payload) && w.n.serial == v.n.serial + 1
  {
    hide StartPublish, ReceiverOn, GivenFor;
  }

  // A PUBLISH without DUP is written by the publish call alone, and once
  lemma FirstOnlyOnce(trace: seq<World>, script: seq<Action>, i: nat, j: nat, p: Packet, q: Packet)
    requires Traced(trace, script) && i <= j < |script| && First(p) && First(q) && p.pub == q.pub
    requires p in Written(trace[i], trace[i + 1]) && q in Written(trace[j], trace[j + 1])
    ensures i == j && p == q && trace[i + 1].n.toR == trace[i].n.toR + [p]
    ensures script[i].DoPublishNow? && p.qos == script[i].qos && p.pub.payload == script[i].payload
  {
    hide Sound, Moves, Written, Init;
    TraceSound(trace, script, i);
    TraceSound(trace, script, j);
    FirstAppears(trace[i], trace[i + 1], script[i], p);
    FirstAppears(trace[j], trace[j + 1], script[j], q);
    if i < j { Gained(trace, script, i + 1, j); }
  }

  // ---------------- QoS 0: at most once ----------------

  ghost predicate Carries(p: Packet, pub: Publication) { p.Publish? && p.pub == pub }

  // No message and no packet but a single PUBLISH brings the publication, and that only if it has not arrived
  ghost predicate AtMostOne(w: World, pub: Publication) {
    && pub.serial < w.n.serial && multiset(w.app)[pub] <= 1
    && (forall i :: 0 <= i < |w.n.toR| && Carries(w.n.toR[i], pub) ==>
      w.n.toR[i].qos == 0 && pub !in w.app && forall j :: i < j < |w.n.toR| ==> !Carries(w.n.toR[j], pub))
    && Unlisted(w.n, pub)
  }

  ghost predicate Unlisted(n: Net, pub: Publication) {
    && (forall id :: id in n.s.out ==> n.s.out[id].pub != pub)
    && (forall id :: id in n.r.inbound ==> n.r.inbound[id] != pub)
  }

  lemma AtMostOneStays(v: World, w: World, e: Effect, pub: Publication)
    requires AtMostOne(v, pub) && Has(v, w, e) && !(e.Stepping? && e.step.ReceiverReceives?)
    ensures AtMostOne(w, pub)
  {
  }

  lemma AtMostOneArrives(v: World, w: World, sent: bool, pub: Publication)
    requires AtMostOne(v, pub) && Has(v, w, Stepping(ReceiverReceives(sent)))
    ensures AtMostOne(w, pub)
  {
    GivenOnce(v, pub);
    assert forall i :: 0 <= i < |w.n.toR| ==> w.n.toR[i] == v.n.toR[i + 1];
    hide GivenFor, Carries, Transmitted, ReceiverOn;
    assert Unlisted(w.n, pub);
  }

  lemma GivenOnce(v: World, pub: Publication)
    requires AtMostOne(v, pub) && v.n.toR != []
    ensures var given := GivenFor(v.n.toR[0], v.n.r.inbound);
      multiset(v.app + given)[pub] <= 1 && (pub in given ==> Carries(v.n.toR[0], pub))
    ensures var inbound := ReceiverOn(v.n.r, v.n.toR[0]).r.inbound;
      forall id :: id in inbound ==> inbound[id] != pub
  {
    var given := GivenFor(v.n.toR[0], v.n.r.inbound);
    assert multiset(v.app + given) == multiset(v.app) + multiset(given);
  }

  lemma {:induction false} AtMostOneSince(trace: seq<World>, script: seq<Action>, i: nat, j: nat, pub: Publication)
    requires Traced(trace, script) && i <= j <= |script| && AtMostOne(trace[i], pub)
    ensures AtMostOne(trace[j], pub)
    decreases j
  {
    hide Sound, Moves, Init, AtMostOne, Has, Of;
    if i < j {
      AtMostOneSince(trace, script, i, j - 1, pub);
      TraceSound(trace, script, j - 1);
      var v, w := trace[j - 1], trace[j];
      var e := EffectOf(v, w, script[j - 1]);
      if e.Stepping? && e.step.ReceiverReceives? {
        AtMostOneArrives(v, w, e.step.sent, pub);
      } else {
        AtMostOneStays(v, w, e, pub);
      }
    }
  }

  // What is on its way, in the lists or with the application has been published before
  ghost predicate OldSerials(w: World) {
    && (forall i :: 0 <= i < |w.app| ==> w.app[i].serial < w.n.serial)
    && (forall i :: 0 <= i < |w.n.toR| && w.n.toR[i].Publish? ==> w.n.toR[i].pub.serial < w.n.serial)
    && (forall id :: id in w.n.s.out ==> w.n.s.out[id].pub.serial < w.n.serial)
    && (forall id :: id in w.n.r.inbound ==> w.n.r.inbound[id].serial < w.n.serial)
  }

  lemma SerialsAreOld(w: World)
    requires Sound(w.n, w.app)
    ensures OldSerials(w)
  {
    forall id | id in w.n.r.inbound ensures w.n.r.inbound[id].serial < w.n.serial {
      assert Exchange(w.n, id);
    }
    forall i | 0 <= i < |w.n.toR| && w.n.toR[i].Publish? ensures w.n.toR[i].pub.serial < w.n.serial {
      assert Exchange(w.n, w.n.toR[i].id);
    }
  }

  // A QoS 0 publication reaches the application at most once
  lemma AtMostOnce(trace: seq<World>, script: seq<Action>, i: nat, j: nat)
    requires Traced(trace, script) && i < j <= |script| && script[i].DoPublishNow? && script[i].qos == 0
    ensures multiset(trace[j].app)[Publication(trace[i].n.serial, script[i].topic, script[i].payload)] <= 1
  {
    var v, w, pub := trace[i], trace[i + 1], Publication(trace[i].n.serial, script[i].topic, script[i].payload);
    TraceSound(trace, script, i);
    SerialsAreOld(v);
    hide Sound, Init;
    assert pub !in v.app;
    assert AtMostOne(w, pub);
    hide AtMostOne, Moves;
    AtMostOneSince(trace, script, i + 1, j, pub);
    assert AtMostOne(trace[j], pub);
  }

  // ---------------- QoS 1: at least once ----------------

  ghost predicate Waiting(s: Sender, id: int, pub: Publication) {
    id in s.out && s.out[id] == OutMessage(1, AwaitPuback, pub)
  }

  // A packet of an earlier message under this id is still on its way
  ghost predicate Stale(n: Net, id: int) {
    Puback(id) in n.toS || exists i :: 0 <= i < |n.toR| && IsPublish1(n.toR[i], id)
  }

  // The publication has arrived, or it waits in the list and all that is on its way under its id is about it
  ghost predicate Guarded(w: World, id: int, pub: Publication) {
    || pub in w.app
    || (Waiting(w.n.s, id, pub) && Puback(id) !in w.n.toS
        && forall i :: 0 <= i < |w.n.toR| && IsPublish1(w.n.toR[i], id) ==> w.n.toR[i].pub == pub)
  }

  lemma GuardedStays(v: World, w: World, e: Effect, id: int, pub: Publication)
    requires Guarded(v, id, pub) && Has(v, w, e)
    ensures Guarded(w, id, pub)
  {
  }

  // The message of a QoS 1 publication joins the list under a free id
  ghost predicate Joins(v: World, w: World, id: int, pub: Publication) {
    id !in v.n.s.out && Waiting(w.n.s, id, pub) && pub.serial == v.n.serial
  }

  // The states that a script goes through from w on
  ghost predicate Follows(w: World, trace: seq<World>, script: seq<Action>) {
    && |trace| == |script| + 1 && trace[0] == w
    && forall i :: 0 <= i < |script| ==> Moves(trace[i], trace[i + 1], script[i])
  }

  lemma JoinsGuarded(v: World, w: World, act: Action, id: int, pub: Publication)
    requires Sound(v.n, v.app) && Moves(v, w, act) && Joins(v, w, id, pub) && !Stale(v.n, id)
    ensures Guarded(w, id, pub)
  {
    hide Sound, Moves;
    var e := EffectOf(v, w, act);
  }

  lemma {:induction false} GuardedSince(w: World, trace: seq<World>, script: seq<Action>, i: nat, id: int,
      pub: Publication)
    requires Sound(w.n, w.app) && Follows(w, trace, script) && i <= |script| && Guarded(w, id, pub)
    ensures Sound(trace[i].n, trace[i].app) && Guarded(trace[i], id, pub)
  {
    hide Sound, Moves, Guarded, Has, Of;
    if i > 0 {
      GuardedSince(w, trace, script, i - 1, id, pub);
      var e := EffectOf(trace[i - 1], trace[i], script[i - 1]);
      GuardedStays(trace[i - 1], trace[i], e, id, pub);
      MovesKeepSound(trace[i - 1], trace[i], script[i - 1]);
    }
  }

  // A QoS 1 publication whose id is fresh has arrived or waits, at every later point of the script
  lemma AtLeastOnce(trace: seq<World>, script: seq<Action>, i: nat, j: nat, id: int, pub: Publication)
    requires Traced(trace, script) && i < j <= |script|
    requires Joins(trace[i], trace[i + 1], id, pub) && !Stale(trace[i].n, id)
    ensures pub in trace[j].app || Waiting(trace[j].n.s, id, pub)
  {
    hide Sound, Moves, Init, Joins, Stale;
    TraceSound(trace, script, i);
    TraceSound(trace, script, i + 1);
    JoinsGuarded(trace[i], trace[i + 1], script[i], id, pub);
    var later := trace[i + 1..];
    assert forall k :: 0 <= k < |later| ==> later[k] == trace[i + 1 + k];
    assert Follows(trace[i + 1], later, script[i + 1..]);
    GuardedSince(trace[i + 1], later, script[i + 1..], j - i - 1, id, pub);
  }

  // It has not arrived, and nothing is left that could bring it
  ghost predicate Lost(w: World, pub: Publication) {
    && pub.serial < w.n.serial && pub !in w.app && Unlisted(w.n, pub)
    && forall i :: 0 <= i < |w.n.toR| ==> !Carries(w.n.toR[i], pub)
  }

  lemma LostStays(v: World, w: World, act: Action, pub: Publication)
    requires Sound(v.n, v.app) && Moves(v, w, act) && Lost(v, pub)
    ensures Lost(w, pub)
  {
    assert AtMostOne(v, pub);
    hide Sound, Moves;
    var e := EffectOf(v, w, act);
    LostRemains(v, w, e, pub);
  }

  lemma LostRemains(v: World, w: World, e: Effect, pub: Publication)
    requires Has(v, w, e) && Lost(v, pub)
    ensures Lost(w, pub)
  {
  }

  lemma Prepended(v: World, w: World, act: Action, trace: seq<World>, script: seq<Action>)
    requires Moves(v, w, act) && Follows(w, trace, script)
    ensures Follows(v, [v] + trace, [act] + script)
    ensures ([v] + trace)[|[act] + script|] == trace[|script|]
  {
    hide Moves;
    var t, s := [v] + trace, [act] + script;
    forall i | 0 <= i < |s| ensures Moves(t[i], t[i + 1], s[i]) {
      if i > 0 { assert t[i] == trace[i - 1] && t[i + 1] == trace[i] && s[i] == script[i - 1]; }
    }
  }

  // The sender can write nothing, and the publication has no chance but its message under this id
  ghost predicate Draining(w: World, id: int, pub: Publication) {
    && !w.senderUp && pub.serial < w.n.serial && pub !in w.app
    && (forall k :: k in w.n.s.out && w.n.s.out[k].pub == pub ==> k == id && w.n.s.out[k].qos == 1)
    && (forall k :: k in w.n.r.inbound ==> w.n.r.inbound[k] != pub)
    && (forall i :: 0 <= i < |w.n.toR| ==> !Carries(w.n.toR[i], pub))
  }

  lemma SenderDrainsOne(w: World, id: int, pub: Publication) returns (x: World)
    requires Draining(w, id, pub) && w.n.toS != []
    ensures Moves(w, x, DeliverToSender) && Draining(x, id, pub) && x.n.toS == w.n.toS[1..]
    ensures w.n.toS[0] == Puback(id) ==> Lost(x, pub)
  {
    x := w.(n := w.n.(s := SenderOn(w.n.s, w.n.toS[0]).0, toS := w.n.toS[1..]));
  }

  lemma {:induction false} SenderDrains(w: World, id: int, pub: Publication, k: nat)
    returns (trace: seq<World>, script: seq<Action>)
    requires Draining(w, id, pub) && k < |w.n.toS| && w.n.toS[k] == Puback(id)
    ensures Follows(w, trace, script) && Lost(trace[|script|], pub)
    decreases k
  {
    hide Draining, Lost, Moves;
    var x := SenderDrainsOne(w, id, pub);
    if k == 0 {
      trace, script := [x], [];
    } else {
      trace, script := SenderDrains(x, id, pub, k - 1);
    }
    Prepended(w, x, DeliverToSender, trace, script);
    trace, script := [w] + trace, [DeliverToSender] + script;
  }

  lemma ReceiverDrainsOne(w: World, id: int, pub: Publication) returns (x: World)
    requires Draining(w, id, pub) && w.receiverUp && w.n.toR != []
    ensures Moves(w, x, DeliverToReceiver(false)) && Draining(x, id, pub) && x.receiverUp
    ensures x.n.toR == w.n.toR[1..] && (IsPublish1(w.n.toR[0], id) ==> x.n.toS == w.n.toS + [Puback(id)])
  {
    var p := w.n.toR[0];
    var r := ReceiverOn(w.n.r, p);
    x := w.(n := w.n.(r := r.r, toR := w.n.toR[1..], toS := w.n.toS + r.out,
                      delivered := w.n.delivered + if p.Pubrel? then r.delivered else []),
            app := w.app + GivenFor(p, w.n.r.inbound));
    assert !Carries(p, pub);
  }

  lemma {:induction false} ReceiverDrains(w: World, id: int, pub: Publication, k: nat)
    returns (trace: seq<World>, script: seq<Action>)
    requires Draining(w, id, pub) && w.receiverUp && k < |w.n.toR| && IsPublish1(w.n.toR[k], id)
    ensures Follows(w, trace, script) && Lost(trace[|script|], pub)
    decreases k
  {
    hide Draining, Lost, Moves, IsPublish1;
    var x := ReceiverDrainsOne(w, id, pub);
    if k == 0 {
      trace, script := SenderDrains(x, id, pub, |x.n.toS| - 1);
    } else {
      trace, script := ReceiverDrains(x, id, pub, k - 1);
    }
    Prepended(w, x, DeliverToReceiver(false), trace, script);
    trace, script := [w] + trace, [DeliverToReceiver(false)] + script;
  }

  lemma JoinedIs(v: World, w: World, e: Effect, id: int, pub: Publication)
    requires Has(v, w, e) && Joins(v, w, id, pub)
    ensures w.n.toS == v.n.toS && w.n.r == v.n.r && w.app == v.app && w.n.serial == v.n.serial + 1
    ensures v.n.toR <= w.n.toR && w.n.s.out == v.n.s.out[id := OutMessage(1, AwaitPuback, pub)]
  {
  }

  // The connection of the sender goes down, and what this publish call has written is lost
  lemma DrainsFrom(v: World, w: World, e: Effect, id: int, pub: Publication) returns (x: World, y: World)
    requires OldSerials(v) && Has(v, w, e) && Joins(v, w, id, pub)
    ensures Moves(w, x, Connect(false, true)) && Moves(x, y, LoseInFlight(|v.n.toR|, |v.n.toS|))
    ensures Draining(y, id, pub) && y.receiverUp && y.n.toR == v.n.toR && y.n.toS == v.n.toS
  {
    JoinedIs(v, w, e, id, pub);
    hide Has;
    x := w.(senderUp := false, receiverUp := true);
    y := x.(n := x.n.(toR := v.n.toR));
    assert x.n.toR[..|v.n.toR|] == v.n.toR && x.n.toS[..|v.n.toS|] == v.n.toS;
  }

  // A stale packet takes the new message for the old one: some way of going on loses the publication
  lemma StaleLoses(v: World, w: World, e: Effect, id: int, pub: Publication)
    returns (trace: seq<World>, script: seq<Action>)
    requires OldSerials(v) && Has(v, w, e) && Joins(v, w, id, pub) && Stale(v.n, id)
    ensures Follows(w, trace, script) && Lost(trace[|script|], pub)
  {
    hide OldSerials, Has, Joins, Draining, Lost, Moves;
    var x, y := DrainsFrom(v, w, e, id, pub);
    if Puback(id) in v.n.toS {
      var k :| 0 <= k < |y.n.toS| && y.n.toS[k] == Puback(id);
      trace, script := SenderDrains(y, id, pub, k);
    } else {
      var k :| 0 <= k < |y.n.toR| && IsPublish1(y.n.toR[k], id);
      trace, script := ReceiverDrains(y, id, pub, k);
    }
    var lose, connect := LoseInFlight(|v.n.toR|, |v.n.toS|), Connect(false, true);
    Prepended(x, y, lose, trace, script);
    trace, script := [x] + trace, [lose] + script;
    Prepended(w, x, connect, trace, script);
    trace, script := [w] + trace, [connect] + script;
  }

  // A QoS 1 publication can be lost exactly if its id is not fresh
  lemma LosesExactly(v: World, w: World, act: Action, id: int, pub: Publication)
    requires Sound(v.n, v.app) && Moves(v, w, act) && Joins(v, w, id, pub)
    ensures Stale(v.n, id) <==>
      exists trace, script :: Follows(w, trace, script) && Lost(trace[|script|], pub)
  {
    SerialsAreOld(v);
    MovesKeepSound(v, w, act);
    var e := EffectOf(v, w, act);
    hide OldSerials, Sound, Has, Of, Moves;
    if Stale(v.n, id) {
      var trace, script := StaleLoses(v, w, e, id, pub);
      assert Follows(w, trace, script) && Lost(trace[|script|], pub);
    } else {
      JoinsGuarded(v, w, act, id, pub);
      forall trace, script | Follows(w, trace, script) ensures !Lost(trace[|script|], pub) {
        GuardedSince(w, trace, script, |script|, id, pub);
        GuardedNotLost(trace[|script|], id, pub);
      }
    }
  }

  lemma GuardedNotLost(w: World, id: int, pub: Publication)
    requires Guarded(w, id, pub)
    ensures !Lost(w, pub)
  {
  }

  // ---------------- a connection that holds ----------------

  ghost predicate BothUp(w: World) { w.senderUp && w.receiverUp }

  // One packet is on its way, to the receiver or to the sender
  ghost predicate OnlyToR(w: World, p: Packet) { BothUp(w) && w.n.toR == [p] && w.n.toS == [] }

  ghost predicate OnlyToS(w: World, p: Packet) { BothUp(w) && w.n.toR == [] && w.n.toS == [p] }

  ghost predicate Quiet(w: World) { BothUp(w) && w.n.toR == [] && w.n.toS == [] }

  lemma QuietStays(w: World, x: World, y: World, retain: bool)
    requires Quiet(w) && Moves(w, x, DeliverToReceiver(retain)) && Moves(x, y, DeliverToSender)
    ensures x == w && y == w
  {
  }

  lemma Publish1Crosses(w: World, x: World, y: World, id: int, dup: bool, pub: Publication, retain: bool)
    requires OnlyToR(w, Publish(id, 1, dup, pub)) && Waiting(w.n.s, id, pub)
    requires Moves(w, x, DeliverToReceiver(retain)) && Moves(x, y, DeliverToSender)
    ensures Quiet(y) && y.app == w.app + [pub] && y.n.s.out == w.n.s.out - {id} && y.n.r == w.n.r
  {
    assert OnlyToS(x, Puback(id)) by { assert x.n.toS == [] + [Puback(id)]; }
  }

  lemma Publish2Crosses(w: World, x: World, y: World, id: int, dup: bool, pub: Publication, retain: bool)
    requires OnlyToR(w, Publish(id, 2, dup, pub)) && TakesPubrec(w.n.s, id)
    requires Moves(w, x, DeliverToReceiver(retain)) && Moves(x, y, DeliverToSender)
    ensures OnlyToR(y, Pubrel(id, false)) && y.app == w.app && id in y.n.r.inbound && y.n.r.inbound[id] == pub
    ensures TakesPubcomp(y.n.s, id) && y.n.s.out.Keys == w.n.s.out.Keys
    ensures y.n.r.inbound.Keys == w.n.r.inbound.Keys + {id}
  {
    assert OnlyToS(x, Pubrec(id)) by { assert x.n.toS == [] + [Pubrec(id)]; }
  }

  lemma PubrelCrosses(w: World, x: World, y: World, id: int, retain: bool)
    requires OnlyToR(w, Pubrel(id, false)) && TakesPubcomp(w.n.s, id) && id in w.n.r.inbound
    requires Moves(w, x, DeliverToReceiver(retain)) && Moves(x, y, DeliverToSender)
    ensures Quiet(y) && y.app == w.app + [w.n.r.inbound[id]] && y.n.s.out == w.n.s.out - {id}
    ensures y.n.r.inbound == w.n.r.inbound - {id}
  {
    assert OnlyToS(x, Pubcomp(id)) by { assert x.n.toS == [] + [Pubcomp(id)]; }
  }

  lemma PubrelUnanswered(w: World, x: World, y: World, id: int, retain: bool)
    requires OnlyToR(w, Pubrel(id, false)) && id !in w.n.r.inbound
    requires Moves(w, x, DeliverToReceiver(retain)) && Moves(x, y, DeliverToSender)
    ensures Quiet(y) && y.app == w.app && y.n.s == w.n.s && y.n.r == w.n.r
  {
    assert x.n.toS == [] + [];
  }

  // The connection comes back with nothing on its way, and one message is retried
  lemma RetriedAlone(v: World, w: World, x: World, y: World, id: int, last: Ending)
    requires Mirrored(v.n.s) && id in v.n.s.out
    requires Moves(v, w, Connect(true, true)) && Moves(w, x, LoseInFlight(0, 0)) && Moves(x, y, RetryDue({id}, 2, last))
    ensures OnlyToR(y, Resent(id, v.n.s.out[id])) && y.app == v.app && y.n.s == v.n.s && y.n.r == v.n.r
  {
    var ps := y.n.toR[|x.n.toR|..];
    assert x.n.toR == [] && ps == y.n.toR;
    assert DueOf(x.n.s, {id}) == {id};
    assert IsResent(x.n.s, ps[0], {id});
  }

  ghost function Finishing(id: int, last: Ending, first: bool, second: bool): seq<Action> {
    [Connect(true, true), LoseInFlight(0, 0), RetryDue({id}, 2, last), DeliverToReceiver(first), DeliverToSender,
     DeliverToReceiver(second), DeliverToSender]
  }

  lemma BeforeFinishing(v: World, id: int)
    requires Sound(v.n, v.app) && id in v.n.s.out
    ensures var m := v.n.s.out[id];
      && Mirrored(v.n.s) && (m.qos == 1 || m.qos == 2) && (m.qos == 1 <==> m.next == AwaitPuback)
      && (m.qos == 2 && id in v.n.r.inbound ==> v.n.r.inbound[id] == m.pub)
      && (m.qos == 2 ==> multiset(v.app)[m.pub] == if m.next == AwaitPubcomp && id !in v.n.r.inbound then 1 else 0)
  {
    assert Exchange(v.n, id);
  }

  lemma FinishingMoves(v: World, trace: seq<World>, id: int, last: Ending, first: bool, second: bool)
    requires Follows(v, trace, Finishing(id, last, first, second))
    ensures |trace| == 8 && Moves(v, trace[1], Connect(true, true)) && Moves(trace[1], trace[2], LoseInFlight(0, 0))
    ensures Moves(trace[2], trace[3], RetryDue({id}, 2, last))
    ensures Moves(trace[3], trace[4], DeliverToReceiver(first)) && Moves(trace[4], trace[5], DeliverToSender)
    ensures Moves(trace[5], trace[6], DeliverToReceiver(second)) && Moves(trace[6], trace[7], DeliverToSender)
  {
    hide Moves;
    var script := Finishing(id, last, first, second);
    assert forall i :: 0 <= i < 7 ==> Moves(trace[i], trace[i + 1], script[i]);
  }

  // Whatever has happened before: on a new connection that holds, a retry finishes the message, unless the receiver
  // is done with it
  lemma FinishesExactly(v: World, trace: seq<World>, id: int, last: Ending, first: bool, second: bool)
    requires Sound(v.n, v.app) && id in v.n.s.out && Follows(v, trace, Finishing(id, last, first, second))
    ensures var m, w := v.n.s.out[id], trace[7];
      if m.qos == 2 && m.next == AwaitPubcomp && id !in v.n.r.inbound then
        id in w.n.s.out && w.app == v.app && multiset(w.app)[m.pub] == 1
      else
        id !in w.n.s.out && w.app == v.app + [m.pub] && (m.qos == 2 ==> multiset(w.app)[m.pub] == 1)
  {
    hide Moves, Sound, Follows, Mirrored, Quiet, Finishing;
    var m := v.n.s.out[id];
    BeforeFinishing(v, id);
    FinishingMoves(v, trace, id, last, first, second);
    RetriedAlone(v, trace[1], trace[2], trace[3], id, last);
    hide OnlyToR;
    assert multiset(v.app + [m.pub]) == multiset(v.app) + multiset{m.pub};
    if m.qos == 1 {
      Publish1Crosses(trace[3], trace[4], trace[5], id, true, m.pub, first);
      QuietStays(trace[5], trace[6], trace[7], second);
    } else if m.next == AwaitPubrec {
      Publish2Crosses(trace[3], trace[4], trace[5], id, true, m.pub, first);
      PubrelCrosses(trace[5], trace[6], trace[7], id, second);
    } else if id in v.n.r.inbound {
      PubrelCrosses(trace[3], trace[4], trace[5], id, first);
      QuietStays(trace[5], trace[6], trace[7], second);
    } else {
      PubrelUnanswered(trace[3], trace[4], trace[5], id, first);
      QuietStays(trace[5], trace[6], trace[7], second);
    }
  }

  ghost function Delivering(topic: string, payload: seq<int>, unset: MessageType): seq<Action> {
    [Connect(true, true), DoPublishNow(2, false, topic, payload, unset), DeliverToReceiver(false), DeliverToSender,
     DeliverToReceiver(false), DeliverToSender]
  }

  lemma DeliveringMoves(trace: seq<World>, topic: string, payload: seq<int>, unset: MessageType)
    requires Traced(trace, Delivering(topic, payload, unset))
    ensures |trace| == 7 && Init(trace[0].n) && trace[0].app == [] && Moves(trace[0], trace[1], Connect(true, true))
    ensures Moves(trace[1], trace[2], DoPublishNow(2, false, topic, payload, unset))
    ensures Moves(trace[2], trace[3], DeliverToReceiver(false)) && Moves(trace[3], trace[4], DeliverToSender)
    ensures Moves(trace[4], trace[5], DeliverToReceiver(false)) && Moves(trace[5], trace[6], DeliverToSender)
  {
    hide Moves, Init;
    var script := Delivering(topic, payload, unset);
    assert forall i :: 0 <= i < 6 ==> Moves(trace[i], trace[i + 1], script[i]);
  }

  // The first publication of all, with QoS 2: sent, received, released, completed
  lemma FirstIsDelivered(trace: seq<World>, topic: string, payload: seq<int>, unset: MessageType)
    requires Traced(trace, Delivering(topic, payload, unset))
    ensures |trace| == 7 && trace[6].app == [Publication(0, topic, payload)] && Quiet(trace[6])
    ensures trace[6].n.s.out == map[] && trace[6].n.r.inbound == map[]
  {
    DeliveringMoves(trace, topic, payload, unset);
    hide Moves, Init, Traced, Delivering, OnlyToR, Quiet;
    var id := FirstPublished(trace[0], trace[1], trace[2], topic, payload, unset);
    Publish2Crosses(trace[2], trace[3], trace[4], id, false, Publication(0, topic, payload), false);
    PubrelCrosses(trace[4], trace[5], trace[6], id, false);
    assert trace[6].n.s.out.Keys == {} && trace[6].n.r.inbound.Keys == {};
  }

  lemma FirstPublished(u: World, v: World, w: World, topic: string, payload: seq<int>, unset: MessageType)
    returns (id: int)
    requires Init(u.n) && u.app == [] && Moves(u, v, Connect(true, true))
    requires Moves(v, w, DoPublishNow(2, false, topic, payload, unset))
    ensures OnlyToR(w, Publish(id, 2, false, Publication(0, topic, payload))) && TakesPubrec(w.n.s, id)
    ensures w.n.s.out.Keys == {id} && w.n.r.inbound == map[] && w.app == []
  {
    assert !Crowded(v.n.s) by {
      forall start ensures !TakenBut(v.n.s, start) {
        assert Assignable(if start == 1 then 2 else 1);
      }
    }
    hide Crowded;
    id :| Next(v.n, w.n, DoPublish(id, 2, topic, payload, true));
    assert w.n.toR == [] + [Publish(id, 2, false, Publication(0, topic, payload))];
  }
}
