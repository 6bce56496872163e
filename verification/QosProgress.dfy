/** When an exchange can still be finished: a lost PUBCOMP leaves it unfinished for ever, and nothing else does. */
module QosProgress {
  import opened QosProtocol

  // The receiver is done, and no PUBCOMP is on its way; an unknown PUBREL, which is never sent with dup set, gets none
  ghost predicate Stuck(n: Net, id: int) {
    && id in n.s.out && n.s.out[id].qos == 2 && n.s.out[id].next == AwaitPubcomp
    && id !in n.r.inbound && NoComp(n.toS, id)
  }

  // ---------------- no step leads out ----------------

  lemma SenderStaysStuck(n: Net, m: Net, sent: bool, id: int)
    requires Stuck(n, id) && Next(n, m, SenderReceives(sent))
    ensures Stuck(m, id)
  {
    assert n.toS[0] != Pubcomp(id);
    assert forall i :: 0 <= i < |m.toS| ==> m.toS[i] == n.toS[i + 1];
  }

  lemma ReceiverStaysStuck(n: Net, m: Net, sent: bool, id: int)
    requires Exchange(n, id) && Outgoing(n.toR) && Stuck(n, id) && Next(n, m, ReceiverReceives(sent))
    ensures Stuck(m, id)
  {
    assert !Pub2(n.toR[0], id);
    var x := ReceiverOn(n.r, n.toR[0]);
    assert id !in x.r.inbound && NoComp(x.out, id);
  }

  lemma StepStaysStuck(n: Net, m: Net, step: Step, id: int)
    requires Inv(n) && Next(n, m, step) && Stuck(n, id)
    ensures Stuck(m, id)
  {
    assert Exchange(n, id);
    match step
    case DoPublish(_, _, _, _, _) =>
    case SenderReceives(sent) => SenderStaysStuck(n, m, sent, id);
    case ReceiverReceives(sent) => ReceiverStaysStuck(n, m, sent, id);
    case Retry(_) =>
    case Lose(_, _) =>
    case SenderRestarts => RestartKeepsInv(n, m, step);
    case ReceiverRestarts => RestartKeepsInv(n, m, step);
    case CrashInPubrec => CrashIsLostStep(n, m, step); SenderStaysStuck(n, m, false, id);
    case CrashInPubcomp => CrashIsLostStep(n, m, step); SenderStaysStuck(n, m, false, id);
    case CrashInPublish(_, _, _, _) => CrashIsLostStep(n, m, step);
  }

  // ---------------- runs from any state ----------------

  ghost predicate Path(run: seq<Net>, steps: seq<Step>) {
    |run| == |steps| + 1 && forall i :: 0 <= i < |steps| ==> Next(run[i], run[i + 1], steps[i])
  }

  ghost predicate Reaches(n: Net, m: Net) {
    exists run, steps :: Path(run, steps) && run[0] == n && run[|steps|] == m
  }

  lemma {:induction false} PathStaysStuck(run: seq<Net>, steps: seq<Step>, id: int, i: nat)
    requires Path(run, steps) && i <= |steps| && Inv(run[0]) && Stuck(run[0], id)
    ensures Inv(run[i]) && Stuck(run[i], id)
  {
    hide Inv, Stuck, Next;
    if i > 0 {
      PathStaysStuck(run, steps, id, i - 1);
      StepKeepsInv(run[i - 1], run[i], steps[i - 1]);
      StepStaysStuck(run[i - 1], run[i], steps[i - 1], id);
    }
  }

  lemma ReachesItself(n: Net)
    ensures Reaches(n, n)
  {
    var steps: seq<Step> := [];
    assert Path([n], steps) && [n][0] == n && [n][|steps|] == n;
  }

  lemma ReachesOn(n: Net, m: Net, k: Net, step: Step)
    requires Reaches(n, m) && Next(m, k, step)
    ensures Reaches(n, k)
  {
    hide Next;
    var run, steps :| Path(run, steps) && run[0] == n && run[|steps|] == m;
    var run', steps' := run + [k], steps + [step];
    assert forall i :: 0 <= i < |run| ==> run'[i] == run[i];
    assert Path(run', steps') && run'[0] == n && run'[|steps'|] == k;
  }

  // ---------------- every other exchange can be finished ----------------

  // PUBREL again, PUBCOMP, done: with empty channels
  lemma FinishFromPubrel(n: Net, m: Net, id: int) returns (k: Net)
    requires Reaches(n, m) && m.toR == [Pubrel(id, false)] && m.toS == [] && id in m.r.inbound && TakesPubcomp(m.s, id)
    ensures Reaches(n, k) && id !in k.s.out
  {
    var x := ReceiverOn(m.r, Pubrel(id, false));
    var a := m.(r := x.r, toR := [], toS := [Pubcomp(id)], delivered := m.delivered + x.delivered);
    assert m.toR[1..] == [] && m.toS + x.out == [Pubcomp(id)];
    assert Next(m, a, ReceiverReceives(true));
    k := a.(s := OnPubcomp(a.s, id), toS := []);
    assert a.toS[1..] == [] && a.toR + [] == a.toR;
    assert Next(a, k, SenderReceives(true));
    hide Next, Reaches;
    ReachesOn(n, m, a, ReceiverReceives(true));
    ReachesOn(n, a, k, SenderReceives(true));
  }

  lemma FinishFromInbound(n: Net, m: Net, id: int) returns (k: Net)
    requires Reaches(n, m) && m.toR == [] && m.toS == [] && id in m.r.inbound && TakesPubcomp(m.s, id)
    ensures Reaches(n, k) && id !in k.s.out
  {
    var a := m.(toR := [Pubrel(id, false)]);
    assert m.toR + [Pubrel(id, false)] == [Pubrel(id, false)];
    assert Next(m, a, Retry(id));
    hide Next, Reaches;
    ReachesOn(n, m, a, Retry(id));
    k := FinishFromPubrel(n, a, id);
  }

  lemma FinishFromPublish(n: Net, m: Net, id: int) returns (k: Net)
    requires Reaches(n, m) && m.toR == [] && m.toS == [] && TakesPubrec(m.s, id)
    ensures Reaches(n, k) && id !in k.s.out
  {
    var p := Publish(id, 2, true, m.s.out[id].pub);
    var a := m.(toR := [p]);
    assert m.toR + [p] == [p];
    assert Next(m, a, Retry(id));
    var x := ReceiverOn(a.r, p);
    var b := a.(r := x.r, toR := [], toS := [Pubrec(id)]);
    assert a.toR[1..] == [] && a.toS + [Pubrec(id)] == [Pubrec(id)] && a.delivered + [] == a.delivered;
    assert Next(a, b, ReceiverReceives(true));
    var c := b.(s := OnPubrec(b.s, id), toS := [], toR := [Pubrel(id, false)]);
    assert b.toS[1..] == [] && b.toR + [Pubrel(id, false)] == [Pubrel(id, false)];
    assert Next(b, c, SenderReceives(true));
    assert TakesPubcomp(c.s, id) && id in c.r.inbound;
    hide Next, Reaches;
    ReachesOn(n, m, a, Retry(id));
    ReachesOn(n, a, b, ReceiverReceives(true));
    ReachesOn(n, b, c, SenderReceives(true));
    k := FinishFromPubrel(n, c, id);
  }

  // QoS 1: PUBLISH again, PUBACK, done
  lemma FinishFromPuback(n: Net, m: Net, id: int) returns (k: Net)
    requires Reaches(n, m) && m.toR == [] && m.toS == [] && id in m.s.out && m.s.out[id].qos == 1
    ensures Reaches(n, k) && id !in k.s.out
  {
    var p := Publish(id, 1, true, m.s.out[id].pub);
    var a := m.(toR := [p]);
    assert m.toR + [p] == [p];
    assert Next(m, a, Retry(id));
    var b := a.(toR := [], toS := [Puback(id)]);
    assert a.toR[1..] == [] && a.toS + [Puback(id)] == [Puback(id)] && a.delivered + [] == a.delivered;
    assert Next(a, b, ReceiverReceives(true));
    k := b.(s := OnPuback(b.s, id), toS := []);
    assert b.toS[1..] == [] && b.toR + [] == b.toR;
    assert Next(b, k, SenderReceives(true));
    hide Next, Reaches;
    ReachesOn(n, m, a, Retry(id));
    ReachesOn(n, a, b, ReceiverReceives(true));
    ReachesOn(n, b, k, SenderReceives(true));
  }

  // The PUBCOMP that is on its way comes through; the packets before it change nothing for this id
  lemma {:induction false} FinishFromPubcomp(n: Net, m: Net, id: int, i: nat) returns (k: Net)
    requires Reaches(n, m) && i < |m.toS| && m.toS[i] == Pubcomp(id) && TakesPubcomp(m.s, id)
    ensures Reaches(n, k) && id !in k.s.out
    decreases i
  {
    var (s, ps) := SenderOn(m.s, m.toS[0]);
    var a := m.(s := s, toS := m.toS[1..]);
    assert Next(m, a, SenderReceives(false));
    ReachesOn(n, m, a, SenderReceives(false));
    if i == 0 || m.toS[0] == Pubcomp(id) {
      k := a;
    } else {
      assert TakesPubcomp(s, id);
      hide Next, Reaches;
      k := FinishFromPubcomp(n, a, id, i - 1);
    }
  }

  lemma CanFinish(n: Net, id: int) returns (k: Net)
    requires Mirrored(n.s) && id in n.s.out && !Stuck(n, id)
    ensures Reaches(n, k) && id !in k.s.out
  {
    ReachesItself(n);
    if n.s.out[id].next == AwaitPubcomp && !NoComp(n.toS, id) {
      var i :| 0 <= i < |n.toS| && n.toS[i] == Pubcomp(id);
      k := FinishFromPubcomp(n, n, id, i);
    } else {
      var m := n.(toR := [], toS := []);
      assert Next(n, m, Lose(0, 0));
      ReachesOn(n, n, m, Lose(0, 0));
      if n.s.out[id].qos == 1 {
        k := FinishFromPuback(n, m, id);
      } else if n.s.out[id].next == AwaitPubcomp {
        k := FinishFromInbound(n, m, id);
      } else {
        k := FinishFromPublish(n, m, id);
      }
    }
  }

  // From a state of a run, an exchange can be finished exactly if it is not stuck
  lemma FinishesExactly(n: Net, id: int)
    requires Inv(n) && id in n.s.out
    ensures (exists m :: Reaches(n, m) && id !in m.s.out) <==> !Stuck(n, id)
  {
    if Stuck(n, id) {
      forall m | Reaches(n, m) ensures id in m.s.out {
        var run, steps :| Path(run, steps) && run[0] == n && run[|steps|] == m;
        PathStaysStuck(run, steps, id, |steps|);
      }
    } else {
      var k := CanFinish(n, id);
    }
  }

  // ---------------- a run that gets stuck ----------------

  lemma Chain(run: seq<Net>, steps: seq<Step>)
    requires |run| == 5 && |steps| == 4 && Init(run[0])
    requires Next(run[0], run[1], steps[0]) && Next(run[1], run[2], steps[1])
    requires Next(run[2], run[3], steps[2]) && Next(run[3], run[4], steps[3])
    ensures IsRun(run, steps)
  {
    hide Next, Init;
    forall i | 0 <= i < 4 ensures Next(run[i], run[i + 1], steps[i]) {
      assert i == 0 || i == 1 || i == 2 || i == 3;
    }
  }

  // A publication goes through, and the PUBCOMP is lost
  ghost function LostRun(pub: Publication): seq<Net> {
    var n0 := Net(Sender(map[], map[], {}), Receiver(map[], map[]), [], [], {}, [], 0);
    var s1 := StartPublish(n0.s, 1, 2, pub);
    var r2 := OnPublish(n0.r, 1, 2, pub).r;
    var s3 := OnPubrec(s1, 1);
    [n0, Net(s1, n0.r, [Publish(1, 2, false, pub)], [], {pub}, [], 1), Net(s1, r2, [], [Pubrec(1)], {pub}, [], 1),
     Net(s3, r2, [Pubrel(1, false)], [], {pub}, [], 1), Net(s3, OnPubrel(r2, 1, false).r, [], [], {pub}, [pub], 1)]
  }

  lemma LostRunBegins(topic: string, payload: seq<int>)
    ensures var run := LostRun(Publication(0, topic, payload));
      && Init(run[0]) && Next(run[0], run[1], DoPublish(1, 2, topic, payload, true))
      && Next(run[1], run[2], ReceiverReceives(true))
  {
  }

  lemma LostRunEnds(topic: string, payload: seq<int>)
    ensures var run := LostRun(Publication(0, topic, payload));
      && Next(run[2], run[3], SenderReceives(true)) && Next(run[3], run[4], ReceiverReceives(false)) && Stuck(run[4], 1)
  {
    assert TakesPubrec(LostRun(Publication(0, topic, payload))[2].s, 1);
  }

  lemma LostPubcompSticks(topic: string, payload: seq<int>) returns (run: seq<Net>, steps: seq<Step>)
    ensures IsRun(run, steps) && |steps| == 4 && Stuck(run[4], 1) &&
      run[4].delivered == [Publication(0, topic, payload)]
  {
    var pub := Publication(0, topic, payload);
    run, steps := LostRun(pub),
      [DoPublish(1, 2, topic, payload, true), ReceiverReceives(true), SenderReceives(true), ReceiverReceives(false)];
    hide Next, Stuck, Init;
    LostRunBegins(topic, payload);
    LostRunEnds(topic, payload);
    Chain(run, steps);
  }
}
