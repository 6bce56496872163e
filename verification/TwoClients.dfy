/** Two clients and the connection between them: whole runs of the handlers, with losses and restarts. */
module TwoClients {
  import opened QosProtocol
  import opened MessageLists
  import opened Sequences
  import opened ClientStore
  import StoreKeys
  import opened ProtocolClient
  import opened Restoring
  import opened RestoreOrder

  datatype Action =
    | DoPublishNow(qos: int, retain: bool, topic: string, payload: seq<int>, unset: MessageType)
    | DeliverToSender
    | DeliverToReceiver(retain: bool)
    | RetryDue(due: set<int>, room: nat, last: Ending)
    | Connect(senderUp: bool, receiverUp: bool)
    | LoseInFlight(keepToR: nat, keepToS: nat)
    | RestartSender
    | RestartReceiver
    | CrashAtAck                   // the sender's process ends inside the handler of the next packet
    | CrashAtPublish(qos: int, retain: bool, topic: string, payload: seq<int>)

  // With fewer messages than ids some id is free
  lemma {:induction false} SomeFree(ms: seq<Message>, n: nat)
    requires |ms| < n
    ensures exists id :: 1 <= id <= n && id !in Ids(ms)
  {
    if n in Ids(ms) {
      var i :| 0 <= i < |ms| && ms[i].msgid == n;
      var rest := Without(ms, i);
      SomeFree(rest, n - 1);
      var id :| 1 <= id <= n - 1 && id !in Ids(rest);
      forall j | 0 <= j < |ms| ensures ms[j].msgid != id {
        if j != i { assert rest[if j < i then j else j - 1] == ms[j]; }
      }
      assert id !in Ids(ms);
    } else {
      assert 1 <= n <= n && n !in Ids(ms);
    }
  }

  ghost predicate Within(ms: seq<Message>, n: nat) {
    Distinct(ms) && forall i :: 0 <= i < |ms| ==> 1 <= ms[i].msgid <= n
  }

  lemma WithinLess(ms: seq<Message>, i: int, n: nat)
    requires Within(ms, n) && 0 <= i < |ms| && ms[i].msgid == n
    ensures n >= 1 && Within(Without(ms, i), n - 1) && |Without(ms, i)| == |ms| - 1
    ensures forall id :: id in Ids(Without(ms, i)) ==> id in Ids(ms)
  {
    var rest := Without(ms, i);
    forall j | 0 <= j < |rest| ensures 1 <= rest[j].msgid <= n - 1 {
      assert rest[j] == ms[if j < i then j else j + 1];
    }
  }

  // Distinct ids among 1..n: no more than n of them, and n only if none is free
  lemma {:induction false} AllTaken(ms: seq<Message>, n: nat)
    requires Within(ms, n)
    ensures |ms| <= n
    ensures |ms| == n ==> forall id :: 1 <= id <= n ==> id in Ids(ms)
  {
    if |ms| > 0 {
      assert 1 <= ms[0].msgid <= n;
      if n in Ids(ms) {
        var i :| 0 <= i < |ms| && ms[i].msgid == n;
        WithinLess(ms, i, n);
        hide Within, Without, Ids;
        AllTaken(Without(ms, i), n - 1);
      } else {
        AllTaken(ms, n - 1);
      }
    }
  }

  // ---------------- the steps of the protocol that an action takes ----------------

  ghost predicate TakenBut(s: Sender, start: int) {
    forall id :: Assignable(id) && id != start ==> id in s.out
  }

  // At most one id is free
  ghost predicate Crowded(s: Sender) {
    exists start :: TakenBut(s, start)
  }

  // The protocol, what the receiving application has got, and which ends of the connection are up
  datatype World = World(n: Net, app: seq<Publication>, senderUp: bool, receiverUp: bool)

  // What an action of the two clients does. What an end writes goes out exactly if that end is up.
  ghost predicate Moves(v: World, w: World, act: Action) {
    match act
    case DoPublishNow(qos, _, topic, payload, _) =>
      && w == v.(n := w.n)
      && if qos == 0 then Passes(v.n, w.n, topic, payload, v.senderUp)
         else if 1 <= qos <= 2 then Publishes(v.n, w.n, qos, topic, payload, v.senderUp)
         else w == v
    case DeliverToSender =>
      w == v.(n := w.n) && if v.n.toS == [] then w == v else Next(v.n, w.n, SenderReceives(v.senderUp))
    case DeliverToReceiver(_) =>
      if v.n.toR == [] then w == v
      else w == v.(n := w.n, app := v.app + GivenFor(v.n.toR[0], v.n.r.inbound)) &&
           Next(v.n, w.n, ReceiverReceives(v.receiverUp))
    case RetryDue(due, room, _) =>
      w == v.(n := w.n, senderUp := w.senderUp) && RetriesTo(v.n, w.n, due, room, v.senderUp, w.senderUp)
    case Connect(senderUp, receiverUp) => w == v.(senderUp := senderUp, receiverUp := receiverUp)
    case LoseInFlight(keepToR, keepToS) =>
      && w == v.(n := w.n)
      && if keepToR <= |v.n.toR| && keepToS <= |v.n.toS| then Next(v.n, w.n, QosProtocol.Step.Lose(keepToR, keepToS))
         else w == v
    case RestartSender => w == v.(senderUp := false)
    case RestartReceiver => w == v.(receiverUp := false)
    case CrashAtAck =>
      if CrashesIn(v.n, CrashInPubrec) then w == v.(n := w.n, senderUp := false) && Next(v.n, w.n, CrashInPubrec)
      else if CrashesIn(v.n, CrashInPubcomp) then w == v.(n := w.n, senderUp := false) && Next(v.n, w.n, CrashInPubcomp)
      else w == v
    case CrashAtPublish(qos, _, topic, payload) =>
      if 1 <= qos <= 2 then
        || (w == v && Crowded(v.n.s))
        || (w == v.(n := w.n, senderUp := false) && CrashPublishes(v.n, w.n, qos, topic, payload))
      else
        w == v
  }

  // A publish call takes a free id, if there is one
  ghost predicate Publishes(n: Net, m: Net, qos: int, topic: string, payload: seq<int>, sent: bool) {
    (m == n && Crowded(n.s)) || exists id :: Next(n, m, DoPublish(id, qos, topic, payload, sent))
  }

  ghost predicate CrashPublishes(n: Net, m: Net, qos: int, topic: string, payload: seq<int>) {
    exists id :: Next(n, m, QosProtocol.Step.CrashInPublish(id, qos, topic, payload))
  }

  ghost function DueOf(s: Sender, due: set<int>): set<int> {
    set id | id in due && id in s.out
  }

  // A round of retries sends one packet for each message that is due, as many as there is room for. If the last of them
  // is not written whole, the session may be closed over it, and it does not go out.
  ghost predicate RetriesTo(n: Net, m: Net, due: set<int>, room: nat, up: bool, stillUp: bool) {
    && |n.toR| <= |m.toR| && m == n.(toR := n.toR + m.toR[|n.toR|..])
    && var ps, d := m.toR[|n.toR|..], |DueOf(n.s, due)|;
    && AllResent(n.s, ps, due) && NoneTwice(ps)
    && if !up then ps == [] && !stillUp
       else if stillUp then |ps| == if d <= room then d else room
       else |ps| == room - 1 && room <= d
  }

  ghost predicate NoneTwice(ps: seq<Packet>) {
    forall i, j :: 0 <= i < j < |ps| ==> ps[i].id != ps[j].id
  }

  // A QoS 0 publication passes by, and is neither stored nor sent again
  ghost predicate Passes(n: Net, m: Net, topic: string, payload: seq<int>, sent: bool) {
    var p := Publish(0, 0, false, Publication(n.serial, topic, payload));
    m == n.(toR := Transmitted(n.toR, [p], sent), serial := n.serial + 1)
  }

  // The handler of the next packet writes to the store more than once, or writes and then sends
  predicate CrashesIn(n: Net, step: Step) {
    && n.toS != []
    && ((step.CrashInPubrec? && n.toS[0].Pubrec? && TakesPubrec(n.s, n.toS[0].id))
        || (step.CrashInPubcomp? && n.toS[0].Pubcomp? && TakesPubcomp(n.s, n.toS[0].id)))
  }

  ghost predicate AllResent(s: Sender, ps: seq<Packet>, due: set<int>) {
    forall i :: 0 <= i < |ps| ==> IsResent(s, ps[i], due)
  }

  // PUBLISH again with dup set, or PUBREL when PUBREC has come
  ghost predicate Repeats(p: Packet, id: int, m: OutMessage) {
    if m.qos == 2 && m.next == AwaitPubcomp then p == Pubrel(id, false) else p == Publish(id, m.qos, true, m.pub)
  }

  ghost predicate IsResent(s: Sender, p: Packet, due: set<int>) {
    exists id :: id in due && id in s.out && Repeats(p, id, s.out[id])
  }

  lemma {:induction false} ResendsAre(s: Sender, ms: seq<Message>, due: set<int>)
    requires Distinct(ms) && forall i :: 0 <= i < |ms| ==> ms[i].msgid in s.out && s.out[ms[i].msgid] == Abs(ms[i])
    ensures AllResent(s, Resends(ms, due), due) && NoneTwice(Resends(ms, due))
    ensures forall p :: p in Resends(ms, due) ==> p.id in Ids(ms)
    ensures |Resends(ms, due)| == |Ids(ms) * due|
  {
    if ms != [] {
      var x, front := ms[|ms| - 1], ms[..|ms| - 1];
      ResendsAre(s, front, due);
      IdsOfFront(ms);
      IsRepeat(x);
      assert x.msgid in s.out && s.out[x.msgid] == Abs(x);
      hide Abs, Resent, Distinct, Ids, Repeats, AllResent, NoneTwice;
      if x.msgid in due {
        assert Ids(ms) * due == Ids(front) * due + {x.msgid};
        OneMoreResent(s, Resends(front, due), Resent(x.msgid, Abs(x)), due);
      } else {
        assert Ids(ms) * due == Ids(front) * due;
      }
    } else {
      assert Ids(ms) * due == {};
    }
  }

  lemma OneMoreResent(s: Sender, ps: seq<Packet>, p: Packet, due: set<int>)
    requires AllResent(s, ps, due) && NoneTwice(ps) && p.id in due && p.id in s.out && Repeats(p, p.id, s.out[p.id])
    requires forall q :: q in ps ==> q.id != p.id
    ensures AllResent(s, ps + [p], due) && NoneTwice(ps + [p])
  {
    hide Repeats;
    assert IsResent(s, p, due);
  }

  lemma IsRepeat(x: Message)
    ensures Repeats(Resent(x.msgid, Abs(x)), x.msgid, Abs(x)) && Resent(x.msgid, Abs(x)).id == x.msgid
  {
  }

  lemma IdsOfFront(ms: seq<Message>)
    requires Distinct(ms) && ms != []
    ensures var front, x := ms[..|ms| - 1], ms[|ms| - 1];
      Distinct(front) && Ids(ms) == Ids(front) + {x.msgid} && x.msgid !in Ids(front)
  {
    var front := ms[..|ms| - 1];
    assert forall i :: 0 <= i < |front| ==> front[i] == ms[i];
    assert forall id :: id in Ids(ms) ==> id in Ids(front) + {ms[|ms| - 1].msgid};
  }

  // A publication in flight counts as accepted from then on
  lemma MovesKeepAccepted(v: World, w: World, act: Action)
    requires Moves(v, w, act)
    ensures v.n.accepted <= w.n.accepted
  {
  }

  // ---------------- publications of other QoS stay apart ----------------

  ghost predicate Apart(n: Net) {
    && (forall i :: 0 <= i < |n.toR| && n.toR[i].Publish? && n.toR[i].qos != 2 ==>
      n.toR[i].pub !in n.accepted && n.toR[i].pub.serial < n.serial)
    && (forall id :: id in n.s.out && n.s.out[id].qos != 2 ==> n.s.out[id].pub !in n.accepted)
    && (forall i :: 0 <= i < |n.toR| && n.toR[i].Publish? ==> 0 <= n.toR[i].qos <= 2 && InRange(n.toR[i].id))
    && (forall i :: 0 <= i < |n.toS| ==> n.toS[i].Puback? || n.toS[i].Pubrec? || n.toS[i].Pubcomp?)
    && (forall id :: id in n.s.out ==> Assignable(id))
  }

  lemma PublishKeepsApart(n: Net, m: Net, step: Step)
    requires Inv(n) && Apart(n) && step.DoPublish? && Next(n, m, step)
    ensures Apart(m)
  {
    hide Exchange;
  }

  lemma SenderKeepsApart(n: Net, m: Net, step: Step)
    requires Inv(n) && Apart(n) && step.SenderReceives? && Next(n, m, step)
    ensures Apart(m)
  {
    hide Exchange, Books;
  }

  lemma ReceiverKeepsApart(n: Net, m: Net, step: Step)
    requires Inv(n) && Apart(n) && step.ReceiverReceives? && Next(n, m, step)
    ensures Apart(m)
  {
    hide Exchange, Books;
  }

  lemma ChannelKeepsApart(n: Net, m: Net, step: Step)
    requires Inv(n) && Apart(n) && (step.Retry? || step.Lose?) && Next(n, m, step)
    ensures Apart(m)
  {
    hide Exchange;
  }

  // A round of retries is a sequence of single retries
  lemma {:induction false} RetriesKeep(n: Net, ps: seq<Packet>, due: set<int>)
    requires Inv(n) && Apart(n) && AllResent(n.s, ps, due)
    ensures var m := n.(toR := n.toR + ps);
      Inv(m) && Apart(m)
  {
    if ps == [] {
      assert n.(toR := n.toR + []) == n;
    } else {
      var rest, p := ps[..|ps| - 1], ps[|ps| - 1];
      assert forall i :: 0 <= i < |rest| ==> rest[i] == ps[i];
      assert IsResent(n.s, p, due);
      hide Inv, Apart;
      RetriesKeep(n, rest, due);
      var m, m' := n.(toR := n.toR + rest), n.(toR := n.toR + ps);
      var id :| id in due && id in n.s.out && Repeats(p, id, n.s.out[id]);
      assert m'.toR == m.toR + [Resent(id, n.s.out[id])];
      assert Next(m, m', Retry(id));
      ChannelKeepsInv(m, m', Retry(id));
      ChannelKeepsApart(m, m', Retry(id));
    }
  }

  // What the application has got, seen from the QoS 2 publications
  ghost predicate AppAgrees(n: Net, app: seq<Publication>) {
    forall p :: p in n.accepted ==> multiset(app)[p] == multiset(n.delivered)[p]
  }

  ghost predicate AppKnown(n: Net, app: seq<Publication>) {
    forall i :: 0 <= i < |app| ==> app[i].serial < n.serial
  }

  // Every QoS 2 publication that the sender has accepted reaches the other application at most once, and has reached
  // it exactly once when the sender has dropped it
  ghost predicate AppExactlyOnce(n: Net, app: seq<Publication>) {
    && (forall p :: p in n.accepted ==> multiset(app)[p] <= 1)
    && (forall p :: p in n.accepted && !InFlight(n.s, p) ==> multiset(app)[p] == 1)
  }

  lemma AgreedOnce(n: Net, app: seq<Publication>)
    requires Inv(n) && AppAgrees(n, app)
    ensures AppExactlyOnce(n, app)
  {
    InvMeansExactlyOnce(n);
  }

  lemma AppAfterPublish(n: Net, m: Net, step: Step, app: seq<Publication>)
    requires Inv(n) && AppAgrees(n, app) && AppKnown(n, app) && step.DoPublish? && Next(n, m, step)
    ensures AppAgrees(m, app) && AppKnown(m, app)
  {
    hide Exchange;
    var pub := Publication(n.serial, step.topic, step.payload);
    assert pub !in app && pub !in n.delivered;
  }

  // What is delivered counts on both sides, or is no QoS 2 publication at all
  lemma AppGrows(n: Net, m: Net, app: seq<Publication>, d: seq<Publication>)
    requires AppAgrees(n, app) && AppKnown(n, app) && m.accepted == n.accepted && m.serial == n.serial
    requires forall i :: 0 <= i < |d| ==> d[i].serial < n.serial
    requires m.delivered == n.delivered + d ||
      (m.delivered == n.delivered && forall i :: 0 <= i < |d| ==> d[i] !in n.accepted)
    ensures AppAgrees(m, app + d) && AppKnown(m, app + d)
  {
    assert multiset(app + d) == multiset(app) + multiset(d);
    assert multiset(n.delivered + d) == multiset(n.delivered) + multiset(d);
  }

  lemma AppAfterDelivery(n: Net, m: Net, step: Step, app: seq<Publication>)
    requires Inv(n) && Apart(n) && AppAgrees(n, app) && AppKnown(n, app) && step.ReceiverReceives? && Next(n, m, step)
    ensures var app' := app + ReceiverOn(n.r, n.toR[0]).delivered;
      AppAgrees(m, app') && AppKnown(m, app')
  {
    var p := n.toR[0];
    assert p.Publish? || p.Pubrel?;
    if p.Pubrel? && p.id in n.r.inbound {
      assert Exchange(n, p.id);
      assert n.r.inbound[p.id] in n.accepted;
    }
    hide Exchange, Inv, Outgoing, AppAgrees, AppKnown;
    AppGrows(n, m, app, ReceiverOn(n.r, p).delivered);
  }

  ghost predicate Sound(n: Net, app: seq<Publication>) {
    Inv(n) && Apart(n) && AppAgrees(n, app) && AppKnown(n, app)
  }

  ghost predicate Linked(a: Client, b: Client, n: Net)
    reads a, b
  {
    && a != b && a.Valid() && b.Valid()
    && n.s == a.AsSender() && n.r == b.AsReceiver() && n.toR == a.toPeer && n.toS == b.toPeer
    && Sound(n, b.app)
  }

  ghost predicate Shows(a: Client, b: Client, w: World)
    reads a, b
  {
    Linked(a, b, w.n) && w.app == b.app && w.senderUp == a.connected && w.receiverUp == b.connected
  }

  lemma FreshNet(a: Client, b: Client) returns (n: Net)
    requires a != b && a.Valid() && b.Valid()
    requires a.outbound == [] && a.store == map[] && a.toPeer == []
    requires b.inbound == [] && b.store == map[] && b.toPeer == [] && b.app == []
    ensures Init(n) && Inv(n) && Linked(a, b, n)
  {
    n := Net(a.AsSender(), b.AsReceiver(), [], [], {}, [], 0);
    assert n.s == Sender(map[], map[], {}) && n.r == Receiver(map[], map[]);
    assert forall id :: Exchange(n, id);
  }

  lemma Published(n: Net, m: Net, id: int, qos: int, pub: Publication, sent: bool, app: seq<Publication>)
    requires Sound(n, app)
    requires Assignable(id) && id !in n.s.out && 1 <= qos <= 2 && pub.serial == n.serial
    requires m == n.(s := QosProtocol.StartPublish(n.s, id, qos, pub),
                     toR := Transmitted(n.toR, [Publish(id, qos, false, pub)], sent),
                     accepted := n.accepted + (if qos == 2 then {pub} else {}), serial := n.serial + 1)
    ensures Sound(m, app) && Next(n, m, DoPublish(id, qos, pub.topic, pub.payload, sent))
  {
    hide Inv, Apart, AppAgrees, AppKnown;
    var step := DoPublish(id, qos, pub.topic, pub.payload, sent);
    assert Next(n, m, step);
    PublishKeepsInv(n, m, step);
    PublishKeepsApart(n, m, step);
    AppAfterPublish(n, m, step, app);
  }

  lemma SenderMoved(n: Net, m: Net, p: Packet, r: Receiver, sent: bool, app: seq<Publication>)
    requires Sound(n, app) && n.toS != [] && p == n.toS[0]
    requires m == n.(s := SenderOn(n.s, p).0, toS := n.toS[1..],
                    toR := Transmitted(n.toR, SenderOn(n.s, p).1 + ReceiverOn(r, p).out, sent))
    ensures Sound(m, app) && Next(n, m, SenderReceives(sent))
  {
    assert ReceiverOn(r, p).out == [] && SenderOn(n.s, p).1 + [] == SenderOn(n.s, p).1;
    hide Inv, Apart, AppAgrees, AppKnown, SenderOn, ReceiverOn, Transmitted;
    assert Next(n, m, SenderReceives(sent));
    SenderStepped(n, m, sent, app);
  }

  lemma SenderStepped(n: Net, m: Net, sent: bool, app: seq<Publication>)
    requires Sound(n, app) && Next(n, m, SenderReceives(sent))
    ensures Sound(m, app)
  {
    hide Inv, Apart, AppAgrees, AppKnown, SenderOn, Transmitted;
    SenderKeepsInv(n, m, SenderReceives(sent));
    SenderKeepsApart(n, m, SenderReceives(sent));
    SameApp(n, m, app);
  }

  lemma ReceiverMoved(n: Net, m: Net, p: Packet, s: Sender, sent: bool, app: seq<Publication>)
    requires Sound(n, app) && n.toR != [] && p == n.toR[0]
    requires var x := ReceiverOn(n.r, p);
      m == n.(r := x.r, toR := n.toR[1..], toS := Transmitted(n.toS, SenderOn(s, p).1 + x.out, sent),
              delivered := n.delivered + if p.Pubrel? then x.delivered else [])
    ensures Sound(m, app + ReceiverOn(n.r, p).delivered) && Next(n, m, ReceiverReceives(sent))
  {
    assert SenderOn(s, p).1 == [] && [] + ReceiverOn(n.r, p).out == ReceiverOn(n.r, p).out;
    hide Inv, Apart, AppAgrees, AppKnown, SenderOn, ReceiverOn, Transmitted;
    assert Next(n, m, ReceiverReceives(sent));
    ReceiverStepped(n, m, sent, app);
  }

  lemma ReceiverStepped(n: Net, m: Net, sent: bool, app: seq<Publication>)
    requires Sound(n, app) && Next(n, m, ReceiverReceives(sent))
    ensures Sound(m, app + ReceiverOn(n.r, n.toR[0]).delivered)
  {
    hide Inv, Apart, AppAgrees, AppKnown, ReceiverOn, Transmitted;
    ReceiverKeepsInv(n, m, ReceiverReceives(sent));
    ReceiverKeepsApart(n, m, ReceiverReceives(sent));
    AppAfterDelivery(n, m, ReceiverReceives(sent), app);
  }

  lemma Retried(n: Net, m: Net, due: set<int>, room: nat, up: bool, stillUp: bool, app: seq<Publication>)
    requires Sound(n, app) && RetriesTo(n, m, due, room, up, stillUp)
    ensures Sound(m, app)
  {
    hide Inv, Apart, AppAgrees, AppKnown, AllResent, NoneTwice, DueOf;
    RetriesKeep(n, m.toR[|n.toR|..], due);
    SameApp(n, m, app);
  }

  lemma Lost(n: Net, m: Net, keepToR: nat, keepToS: nat, app: seq<Publication>)
    requires Sound(n, app) && Next(n, m, QosProtocol.Step.Lose(keepToR, keepToS))
    ensures Sound(m, app)
  {
    hide Inv, Apart, AppAgrees, AppKnown;
    ChannelKeepsInv(n, m, QosProtocol.Step.Lose(keepToR, keepToS));
    ChannelKeepsApart(n, m, QosProtocol.Step.Lose(keepToR, keepToS));
    SameApp(n, m, app);
  }

  // A publication with QoS 0 changes no exchange
  lemma PassedKeeps(n: Net, m: Net, topic: string, payload: seq<int>, sent: bool, app: seq<Publication>)
    requires Sound(n, app) && Passes(n, m, topic, payload, sent)
    ensures Sound(m, app)
  {
    PassedKeepsInv(n, m, topic, payload, sent);
    PassedKeepsApart(n, m, topic, payload, sent);
  }

  lemma PassedKeepsInv(n: Net, m: Net, topic: string, payload: seq<int>, sent: bool)
    requires Inv(n) && Passes(n, m, topic, payload, sent)
    ensures Inv(m)
  {
    forall k ensures Exchange(m, k) {
      assert Exchange(n, k);
    }
  }

  lemma PassedKeepsApart(n: Net, m: Net, topic: string, payload: seq<int>, sent: bool)
    requires Inv(n) && Apart(n) && Passes(n, m, topic, payload, sent)
    ensures Apart(m)
  {
    hide Exchange;
    assert Publication(n.serial, topic, payload) !in n.accepted;
  }

  // A crash in a handler is a step of the protocol
  lemma AckCrashed(n: Net, m: Net, step: Step, app: seq<Publication>)
    requires Sound(n, app) && CrashesIn(n, step) && Next(n, m, step)
    ensures Sound(m, app) && m.serial == n.serial
  {
    hide Apart, AppAgrees, AppKnown, Exchange;
    CrashIsLostStep(n, m, step);
    hide Inv;
    SenderKeepsInv(n, m, SenderReceives(false));
    SenderKeepsApart(n, m, SenderReceives(false));
    SameApp(n, m, app);
  }

  lemma PublishCrashed(n: Net, m: Net, step: Step, app: seq<Publication>)
    requires Sound(n, app) && step.CrashInPublish? && Next(n, m, step)
    ensures Sound(m, app) && m.serial == n.serial + 1
  {
    hide Apart, AppAgrees, AppKnown, Exchange;
    CrashIsLostStep(n, m, step);
    hide Inv;
    var lost := DoPublish(step.id, step.qos, step.topic, step.payload, false);
    PublishKeepsInv(n, m, lost);
    PublishKeepsApart(n, m, lost);
    AppAfterPublish(n, m, lost, app);
  }

  // A publish call with QoS 0
  method PassOne(a: Client, b: Client, topic: string, payload: seq<int>, serial: nat, ghost n: Net)
    returns (ghost m: Net)
    requires Linked(a, b, n) && n.serial == serial
    modifies a
    ensures Linked(a, b, m) && m.serial == serial + 1 && Passes(n, m, topic, payload, a.connected)
    ensures a.connected == old(a.connected)
  {
    hide Sound, Mirrors, SenderOf, ReceiverOf;
    a.StartPublishQoS0(Publication(serial, topic, payload));
    m := n.(toR := a.toPeer, serial := n.serial + 1);
    PassedKeeps(n, m, topic, payload, a.connected, b.app);
  }

  // The process of the sender ends inside the handler of PUBREC or PUBCOMP
  method CrashOne(a: Client, b: Client, ghost n: Net) returns (ghost m: Net)
    requires Linked(a, b, n)
    modifies a, b`toPeer
    ensures Linked(a, b, m) && m.serial == n.serial && b.app == old(b.app) && b.connected == old(b.connected)
    ensures CrashedAt(n, m, old(a.connected), a.connected)
  {
    m := n;
    hide Sound, Client.Valid, Client.AsSender, Client.AsReceiver;
    if b.toPeer != [] {
      var p := b.toPeer[0];
      if p.Pubrec? {
        m := CrashRec(a, b, p.id, n);
      } else if p.Pubcomp? {
        m := CrashComp(a, b, p.id, n);
      }
    }
  }

  ghost predicate CrashedAt(n: Net, m: Net, up: bool, stillUp: bool) {
    if CrashesIn(n, CrashInPubrec) then Next(n, m, CrashInPubrec) && !stillUp
    else if CrashesIn(n, CrashInPubcomp) then Next(n, m, CrashInPubcomp) && !stillUp
    else m == n && stillUp == up
  }

  lemma RecMoves(n: Net, m: Net, id: int, app: seq<Publication>)
    requires Sound(n, app) && n.toS != [] && n.toS[0] == Pubrec(id) && TakesPubrec(n.s, id)
    requires m == n.(s := RestoreSender(n.s.(released := n.s.released + {id})), toS := n.toS[1..])
    ensures Sound(m, app) && m.serial == n.serial && forall up :: CrashedAt(n, m, up, false)
  {
    assert CrashesIn(n, CrashInPubrec) && Next(n, m, CrashInPubrec);
    hide Sound, RestoreSender, Next, TakesPubrec;
    AckCrashed(n, m, CrashInPubrec, app);
  }

  lemma CompMoves(n: Net, m: Net, id: int, app: seq<Publication>)
    requires Sound(n, app) && n.toS != [] && n.toS[0] == Pubcomp(id) && TakesPubcomp(n.s, id)
    requires m == n.(s := RestoreSender(n.s.(sent := n.s.sent - {id})), toS := n.toS[1..])
    ensures Sound(m, app) && m.serial == n.serial && forall up :: CrashedAt(n, m, up, false)
  {
    assert CrashesIn(n, CrashInPubcomp) && Next(n, m, CrashInPubcomp);
    hide Sound, RestoreSender, Next, TakesPubcomp;
    AckCrashed(n, m, CrashInPubcomp, app);
  }

  method CrashRec(a: Client, b: Client, id: int, ghost n: Net) returns (ghost m: Net)
    requires Linked(a, b, n) && b.toPeer != [] && b.toPeer[0] == Pubrec(id)
    modifies a, b`toPeer
    ensures Linked(a, b, m) && m.serial == n.serial && b.app == old(b.app) && b.connected == old(b.connected)
    ensures CrashedAt(n, m, old(a.connected), a.connected)
  {
    hide Sound, Mirrors, SenderOf, ReceiverOf, RestoreSender, TakesPubrec, TakesPubcomp, Next;
    var i := Client.FindItem(a.outbound, id);
    AwaitsExactly(a, id);
    if i >= 0 && a.outbound[i].qos == 2 && a.outbound[i].next != PUBCOMP {
      b.toPeer := b.toPeer[1..];
      a.CrashInPubrec(id);
      m := n.(s := RestoreSender(n.s.(released := n.s.released + {id})), toS := b.toPeer);
      RecMoves(n, m, id, b.app);
    } else {
      m := n;
    }
  }

  method CrashComp(a: Client, b: Client, id: int, ghost n: Net) returns (ghost m: Net)
    requires Linked(a, b, n) && b.toPeer != [] && b.toPeer[0] == Pubcomp(id)
    modifies a, b`toPeer
    ensures Linked(a, b, m) && m.serial == n.serial && b.app == old(b.app) && b.connected == old(b.connected)
    ensures CrashedAt(n, m, old(a.connected), a.connected)
  {
    hide Sound, Mirrors, SenderOf, ReceiverOf, RestoreSender, TakesPubrec, TakesPubcomp, Next;
    var i := Client.FindItem(a.outbound, id);
    AwaitsExactly(a, id);
    if i >= 0 && a.outbound[i].qos == 2 && a.outbound[i].next == PUBCOMP {
      b.toPeer := b.toPeer[1..];
      a.CrashInPubcomp(id);
      m := n.(s := RestoreSender(n.s.(sent := n.s.sent - {id})), toS := b.toPeer);
      CompMoves(n, m, id, b.app);
    } else {
      m := n;
    }
  }

  lemma AwaitsExactly(a: Client, id: int)
    requires a.Valid()
    ensures var i := IndexOf(a.outbound, id);
      && (TakesPubrec(a.AsSender(), id) <==> i >= 0 && a.outbound[i].qos == 2 && a.outbound[i].next != PUBCOMP)
      && (TakesPubcomp(a.AsSender(), id) <==> i >= 0 && a.outbound[i].qos == 2 && a.outbound[i].next == PUBCOMP)
  {
    var i := IndexOf(a.outbound, id);
    NoneOf(a.outbound, a.inbound, a.store, id);
    if i >= 0 { Awaits(a.outbound, a.inbound, a.store, i); }
  }

  // The process of the sender ends inside a publish call
  method CrashPublishing(a: Client, b: Client, act: Action, serial: nat, ghost n: Net) returns (next: nat, ghost m: Net)
    requires Linked(a, b, n) && n.serial == serial && act.CrashAtPublish? && 1 <= act.qos <= 2
    modifies a
    ensures Linked(a, b, m) && m.serial == next
    ensures || (m == n && Crowded(n.s) && a.connected == old(a.connected))
            || (CrashPublishes(n, m, act.qos, act.topic, act.payload) && !a.connected)
  {
    hide Sound, Mirrors, SenderOf, ReceiverOf, Ids, RestoreSender, Crowded, FirstFree;
    m := n;
    next := serial;
    AssignableIds(n, b.app);
    AllTakenIn(a);
    if |a.outbound| < MAX_MSG_ID {
      SomeFree(a.outbound, MAX_MSG_ID);
      ghost var start := a.msgID;
      var id, k := a.AssignMsgId();
      NoneOf(a.outbound, a.inbound, a.store, id);
      if id == 0 {
        NoneFree(a.outbound, start, k);
        CrowdedIn(a, start);
      } else {
        IsFree(a.outbound, start, id, k);
        var pub := Publication(serial, act.topic, act.payload);
        a.CrashInPublish(id, act.qos, act.retain, pub);
        Shaped(a);
        m := n.(s := a.AsSender(), accepted := n.accepted + (if act.qos == 2 then {pub} else {}),
                serial := n.serial + 1);
        next := serial + 1;
        ghost var step := QosProtocol.Step.CrashInPublish(id, act.qos, act.topic, act.payload);
        assert Next(n, m, step);
        PublishCrashed(n, m, step, b.app);
      }
    }
  }

  method PublishOne(a: Client, b: Client, act: Action, serial: nat, ghost n: Net) returns (next: nat, ghost m: Net)
    requires Linked(a, b, n) && n.serial == serial && act.DoPublishNow? && 1 <= act.qos <= 2
    modifies a
    ensures Linked(a, b, m) && m.serial == next && a.connected == old(a.connected)
    ensures Publishes(n, m, act.qos, act.topic, act.payload, a.connected)
  {
    hide Sound, Mirrors, SenderOf, ReceiverOf, Ids, QosProtocol.StartPublish, Transmitted, Next, Crowded, FirstFree;
    m := n;
    next := serial;
    AssignableIds(n, b.app);
    AllTakenIn(a);
    if |a.outbound| < MAX_MSG_ID {
      SomeFree(a.outbound, MAX_MSG_ID);
      ghost var start := a.msgID;
      var id, k := a.AssignMsgId();
      NoneOf(a.outbound, a.inbound, a.store, id);
      if id == 0 {
        NoneFree(a.outbound, start, k);
        CrowdedIn(a, start);
      } else {
        IsFree(a.outbound, start, id, k);
        var pub := Publication(serial, act.topic, act.payload);
        a.StartPublish(id, act.qos, act.retain, pub, act.unset);
        Shaped(a);
        m := n.(s := a.AsSender(), toR := a.toPeer,
                accepted := n.accepted + (if act.qos == 2 then {pub} else {}), serial := n.serial + 1);
        next := serial + 1;
        Published(n, m, id, act.qos, pub, a.connected, b.app);
      }
    }
  }

  lemma Shaped(c: Client)
    requires c.Valid()
    ensures Shape(c.store)
  {
  }

  lemma IsFree(ms: seq<Message>, start: int, id: int, k: int)
    requires FirstFree(ms, start, id, k) && id != 0
    ensures id !in Ids(ms)
  {
  }

  lemma CrowdedIn(a: Client, start: int)
    requires a.Valid() && forall id :: Assignable(id) && id != start ==> id in Ids(a.outbound)
    ensures Crowded(a.AsSender())
  {
    forall id | Assignable(id) && id != start ensures id in a.AsSender().out {
      NoneOf(a.outbound, a.inbound, a.store, id);
    }
    assert TakenBut(a.AsSender(), start);
  }

  lemma AllTakenIn(a: Client)
    requires a.Valid() && forall id :: id in a.AsSender().out ==> Assignable(id)
    ensures |a.outbound| >= MAX_MSG_ID ==> Crowded(a.AsSender())
  {
    assert Distinct(a.outbound);
    forall i | 0 <= i < |a.outbound| ensures Assignable(a.outbound[i].msgid) { AtIndex(a.outbound, i); }
    AllTaken(a.outbound, MAX_MSG_ID);
    if |a.outbound| >= MAX_MSG_ID { CrowdedIn(a, 0); }
  }

  lemma AssignableIds(n: Net, app: seq<Publication>)
    requires Sound(n, app)
    ensures forall id :: id in n.s.out ==> Assignable(id)
  {
  }

  lemma HeadOf(n: Net, app: seq<Publication>)
    requires Sound(n, app)
    ensures n.toS != [] ==> !n.toS[0].Publish?
    ensures n.toR != [] ==> var p := n.toR[0]; p.Publish? ==> 0 <= p.qos <= 2 && InRange(p.id)
  {
  }

  // The next packet of the connection reaches the sender
  method ToSender(a: Client, b: Client, ghost n: Net) returns (ghost m: Net)
    requires Linked(a, b, n) && b.toPeer != []
    modifies a, b`toPeer
    ensures Linked(a, b, m) && m.serial == n.serial && a.connected == old(a.connected)
    ensures Next(n, m, SenderReceives(a.connected))
  {
    ghost var r := a.AsReceiver();
    hide Sound, Next, Client.Valid, Client.AsSender, Client.AsReceiver, SenderOn, ReceiverOn, Transmitted;
    HeadOf(n, b.app);
    var p := b.toPeer[0];
    b.toPeer := b.toPeer[1..];
    a.HandlePacket(p, false);
    m := n.(s := SenderOn(n.s, p).0, toS := b.toPeer, toR := a.toPeer);
    SenderMoved(n, m, p, r, a.connected, b.app);
  }

  lemma SameApp(n: Net, m: Net, app: seq<Publication>)
    requires AppAgrees(n, app) && AppKnown(n, app)
    requires m.accepted == n.accepted && m.delivered == n.delivered && m.serial == n.serial
    ensures AppAgrees(m, app) && AppKnown(m, app)
  {
  }

  // The next packet of the connection reaches the receiver
  method ToReceiver(a: Client, b: Client, retain: bool, ghost n: Net) returns (ghost m: Net)
    requires Linked(a, b, n) && a.toPeer != []
    modifies a`toPeer, b
    ensures Linked(a, b, m) && m.serial == n.serial && b.connected == old(b.connected)
    ensures Next(n, m, ReceiverReceives(b.connected)) && b.app == old(b.app) + GivenFor(n.toR[0], n.r.inbound)
  {
    ghost var s, app := b.AsSender(), b.app;
    hide Sound, Next, Client.Valid, Client.AsSender, Client.AsReceiver, SenderOn, ReceiverOn, Transmitted;
    HeadOf(n, b.app);
    var p := a.toPeer[0];
    a.toPeer := a.toPeer[1..];
    b.HandlePacket(p, retain);
    m := n.(r := ReceiverOn(n.r, p).r, toR := a.toPeer, toS := b.toPeer,
            delivered := n.delivered + if p.Pubrel? then ReceiverOn(n.r, p).delivered else []);
    ReceiverMoved(n, m, p, s, b.connected, app);
  }

  method RetryRound(a: Client, b: Client, due: set<int>, room: nat, last: Ending, ghost n: Net) returns (ghost m: Net)
    requires Linked(a, b, n)
    modifies a
    ensures Linked(a, b, m) && m.serial == n.serial && RetriesTo(n, m, due, room, old(a.connected), a.connected)
  {
    hide Sound, Mirrors, SenderOf, ReceiverOf, Resends, IsRetry;
    ghost var k := a.Retries(due, room, last);
    forall i | 0 <= i < |a.outbound|
      ensures a.outbound[i].msgid in n.s.out && n.s.out[a.outbound[i].msgid] == Abs(a.outbound[i])
    {
      Awaits(a.outbound, a.inbound, a.store, i);
    }
    m := n.(toR := n.toR + Resends(a.outbound[..k], due));
    DueIs(a, due);
    RoundIs(n, m, a.outbound, due, room, last, k, old(a.connected), a.connected);
    Retried(n, m, due, room, old(a.connected), a.connected, b.app);
  }

  // How many packets a round of retries sends
  lemma RoundIs(n: Net, m: Net, ms: seq<Message>, due: set<int>, room: nat, last: Ending, k: nat, up: bool,
      stillUp: bool)
    requires Distinct(ms) && k <= |ms| && DueOf(n.s, due) == Ids(ms) * due
    requires forall i :: 0 <= i < |ms| ==> ms[i].msgid in n.s.out && n.s.out[ms[i].msgid] == Abs(ms[i])
    requires m == n.(toR := n.toR + Resends(ms[..k], due))
    requires |Resends(ms[..k], due)| <= room && (!up ==> k == 0 && !stillUp)
    requires stillUp ==> k == |ms| || |Resends(ms[..k], due)| == room
    requires up && !stillUp ==> Closes(ms, due, room, last, k)
    ensures RetriesTo(n, m, due, room, up, stillUp)
  {
    var ps := Resends(ms[..k], due);
    assert m.toR[|n.toR|..] == ps;
    FrontDistinct(ms, k);
    hide Abs, Released;
    ResendsAre(n.s, ms[..k], due);
    hide Distinct, Ids, AllResent, NoneTwice, DueOf;
    ResendsCount(n.s, ms, due, k);
    if up && !stillUp {
      ResendsMore(ms, due, k);
      ResendsCount(n.s, ms, due, k + 1);
    }
  }

  // A part of the list resends no more than the whole, which resends what is due
  lemma ResendsCount(s: Sender, ms: seq<Message>, due: set<int>, k: nat)
    requires Distinct(ms) && k <= |ms|
    requires forall i :: 0 <= i < |ms| ==> ms[i].msgid in s.out && s.out[ms[i].msgid] == Abs(ms[i])
    ensures |Resends(ms[..k], due)| <= |Ids(ms) * due|
    ensures k == |ms| ==> |Resends(ms[..k], due)| == |Ids(ms) * due|
  {
    assert ms[..|ms|] == ms;
    hide Abs, Ids, Distinct;
    ResendsAre(s, ms, due);
    hide AllResent, NoneTwice;
    ResendsGrow(ms, due, k, |ms|);
  }

  lemma FrontDistinct(ms: seq<Message>, k: nat)
    requires Distinct(ms) && k <= |ms|
    ensures Distinct(ms[..k])
  {
  }

  lemma {:induction false} ResendsGrow(ms: seq<Message>, due: set<int>, i: nat, j: nat)
    requires i <= j <= |ms|
    ensures |Resends(ms[..i], due)| <= |Resends(ms[..j], due)|
    decreases j
  {
    if i < j {
      ResendsGrow(ms, due, i, j - 1);
      ResendsMore(ms, due, j - 1);
    }
  }

  lemma DueIs(a: Client, due: set<int>)
    requires a.Valid()
    ensures DueOf(a.AsSender(), due) == Ids(a.outbound) * due && Distinct(a.outbound)
  {
    forall id ensures id in a.AsSender().out <==> id in Ids(a.outbound) {
      NoneOf(a.outbound, a.inbound, a.store, id);
    }
  }

  method Lose(a: Client, b: Client, keepToR: nat, keepToS: nat, ghost n: Net) returns (ghost m: Net)
    requires Linked(a, b, n) && keepToR <= |a.toPeer| && keepToS <= |b.toPeer|
    modifies a`toPeer, b`toPeer
    ensures Linked(a, b, m) && m.serial == n.serial && Next(n, m, QosProtocol.Step.Lose(keepToR, keepToS))
  {
    hide Sound, Mirrors, SenderOf, ReceiverOf;
    a.toPeer := a.toPeer[..keepToR];
    b.toPeer := b.toPeer[..keepToS];
    m := n.(toR := a.toPeer, toS := b.toPeer);
    Lost(n, m, keepToR, keepToS, b.app);
  }

  method RestartOne(c: Client)
    requires c.Valid()
    modifies c
    ensures c.Valid() && c.AsSender() == old(c.AsSender()) && c.AsReceiver() == old(c.AsReceiver())
    ensures c.app == old(c.app) && c.toPeer == old(c.toPeer) && !c.connected
  {
    var keys := StoreKeys.KeysOf(c.store);
    NoneBad(c.store, keys);
    hide SenderOf, ReceiverOf, Mirrors, Late, Spared, Undisturbed, ComesBack, SameList, RestoredSender;
    var left := c.Restart(keys, {});
  }

  // An action that is not possible in the present state does nothing
  method Act(a: Client, b: Client, act: Action, serial: nat, ghost v: World) returns (next: nat, ghost w: World)
    requires Shows(a, b, v) && v.n.serial == serial
    modifies a, b
    ensures Shows(a, b, w) && w.n.serial == next && Moves(v, w, act)
  {
    hide Sound, Mirrors, SenderOf, ReceiverOf, Ids, ComesBack, SameList, Next, Passes, Publishes, CrashPublishes,
      RetriesTo, GivenFor, Crowded;
    ghost var m := v.n;
    next := serial;
    match act {
      case DoPublishNow(qos, _, topic, payload, _) =>
        if qos == 0 {
          m := PassOne(a, b, topic, payload, serial, v.n);
          next := serial + 1;
        } else if 1 <= qos <= 2 {
          next, m := PublishOne(a, b, act, serial, v.n);
        }
      case DeliverToSender =>
        if b.toPeer != [] {
          m := ToSender(a, b, v.n);
        }
      case DeliverToReceiver(retain) =>
        if a.toPeer != [] {
          m := ToReceiver(a, b, retain, v.n);
        }
      case RetryDue(due, room, last) =>
        m := RetryRound(a, b, due, room, last, v.n);
      case Connect(senderUp, receiverUp) =>
        a.connected, b.connected := senderUp, receiverUp;
      case LoseInFlight(keepToR, keepToS) =>
        if keepToR <= |a.toPeer| && keepToS <= |b.toPeer| {
          m := Lose(a, b, keepToR, keepToS, v.n);
        }
      case RestartSender =>
        RestartOne(a);
      case RestartReceiver =>
        RestartOne(b);
      case CrashAtAck =>
        m := CrashOne(a, b, v.n);
      case CrashAtPublish(qos, _, _, _) =>
        if 1 <= qos <= 2 {
          next, m := CrashPublishing(a, b, act, serial, v.n);
        }
    }
    w := World(m, b.app, a.connected, b.connected);
  }

  lemma MovesKeepSound(v: World, w: World, act: Action)
    requires Sound(v.n, v.app) && Moves(v, w, act)
    ensures Sound(w.n, w.app)
  {
    hide Sound, Next, Passes, Publishes, CrashPublishes, RetriesTo, GivenFor, Crowded, CrashesIn;
    match act {
      case DoPublishNow(qos, _, topic, payload, _) =>
        if qos == 0 { PassedKeeps(v.n, w.n, topic, payload, v.senderUp, v.app); }
        if 1 <= qos <= 2 { PublishesSound(v.n, w.n, act, v.senderUp, v.app); }
      case DeliverToSender =>
        if v.n.toS != [] { SenderStepped(v.n, w.n, v.senderUp, v.app); }
      case DeliverToReceiver(_) =>
        if v.n.toR != [] {
          GivenIs(v.n, v.app);
          ReceiverStepped(v.n, w.n, v.receiverUp, v.app);
        }
      case RetryDue(due, room, _) => Retried(v.n, w.n, due, room, v.senderUp, w.senderUp, v.app);
      case LoseInFlight(keepToR, keepToS) =>
        if keepToR <= |v.n.toR| && keepToS <= |v.n.toS| { Lost(v.n, w.n, keepToR, keepToS, v.app); }
      case CrashAtAck =>
        if CrashesIn(v.n, CrashInPubrec) {
          AckCrashed(v.n, w.n, CrashInPubrec, v.app);
        } else if CrashesIn(v.n, CrashInPubcomp) {
          AckCrashed(v.n, w.n, CrashInPubcomp, v.app);
        }
      case CrashAtPublish(qos, _, topic, payload) =>
        if 1 <= qos <= 2 && w != v { CrashPublishesSound(v.n, w.n, act, v.app); }
      case _ =>
    }
  }

  lemma PublishesSound(n: Net, m: Net, act: Action, sent: bool, app: seq<Publication>)
    requires Sound(n, app) && act.DoPublishNow? && Publishes(n, m, act.qos, act.topic, act.payload, sent)
    ensures Sound(m, app)
  {
    hide Sound, Crowded;
    if !(m == n && Crowded(n.s)) {
      var id :| Next(n, m, DoPublish(id, act.qos, act.topic, act.payload, sent));
      Published(n, m, id, act.qos, Publication(n.serial, act.topic, act.payload), sent, app);
    }
  }

  lemma CrashPublishesSound(n: Net, m: Net, act: Action, app: seq<Publication>)
    requires Sound(n, app) && act.CrashAtPublish? && CrashPublishes(n, m, act.qos, act.topic, act.payload)
    ensures Sound(m, app)
  {
    hide Next;
    var id :| Next(n, m, QosProtocol.Step.CrashInPublish(id, act.qos, act.topic, act.payload));
    PublishCrashed(n, m, QosProtocol.Step.CrashInPublish(id, act.qos, act.topic, act.payload), app);
  }

  lemma GivenIs(n: Net, app: seq<Publication>)
    requires Sound(n, app) && n.toR != []
    ensures GivenFor(n.toR[0], n.r.inbound) == ReceiverOn(n.r, n.toR[0]).delivered
  {
    HeadOf(n, app);
  }

  lemma InitSound(n: Net)
    requires Init(n)
    ensures Sound(n, [])
  {
  }

  // The states that a script goes through
  ghost predicate Traced(trace: seq<World>, script: seq<Action>) {
    && |trace| == |script| + 1 && Init(trace[0].n) && trace[0].app == []
    && forall i :: 0 <= i < |script| ==> Moves(trace[i], trace[i + 1], script[i])
  }

  lemma {:induction false} TraceSound(trace: seq<World>, script: seq<Action>, i: nat)
    requires Traced(trace, script) && i <= |script|
    ensures Sound(trace[i].n, trace[i].app)
  {
    if i == 0 {
      InitSound(trace[0].n);
    } else {
      TraceSound(trace, script, i - 1);
      MovesKeepSound(trace[i - 1], trace[i], script[i - 1]);
    }
  }

  lemma {:induction false} AcceptedSince(trace: seq<World>, script: seq<Action>, i: nat, j: nat)
    requires Traced(trace, script) && i <= j <= |script|
    ensures trace[i].n.accepted <= trace[j].n.accepted
    decreases j
  {
    if i < j {
      AcceptedSince(trace, script, i, j - 1);
      MovesKeepAccepted(trace[j - 1], trace[j], script[j - 1]);
    }
  }

  // A QoS 2 publication that was in flight at some point of the script has reached the application at most once at
  // its end, and exactly once when it is in flight no more
  ghost predicate ReachedOnce(trace: seq<World>, script: seq<Action>)
    requires Traced(trace, script)
  {
    forall i, p :: 0 <= i <= |script| && InFlight(trace[i].n.s, p) ==>
      var w := trace[|script|];
      multiset(w.app)[p] <= 1 && (!InFlight(w.n.s, p) ==> multiset(w.app)[p] == 1)
  }

  lemma TraceGrows(trace: seq<World>, script: seq<Action>, act: Action, w: World)
    requires Traced(trace, script) && Moves(trace[|script|], w, act)
    ensures Traced(trace + [w], script + [act])
  {
    hide Moves, Init;
    var t := trace + [w];
    forall i | 0 <= i < |script| + 1 ensures Moves(t[i], t[i + 1], (script + [act])[i]) {
      assert t[i] == trace[i];
    }
  }

  lemma TraceReachesOnce(trace: seq<World>, script: seq<Action>)
    requires Traced(trace, script)
    ensures ReachedOnce(trace, script)
  {
    hide Moves, Init;
    var w := trace[|script|];
    TraceSound(trace, script, |script|);
    AgreedOnce(w.n, w.app);
    forall i, p | 0 <= i <= |script| && InFlight(trace[i].n.s, p)
      ensures multiset(w.app)[p] <= 1 && (!InFlight(w.n.s, p) ==> multiset(w.app)[p] == 1)
    {
      TraceSound(trace, script, i);
      assert p in trace[i].n.accepted by { InFlightAccepted(trace[i].n, p); }
      AcceptedSince(trace, script, i, |script|);
    }
  }

  lemma InFlightAccepted(n: Net, p: Publication)
    requires Inv(n) && InFlight(n.s, p)
    ensures p in n.accepted
  {
  }

  // A run of any length: whatever the schedule, the losses and the restarts
  method Run(a: Client, b: Client, script: seq<Action>) returns (ghost trace: seq<World>)
    requires a != b && a.Valid() && b.Valid()
    requires a.outbound == [] && a.store == map[] && a.toPeer == []
    requires b.inbound == [] && b.store == map[] && b.toPeer == [] && b.app == []
    modifies a, b
    ensures Traced(trace, script) && Shows(a, b, trace[|script|])
    ensures trace[0].senderUp == old(a.connected) && trace[0].receiverUp == old(b.connected)
    ensures ReachedOnce(trace, script)
  {
    hide *;
    ghost var w := FreshWorld(a, b);
    OneState(w);
    trace := [w];
    var serial := 0;
    for i := 0 to |script|
      invariant Traced(trace, script[..i]) && |trace| == i + 1 && trace[i] == w
      invariant Shows(a, b, w) && w.n.serial == serial
      invariant trace[0].senderUp == old(a.connected) && trace[0].receiverUp == old(b.connected)
    {
      ghost var next;
      serial, next := Act(a, b, script[i], serial, w);
      TraceGrows(trace, script[..i], script[i], next);
      w, trace := next, trace + [next];
      assert script[..i + 1] == script[..i] + [script[i]];
    }
    assert script[..|script|] == script;
    TraceReachesOnce(trace, script);
  }

  lemma OneState(w: World)
    requires Init(w.n) && w.app == []
    ensures w.n.serial == 0 && Traced([w], [])
  {
  }

  lemma FreshWorld(a: Client, b: Client) returns (w: World)
    requires a != b && a.Valid() && b.Valid()
    requires a.outbound == [] && a.store == map[] && a.toPeer == []
    requires b.inbound == [] && b.store == map[] && b.toPeer == [] && b.app == []
    ensures Init(w.n) && w.app == [] && Shows(a, b, w)
    ensures w.senderUp == a.connected && w.receiverUp == b.connected && w.n.serial == 0
  {
    var n := FreshNet(a, b);
    w := World(n, b.app, a.connected, b.connected);
  }
}
