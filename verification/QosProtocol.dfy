/** The QoS 2 exchange between one sending client and one receiving client, over one lossy
    first-in first-out channel in each direction. */
module QosProtocol {

  // A publication; `serial` tells publish calls apart and is looked at by no handler
  datatype Publication = Publication(serial: nat, topic: string, payload: seq<int>)

  datatype Expected = AwaitPuback | AwaitPubrec | AwaitPubcomp

  datatype OutMessage = OutMessage(qos: int, next: Expected, pub: Publication)

  datatype Packet =
    | Publish(id: int, qos: int, dup: bool, pub: Publication)
    | Puback(id: int)
    | Pubrec(id: int)
    | Pubrel(id: int, dup: bool)
    | Pubcomp(id: int)

  // Records of the sender's store: s-id and sc-id; of the receiver's store: r-id
  datatype Sender = Sender(out: map<int, OutMessage>, sent: map<int, (int, Publication)>, released: set<int>)

  datatype Receiver = Receiver(inbound: map<int, Publication>, received: map<int, Publication>)

  const MAX_MSG_ID := 65535

  // ---------------- the sender's handlers ----------------

  function Started(qos: int, pub: Publication): OutMessage {
    OutMessage(qos, if qos == 2 then AwaitPubrec else AwaitPuback, pub)
  }

  function StartPublish(s: Sender, id: int, qos: int, pub: Publication): Sender {
    s.(out := s.out[id := Started(qos, pub)], sent := s.sent[id := (qos, pub)])
  }

  function OnPuback(s: Sender, id: int): Sender {
    if id in s.out && s.out[id].qos == 1 then s.(out := s.out - {id}, sent := s.sent - {id}) else s
  }

  predicate TakesPubrec(s: Sender, id: int) {
    id in s.out && s.out[id].qos == 2 && s.out[id].next == AwaitPubrec
  }

  function OnPubrec(s: Sender, id: int): Sender {
    if TakesPubrec(s, id) then s.(out := s.out[id := s.out[id].(next := AwaitPubcomp)], released := s.released + {id})
      else s
  }

  predicate TakesPubcomp(s: Sender, id: int) {
    id in s.out && s.out[id].qos == 2 && s.out[id].next == AwaitPubcomp
  }

  function OnPubcomp(s: Sender, id: int): Sender {
    if TakesPubcomp(s, id) then Sender(s.out - {id}, s.sent - {id}, s.released - {id}) else s
  }

  function SenderOn(s: Sender, p: Packet): (Sender, seq<Packet>) {
    match p
    case Puback(id) => (OnPuback(s, id), [])
    case Pubrec(id) => (OnPubrec(s, id), if TakesPubrec(s, id) then [Pubrel(id, false)] else [])
    case Pubcomp(id) => (OnPubcomp(s, id), [])
    case _ => (s, [])
  }

  // What a retry sends for one outbound message
  function Resent(id: int, m: OutMessage): Packet {
    if m.qos == 2 && m.next == AwaitPubcomp then Pubrel(id, false) else Publish(id, m.qos, true, m.pub)
  }

  // ---------------- the receiver's handlers ----------------

  datatype Reaction = Reaction(r: Receiver, out: seq<Packet>, delivered: seq<Publication>)

  function OnPublish(r: Receiver, id: int, qos: int, pub: Publication): Reaction {
    if qos == 2 then
      Reaction(Receiver(r.inbound[id := pub], r.received[id := pub]), [Pubrec(id)], [])
    else if qos == 1 then
      Reaction(r, [Puback(id)], [pub])
    else if qos == 0 then
      Reaction(r, [], [pub])
    else
      Reaction(r, [], [])
  }

  function OnPubrel(r: Receiver, id: int, dup: bool): Reaction {
    if id in r.inbound then
      Reaction(Receiver(r.inbound - {id}, r.received - {id}), [Pubcomp(id)], [r.inbound[id]])
    else
      Reaction(r, if dup then [Pubcomp(id)] else [], [])
  }

  function ReceiverOn(r: Receiver, p: Packet): Reaction {
    match p
    case Publish(id, qos, _, pub) => OnPublish(r, id, qos, pub)
    case Pubrel(id, dup) => OnPubrel(r, id, dup)
    case _ => Reaction(r, [], [])
  }

  // ---------------- what a restart rebuilds from the store ----------------

  function RestoredMessage(s: Sender, id: int): OutMessage
    requires id in s.sent
  {
    var (qos, pub) := s.sent[id];
    if qos == 2 && id in s.released then OutMessage(qos, AwaitPubcomp, pub) else Started(qos, pub)
  }

  // Orphaned sc- records are deleted
  function RestoreSender(s: Sender): Sender {
    Sender(map id | id in s.sent :: RestoredMessage(s, id), s.sent, set id | id in s.released && id in s.sent)
  }

  function RestoreReceiver(r: Receiver): Receiver {
    Receiver(r.received, r.received)
  }

  // ---------------- the two clients and the channels ----------------

  datatype Net = Net(
    s: Sender, r: Receiver,
    toR: seq<Packet>, toS: seq<Packet>,
    accepted: set<Publication>,      // QoS 2 publications that have reached the sender's store
    delivered: seq<Publication>,     // QoS 2 publications given to the receiving application
    serial: nat)

  datatype Step =
    | DoPublish(id: int, qos: int, topic: string, payload: seq<int>, sent: bool)
    | SenderReceives(sent: bool)
    | ReceiverReceives(sent: bool)
    | Retry(id: int)
    | Lose(keepToR: nat, keepToS: nat)
    | SenderRestarts
    | ReceiverRestarts
    | CrashInPubrec    // after the sc- record is written, before the PUBREL is sent
    | CrashInPubcomp   // between the two removals
    | CrashInPublish(id: int, qos: int, topic: string, payload: seq<int>)  // after the s- record is written

  function Transmitted(channel: seq<Packet>, ps: seq<Packet>, ok: bool): seq<Packet> {
    if ok then channel + ps else channel
  }

  ghost predicate Next(n: Net, m: Net, step: Step) {
    match step
    case DoPublish(id, qos, topic, payload, sent) =>
      && 1 <= id <= MAX_MSG_ID && id !in n.s.out && 1 <= qos <= 2
      && var pub := Publication(n.serial, topic, payload);
      m == n.(s := StartPublish(n.s, id, qos, pub), toR := Transmitted(n.toR, [Publish(id, qos, false, pub)], sent),
              accepted := n.accepted + (if qos == 2 then {pub} else {}), serial := n.serial + 1)
    case SenderReceives(sent) =>
      && n.toS != []
      && var (s, ps) := SenderOn(n.s, n.toS[0]);
      m == n.(s := s, toS := n.toS[1..], toR := Transmitted(n.toR, ps, sent))
    case ReceiverReceives(sent) =>
      && n.toR != []
      && var x := ReceiverOn(n.r, n.toR[0]);
      m == n.(r := x.r, toR := n.toR[1..], toS := Transmitted(n.toS, x.out, sent),
              delivered := n.delivered + if n.toR[0].Pubrel? then x.delivered else [])
    case Retry(id) =>
      id in n.s.out && m == n.(toR := n.toR + [Resent(id, n.s.out[id])])
    case Lose(k, l) =>
      k <= |n.toR| && l <= |n.toS| && m == n.(toR := n.toR[..k], toS := n.toS[..l])
    case SenderRestarts =>
      m == n.(s := RestoreSender(n.s))
    case ReceiverRestarts =>
      m == n.(r := RestoreReceiver(n.r))
    case CrashInPubrec =>
      && n.toS != [] && n.toS[0].Pubrec? && TakesPubrec(n.s, n.toS[0].id)
      && m == n.(s := RestoreSender(n.s.(released := n.s.released + {n.toS[0].id})), toS := n.toS[1..])
    case CrashInPubcomp =>
      && n.toS != [] && n.toS[0].Pubcomp? && TakesPubcomp(n.s, n.toS[0].id)
      && m == n.(s := RestoreSender(n.s.(sent := n.s.sent - {n.toS[0].id})), toS := n.toS[1..])
    case CrashInPublish(id, qos, topic, payload) =>
      && 1 <= id <= MAX_MSG_ID && id !in n.s.out && 1 <= qos <= 2
      && var pub := Publication(n.serial, topic, payload);
      m == n.(s := RestoreSender(n.s.(sent := n.s.sent[id := (qos, pub)])),
              accepted := n.accepted + (if qos == 2 then {pub} else {}), serial := n.serial + 1)
  }

  ghost predicate Init(n: Net) {
    n == Net(Sender(map[], map[], {}), Receiver(map[], map[]), [], [], {}, [], 0)
  }

  // ---------------- the invariant ----------------

  ghost predicate Pub2(p: Packet, id: int) { p.Publish? && p.id == id && p.qos == 2 }
  ghost predicate Rel(p: Packet, id: int) { p.Pubrel? && p.id == id }

  ghost predicate NoPub(ch: seq<Packet>, id: int) { forall i :: 0 <= i < |ch| ==> !Pub2(ch[i], id) }
  ghost predicate NoRel(ch: seq<Packet>, id: int) { forall i :: 0 <= i < |ch| ==> !Rel(ch[i], id) }
  ghost predicate NoRec(ch: seq<Packet>, id: int) { forall i :: 0 <= i < |ch| ==> ch[i] != Pubrec(id) }
  ghost predicate NoComp(ch: seq<Packet>, id: int) { forall i :: 0 <= i < |ch| ==> ch[i] != Pubcomp(id) }
  ghost predicate PubsAre(ch: seq<Packet>, id: int, pub: Publication) {
    forall i :: 0 <= i < |ch| ==> Pub2(ch[i], id) ==> ch[i].pub == pub
  }
  ghost predicate RelsFirst(ch: seq<Packet>, id: int) {
    forall i, j :: 0 <= i < j < |ch| && Pub2(ch[i], id) ==> !Rel(ch[j], id)
  }
  ghost predicate PubsFirst(ch: seq<Packet>, id: int) {
    forall i, j :: 0 <= i < j < |ch| && Rel(ch[i], id) ==> !Pub2(ch[j], id)
  }
  // After the only PUBCOMP nothing more comes for this id
  ghost predicate CompLast(ch: seq<Packet>, id: int) {
    forall i, j :: 0 <= i < j < |ch| && ch[i] == Pubcomp(id) ==> ch[j] != Pubcomp(id) && ch[j] != Pubrec(id)
  }

  // Where the exchange under one message id stands
  ghost predicate Exchange(n: Net, id: int) {
    if id !in n.s.out || n.s.out[id].qos != 2 then
      id !in n.r.inbound && NoPub(n.toR, id) && NoRec(n.toS, id) && NoComp(n.toS, id)
    else
      var m := n.s.out[id];
      if m.next == AwaitPubrec then
        && m.pub !in n.delivered && PubsAre(n.toR, id, m.pub) && NoComp(n.toS, id)
        && if id in n.r.inbound then n.r.inbound[id] == m.pub && NoRel(n.toR, id)
           else RelsFirst(n.toR, id) && NoRec(n.toS, id)
      else if id in n.r.inbound then
        && n.r.inbound[id] == m.pub && m.pub !in n.delivered
        && PubsAre(n.toR, id, m.pub) && PubsFirst(n.toR, id) && NoComp(n.toS, id)
      else
        multiset(n.delivered)[m.pub] == 1 && NoPub(n.toR, id) && CompLast(n.toS, id)
  }

  // The stores mirror the memory
  ghost predicate Mirrored(s: Sender) {
    && s.sent.Keys == s.out.Keys
    && (forall id :: id in s.out ==> 1 <= s.out[id].qos <= 2 && s.sent[id] == (s.out[id].qos, s.out[id].pub))
    && (forall id :: id in s.out ==> (s.out[id].next == AwaitPuback <==> s.out[id].qos == 1))
    && (forall id :: id in s.released <==> id in s.out && s.out[id].next == AwaitPubcomp)
  }

  ghost predicate InFlight(s: Sender, pub: Publication) {
    exists id :: id in s.out && s.out[id].qos == 2 && s.out[id].pub == pub
  }

  // Every QoS 2 publication is delivered at most once, nothing else is delivered, the sender has dropped
  // a publication only when it has been delivered exactly once, and no delivered one is sent again as PUBLISH
  ghost predicate ExactlyOnce(n: Net) {
    && (forall p :: multiset(n.delivered)[p] <= 1)
    && (forall p :: p in n.delivered ==> p in n.accepted)
    && (forall p :: p in n.accepted && !InFlight(n.s, p) ==> multiset(n.delivered)[p] == 1)
    && (forall i :: 0 <= i < |n.toR| && n.toR[i].Publish? && n.toR[i].qos == 2 ==> n.toR[i].pub !in n.delivered)
  }

  lemma InvMeansExactlyOnce(n: Net)
    requires Inv(n)
    ensures ExactlyOnce(n)
  {
    forall p ensures multiset(n.delivered)[p] <= 1 {
      if p in n.delivered {
        if InFlight(n.s, p) {
          var id :| id in n.s.out && n.s.out[id].qos == 2 && n.s.out[id].pub == p;
          assert Exchange(n, id);
        }
      }
    }
    forall i | 0 <= i < |n.toR| && n.toR[i].Publish? && n.toR[i].qos == 2 ensures n.toR[i].pub !in n.delivered {
      assert Exchange(n, n.toR[i].id);
    }
  }

  // ---------------- every step keeps the invariant ----------------

  // The messages of the sender are of different publications, known and accepted
  ghost predicate Filed(s: Sender, accepted: set<Publication>, serial: nat) {
    && (forall id :: id in s.out ==> s.out[id].pub.serial < serial)
    && (forall id, k :: id in s.out && k in s.out && id != k ==> s.out[id].pub != s.out[k].pub)
    && (forall id :: id in s.out && s.out[id].qos == 2 ==> s.out[id].pub in accepted)
  }

  // What is in flight no more has been delivered exactly once
  ghost predicate Settled(s: Sender, accepted: set<Publication>, delivered: seq<Publication>) {
    forall p :: p in accepted && !InFlight(s, p) ==> multiset(delivered)[p] == 1
  }

  // The parts of the invariant that do not look at the channels
  ghost predicate Books(n: Net) {
    && Mirrored(n.s) && n.r.received == n.r.inbound
    && Filed(n.s, n.accepted, n.serial) && Settled(n.s, n.accepted, n.delivered)
    && (forall p :: p in n.accepted ==> p.serial < n.serial)
    && (forall i :: 0 <= i < |n.delivered| ==> n.delivered[i] in n.accepted)
  }

  ghost predicate Outgoing(ch: seq<Packet>) {
    forall i :: 0 <= i < |ch| ==> ch[i].Publish? || (ch[i].Pubrel? && !ch[i].dup)
  }

  ghost predicate Inv(n: Net) {
    Books(n) && Outgoing(n.toR) && forall id {:trigger Exchange(n, id)} :: Exchange(n, id)
  }

  lemma StartExchange(n: Net, id: int, qos: int, pub: Publication, sent: bool, k: int)
    requires Books(n) && Exchange(n, k) && id !in n.s.out && 1 <= qos <= 2 && pub.serial == n.serial
    ensures Exchange(n.(s := StartPublish(n.s, id, qos, pub),
                        toR := Transmitted(n.toR, [Publish(id, qos, false, pub)], sent)), k)
  {
  }

  lemma StartMirrored(s: Sender, id: int, qos: int, pub: Publication)
    requires Mirrored(s) && id !in s.out && 1 <= qos <= 2
    ensures Mirrored(StartPublish(s, id, qos, pub))
  { }

  lemma StartSettled(s: Sender, accepted: set<Publication>, delivered: seq<Publication>, id: int, qos: int,
      pub: Publication)
    requires Settled(s, accepted, delivered) && id !in s.out
    ensures Settled(StartPublish(s, id, qos, pub), accepted + (if qos == 2 then {pub} else {}), delivered)
  {
    var t := StartPublish(s, id, qos, pub);
    assert t.out[id] == Started(qos, pub);
    forall p | InFlight(s, p) ensures InFlight(t, p) {
      var k :| k in s.out && s.out[k].qos == 2 && s.out[k].pub == p;
      assert k in t.out && t.out[k].pub == p;
    }
  }

  lemma StartBooks(n: Net, id: int, qos: int, pub: Publication)
    requires Books(n) && id !in n.s.out && 1 <= qos <= 2 && pub.serial == n.serial
    ensures Books(n.(s := StartPublish(n.s, id, qos, pub),
                     accepted := n.accepted + (if qos == 2 then {pub} else {}), serial := n.serial + 1))
  {
    StartMirrored(n.s, id, qos, pub);
    StartSettled(n.s, n.accepted, n.delivered, id, qos, pub);
    hide Mirrored, Settled;
  }

  lemma PubackExchange(n: Net, id: int, k: int)
    requires Exchange(n, k) && n.toS != [] && n.toS[0] == Puback(id)
    ensures Exchange(n.(s := OnPuback(n.s, id), toS := n.toS[1..]), k)
  {
    assert forall i :: 0 <= i < |n.toS[1..]| ==> n.toS[1..][i] == n.toS[i + 1];
  }

  lemma PubrecExchange(n: Net, id: int, sent: bool, k: int)
    requires Exchange(n, k) && n.toS != [] && n.toS[0] == Pubrec(id)
    ensures var ps := if TakesPubrec(n.s, id) then [Pubrel(id, false)] else [];
      Exchange(n.(s := OnPubrec(n.s, id), toS := n.toS[1..], toR := Transmitted(n.toR, ps, sent)), k)
  {
    assert forall i :: 0 <= i < |n.toS[1..]| ==> n.toS[1..][i] == n.toS[i + 1];
  }

  lemma PubcompExchange(n: Net, id: int, k: int)
    requires Exchange(n, k) && n.toS != [] && n.toS[0] == Pubcomp(id)
    ensures Exchange(n.(s := OnPubcomp(n.s, id), toS := n.toS[1..]), k)
  {
    assert forall i :: 0 <= i < |n.toS[1..]| ==> n.toS[1..][i] == n.toS[i + 1];
  }

  lemma OtherToSender(n: Net, k: int)
    requires Exchange(n, k) && n.toS != []
    requires n.toS[0].Publish? || n.toS[0].Pubrel?
    ensures Exchange(n.(toS := n.toS[1..]), k)
  {
    assert forall i :: 0 <= i < |n.toS[1..]| ==> n.toS[1..][i] == n.toS[i + 1];
  }

  lemma SenderExchange(n: Net, sent: bool, k: int)
    requires Inv(n) && n.toS != []
    ensures var (s, ps) := SenderOn(n.s, n.toS[0]);
      Exchange(n.(s := s, toS := n.toS[1..], toR := Transmitted(n.toR, ps, sent)), k)
  {
    assert Exchange(n, k);
    hide Exchange, Inv, OnPuback, OnPubrec, OnPubcomp, TakesPubrec;
    assert n.toR + [] == n.toR;
    match n.toS[0]
    case Puback(id) => PubackExchange(n, id, k);
    case Pubrec(id) => PubrecExchange(n, id, sent, k);
    case Pubcomp(id) => PubcompExchange(n, id, k);
    case Publish(_, _, _, _) => OtherToSender(n, k);
    case Pubrel(_, _) => OtherToSender(n, k);
  }

  lemma PubackMirrored(s: Sender, id: int)
    requires Mirrored(s)
    ensures Mirrored(OnPuback(s, id))
  { }

  lemma PubrecMirrored(s: Sender, id: int)
    requires Mirrored(s)
    ensures Mirrored(OnPubrec(s, id))
  { }

  lemma PubcompMirrored(s: Sender, id: int)
    requires Mirrored(s)
    ensures Mirrored(OnPubcomp(s, id))
  { }

  // Any handler that keeps the publications of the messages, and drops only what has been delivered
  lemma StaysSettled(s: Sender, t: Sender, accepted: set<Publication>, delivered: seq<Publication>)
    requires Settled(s, accepted, delivered)
    requires forall k :: k in s.out && s.out[k].qos == 2 && multiset(delivered)[s.out[k].pub] != 1 ==>
      k in t.out && t.out[k].qos == 2 && t.out[k].pub == s.out[k].pub
    ensures Settled(t, accepted, delivered)
  {
    forall q | q in accepted && !InFlight(t, q) ensures multiset(delivered)[q] == 1 {
      if InFlight(s, q) {
        var k :| k in s.out && s.out[k].qos == 2 && s.out[k].pub == q;
      }
    }
  }

  // The handlers of the sender keep the publications, and PUBCOMP drops one that has been delivered
  lemma SenderKeepsFiles(n: Net)
    requires Inv(n) && n.toS != []
    ensures var t := SenderOn(n.s, n.toS[0]).0;
      && (forall k :: k in t.out ==> k in n.s.out && t.out[k].pub == n.s.out[k].pub && t.out[k].qos == n.s.out[k].qos)
      && (forall k :: k in n.s.out && n.s.out[k].qos == 2 && multiset(n.delivered)[n.s.out[k].pub] != 1 ==> k in t.out)
  {
    var p := n.toS[0];
    if p.Pubcomp? { assert Exchange(n, p.id); }
    hide Inv, Books;
  }

  lemma SenderMirrored(s: Sender, p: Packet)
    requires Mirrored(s)
    ensures Mirrored(SenderOn(s, p).0)
  {
    hide Mirrored, OnPuback, OnPubrec, OnPubcomp;
    match p
    case Puback(id) => PubackMirrored(s, id);
    case Pubrec(id) => PubrecMirrored(s, id);
    case Pubcomp(id) => PubcompMirrored(s, id);
    case Publish(_, _, _, _) =>
    case Pubrel(_, _) =>
  }

  lemma SenderBooks(n: Net)
    requires Inv(n) && n.toS != []
    ensures Books(n.(s := SenderOn(n.s, n.toS[0]).0))
  {
    SenderKeepsFiles(n);
    SenderMirrored(n.s, n.toS[0]);
    hide Exchange, Mirrored, SenderOn, Settled, Outgoing;
    StaysSettled(n.s, SenderOn(n.s, n.toS[0]).0, n.accepted, n.delivered);
  }

  lemma OwnPublish(n: Net, sent: bool)
    requires n.toR != [] && n.toR[0].Publish? && Exchange(n, n.toR[0].id)
    ensures var x := ReceiverOn(n.r, n.toR[0]);
      Exchange(n.(r := x.r, toR := n.toR[1..], toS := Transmitted(n.toS, x.out, sent)), n.toR[0].id)
  {
    assert forall i :: 0 <= i < |n.toR[1..]| ==> n.toR[1..][i] == n.toR[i + 1];
  }

  lemma OtherPublish(n: Net, sent: bool, k: int)
    requires n.toR != [] && n.toR[0].Publish? && Exchange(n, k) && k != n.toR[0].id
    ensures var x := ReceiverOn(n.r, n.toR[0]);
      Exchange(n.(r := x.r, toR := n.toR[1..], toS := Transmitted(n.toS, x.out, sent)), k)
  {
    assert forall i :: 0 <= i < |n.toR[1..]| ==> n.toR[1..][i] == n.toR[i + 1];
  }

  lemma PublishExchange(n: Net, sent: bool, k: int)
    requires Inv(n) && n.toR != [] && n.toR[0].Publish?
    ensures var x := ReceiverOn(n.r, n.toR[0]);
      Exchange(n.(r := x.r, toR := n.toR[1..], toS := Transmitted(n.toS, x.out, sent)), k)
  {
    assert Exchange(n, k) && Exchange(n, n.toR[0].id);
    hide Exchange, Inv, ReceiverOn, Transmitted;
    if k == n.toR[0].id { OwnPublish(n, sent); } else { OtherPublish(n, sent, k); }
  }

  lemma OwnPubrel(n: Net, sent: bool)
    requires n.toR != [] && n.toR[0].Pubrel? && !n.toR[0].dup && Exchange(n, n.toR[0].id)
    ensures var x := ReceiverOn(n.r, n.toR[0]);
      Exchange(n.(r := x.r, toR := n.toR[1..], toS := Transmitted(n.toS, x.out, sent),
                  delivered := n.delivered + x.delivered), n.toR[0].id)
  {
    assert forall i :: 0 <= i < |n.toR[1..]| ==> n.toR[1..][i] == n.toR[i + 1];
  }

  lemma OtherPubrel(n: Net, sent: bool, k: int)
    requires n.toR != [] && n.toR[0].Pubrel? && !n.toR[0].dup && Exchange(n, k) && k != n.toR[0].id
    requires k in n.s.out && n.s.out[k].qos == 2 && n.toR[0].id in n.r.inbound ==>
      n.s.out[k].pub != n.r.inbound[n.toR[0].id]
    ensures var x := ReceiverOn(n.r, n.toR[0]);
      Exchange(n.(r := x.r, toR := n.toR[1..], toS := Transmitted(n.toS, x.out, sent),
                  delivered := n.delivered + x.delivered), k)
  {
    assert forall i :: 0 <= i < |n.toR[1..]| ==> n.toR[1..][i] == n.toR[i + 1];
  }

  lemma PubrelExchange(n: Net, sent: bool, k: int)
    requires Inv(n) && n.toR != [] && n.toR[0].Pubrel?
    ensures var x := ReceiverOn(n.r, n.toR[0]);
      Exchange(n.(r := x.r, toR := n.toR[1..], toS := Transmitted(n.toS, x.out, sent),
                  delivered := n.delivered + x.delivered), k)
  {
    var id := n.toR[0].id;
    assert Exchange(n, k) && Exchange(n, id);
    if k == id {
      OwnPubrel(n, sent);
    } else {
      // what is delivered under another id is another publication
      assert id in n.r.inbound && k in n.s.out && n.s.out[k].qos == 2 ==> n.s.out[k].pub != n.r.inbound[id];
      hide Exchange, Books;
      OtherPubrel(n, sent, k);
    }
  }

  lemma ReceiverExchange(n: Net, sent: bool, k: int)
    requires Inv(n) && n.toR != []
    ensures var x := ReceiverOn(n.r, n.toR[0]);
      Exchange(n.(r := x.r, toR := n.toR[1..], toS := Transmitted(n.toS, x.out, sent),
                  delivered := n.delivered + if n.toR[0].Pubrel? then x.delivered else []), k)
  {
    assert n.toR[0].Publish? || n.toR[0].Pubrel?;
    if n.toR[0].Pubrel? { PubrelExchange(n, sent, k); } else { PublishExchange(n, sent, k); }
    hide Exchange, Books, Outgoing, ReceiverOn, Transmitted;
    assert n.delivered + [] == n.delivered;
  }

  lemma ReceiverBooks(n: Net)
    requires Inv(n) && n.toR != []
    ensures var x := ReceiverOn(n.r, n.toR[0]);
      Books(n.(r := x.r, delivered := n.delivered + if n.toR[0].Pubrel? then x.delivered else []))
  {
    assert Exchange(n, n.toR[0].id);
  }

  lemma RetryExchange(n: Net, id: int, k: int)
    requires Inv(n) && id in n.s.out
    ensures Exchange(n.(toR := n.toR + [Resent(id, n.s.out[id])]), k)
  {
    assert Exchange(n, k);
  }

  lemma LoseExchange(n: Net, i: nat, j: nat, k: int)
    requires Exchange(n, k) && i <= |n.toR| && j <= |n.toS|
    ensures Exchange(n.(toR := n.toR[..i], toS := n.toS[..j]), k)
  {
  }

  // With a store that mirrors the memory, a restart changes nothing
  lemma RestoreMirrored(s: Sender)
    requires Mirrored(s)
    ensures RestoreSender(s) == s
  {
    var t := RestoreSender(s);
    assert t.out.Keys == s.out.Keys;
    assert forall id :: id in s.out ==> t.out[id] == s.out[id];
    assert forall id :: id in t.released <==> id in s.released;
    assert t.released == s.released;
  }

  // A crash after the sc- record is written leaves the state that a completed PUBREC handler leaves
  lemma CrashInPubrecIsPubrec(s: Sender, id: int)
    requires Mirrored(s) && TakesPubrec(s, id)
    ensures RestoreSender(s.(released := s.released + {id})) == OnPubrec(s, id) && Mirrored(OnPubrec(s, id))
  {
    RestoreMirrored(OnPubrec(s, id));
    assert s.(released := s.released + {id}).sent == OnPubrec(s, id).sent;
  }

  // A crash between the two removals leaves an orphan sc- record; the restart deletes it and never resends the PUBLISH
  lemma CrashInPubcompIsPubcomp(s: Sender, id: int)
    requires Mirrored(s) && TakesPubcomp(s, id)
    ensures RestoreSender(s.(sent := s.sent - {id})) == OnPubcomp(s, id) && Mirrored(OnPubcomp(s, id))
  {
    var t := OnPubcomp(s, id);
    RestoreMirrored(t);
    var u := s.(sent := s.sent - {id});
    assert RestoreSender(u).out.Keys == RestoreSender(t).out.Keys;
    assert forall k :: k in t.out ==> RestoreSender(u).out[k] == RestoreSender(t).out[k];
    assert RestoreSender(u).released == RestoreSender(t).released;
  }

  lemma CrashInPublishIsPublish(s: Sender, id: int, qos: int, pub: Publication)
    requires Mirrored(s) && id !in s.out && 1 <= qos <= 2
    ensures RestoreSender(s.(sent := s.sent[id := (qos, pub)])) == StartPublish(s, id, qos, pub)
  {
    RestoreMirrored(StartPublish(s, id, qos, pub));
  }

  lemma PublishKeepsInv(n: Net, m: Net, step: Step)
    requires Inv(n) && step.DoPublish? && Next(n, m, step)
    ensures Inv(m)
  {
    var pub := Publication(n.serial, step.topic, step.payload);
    StartBooks(n, step.id, step.qos, pub);
    forall k ensures Exchange(m, k) {
      assert Exchange(n, k);
      StartExchange(n, step.id, step.qos, pub, step.sent, k);
    }
  }

  lemma SenderKeepsInv(n: Net, m: Net, step: Step)
    requires Inv(n) && step.SenderReceives? && Next(n, m, step)
    ensures Inv(m)
  {
    SenderBooks(n);
    assert Outgoing(m.toR) by { hide Books, Exchange; }
    hide Books, Exchange, SenderOn, Outgoing;
    forall k ensures Exchange(m, k) { SenderExchange(n, step.sent, k); }
  }

  lemma ReceiverKeepsInv(n: Net, m: Net, step: Step)
    requires Inv(n) && step.ReceiverReceives? && Next(n, m, step)
    ensures Inv(m)
  {
    ReceiverBooks(n);
    forall k ensures Exchange(m, k) { ReceiverExchange(n, step.sent, k); }
  }

  lemma ChannelKeepsInv(n: Net, m: Net, step: Step)
    requires Inv(n) && (step.Retry? || step.Lose?) && Next(n, m, step)
    ensures Inv(m)
  {
    forall k ensures Exchange(m, k) {
      assert Exchange(n, k);
      if step.Retry? { RetryExchange(n, step.id, k); } else { LoseExchange(n, step.keepToR, step.keepToS, k); }
    }
  }

  lemma RestartKeepsInv(n: Net, m: Net, step: Step)
    requires Inv(n) && (step.SenderRestarts? || step.ReceiverRestarts?) && Next(n, m, step)
    ensures m == n
  {
    RestoreMirrored(n.s);
  }

  // A crash in the middle of a handler of the sender is the whole handler with its packet lost
  lemma CrashIsLostStep(n: Net, m: Net, step: Step)
    requires Inv(n) && (step.CrashInPubrec? || step.CrashInPubcomp? || step.CrashInPublish?) && Next(n, m, step)
    ensures Next(n, m,
        if step.CrashInPublish? then DoPublish(step.id, step.qos, step.topic, step.payload, false)
        else SenderReceives(false))
  {
    match step
    case CrashInPubrec => CrashInPubrecIsPubrec(n.s, n.toS[0].id);
    case CrashInPubcomp => CrashInPubcompIsPubcomp(n.s, n.toS[0].id);
    case CrashInPublish(id, qos, topic, payload) =>
      CrashInPublishIsPublish(n.s, id, qos, Publication(n.serial, topic, payload));
  }

  lemma StepKeepsInv(n: Net, m: Net, step: Step)
    requires Inv(n) && Next(n, m, step)
    ensures Inv(m)
  {
    hide Inv, Next;
    match step
    case DoPublish(_, _, _, _, _) => PublishKeepsInv(n, m, step);
    case SenderReceives(_) => SenderKeepsInv(n, m, step);
    case ReceiverReceives(_) => ReceiverKeepsInv(n, m, step);
    case Retry(_) => ChannelKeepsInv(n, m, step);
    case Lose(_, _) => ChannelKeepsInv(n, m, step);
    case SenderRestarts => RestartKeepsInv(n, m, step);
    case ReceiverRestarts => RestartKeepsInv(n, m, step);
    case CrashInPubrec => CrashIsLostStep(n, m, step); SenderKeepsInv(n, m, SenderReceives(false));
    case CrashInPubcomp => CrashIsLostStep(n, m, step); SenderKeepsInv(n, m, SenderReceives(false));
    case CrashInPublish(id, qos, topic, payload) =>
      CrashIsLostStep(n, m, step);
      PublishKeepsInv(n, m, DoPublish(id, qos, topic, payload, false));
  }

  ghost predicate IsRun(run: seq<Net>, steps: seq<Step>) {
    && |run| == |steps| + 1 && Init(run[0])
    && forall i :: 0 <= i < |steps| ==> Next(run[i], run[i + 1], steps[i])
  }

  lemma {:induction false} RunKeepsInv(run: seq<Net>, steps: seq<Step>, i: nat)
    requires IsRun(run, steps) && i < |run|
    ensures Inv(run[i])
  {
    if i > 0 {
      RunKeepsInv(run, steps, i - 1);
      StepKeepsInv(run[i - 1], run[i], steps[i - 1]);
    }
  }

  // In every state of every run
  lemma DeliveredExactlyOnce(run: seq<Net>, steps: seq<Step>)
    requires IsRun(run, steps)
    ensures forall i :: 0 <= i < |run| ==> ExactlyOnce(run[i])
  {
    forall i | 0 <= i < |run| ensures ExactlyOnce(run[i]) {
      RunKeepsInv(run, steps, i);
      InvMeansExactlyOnce(run[i]);
    }
  }
}
