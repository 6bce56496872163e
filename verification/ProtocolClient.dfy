/** One client: its message lists, its persistent store, and the handlers that change both. */
module ProtocolClient {
  import opened QosProtocol
  import opened MessageLists
  import opened Sequences
  import opened StoreKeys
  import opened ClientStore
  import opened RestoreOrder
  import opened Restoring

  // 0 is not assigned
  predicate Assignable(id: int) { 1 <= id <= MAX_MSG_ID }

  // The id that is tried k steps after `start`
  function Ahead(start: int, k: int): int {
    (start - 1 + k) % MAX_MSG_ID + 1
  }

  lemma AheadSteps(start: int, k: int)
    requires 0 <= start <= MAX_MSG_ID && 1 <= k <= MAX_MSG_ID
    ensures Assignable(Ahead(start, k))
    ensures Ahead(start, 1) == if start == MAX_MSG_ID then 1 else start + 1
    ensures Ahead(start, k + 1) == if Ahead(start, k) == MAX_MSG_ID then 1 else Ahead(start, k) + 1
    ensures start == 0 ==> Ahead(start, k) == k
    ensures start != 0 ==> (Ahead(start, k) == start <==> k == MAX_MSG_ID)
  {
  }

  // The first id after `start`, in cyclic order, that no message uses; 0 when all but `start` itself are taken
  ghost predicate FirstFree(ms: seq<Message>, start: int, id: int, k: int) {
    && k >= 1
    && (forall j :: 1 <= j < k ==> Ahead(start, j) in Ids(ms))
    && if id != 0 then id == Ahead(start, k) && id !in Ids(ms) else start != 0 && k == MAX_MSG_ID
  }

  // The search of an id from start on has come to the k-th, and found all before it taken
  ghost predicate Searched(ms: seq<Message>, start: int, k: int, id: int) {
    && 0 <= start <= MAX_MSG_ID && 1 <= k <= MAX_MSG_ID && (start != 0 ==> k < MAX_MSG_ID)
    && Assignable(id) && id == Ahead(start, k)
    && forall j :: 1 <= j < k ==> Ahead(start, j) in Ids(ms)
  }

  lemma SearchBegins(ms: seq<Message>, start: int)
    requires 0 <= start <= MAX_MSG_ID
    ensures Searched(ms, start, 1, if start == MAX_MSG_ID then 1 else start + 1)
  {
    AheadSteps(start, 1);
  }

  // `free` is an id that is not taken, for a search that begins at 0
  lemma SearchGoesOn(ms: seq<Message>, start: int, k: int, id: int, free: int)
    requires Searched(ms, start, k, id) && id in Ids(ms)
    requires start == 0 ==> Assignable(free) && free !in Ids(ms) && k <= free
    ensures start == 0 ==> k + 1 <= free
    ensures var next := if id == MAX_MSG_ID then 1 else id + 1;
      if next == start then FirstFree(ms, start, 0, k + 1) else Searched(ms, start, k + 1, next)
  {
    AheadSteps(start, k);
    hide Ids, Ahead;
    if k < MAX_MSG_ID { AheadSteps(start, k + 1); }
  }

  lemma SearchEnds(ms: seq<Message>, start: int, k: int, id: int)
    requires Searched(ms, start, k, id) && id !in Ids(ms)
    ensures FirstFree(ms, start, id, k) && 1 <= id <= MAX_MSG_ID
  {
  }

  // What the result of a search is, in plain numbers
  lemma Result(ms: seq<Message>, start: int, id: int, k: int)
    requires 0 <= start <= MAX_MSG_ID && FirstFree(ms, start, id, k)
    ensures if id != 0 then id !in Ids(ms) else forall j :: 1 <= j <= 65535 && j != start ==> j in Ids(ms)
    ensures var next := if start == 65535 then 1 else start + 1;
      next !in Ids(ms) ==> id == next
  {
    AheadSteps(start, 1);
    if id == 0 { NoneFree(ms, start, k); }
  }

  // All ids but possibly start are taken
  lemma NoneFree(ms: seq<Message>, start: int, k: int)
    requires 0 <= start <= MAX_MSG_ID && FirstFree(ms, start, 0, k)
    ensures forall id :: Assignable(id) && id != start ==> id in Ids(ms)
  {
    forall id | Assignable(id) && id != start ensures id in Ids(ms) {
      var j := if id > start then id - start else id - start + MAX_MSG_ID;
      assert Ahead(start, j) == id;
    }
  }

  // With nothing assigned before and all ids taken, the search goes around for ever: no try finds a free id, and none
  // is the 0 that ends it
  lemma NeverEnds(ms: seq<Message>, k: nat)
    requires k >= 1 && forall id :: Assignable(id) ==> id in Ids(ms)
    ensures Ahead(0, k) in Ids(ms) && Ahead(0, k) != 0
  {
    assert Assignable(Ahead(0, k));
  }

  // An id in flight is passed over: after 4 comes 6 when 5 is still outbound
  lemma PassesOver(ms: seq<Message>)
    requires 5 in Ids(ms) && 6 !in Ids(ms)
    ensures FirstFree(ms, 4, 6, 2)
  {
    assert Ahead(4, 1) == 5 && Ahead(4, 2) == 6;
  }

  // What becomes of the last packet of a round of retries: part of it is left to be written, or the write fails
  datatype Ending = Pending | Failing

  ghost function Resends(ms: seq<Message>, due: set<int>): seq<Packet> {
    if ms == [] then []
    else Resends(ms[..|ms| - 1], due) +
         var m := ms[|ms| - 1]; if m.msgid in due then [Resent(m.msgid, Abs(m))] else []
  }

  // What a packet brings to the application, with the QoS 2 publications that wait for their PUBREL
  function GivenFor(p: Packet, inbound: map<int, Publication>): seq<Publication> {
    match p
    case Publish(_, qos, _, pub) => if qos == 0 || qos == 1 then [pub] else []
    case Pubrel(id, _) => if id in inbound then [inbound[id]] else []
    case _ => []
  }

  // A packet that says again what one of the messages that are due says: PUBLISH with dup set, or PUBREL
  ghost predicate IsRetry(p: Packet, ms: seq<Message>, due: set<int>) {
    exists j :: 0 <= j < |ms| && ms[j].msgid in due && RetryOf(p, ms[j])
  }

  ghost predicate RetryOf(p: Packet, m: Message) {
    match p
    case Publish(id, qos, dup, pub) =>
      dup && id == m.msgid && qos == m.qos && pub == m.pub && !(m.qos == 2 && m.next == PUBCOMP)
    case Pubrel(id, dup) => !dup && id == m.msgid && m.qos == 2 && m.next == PUBCOMP
    case _ => false
  }

  lemma {:induction false} ResendsAreRetries(ms: seq<Message>, due: set<int>, n: nat)
    requires n <= |ms|
    ensures forall i :: 0 <= i < |Resends(ms[..n], due)| ==> IsRetry(Resends(ms[..n], due)[i], ms, due)
  {
    if n > 0 {
      ResendsAreRetries(ms, due, n - 1);
      ResendsMore(ms, due, n - 1);
      var m := ms[n - 1];
      if m.msgid in due { assert RetryOf(Resent(m.msgid, Abs(m)), m); }
      hide Resent, Abs, RetryOf, Resends;
    }
  }

  lemma ResendsMore(ms: seq<Message>, due: set<int>, i: nat)
    requires i < |ms|
    ensures Resends(ms[..i + 1], due) ==
      Resends(ms[..i], due) + if ms[i].msgid in due then [Resent(ms[i].msgid, Abs(ms[i]))] else []
  {
    assert ms[..i + 1][..i] == ms[..i];
  }

  // Records are written again: a PUBLISH with dup set, a PUBREL as it was
  ghost predicate StoredAgain(was: Store, now: Store) {
    && now.Keys == was.Keys
    && forall key :: key in was && now[key] != was[key] ==>
        was[key].PublishRecord? && now[key] == was[key].(dup := true)
  }

  // What a retry has written of a message that awaits PUBACK or PUBREC
  ghost predicate WithDup(s: Store, m: Message) {
    && InRange(m.msgid) && SentKey(m.msgid) in s
    && s[SentKey(m.msgid)] == PublishRecord(true, m.qos, m.retain, m.msgid, m.pub)
  }

  lemma AllWithDup(ms: seq<Message>, i: nat, due: set<int>, first: Store, was: Store, now: Store)
    requires i < |ms| && StoredAgain(first, was) && StoredAgain(was, now) && InRange(ms[i].msgid)
    requires now == RecordAgain(was, ms[i])
    requires forall j :: 0 <= j < i && ms[j].msgid in due && !Released(ms[j]) ==> WithDup(was, ms[j])
    ensures StoredAgain(first, now)
    ensures forall j :: 0 <= j <= i && ms[j].msgid in due && !Released(ms[j]) ==> WithDup(now, ms[j])
  {
    forall j | 0 <= j < i && ms[j].msgid in due && !Released(ms[j]) ensures WithDup(now, ms[j]) {
      WithDupStays(was, now, ms[j]);
    }
  }

  lemma InRangeAt(outbound: seq<Message>, inbound: seq<Message>, s: Store, i: nat)
    requires Mirrors(outbound, inbound, s) && i < |outbound|
    ensures InRange(outbound[i].msgid)
  {
  }

  lemma WithDupStays(was: Store, now: Store, m: Message)
    requires StoredAgain(was, now) && WithDup(was, m)
    ensures WithDup(now, m)
  {
  }

  lemma AgainIsStored(outbound: seq<Message>, inbound: seq<Message>, s: Store, i: nat)
    requires Mirrors(outbound, inbound, s) && i < |outbound|
    ensures StoredAgain(s, RecordAgain(s, outbound[i]))
  {
    var id := outbound[i].msgid;
    assert Stored(outbound[i], s);
    KindsAreTold(id);
    if Released(outbound[i]) {
      var rec := s[ReleaseKey(id)];
      assert Fits(ReleaseKey(id), rec);
      if rec.PubrelRecord? { KeysApart(id, rec.msgid); }
      if rec.PublishRecord? { KeysApart(id, rec.msgid); KeysApart(rec.msgid, id); }
      hide SentKey, ReleaseKey, KindOf;
    } else {
      hide SentKey, ReleaseKey, KindOf;
      assert s[SentKey(id)] == SentOf(s, id);
    }
  }

  // The last packet of the round is that of message i, and the session is closed over it
  ghost predicate Closes(ms: seq<Message>, due: set<int>, room: nat, last: Ending, i: nat)
    requires i <= |ms|
  {
    && i < |ms| && ms[i].msgid in due && |Resends(ms[..i], due)| == room - 1
    && (last.Failing? || Released(ms[i]))
  }

  class Client {
    var outbound: seq<Message>
    var inbound: seq<Message>
    var msgID: int
    var store: Store
    var connected: bool          // whether what is written reaches the connection
    var toPeer: seq<Packet>      // written to the connection, in order
    var app: seq<Publication>    // given to the application, in order

    // At every handler boundary the store mirrors both lists
    ghost predicate Valid()
      reads `outbound, `inbound, `store, `msgID
    {
      && Mirrors(outbound, inbound, store)
      && 0 <= msgID <= MAX_MSG_ID
    }

    ghost function AsSender(): Sender
      requires Shape(store)
      reads `outbound, `store
    {
      SenderOf(outbound, store)
    }

    ghost function AsReceiver(): Receiver
      requires Shape(store)
      reads `inbound, `store
    {
      ReceiverOf(inbound, store)
    }

    constructor ()
      ensures Valid() && outbound == [] && inbound == [] && store == map[] && toPeer == [] && app == [] && msgID == 0
      ensures !connected
    {
      outbound, inbound, msgID, store, connected, toPeer, app := [], [], 0, map[], false, [], [];
    }

    static method FindItem(ms: seq<Message>, id: int) returns (i: int)
      ensures i == IndexOf(ms, id)
    {
      i := 0;
      while i < |ms| && ms[i].msgid != id
        invariant 0 <= i <= |ms|
        invariant forall j :: 0 <= j < i ==> ms[j].msgid != id
      {
        i := i + 1;
      }
      if i == |ms| {
        i := -1;
      }
      ghost var k := IndexOf(ms, id);
    }

    method Write(p: Packet)
      modifies `toPeer
      ensures toPeer == Transmitted(old(toPeer), [p], connected)
    {
      if connected {
        toPeer := toPeer + [p];
      }
    }

    // MQTTProtocol_assignMsgId; with msgID 0 and every id taken the loop of the source does not end
    method AssignMsgId() returns (id: int, ghost k: int)
      requires 0 <= msgID <= MAX_MSG_ID
      requires msgID != 0 || exists j :: Assignable(j) && j !in Ids(outbound)
      modifies `msgID
      ensures FirstFree(outbound, old(msgID), id, k)
      ensures msgID == if id != 0 then id else old(msgID)
      ensures 0 <= id <= 65535
      ensures if id != 0 then id !in Ids(outbound)
              else forall j :: 1 <= j <= 65535 && j != old(msgID) ==> j in Ids(outbound)
      ensures var next := if old(msgID) == 65535 then 1 else old(msgID) + 1;
        next !in Ids(outbound) ==> id == next
    {
      var start := msgID;
      id := if start == MAX_MSG_ID then 1 else start + 1;
      k := 1;
      SearchBegins(outbound, start);
      ghost var free :| msgID == 0 ==> Assignable(free) && free !in Ids(outbound);
      var i := FindItem(outbound, id);
      hide Ids, Ahead, Assignable;
      while i >= 0
        invariant Searched(outbound, start, k, id) && i == IndexOf(outbound, id) && msgID == start
        invariant start == 0 ==> k <= free
        decreases MAX_MSG_ID - k
      {
        SearchGoesOn(outbound, start, k, id, free);
        id := if id == MAX_MSG_ID then 1 else id + 1;
        k := k + 1;
        if id == start {
          id := 0;
          break;
        }
        i := FindItem(outbound, id);
      }
      if id != 0 {
        SearchEnds(outbound, start, k, id);
        msgID := id;
      }
      Result(outbound, start, id, k);
    }

    // MQTTProtocol_startPublish for QoS 1 and 2: a message whose id is free joins the end of the outbound list, is
    // written to the store and then sent. For QoS 1 the source leaves nextMessageType unset.
    method StartPublish(id: int, qos: int, retain: bool, pub: Publication, unset: MessageType)
      requires Valid() && Assignable(id) && id !in Ids(outbound) && 1 <= qos <= 2
      modifies `outbound, `store, `toPeer
      ensures Valid()
      ensures AsSender() == QosProtocol.StartPublish(old(AsSender()), id, qos, pub) && AsReceiver() == old(AsReceiver())
      ensures toPeer == Transmitted(old(toPeer), [Publish(id, qos, false, pub)], connected)
      ensures toPeer == old(toPeer) + if connected then [Publish(id, qos, false, pub)] else []
      ensures AsSender().out ==
        old(AsSender()).out[id := OutMessage(qos, if qos == 2 then AwaitPubrec else AwaitPuback, pub)]
      ensures outbound == old(outbound) + [Message(id, qos, retain, if qos == 2 then PUBREC else unset, pub)]
      ensures store == old(store)[SentKey(id) := PublishRecord(false, qos, retain, id, pub)]
    {
      var m := Message(id, qos, retain, if qos == 2 then PUBREC else unset, pub);
      hide OutboundStored, InboundStored, StoredSent, StoredReleased, StoredReceived, OutMap, InMap, Shape, SentKey,
          ReleaseKey, ReceivedKey, Ids, IndexOf;
      MoveStarted(outbound, inbound, store, m);
      outbound := outbound + [m];
      store := store[SentKey(id) := RecordOf(m, false)];
      Write(Publish(id, qos, false, pub));
    }

    // MQTTProtocol_startPublish for QoS 0
    method StartPublishQoS0(pub: Publication)
      modifies `toPeer
      ensures toPeer == old(toPeer) + if connected then [Publish(0, 0, false, pub)] else []
    {
      Write(Publish(0, 0, false, pub));
    }

    // MQTTPersistence_remove for a sent message
    method RemoveSentRecords(m: Message)
      requires InRange(m.msgid)
      modifies `store
      ensures store == WithoutRecords(old(store), m)
    {
      store := store - {SentKey(m.msgid)};
      if m.qos == 2 {
        store := store - {ReleaseKey(m.msgid)};
      }
    }

    // MQTTProtocol_handlePubacks
    method HandlePuback(id: int)
      requires Valid()
      modifies `outbound, `store
      ensures Valid()
      ensures AsSender() == OnPuback(old(AsSender()), id) && AsReceiver() == old(AsReceiver())
      ensures var out := old(AsSender()).out;
        if id in out && out[id].qos == 1 then AsSender().out == out - {id} && store == old(store) - {SentKey(id)}
        else AsSender().out == out && store == old(store)
      ensures outbound == old(outbound) ||
        exists i :: 0 <= i < |old(outbound)| && old(outbound)[i].msgid == id && outbound == Without(old(outbound), i)
    {
      hide OutboundStored, InboundStored, StoredSent, StoredReleased, StoredReceived, OutMap, InMap, Shape, SentKey,
          ReleaseKey, ReceivedKey, Ids, IndexOf;
      var i := FindItem(outbound, id);
      NoneOf(outbound, inbound, store, id);
      if i >= 0 {
        var m := outbound[i];
        Awaits(outbound, inbound, store, i);
        if m.qos == 1 {
          MovePuback(outbound, inbound, store, i);
          RemoveSentRecords(m);
          outbound := outbound[..i] + outbound[i + 1..];
          assert outbound == Without(old(outbound), i);
        }
      }
    }

    // MQTTProtocol_handlePubrecs
    method HandlePubrec(id: int)
      requires Valid()
      modifies `outbound, `store, `toPeer
      ensures Valid()
      ensures AsSender() == OnPubrec(old(AsSender()), id) && AsReceiver() == old(AsReceiver())
      ensures toPeer ==
        Transmitted(old(toPeer), if TakesPubrec(old(AsSender()), id) then [Pubrel(id, false)] else [], connected)
      ensures var out := old(AsSender()).out;
        if id in out && out[id].qos == 2 && out[id].next == AwaitPubrec then
          && AsSender().out == out[id := OutMessage(2, AwaitPubcomp, out[id].pub)]
          && store == old(store)[ReleaseKey(id) := PubrelRecord(id)]
          && toPeer == old(toPeer) + if connected then [Pubrel(id, false)] else []
        else
          AsSender() == old(AsSender()) && toPeer == old(toPeer) && store == old(store)
      ensures outbound == old(outbound) ||
        exists i :: 0 <= i < |old(outbound)| && outbound == old(outbound)[i := old(outbound)[i].(next := PUBCOMP)]
    {
      hide OutboundStored, InboundStored, StoredSent, StoredReleased, StoredReceived, OutMap, InMap, Shape, SentKey,
          ReleaseKey, ReceivedKey, Ids, IndexOf;
      var i := FindItem(outbound, id);
      NoneOf(outbound, inbound, store, id);
      if i >= 0 {
        var m := outbound[i];
        Awaits(outbound, inbound, store, i);
        MoveRewritten(outbound, inbound, store, i);
        if m.qos == 2 && m.next == PUBREC {
          MovePubrec(outbound, inbound, store, i);
          store := store[ReleaseKey(id) := PubrelRecord(id)];
          Write(Pubrel(id, false));
          outbound := outbound[i := m.(next := PUBCOMP)];
        }
      }
    }

    // MQTTProtocol_handlePubcomps
    method HandlePubcomp(id: int)
      requires Valid()
      modifies `outbound, `store
      ensures Valid()
      ensures AsSender() == OnPubcomp(old(AsSender()), id) && AsReceiver() == old(AsReceiver())
      ensures var out := old(AsSender()).out;
        if id in out && out[id].qos == 2 && out[id].next == AwaitPubcomp then
          AsSender().out == out - {id} && store == old(store) - {SentKey(id), ReleaseKey(id)}
        else
          AsSender().out == out && store == old(store)
      ensures outbound == old(outbound) ||
        exists i :: 0 <= i < |old(outbound)| && old(outbound)[i].msgid == id && outbound == Without(old(outbound), i)
    {
      hide OutboundStored, InboundStored, StoredSent, StoredReleased, StoredReceived, OutMap, InMap, Shape, SentKey,
          ReleaseKey, ReceivedKey, Ids, IndexOf;
      var i := FindItem(outbound, id);
      NoneOf(outbound, inbound, store, id);
      if i >= 0 {
        var m := outbound[i];
        Awaits(outbound, inbound, store, i);
        if m.qos == 2 && m.next == PUBCOMP {
          MovePubcomp(outbound, inbound, store, i);
          RemoveSentRecords(m);
          outbound := outbound[..i] + outbound[i + 1..];
          assert outbound == Without(old(outbound), i);
        }
      }
    }

    // The incoming message takes the place of one with the same id, or joins the end of the inbound list
    method KeepInbound(m: Message)
      modifies `inbound
      ensures inbound == Kept(old(inbound), IndexOf(old(inbound), m.msgid), m)
    {
      var i := FindItem(inbound, m.msgid);
      hide IndexOf;
      if i >= 0 {
        inbound := inbound[..i] + [m] + inbound[i..];          // ListInsert before the old message
        inbound := inbound[..i + 1] + inbound[i + 2..];        // ListRemove of the old message
      } else {
        inbound := inbound + [m];
      }
    }

    // MQTTPacket_Factory writes the record of an incoming QoS 2 PUBLISH; then MQTTProtocol_handlePublishes
    method HandlePublish(id: int, qos: int, dup: bool, retain: bool, pub: Publication)
      requires Valid() && 0 <= qos <= 3 && InRange(id)
      modifies `inbound, `store, `toPeer, `app
      ensures Valid()
      ensures AsSender() == old(AsSender()) && AsReceiver() == OnPublish(old(AsReceiver()), id, qos, pub).r
      ensures toPeer == Transmitted(old(toPeer), OnPublish(old(AsReceiver()), id, qos, pub).out, connected)
      ensures app == old(app) + OnPublish(old(AsReceiver()), id, qos, pub).delivered
      ensures app == old(app) + if qos == 0 || qos == 1 then [pub] else []
      ensures toPeer == old(toPeer) +
        if !connected then [] else if qos == 1 then [Puback(id)] else if qos == 2 then [Pubrec(id)] else []
      ensures store ==
        if qos == 2 then old(store)[ReceivedKey(id) := PublishRecord(dup, 2, retain, id, pub)] else old(store)
      ensures qos == 2 ==> id in AsReceiver().inbound && AsReceiver().inbound[id] == pub
      ensures inbound ==
        if qos == 2 then Kept(old(inbound), IndexOf(old(inbound), id), Message(id, 2, retain, PUBREL, pub))
        else old(inbound)
    {
      hide OutboundStored, InboundStored, StoredSent, StoredReleased, StoredReceived, OutMap, InMap, Shape, SentKey,
          ReleaseKey, ReceivedKey, Ids, IndexOf, Kept;
      if qos == 0 {
        app := app + [pub];
      } else if qos == 1 {
        Write(Puback(id));
        app := app + [pub];
      } else if qos == 2 {
        var m := Message(id, qos, retain, PUBREL, pub);
        MoveReceived(inbound, outbound, store, m, dup);
        store := store[ReceivedKey(id) := RecordOf(m, dup)];
        KeepInbound(m);
        Write(Pubrec(id));
      }
    }

    // MQTTProtocol_handlePubrels
    method HandlePubrel(id: int, dup: bool)
      requires Valid()
      modifies `inbound, `store, `toPeer, `app
      ensures Valid()
      ensures AsSender() == old(AsSender()) && AsReceiver() == OnPubrel(old(AsReceiver()), id, dup).r
      ensures toPeer == Transmitted(old(toPeer), OnPubrel(old(AsReceiver()), id, dup).out, connected)
      ensures app == old(app) + OnPubrel(old(AsReceiver()), id, dup).delivered
      ensures var known := old(AsReceiver()).inbound;
        && app == old(app) + (if id in known then [known[id]] else [])
        && toPeer == old(toPeer) + (if connected && (id in known || dup) then [Pubcomp(id)] else [])
        && AsReceiver().inbound == known - {id}
        && store == if id in known then old(store) - {ReceivedKey(id)} else old(store)
      ensures inbound == old(inbound) ||
        exists i :: 0 <= i < |old(inbound)| && old(inbound)[i].msgid == id && inbound == Without(old(inbound), i)
    {
      hide OutboundStored, InboundStored, StoredSent, StoredReleased, StoredReceived, OutMap, InMap, Shape, SentKey,
          ReleaseKey, ReceivedKey, Ids, IndexOf;
      var i := FindItem(inbound, id);
      NoneOf(outbound, inbound, store, id);
      if i < 0 {
        if dup {
          Write(Pubcomp(id));
        }
      } else {
        var m := inbound[i];
        MoveDelivered(inbound, outbound, store, i, dup);
        if m.qos == 2 && m.next == PUBREL {
          Write(Pubcomp(id));
          app := app + [m.pub];
          store := store - {ReceivedKey(id)};
          inbound := inbound[..i] + inbound[i + 1..];
          assert inbound == Without(old(inbound), i);
        }
      }
    }

    // The packets of the delivery protocol go to their handlers
    method HandlePacket(p: Packet, retain: bool)
      requires Valid() && (p.Publish? ==> 0 <= p.qos <= 3 && InRange(p.id))
      modifies `outbound, `inbound, `store, `toPeer, `app
      ensures Valid()
      ensures AsSender() == SenderOn(old(AsSender()), p).0
      ensures AsReceiver() == ReceiverOn(old(AsReceiver()), p).r
      ensures app == old(app) + ReceiverOn(old(AsReceiver()), p).delivered
      ensures toPeer ==
        Transmitted(old(toPeer), SenderOn(old(AsSender()), p).1 + ReceiverOn(old(AsReceiver()), p).out, connected)
      ensures app == old(app) + GivenFor(p, old(AsReceiver()).inbound)
    {
      hide OutboundStored, InboundStored, StoredSent, StoredReleased, StoredReceived, OutMap, InMap, Shape, SentKey,
          ReleaseKey, ReceivedKey, Ids, IndexOf;
      match p
      case Publish(id, qos, dup, pub) => HandlePublish(id, qos, dup, retain, pub);
      case Puback(id) => HandlePuback(id);
      case Pubrec(id) => HandlePubrec(id);
      case Pubrel(id, dup) => HandlePubrel(id, dup);
      case Pubcomp(id) => HandlePubcomp(id);
    }

    // What MQTTProtocol_retries does with one message; `final` tells that its packet is the last one that is tried
    method RetryOne(i: nat, final: bool, last: Ending)
      requires Valid() && i < |outbound| && connected
      modifies `store, `toPeer, `connected
      ensures Valid() && AsSender() == old(AsSender()) && AsReceiver() == old(AsReceiver())
      ensures connected <==> !(final && (last.Failing? || Released(outbound[i])))
      ensures toPeer == old(toPeer) + if connected then [Resent(outbound[i].msgid, Abs(outbound[i]))] else []
      ensures StoredAgain(old(store), store) && store == RecordAgain(old(store), outbound[i])
    {
      hide OutboundStored, InboundStored, StoredSent, StoredReleased, StoredReceived, OutMap, InMap, Shape, SentKey,
        ReleaseKey, ReceivedKey, Ids, IndexOf;
      var m := outbound[i];
      MoveRewritten(outbound, inbound, store, i);
      AgainIsStored(outbound, inbound, store, i);
      hide StoredAgain;
      if m.qos == 1 || (m.qos == 2 && m.next == PUBREC) {
        store := store[SentKey(m.msgid) := RecordOf(m, true)];
        if final && last.Failing? {
          connected := false;
        }
        Write(Publish(m.msgid, m.qos, true, m.pub));
      } else {
        store := store[ReleaseKey(m.msgid) := PubrelRecord(m.msgid)];
        if final {
          connected := false;
        }
        Write(Pubrel(m.msgid, false));
      }
    }

    // MQTTProtocol_retries. `due` are the messages that are due. `room` packets are tried, and `last` is what
    // becomes of the last of them: a failure closes the session, and so does a PUBREL that is left pending.
    method Retries(due: set<int>, room: nat, last: Ending) returns (ghost n: nat)
      requires Valid()
      modifies `store, `toPeer, `connected
      ensures Valid()
      ensures AsSender() == old(AsSender()) && AsReceiver() == old(AsReceiver())
      ensures n <= |outbound| && toPeer == old(toPeer) + Resends(outbound[..n], due)
      ensures |Resends(outbound[..n], due)| <= room && (!old(connected) ==> n == 0 && !connected)
      ensures connected ==> n == |outbound| || |Resends(outbound[..n], due)| == room
      ensures old(connected) && !connected ==> Closes(outbound, due, room, last, n)
      ensures connected ==> forall i :: 0 <= i < n ==> !Closes(outbound, due, room, last, i)
      ensures old(toPeer) <= toPeer && forall i :: |old(toPeer)| <= i < |toPeer| ==> IsRetry(toPeer[i], outbound, due)
      ensures StoredAgain(old(store), store)
      ensures forall i :: 0 <= i < n && outbound[i].msgid in due && !Released(outbound[i]) ==>
        WithDup(store, outbound[i])
    {
      hide OutboundStored, InboundStored, SenderOf, ReceiverOf, Shape, Resent, Abs, WithDup, RecordAgain;
      var i := 0;
      var left := room;
      while i < |outbound| && connected && left > 0
        invariant 0 <= i <= |outbound| && left >= 0
        invariant Valid() && AsSender() == old(AsSender()) && AsReceiver() == old(AsReceiver())
        invariant toPeer == old(toPeer) + Resends(outbound[..i], due)
        invariant left == room - |Resends(outbound[..i], due)|
        invariant !old(connected) ==> i == 0 && !connected
        invariant StoredAgain(old(store), store)
        invariant forall j :: 0 <= j < i && outbound[j].msgid in due && !Released(outbound[j]) ==>
          WithDup(store, outbound[j])
        invariant old(connected) && !connected ==> Closes(outbound, due, room, last, i)
        invariant connected ==> forall j :: 0 <= j < i ==> !Closes(outbound, due, room, last, j)
        decreases |outbound| - i, connected
      {
        ResendsMore(outbound, due, i);
        if outbound[i].msgid in due {
          ghost var before := store;
          InRangeAt(outbound, inbound, store, i);
          RetryOne(i, left == 1, last);
          AllWithDup(outbound, i, due, old(store), before, store);
          if connected {
            left := left - 1;
          }
        }
        if connected {
          i := i + 1;
        }
      }
      n := i;
      ResendsAreRetries(outbound, due, n);
      hide IsRetry, Resends;
    }

    // What the restoring loop has made of the records before place i, and left of them
    ghost predicate Restored(keys: seq<string>, i: nat, bad: set<string>, was: Store, stored: seq<Message>)
      requires i <= |keys| && Shape(was)
      reads `outbound, `inbound, `store
    {
      && Purged(keys[..i], was, store, Spared(keys, bad)) && OutOf(keys[..i], was, stored, Late(keys, bad))
      && InOf(keys[..i], was, inbound) && outbound == AllSortedIn(stored)
    }

    // An sc- record: an orphan is removed
    method RestoreRelease(keys: seq<string>, i: nat, left: set<string>, ghost bad: set<string>, ghost was: Store,
        ghost stored: seq<Message>)
      requires i < |keys| && keys[i] in store && KindOf(keys[i]) == Release
      requires Shape(was) && Orders(keys, was, bad) && BadLeft(keys, i, bad, left)
      requires Restored(keys, i, bad, was, stored)
      modifies `store
      ensures Restored(keys, i + 1, bad, was, stored)
    {
      hide Purged, OutOf, InOf, Shape, AllSortedIn, KindOf, SentKey, ReleaseKey, ReceivedKey, Late, Spared, BadLeft;
      var key := keys[i];
      assert keys[..i + 1] == keys[..i] + [key];
      ghost var late, spared := Late(keys, bad), Spared(keys, bad);
      OutSkips(keys[..i], key, was, stored, late);
      InSkips(keys[..i], key, was, inbound);
      OrphanOrNot(keys[..i], was, store, key, spared);
      var id := store[key].msgid;
      SparedExactly(keys, i, bad, left, id);
      if SentKey(id) !in store && SentKey(id) !in left {
        PurgeTakes(keys[..i], id, was, store, spared);
        store := store - {key};
      } else {
        PurgeSkips(keys[..i], key, was, store, spared);
      }
    }

    // An s- record: the message waits for PUBCOMP if there is an sc- record, whatever it holds
    method RestoreSent(keys: seq<string>, i: nat, left: set<string>, ghost bad: set<string>, ghost was: Store,
        ghost stored: seq<Message>) returns (ghost stored': seq<Message>)
      requires i < |keys| && keys[i] in store && KindOf(keys[i]) == SentPublish
      requires Shape(was) && Orders(keys, was, bad) && BadLeft(keys, i, bad, left)
      requires Restored(keys, i, bad, was, stored)
      modifies `outbound
      ensures Restored(keys, i + 1, bad, was, stored')
    {
      hide Purged, OutOf, InOf, Shape, AllSortedIn, SortedIn, KindOf, SentKey, ReleaseKey, ReceivedKey, Late, Spared,
        BadLeft;
      var key := keys[i];
      assert keys[..i + 1] == keys[..i] + [key] && key !in keys[..i];
      ghost var late, spared := Late(keys, bad), Spared(keys, bad);
      KeyFacts(keys[..i], was, store, key, spared);
      var rec := store[key];
      LateExactly(keys, i, bad, left, rec.msgid);
      var next: MessageType := *;
      if rec.qos == 2 {
        next := PUBREC;
      }
      if ReleaseKey(rec.msgid) in store || ReleaseKey(rec.msgid) in left {
        next := PUBCOMP;
      }
      var m := Message(rec.msgid, rec.qos, rec.retain, next, rec.pub);
      SentKeyRestored(keys[..i], was, store, key, stored, m, late, spared);
      InSkips(keys[..i], key, was, inbound);
      PurgeSkips(keys[..i], key, was, store, spared);
      AllSortedInAppended(stored, m);
      outbound := InsertInOrder(outbound, m);
      stored' := stored + [m];
    }

    // An r- record
    method RestoreReceived(keys: seq<string>, i: nat, ghost bad: set<string>, ghost was: Store,
        ghost stored: seq<Message>)
      requires i < |keys| && keys[i] in store && KindOf(keys[i]) == Received
      requires Shape(was) && Orders(keys, was, bad) && Restored(keys, i, bad, was, stored)
      modifies `inbound
      ensures Restored(keys, i + 1, bad, was, stored)
    {
      hide Purged, OutOf, InOf, Shape, AllSortedIn, KindOf, SentKey, ReleaseKey, ReceivedKey, Late, Spared;
      var key := keys[i];
      assert keys[..i + 1] == keys[..i] + [key] && key !in keys[..i];
      ghost var late, spared := Late(keys, bad), Spared(keys, bad);
      KeyFacts(keys[..i], was, store, key, spared);
      OutSkips(keys[..i], key, was, stored, late);
      ReceivedKeyRestored(keys[..i], was, store, key, inbound, spared);
      PurgeSkips(keys[..i], key, was, store, spared);
      var rec := store[key];
      inbound := inbound + [Message(rec.msgid, rec.qos, rec.retain, PUBREL, rec.pub)];
    }

    // A record of a command or of a queued message, or one that is no packet
    ghost method PassOver(keys: seq<string>, i: nat, bad: set<string>, was: Store, stored: seq<Message>)
      requires i < |keys| && (keys[i] !in was || (keys[i] in store && KindOf(keys[i]) == Ignored))
      requires Shape(was) && Restored(keys, i, bad, was, stored)
      ensures Restored(keys, i + 1, bad, was, stored)
    {
      hide Purged, OutOf, InOf, Shape, AllSortedIn, KindOf, SentKey, ReleaseKey, ReceivedKey, Late, Spared;
      var key := keys[i];
      assert keys[..i + 1] == keys[..i] + [key];
      var late, spared := Late(keys, bad), Spared(keys, bad);
      if key in was {
        KeyFacts(keys[..i], was, store, key, spared);
        OutSkips(keys[..i], key, was, stored, late);
        InSkips(keys[..i], key, was, inbound);
        PurgeSkips(keys[..i], key, was, store, spared);
      } else {
        BadSkips(keys[..i], key, was, store, stored, inbound, late, spared);
      }
    }

    // The body of the loop of MQTTPersistence_restore, for one key. `bad` are the keys of the records that are no
    // packets, and `left` those of them that have not been removed.
    method RestoreKey(keys: seq<string>, i: nat, left: set<string>, ghost bad: set<string>, ghost was: Store,
        ghost stored: seq<Message>) returns (left': set<string>, ghost stored': seq<Message>)
      requires i < |keys| && Shape(was) && bad !! was.Keys && Orders(keys, was, bad) && BadLeft(keys, i, bad, left)
      requires Restored(keys, i, bad, was, stored)
      modifies `outbound, `inbound, `store
      ensures BadLeft(keys, i + 1, bad, left') && Restored(keys, i + 1, bad, was, stored')
      ensures keys[i] in bad ==> outbound == old(outbound) && inbound == old(inbound) && store == old(store)
    {
      var key := keys[i];
      StillThere(keys, i, bad, was, store, left);
      BadLeftNext(keys, i, bad, left);
      hide Restored, Orders, BadLeft, Shape, KindOf;
      left', stored' := left, stored;
      if key in left {
        PassOver(keys, i, bad, was, stored);
        if KindOf(key) != Ignored {
          left' := left - {key};
        }
      } else if KindOf(key) == Received {
        RestoreReceived(keys, i, bad, was, stored);
      } else if KindOf(key) == SentPublish {
        stored' := RestoreSent(keys, i, left, bad, was, stored);
      } else if KindOf(key) == Release {
        RestoreRelease(keys, i, left, bad, was, stored);
      } else {
        PassOver(keys, i, bad, was, stored);
      }
    }

    // The loop of MQTTPersistence_restore
    method RestoreKeys(keys: seq<string>, bad: set<string>) returns (left: set<string>, ghost stored: seq<Message>)
      requires Shape(store) && outbound == [] && inbound == [] && bad !! store.Keys && Orders(keys, store, bad)
      modifies `outbound, `inbound, `store
      ensures left == OthersOf(bad) && Restored(keys, |keys|, bad, old(store), stored)
    {
      left, stored := bad, [];
      NothingRestored(store);
      NothingLeft(keys, bad);
      assert keys[..0] == [];
      hide Purged, OutOf, InOf, AllSortedIn, KindOf, BadLeft, Late, Spared;
      for i := 0 to |keys|
        invariant BadLeft(keys, i, bad, left) && Restored(keys, i, bad, old(store), stored)
      {
        hide Restored, Shape, Orders;
        left, stored := RestoreKey(keys, i, left, bad, old(store), stored);
      }
      AllLeft(keys, bad, left);
    }

    // MQTTPersistence_restore. `keys` are the keys of all records, in any order, and `bad` those of the records that
    // are no packets.
    method Restore(keys: seq<string>, bad: set<string>) returns (left: set<string>, ghost stored: seq<Message>,
        ghost k: int)
      requires Shape(store) && outbound == [] && inbound == [] && bad !! store.Keys && Orders(keys, store, bad)
      modifies `outbound, `inbound, `store
      ensures Shape(store) && left == OthersOf(bad) && OthersStay(old(store), store)
      ensures AsSender() == RestoredSender(old(store), keys, bad)
      ensures AsReceiver() == RestoreReceiver(Receiver(map[], StoredReceived(old(store))))
      ensures OnlyQoS2Released(old(store)) && Undisturbed(old(store), Late(keys, bad), Spared(keys, bad)) ==>
        Mirrors(outbound, inbound, store)
      ensures OutOf(keys, old(store), stored, Late(keys, bad))
      ensures if stored == [] then outbound == []
              else WrapsAt(AllSortedIn(stored), k) && outbound == Rotated(AllSortedIn(stored), k)
    {
      hide AllSortedIn, Rotated, WrapsAt;
      left, stored := RestoreKeys(keys, bad);
      assert keys[..|keys|] == keys;
      hide Purged, OutOf, InOf, Shape, OnlyQoS2Released, StoredSent, StoredReleased, StoredReceived, OutMap, InMap,
        Orders, Late, Spared, Undisturbed, SenderWith;
      outbound, k := WrapMsgID(outbound);
      AllRestored(keys, old(store), bad, store, stored, k, outbound, inbound);
    }

    // The process has ended, at whatever place, and starts again: memory and connection are lost, the store is not
    method Reboot(keys: seq<string>, bad: set<string>)
      returns (left: set<string>, ghost stored: seq<Message>, ghost k: int)
      requires Shape(store) && bad !! store.Keys && Orders(keys, store, bad)
      modifies this
      ensures Shape(store) && !connected && msgID == 0 && app == old(app) && toPeer == old(toPeer)
      ensures left == OthersOf(bad) && OthersStay(old(store), store)
      ensures AsSender() == RestoredSender(old(store), keys, bad)
      ensures AsReceiver() == RestoreReceiver(Receiver(map[], StoredReceived(old(store))))
      ensures OnlyQoS2Released(old(store)) && Undisturbed(old(store), Late(keys, bad), Spared(keys, bad)) ==> Valid()
      ensures OutOf(keys, old(store), stored, Late(keys, bad))
      ensures if stored == [] then outbound == []
              else WrapsAt(AllSortedIn(stored), k) && outbound == Rotated(AllSortedIn(stored), k)
    {
      outbound, inbound, msgID, connected := [], [], 0, false;
      hide OutOf, Orders, Rotated, WrapsAt, AllSortedIn, OnlyQoS2Released, Undisturbed, Late, Spared, RestoredSender,
        StoredSent, StoredReleased, StoredReceived, SenderOf, ReceiverOf, OutboundStored, InboundStored, Shape;
      left, stored, k := Restore(keys, bad);
    }

    // The process ends between two handlers and starts again. The same protocol state comes back exactly if no QoS 2
    // message has a bad sc- record that is met after its s- record.
    method Restart(keys: seq<string>, bad: set<string>) returns (left: set<string>)
      requires Valid() && bad !! store.Keys && Orders(keys, store, bad)
      modifies this
      ensures left == (set key | key in bad && ("c-" <= key || "q-" <= key))
      ensures forall key :: key in old(store) && ("c-" <= key || "q-" <= key) ==>
          key in store && store[key] == old(store)[key]
      ensures forall key :: key in store ==> key in old(store) && store[key] == old(store)[key]
      ensures Shape(store) && !connected && msgID == 0 && app == old(app) && toPeer == old(toPeer)
      ensures AsSender() == RestoredSender(old(store), keys, bad) && AsReceiver() == old(AsReceiver())
      ensures AsSender() == old(AsSender()) <==> Undisturbed(old(store), Late(keys, bad), Spared(keys, bad))
      ensures Undisturbed(old(store), Late(keys, bad), Spared(keys, bad)) ==>
        Valid() && (SameList(outbound, old(outbound)) <==> old(outbound) == [] || ComesBack(old(outbound)))
    {
      ghost var was, records := outbound, store;
      SameAfter(outbound, inbound, store, keys, bad);
      assert Covers(keys, store);
      hide OutOf, Orders, Covers, Rotated, WrapsAt, AllSortedIn, OnlyQoS2Released, ComesBack, SameList, Undisturbed,
        StoredSent, StoredReleased, StoredReceived, SenderOf, ReceiverOf, OutboundStored, InboundStored, Shape, Late,
        Spared, RestoredSender, RestoreReceiver, OthersOf, OthersStay;
      ghost var stored, k;
      left, stored, k := Reboot(keys, bad);
      OthersByText(records, store, bad);
      if Undisturbed(records, Late(keys, bad), Spared(keys, bad)) {
        OrderAfter(was, records, keys, stored, k, outbound, Late(keys, bad));
      }
    }

    // ---------------- the process ends inside a handler ----------------

    // With all records readable the store alone is what a restart gives back
    method RebootWith(ghost t: Sender)
      requires Shape(store) && OnlyQoS2Released(store)
      requires t.sent == StoredSent(store) && t.released == StoredReleased(store)
      modifies this
      ensures Valid() && !connected && app == old(app) && toPeer == old(toPeer)
      ensures AsSender() == RestoreSender(t)
      ensures AsReceiver() == RestoreReceiver(Receiver(map[], StoredReceived(old(store))))
      ensures forall key :: key in store ==> key in old(store) && store[key] == old(store)[key]
      ensures forall id :: id in t.sent ==> InRange(id) && SentKey(id) in store
    {
      var keys := KeysOf(store);
      NoneBad(store, keys);
      SameRestore(t, Sender(map[], StoredSent(store), StoredReleased(store)));
      hide OutOf, Orders, Rotated, WrapsAt, AllSortedIn, OnlyQoS2Released, Undisturbed, Late, Spared, StoredSent,
        StoredReleased, StoredReceived, SenderOf, ReceiverOf, OutboundStored, InboundStored, Shape, RestoreSender;
      var left;
      ghost var stored, k;
      left, stored, k := Reboot(keys, {});
      SentStays(outbound, store, t);
    }

    // MQTTProtocol_handlePubrecs: the sc- record is written, PUBREL is not sent
    method CrashInPubrec(id: int)
      requires Valid() && TakesPubrec(AsSender(), id)
      modifies this
      ensures Valid() && !connected && app == old(app) && toPeer == old(toPeer)
      ensures AsSender() == RestoreSender(old(AsSender()).(released := old(AsSender()).released + {id}))
      ensures AsReceiver() == old(AsReceiver())
    {
      CrashedInPubrec(outbound, inbound, store, id);
      SameProtocolState(outbound, inbound, store);
      ghost var t := AsSender().(released := AsSender().released + {id});
      hide Mirrors, Shape, OnlyQoS2Released, SenderOf, ReceiverOf, RestoreSender, StoredSent, StoredReleased,
        StoredReceived, ReleaseKey, TakesPubrec;
      store := store[ReleaseKey(id) := PubrelRecord(id)];
      RebootWith(t);
    }

    // MQTTPersistence_remove for a finished message: the s- record is removed, the sc- record is not
    method CrashInPubcomp(id: int)
      requires Valid() && TakesPubcomp(AsSender(), id)
      modifies this
      ensures Valid() && !connected && app == old(app) && toPeer == old(toPeer)
      ensures AsSender() == RestoreSender(old(AsSender()).(sent := old(AsSender()).sent - {id}))
      ensures AsReceiver() == old(AsReceiver())
    {
      CrashedInPubcomp(outbound, inbound, store, id);
      SameProtocolState(outbound, inbound, store);
      ghost var t := AsSender().(sent := AsSender().sent - {id});
      hide Mirrors, Shape, OnlyQoS2Released, SenderOf, ReceiverOf, RestoreSender, StoredSent, StoredReleased,
        StoredReceived, SentKey, TakesPubcomp;
      store := store - {SentKey(id)};
      RebootWith(t);
    }

    // MQTTProtocol_startPublish: the s- record is written, PUBLISH is not sent
    method CrashInPublish(id: int, qos: int, retain: bool, pub: Publication)
      requires Valid() && Assignable(id) && id !in Ids(outbound) && 1 <= qos <= 2
      modifies this
      ensures Valid() && !connected && app == old(app) && toPeer == old(toPeer)
      ensures AsSender() == RestoreSender(old(AsSender()).(sent := old(AsSender()).sent[id := (qos, pub)]))
      ensures AsReceiver() == old(AsReceiver())
      ensures SentKey(id) in store && store[SentKey(id)] == PublishRecord(false, qos, retain, id, pub)
    {
      var rec := PublishRecord(false, qos, retain, id, pub);
      CrashedInPublish(outbound, inbound, store, rec);
      SameProtocolState(outbound, inbound, store);
      ghost var t := AsSender().(sent := AsSender().sent[id := (qos, pub)]);
      hide Mirrors, Shape, OnlyQoS2Released, SenderOf, ReceiverOf, RestoreSender, StoredSent, StoredReleased,
        StoredReceived, SentKey, Ids;
      store := store[SentKey(id) := rec];
      RebootWith(t);
    }
  }

  // The bad records that a restart leaves: those of commands and of queued messages
  ghost function OthersOf(bad: set<string>): set<string> {
    set key | key in bad && ForOthers(key)
  }

  // A restart leaves the records of commands and of queued messages, and changes none
  ghost predicate OthersStay(was: Store, now: Store) {
    && (forall key :: key in was && ForOthers(key) ==> key in now)
    && (forall key :: key in now ==> key in was && now[key] == was[key])
  }

  lemma OthersByText(was: Store, now: Store, bad: set<string>)
    requires OthersStay(was, now)
    ensures OthersOf(bad) == (set key | key in bad && ("c-" <= key || "q-" <= key))
    ensures forall key :: key in was && ("c-" <= key || "q-" <= key) ==> key in now && now[key] == was[key]
    ensures forall key :: key in now ==> key in was && now[key] == was[key]
  {
  }

  lemma OthersLeft(keys: seq<string>, was: Store, now: Store, spared: set<int>)
    requires Shape(was) && Purged(keys, was, now, spared)
    ensures OthersStay(was, now)
  {
    forall key | key in was && ForOthers(key) ensures key in now { IgnoredExactly(key); }
  }

  lemma NothingLeft(keys: seq<string>, bad: set<string>)
    ensures BadLeft(keys, 0, bad, bad)
  {
  }

  lemma AllLeft(keys: seq<string>, bad: set<string>, left: set<string>)
    requires BadLeft(keys, |keys|, bad, left) && forall key :: key in bad ==> key in keys
    ensures left == OthersOf(bad)
  {
    forall key ensures KindOf(key) == Ignored <==> ForOthers(key) { IgnoredExactly(key); }
    hide KindOf, ForOthers;
    assert keys[..|keys|] == keys;
  }

  lemma AllRestored(keys: seq<string>, was: Store, bad: set<string>, now: Store, stored: seq<Message>, k: int,
      outbound: seq<Message>, inbound: seq<Message>)
    requires Shape(was) && Orders(keys, was, bad)
    requires Purged(keys, was, now, Spared(keys, bad)) && OutOf(keys, was, stored, Late(keys, bad))
    requires InOf(keys, was, inbound)
    requires if AllSortedIn(stored) == [] then outbound == []
             else WrapsAt(AllSortedIn(stored), k) && outbound == Rotated(AllSortedIn(stored), k)
    ensures Shape(now) && SenderOf(outbound, now) == RestoredSender(was, keys, bad) && OthersStay(was, now)
    ensures ReceiverOf(inbound, now) == RestoreReceiver(Receiver(map[], StoredReceived(was)))
    ensures OnlyQoS2Released(was) && Undisturbed(was, Late(keys, bad), Spared(keys, bad)) ==>
      Mirrors(outbound, inbound, now)
    ensures if stored == [] then outbound == []
            else WrapsAt(AllSortedIn(stored), k) && outbound == Rotated(AllSortedIn(stored), k)
  {
    var late, spared := Late(keys, bad), Spared(keys, bad);
    assert Covers(keys, was);
    OthersLeft(keys, was, now, spared);
    hide Purged, OutOf, InOf, Shape, AllSortedIn, Rotated, WrapsAt, OnlyQoS2Released, StoredReceived, OutMap, InMap,
      Orders, Late, Spared, Undisturbed, SenderWith, Covers;
    PurgedShape(keys, was, now, spared);
    Turned(keys, was, stored, k, outbound, late);
    TurnedMirrors(keys, was, now, stored, outbound, late, spared);
    InRestored(keys, was, now, inbound, spared);
  }

  // The record at place i is still in the store, or it is a bad one
  lemma StillThere(keys: seq<string>, i: nat, bad: set<string>, was: Store, now: Store, left: set<string>)
    requires i < |keys| && Shape(was) && bad !! was.Keys && Orders(keys, was, bad) && BadLeft(keys, i, bad, left)
    requires Purged(keys[..i], was, now, Spared(keys, bad))
    ensures keys[i] in left <==> keys[i] in bad
    ensures if keys[i] in left then keys[i] !in was else keys[i] in now && KindOf(keys[i]) != Unknown
  {
    assert keys[i] !in keys[..i];
    if keys[i] in now { KeyHolds(keys[i], now[keys[i]]); }
    hide KindOf;
  }

  // A restart from a store that mirrors the lists
  lemma SameAfter(outbound: seq<Message>, inbound: seq<Message>, s: Store, keys: seq<string>, bad: set<string>)
    requires Mirrors(outbound, inbound, s) && bad !! s.Keys
    ensures RestoredSender(s, keys, bad) == SenderOf(outbound, s) <==>
      Undisturbed(s, Late(keys, bad), Spared(keys, bad))
    ensures Undisturbed(s, Late(keys, bad), Spared(keys, bad)) ==> Undisturbed(s, Late(keys, bad), {})
    ensures RestoreReceiver(Receiver(map[], StoredReceived(s))) == ReceiverOf(inbound, s) && OnlyQoS2Released(s)
  {
    SameProtocolState(outbound, inbound, s);
    hide Shape, OutboundStored, InboundStored, Late, Spared, SenderWith, OutMap, InMap, StoredSent, StoredReleased,
      StoredReceived;
    BadIsNoRelease(s, keys, bad);
    UndisturbedExactly(s, Late(keys, bad), Spared(keys, bad));
  }

  lemma NoneBad(store: Store, keys: seq<string>)
    requires Shape(store)
    ensures Late(keys, {}) == {} && Spared(keys, {}) == {} && Undisturbed(store, {}, {})
    ensures RestoredSender(store, keys, {}) == RestoreSender(Sender(map[], StoredSent(store), StoredReleased(store)))
  {
    UndisturbedExactly(store, {}, {});
  }

  lemma ShapeHolds(store: Store, key: string)
    requires Shape(store) && key in store
    ensures KindOf(key) == Received || KindOf(key) == SentPublish ==>
      store[key].PublishRecord? && InRange(store[key].msgid)
    ensures KindOf(key) == Release ==> store[key].PubrelRecord? && InRange(store[key].msgid)
  {
    KeyHolds(key, store[key]);
  }

  // ---------------- the store after a crash ----------------

  lemma SentStays(outbound: seq<Message>, s: Store, t: Sender)
    requires Shape(s) && SenderOf(outbound, s) == RestoreSender(t)
    ensures forall id :: id in t.sent ==> InRange(id) && SentKey(id) in s
  {
    hide Shape;
    forall id | id in t.sent ensures InRange(id) && SentKey(id) in s {
      assert id in RestoreSender(t).sent;
      assert HasSent(s, id);
    }
  }

  lemma CrashedInPubrec(outbound: seq<Message>, inbound: seq<Message>, s: Store, id: int)
    requires Mirrors(outbound, inbound, s) && TakesPubrec(SenderOf(outbound, s), id)
    ensures var t := s[ReleaseKey(id) := PubrelRecord(id)];
      && Shape(t) && OnlyQoS2Released(t) && StoredReceived(t) == StoredReceived(s)
      && StoredSent(t) == StoredSent(s) && StoredReleased(t) == StoredReleased(s) + {id}
  {
    OneOf(outbound, inbound, s, id);
    SameProtocolState(outbound, inbound, s);
    hide OutboundStored, InboundStored, OutMap, InMap, SentKey, ReleaseKey, ReceivedKey, StoredReleased;
    PutRelease(s, id);
    hide Shape, ReceivedOf, SentOf;
    assert StoredReceived(s[ReleaseKey(id) := PubrelRecord(id)]) == StoredReceived(s);
  }

  lemma CrashedInPubcomp(outbound: seq<Message>, inbound: seq<Message>, s: Store, id: int)
    requires Mirrors(outbound, inbound, s) && TakesPubcomp(SenderOf(outbound, s), id)
    ensures var t := s - {SentKey(id)};
      && Shape(t) && OnlyQoS2Released(t) && StoredReceived(t) == StoredReceived(s)
      && StoredSent(t) == StoredSent(s) - {id} && StoredReleased(t) == StoredReleased(s)
  {
    OneOf(outbound, inbound, s, id);
    SameProtocolState(outbound, inbound, s);
    hide OutboundStored, InboundStored, OutMap, InMap, SentKey, ReleaseKey, ReceivedKey, StoredReleased;
    RemoveSent(s, id);
    hide Shape, ReceivedOf, SentOf;
    assert StoredReceived(s - {SentKey(id)}) == StoredReceived(s);
  }

  lemma CrashedInPublish(outbound: seq<Message>, inbound: seq<Message>, s: Store, rec: Record)
    requires Mirrors(outbound, inbound, s) && rec.PublishRecord? && InRange(rec.msgid) && 1 <= rec.qos <= 2
    requires rec.msgid !in Ids(outbound)
    ensures var t := s[SentKey(rec.msgid) := rec];
      && Shape(t) && OnlyQoS2Released(t) && StoredReceived(t) == StoredReceived(s)
      && StoredSent(t) == StoredSent(s)[rec.msgid := (rec.qos, rec.pub)] && StoredReleased(t) == StoredReleased(s)
  {
    assert !HasRelease(s, rec.msgid);
    SameProtocolState(outbound, inbound, s);
    hide OutboundStored, InboundStored, OutMap, InMap, SentKey, ReleaseKey, ReceivedKey, StoredReleased;
    PutSent(s, rec);
    hide Shape, ReceivedOf, SentOf;
    assert StoredReceived(s[SentKey(rec.msgid) := rec]) == StoredReceived(s);
  }

  lemma OneOf(outbound: seq<Message>, inbound: seq<Message>, s: Store, id: int)
    requires Mirrors(outbound, inbound, s) && id in SenderOf(outbound, s).out
    ensures InRange(id) && HasSent(s, id) && SentOf(s, id).qos == SenderOf(outbound, s).out[id].qos
  {
    OutMapKeys(outbound);
    var i :| 0 <= i < |outbound| && outbound[i].msgid == id;
    AtIndex(outbound, i);
    assert Stored(outbound[i], s);
  }

  // One and the same store, with the s- record of a QoS 2 message and a bad record under its sc- key: the order of the
  // keys decides whether the message goes on with PUBREL or is sent again as PUBLISH
  method BadReleaseRecord(pub: Publication) returns (a: Client, b: Client)
    ensures Shape(a.store) && 1 in a.AsSender().out && a.AsSender().out[1].next == AwaitPubcomp
    ensures Shape(b.store) && 1 in b.AsSender().out && b.AsSender().out[1].next == AwaitPubrec
  {
    var s, r := SentKey(1), ReleaseKey(1);
    var records := map[s := PublishRecord(false, 2, false, 1, pub)];
    KindsAreTold(1);
    KeysApart(1, 1);
    hide KindOf, SentKey, ReleaseKey, ReceivedKey;
    OneBadRelease(records, PublishRecord(false, 2, false, 1, pub), s, r);
    hide Fits, Shape, Late, Spared, Orders, OutOf, SentOf, RestoredSender;
    a := new Client();
    b := new Client();
    a.store, b.store := records, records;
    var left;
    ghost var stored, k;
    left, stored, k := a.Reboot([s, r], {r});
    left, stored, k := b.Reboot([r, s], {r});
  }

  lemma OneBadRelease(records: Store, rec: Record, s: string, r: string)
    requires s == SentKey(1) && r == ReleaseKey(1) && s != r && rec.PublishRecord? && rec.qos == 2 && rec.msgid == 1
    requires records == map[s := rec]
    ensures Shape(records) && {r} !! records.Keys && Orders([s, r], records, {r}) && Orders([r, s], records, {r})
    ensures var a := RestoredSender(records, [s, r], {r}); 1 in a.out && a.out[1].next == AwaitPubcomp
    ensures var b := RestoredSender(records, [r, s], {r}); 1 in b.out && b.out[1].next == AwaitPubrec
  {
    hide KindOf, SentKey, ReleaseKey, ReceivedKey;
    assert HasSent(records, 1) && SentOf(records, 1) == rec;
    TwoKeys(s, r);
    TwoKeys(r, s);
    NotBoth([r, s], r, s);
    assert 1 in Late([s, r], {r}) && 1 !in Late([r, s], {r});
    BadIsNoRelease(records, [r, s], {r});
    assert !HasRelease(records, 1);
  }

  lemma TwoKeys(a: string, b: string)
    requires a != b
    ensures DistinctKeys([a, b]) && Precedes([a, b], a, b)
  {
    assert [a, b][0] == a && [a, b][1] == b;
  }
}
