/** The records a client keeps in its persistent store, and how they mirror its message lists. */
module ClientStore {
  import opened QosProtocol
  import opened MessageLists
  import opened Sequences
  import opened StoreKeys

  // The packet that a record holds; a record under a command or queue key is none of the protocol's
  datatype Record =
    | PublishRecord(dup: bool, qos: int, retain: bool, msgid: int, pub: Publication)
    | PubrelRecord(msgid: int)
    | OtherRecord

  type Store = map<string, Record>

  // What two bytes can say
  predicate InRange(id: int) { 0 <= id <= MAX_MSG_ID }

  ghost predicate Fits(key: string, rec: Record) {
    || KindOf(key) == Ignored
    || (rec.PublishRecord? && InRange(rec.msgid)
        && ((key == SentKey(rec.msgid) && 1 <= rec.qos <= 2) || (key == ReceivedKey(rec.msgid) && rec.qos == 2)))
    || (rec.PubrelRecord? && InRange(rec.msgid) && key == ReleaseKey(rec.msgid))
  }

  ghost predicate Shape(store: Store) {
    forall key :: key in store ==> Fits(key, store[key])
  }

  ghost predicate HasSent(store: Store, id: int) { InRange(id) && SentKey(id) in store }
  ghost predicate HasRelease(store: Store, id: int) { InRange(id) && ReleaseKey(id) in store }
  ghost predicate HasReceived(store: Store, id: int) { InRange(id) && ReceivedKey(id) in store }

  ghost function SentOf(store: Store, id: int): (rec: Record)
    requires Shape(store) && HasSent(store, id)
    ensures rec.PublishRecord? && rec.msgid == id && 1 <= rec.qos <= 2
  {
    var rec := store[SentKey(id)];
    KindsAreTold(id);
    assert Fits(SentKey(id), rec);
    if rec.OtherRecord? then rec else KeysApart(id, rec.msgid); KeysApart(rec.msgid, id); rec
  }

  ghost function ReceivedOf(store: Store, id: int): (rec: Record)
    requires Shape(store) && HasReceived(store, id)
    ensures rec.PublishRecord? && rec.msgid == id && rec.qos == 2
  {
    var rec := store[ReceivedKey(id)];
    KindsAreTold(id);
    assert Fits(ReceivedKey(id), rec);
    if rec.OtherRecord? then rec else KeysApart(id, rec.msgid); KeysApart(rec.msgid, id); rec
  }

  ghost function StoredSent(store: Store): map<int, (int, Publication)>
    requires Shape(store)
  {
    map id: int | 0 <= id <= MAX_MSG_ID && HasSent(store, id) :: (SentOf(store, id).qos, SentOf(store, id).pub)
  }

  ghost function StoredReleased(store: Store): set<int> {
    set id: int | 0 <= id <= MAX_MSG_ID && HasRelease(store, id)
  }

  ghost function StoredReceived(store: Store): map<int, Publication>
    requires Shape(store)
  {
    map id: int | 0 <= id <= MAX_MSG_ID && HasReceived(store, id) :: ReceivedOf(store, id).pub
  }

  // ---------------- one put or remove ----------------

  // t is s except for the records under the three keys of id
  ghost predicate AgreesOff(s: Store, t: Store, id: int) {
    && (forall k :: k != id ==> (HasSent(s, k) <==> HasSent(t, k)) && (HasRelease(s, k) <==> HasRelease(t, k))
                                && (HasReceived(s, k) <==> HasReceived(t, k)))
    && (forall k :: k != id && HasSent(s, k) && HasSent(t, k) ==> s[SentKey(k)] == t[SentKey(k)])
    && (forall k :: k != id && HasReceived(s, k) && HasReceived(t, k) ==> s[ReceivedKey(k)] == t[ReceivedKey(k)])
  }

  lemma OtherKeys(key: string, id: int)
    requires InRange(id) && key in [SentKey(id), ReleaseKey(id), ReceivedKey(id)]
    ensures forall k :: InRange(k) && k != id ==> SentKey(k) != key && ReleaseKey(k) != key && ReceivedKey(k) != key
  {
    forall k | InRange(k) && k != id
      ensures SentKey(k) != key && ReleaseKey(k) != key && ReceivedKey(k) != key
    {
      KeysApart(id, k);
      KeysApart(k, id);
    }
  }

  // t is s except for one key
  ghost predicate SameOff(s: Store, t: Store, key: string) {
    forall k :: k != key ==> (k in s <==> k in t) && (k in s && k in t ==> s[k] == t[k])
  }

  lemma Agrees(s: Store, t: Store, key: string, id: int)
    requires InRange(id) && SameOff(s, t, key) && key in [SentKey(id), ReleaseKey(id), ReceivedKey(id)]
    ensures AgreesOff(s, t, id)
    ensures key != SentKey(id) ==>
      (HasSent(t, id) <==> HasSent(s, id)) && (HasSent(s, id) ==> t[SentKey(id)] == s[SentKey(id)])
    ensures key != ReleaseKey(id) ==> (HasRelease(t, id) <==> HasRelease(s, id))
    ensures key != ReceivedKey(id) ==>
      (HasReceived(t, id) <==> HasReceived(s, id)) && (HasReceived(s, id) ==> t[ReceivedKey(id)] == s[ReceivedKey(id)])
  {
    OtherKeys(key, id);
    hide SentKey, ReleaseKey, ReceivedKey;
  }

  lemma PutAgrees(s: Store, key: string, rec: Record, id: int)
    requires InRange(id) && Shape(s) && Fits(key, rec) && key in [SentKey(id), ReleaseKey(id), ReceivedKey(id)]
    ensures Shape(s[key := rec]) && AgreesOff(s, s[key := rec], id)
    ensures key != SentKey(id) ==>
      (HasSent(s[key := rec], id) <==> HasSent(s, id)) &&
        (HasSent(s, id) ==> s[key := rec][SentKey(id)] == s[SentKey(id)])
    ensures key != ReleaseKey(id) ==> (HasRelease(s[key := rec], id) <==> HasRelease(s, id))
    ensures key != ReceivedKey(id) ==>
      (HasReceived(s[key := rec], id) <==> HasReceived(s, id)) &&
        (HasReceived(s, id) ==> s[key := rec][ReceivedKey(id)] == s[ReceivedKey(id)])
  {
    hide SentKey, ReleaseKey, ReceivedKey, Fits, KindOf, HasSent, HasRelease, HasReceived, AgreesOff;
    Agrees(s, s[key := rec], key, id);
  }

  lemma RemoveAgrees(s: Store, key: string, id: int)
    requires InRange(id) && Shape(s) && key in [SentKey(id), ReleaseKey(id), ReceivedKey(id)]
    ensures Shape(s - {key}) && AgreesOff(s, s - {key}, id)
    ensures key != SentKey(id) ==>
      (HasSent(s - {key}, id) <==> HasSent(s, id)) && (HasSent(s, id) ==> (s - {key})[SentKey(id)] == s[SentKey(id)])
    ensures key != ReleaseKey(id) ==> (HasRelease(s - {key}, id) <==> HasRelease(s, id))
    ensures key != ReceivedKey(id) ==>
      (HasReceived(s - {key}, id) <==> HasReceived(s, id)) &&
        (HasReceived(s, id) ==> (s - {key})[ReceivedKey(id)] == s[ReceivedKey(id)])
  {
    hide SentKey, ReleaseKey, ReceivedKey, Fits, KindOf, AgreesOff;
    Agrees(s, s - {key}, key, id);
  }

  // ---------------- the store mirrors the outbound list ----------------

  ghost predicate IsOutbound(m: Message) {
    InRange(m.msgid) && 1 <= m.qos <= 2 && (m.qos == 2 ==> m.next == PUBREC || m.next == PUBCOMP)
  }

  predicate Released(m: Message) { m.qos == 2 && m.next == PUBCOMP }

  function RecordOf(m: Message, dup: bool): Record {
    PublishRecord(dup, m.qos, m.retain, m.msgid, m.pub)
  }

  ghost predicate Stored(m: Message, store: Store)
    requires Shape(store)
  {
    && IsOutbound(m) && HasSent(store, m.msgid)
    && SentOf(store, m.msgid) == RecordOf(m, SentOf(store, m.msgid).dup)
    && (HasRelease(store, m.msgid) <==> Released(m))
  }

  ghost predicate StoredIn(m: Message, store: Store)
    requires Shape(store)
  {
    && InRange(m.msgid) && m.qos == 2 && m.next == PUBREL && HasReceived(store, m.msgid)
    && ReceivedOf(store, m.msgid) == RecordOf(m, ReceivedOf(store, m.msgid).dup)
  }

  // One s- record for each outbound message, one sc- record exactly for those that await their PUBCOMP
  ghost predicate OutboundStored(ms: seq<Message>, store: Store)
    requires Shape(store)
  {
    && Distinct(ms)
    && (forall i :: 0 <= i < |ms| ==> Stored(ms[i], store))
    && (forall id :: HasSent(store, id) || HasRelease(store, id) ==> id in Ids(ms))
  }

  // One r- record for each inbound message
  ghost predicate InboundStored(ms: seq<Message>, store: Store)
    requires Shape(store)
  {
    && Distinct(ms)
    && (forall i :: 0 <= i < |ms| ==> StoredIn(ms[i], store))
    && (forall id :: HasReceived(store, id) ==> id in Ids(ms))
  }

  ghost function SenderOf(ms: seq<Message>, store: Store): Sender
    requires Shape(store)
  {
    Sender(OutMap(ms), StoredSent(store), StoredReleased(store))
  }

  ghost function ReceiverOf(ms: seq<Message>, store: Store): Receiver
    requires Shape(store)
  {
    Receiver(InMap(ms), StoredReceived(store))
  }

  // What the list and the store say of one id
  lemma AtIndex(ms: seq<Message>, i: int)
    requires Distinct(ms) && 0 <= i < |ms|
    ensures ms[i].msgid in OutMap(ms) && OutMap(ms)[ms[i].msgid] == Abs(ms[i])
    ensures ms[i].msgid in InMap(ms) && InMap(ms)[ms[i].msgid] == ms[i].pub
  {
  }

  // At a handler boundary a restart would rebuild the same protocol state
  lemma StoredIsMirrored(ms: seq<Message>, store: Store)
    requires Shape(store) && OutboundStored(ms, store)
    ensures Mirrored(SenderOf(ms, store))
  {
    hide KindOf, SentKey, ReleaseKey, ReceivedKey, Fits, ById, IndexOf;
    var s := SenderOf(ms, store);
    forall id | id in s.out
      ensures id in s.sent && s.out[id].qos in {1, 2} && s.sent[id] == (s.out[id].qos, s.out[id].pub)
      ensures s.out[id].next == AwaitPuback <==> s.out[id].qos == 1
      ensures id in s.released <==> s.out[id].next == AwaitPubcomp
    {
      var i :| 0 <= i < |ms| && ms[i].msgid == id;
      OneMirrored(ms, store, i);
    }
    assert s.sent.Keys <= s.out.Keys && s.released <= s.out.Keys;
  }

  lemma OneMirrored(ms: seq<Message>, store: Store, i: int)
    requires Shape(store) && OutboundStored(ms, store) && 0 <= i < |ms|
    ensures var s, id := SenderOf(ms, store), ms[i].msgid;
      && id in s.out && id in s.sent && s.out[id].qos in {1, 2} && s.sent[id] == (s.out[id].qos, s.out[id].pub)
      && (s.out[id].next == AwaitPuback <==> s.out[id].qos == 1)
      && (id in s.released <==> s.out[id].next == AwaitPubcomp)
  {
    AtIndex(ms, i);
    assert Stored(ms[i], store);
  }

  lemma ReceivedIsMirrored(ms: seq<Message>, store: Store)
    requires Shape(store) && InboundStored(ms, store)
    ensures ReceiverOf(ms, store).inbound == ReceiverOf(ms, store).received
  {
    hide KindOf, SentKey, ReleaseKey, ReceivedKey, Fits, ById, IndexOf;
    var r := ReceiverOf(ms, store);
    forall id | id in r.inbound ensures id in r.received && r.received[id] == r.inbound[id] {
      var i :| 0 <= i < |ms| && ms[i].msgid == id;
      AtIndex(ms, i);
    }
    assert forall id :: id in r.received ==> id in r.inbound;
  }

  // ---------------- the outbound list and the store move together ----------------

  lemma SameSender(ms: seq<Message>, s: Store, t: Store)
    requires Shape(s) && Shape(t)
    requires forall id :: (HasSent(s, id) <==> HasSent(t, id)) && (HasRelease(s, id) <==> HasRelease(t, id))
    requires forall id :: HasSent(s, id) ==> SentOf(s, id) == SentOf(t, id).(dup := SentOf(s, id).dup)
    ensures StoredSent(s) == StoredSent(t) && StoredReleased(s) == StoredReleased(t)
    ensures OutboundStored(ms, s) ==> OutboundStored(ms, t)
  {
    hide KindOf, SentKey, ReleaseKey, ReceivedKey, Fits, SentOf;
  }

  lemma SameReceiver(ms: seq<Message>, s: Store, t: Store)
    requires Shape(s) && Shape(t)
    requires forall id :: HasReceived(s, id) <==> HasReceived(t, id)
    requires forall id :: HasReceived(s, id) ==> ReceivedOf(s, id) == ReceivedOf(t, id)
    ensures StoredReceived(s) == StoredReceived(t)
    ensures InboundStored(ms, s) ==> InboundStored(ms, t)
  {
    hide KindOf, SentKey, ReleaseKey, ReceivedKey, Fits, ReceivedOf;
  }

  // Apart from the s- record of id, and apart from its sc- record, t says what s says
  ghost predicate SentDiffers(s: Store, t: Store, id: int)
    requires Shape(s) && Shape(t)
  {
    && (forall k :: k != id ==> (HasSent(t, k) <==> HasSent(s, k)))
    && (forall k :: k != id && HasSent(s, k) ==> SentOf(t, k) == SentOf(s, k))
    && (forall k :: HasRelease(t, k) <==> HasRelease(s, k))
  }

  ghost predicate ReleaseDiffers(s: Store, t: Store, id: int)
    requires Shape(s) && Shape(t)
  {
    && (forall k :: HasSent(t, k) <==> HasSent(s, k))
    && (forall k :: HasSent(s, k) ==> SentOf(t, k) == SentOf(s, k))
    && (forall k :: k != id ==> (HasRelease(t, k) <==> HasRelease(s, k)))
  }

  ghost predicate ReceivedDiffers(s: Store, t: Store, id: int)
    requires Shape(s) && Shape(t)
  {
    && (forall k :: k != id ==> (HasReceived(t, k) <==> HasReceived(s, k)))
    && (forall k :: k != id && HasReceived(s, k) ==> ReceivedOf(t, k) == ReceivedOf(s, k))
  }

  lemma SentRemoved(s: Store, t: Store, id: int)
    requires Shape(s) && Shape(t) && SentDiffers(s, t, id) && !HasSent(t, id)
    ensures StoredSent(t) == StoredSent(s) - {id} && StoredReleased(t) == StoredReleased(s)
  {
    hide Shape, SentOf;
  }

  lemma SentPut(s: Store, t: Store, id: int)
    requires Shape(s) && Shape(t) && SentDiffers(s, t, id) && HasSent(t, id)
    ensures StoredSent(t) == StoredSent(s)[id := (SentOf(t, id).qos, SentOf(t, id).pub)] &&
      StoredReleased(t) == StoredReleased(s)
  {
    hide Shape, SentOf;
  }

  lemma ReleaseRemoved(s: Store, t: Store, id: int)
    requires Shape(s) && Shape(t) && ReleaseDiffers(s, t, id) && !HasRelease(t, id)
    ensures StoredReleased(t) == StoredReleased(s) - {id} && StoredSent(t) == StoredSent(s)
  {
    hide Shape, SentOf;
  }

  lemma ReleasePut(s: Store, t: Store, id: int)
    requires Shape(s) && Shape(t) && ReleaseDiffers(s, t, id) && HasRelease(t, id)
    ensures StoredReleased(t) == StoredReleased(s) + {id} && StoredSent(t) == StoredSent(s)
  {
    hide Shape, SentOf;
  }

  lemma ReceivedRemoved(s: Store, t: Store, id: int)
    requires Shape(s) && Shape(t) && ReceivedDiffers(s, t, id) && !HasReceived(t, id)
    ensures StoredReceived(t) == StoredReceived(s) - {id}
  {
    hide Shape, ReceivedOf;
  }

  lemma ReceivedPut(s: Store, t: Store, id: int)
    requires Shape(s) && Shape(t) && ReceivedDiffers(s, t, id) && HasReceived(t, id)
    ensures StoredReceived(t) == StoredReceived(s)[id := ReceivedOf(t, id).pub]
  {
    hide Shape, ReceivedOf;
  }

  ghost predicate InboundSame(s: Store, t: Store)
    requires Shape(s) && Shape(t)
  {
    && StoredReceived(t) == StoredReceived(s)
    && forall ms :: InboundStored(ms, s) ==> InboundStored(ms, t)
  }

  ghost predicate OutboundSame(s: Store, t: Store)
    requires Shape(s) && Shape(t)
  {
    && StoredSent(t) == StoredSent(s) && StoredReleased(t) == StoredReleased(s)
    && forall ms :: OutboundStored(ms, s) ==> OutboundStored(ms, t)
  }

  lemma InboundUntouched(s: Store, t: Store, id: int)
    requires Shape(s) && Shape(t) && AgreesOff(s, t, id)
    requires HasReceived(s, id) <==> HasReceived(t, id)
    requires HasReceived(s, id) ==> s[ReceivedKey(id)] == t[ReceivedKey(id)]
    ensures InboundSame(s, t)
  {
    hide KindOf, SentKey, ReleaseKey, ReceivedKey, Fits;
    forall ms: seq<Message> ensures InboundStored(ms, s) ==> InboundStored(ms, t) { SameReceiver(ms, s, t); }
    SameReceiver([], s, t);
  }

  lemma OutboundUntouched(s: Store, t: Store, id: int)
    requires Shape(s) && Shape(t) && AgreesOff(s, t, id)
    requires (HasSent(s, id) <==> HasSent(t, id)) && (HasRelease(s, id) <==> HasRelease(t, id))
    requires HasSent(s, id) ==> s[SentKey(id)] == t[SentKey(id)]
    ensures OutboundSame(s, t)
  {
    hide KindOf, SentKey, ReleaseKey, ReceivedKey, Fits;
    forall ms: seq<Message> ensures OutboundStored(ms, s) ==> OutboundStored(ms, t) { SameSender(ms, s, t); }
    SameSender([], s, t);
  }

  lemma PutSentShape(s: Store, rec: Record)
    requires Shape(s) && rec.PublishRecord? && InRange(rec.msgid) && 1 <= rec.qos <= 2
    ensures var t := s[SentKey(rec.msgid) := rec];
      && Shape(t) && InboundSame(s, t) && AgreesOff(s, t, rec.msgid)
      && HasSent(t, rec.msgid) && (HasRelease(t, rec.msgid) <==> HasRelease(s, rec.msgid))
  {
    var t := s[SentKey(rec.msgid) := rec];
    KeysApart(rec.msgid, rec.msgid);
    PutAgrees(s, SentKey(rec.msgid), rec, rec.msgid);
    hide KindOf, SentKey, ReleaseKey, ReceivedKey, Fits;
    InboundUntouched(s, t, rec.msgid);
  }

  lemma PutSent(s: Store, rec: Record)
    requires Shape(s) && rec.PublishRecord? && InRange(rec.msgid) && 1 <= rec.qos <= 2
    ensures var t := s[SentKey(rec.msgid) := rec];
      && Shape(t) && InboundSame(s, t) && SentDiffers(s, t, rec.msgid)
      && HasSent(t, rec.msgid) && SentOf(t, rec.msgid) == rec
      && StoredSent(t) == StoredSent(s)[rec.msgid := (rec.qos, rec.pub)] && StoredReleased(t) == StoredReleased(s)
  {
    var t := s[SentKey(rec.msgid) := rec];
    PutSentShape(s, rec);
    hide KindOf, SentKey, ReleaseKey, ReceivedKey, Fits, Shape, InboundSame;
    assert forall k :: HasSent(s, k) && k != rec.msgid ==> SentOf(t, k) == SentOf(s, k);
    assert SentOf(t, rec.msgid) == rec;
    assert SentDiffers(s, t, rec.msgid);
    hide SentOf, HasSent, HasReceived, StoredSent, StoredReleased;
    hide AgreesOff, SentDiffers;
    SentPut(s, t, rec.msgid);
  }

  lemma PutReleaseShape(s: Store, id: int)
    requires Shape(s) && InRange(id)
    ensures var t := s[ReleaseKey(id) := PubrelRecord(id)];
      && Shape(t) && InboundSame(s, t) && AgreesOff(s, t, id)
      && (HasSent(t, id) <==> HasSent(s, id)) && (HasSent(s, id) ==> t[SentKey(id)] == s[SentKey(id)])
  {
    KeysApart(id, id);
    PutAgrees(s, ReleaseKey(id), PubrelRecord(id), id);
    hide KindOf, SentKey, ReleaseKey, ReceivedKey, Fits;
    InboundUntouched(s, s[ReleaseKey(id) := PubrelRecord(id)], id);
  }

  lemma PutRelease(s: Store, id: int)
    requires Shape(s) && InRange(id)
    ensures var t := s[ReleaseKey(id) := PubrelRecord(id)];
      && Shape(t) && InboundSame(s, t) && ReleaseDiffers(s, t, id) && HasRelease(t, id)
      && StoredReleased(t) == StoredReleased(s) + {id} && StoredSent(t) == StoredSent(s)
  {
    var t := s[ReleaseKey(id) := PubrelRecord(id)];
    PutReleaseShape(s, id);
    hide KindOf, SentKey, ReleaseKey, ReceivedKey, Fits, Shape, InboundSame;
    assert forall k :: HasSent(s, k) ==> SentOf(t, k) == SentOf(s, k);
    assert ReleaseDiffers(s, t, id);
    hide SentOf, HasSent, HasReceived, StoredSent, StoredReleased;
    hide AgreesOff, ReleaseDiffers;
    ReleasePut(s, t, id);
  }

  lemma PutReceivedShape(s: Store, rec: Record)
    requires Shape(s) && rec.PublishRecord? && InRange(rec.msgid) && rec.qos == 2
    ensures var t := s[ReceivedKey(rec.msgid) := rec];
      && Shape(t) && OutboundSame(s, t) && AgreesOff(s, t, rec.msgid)
      && HasReceived(t, rec.msgid)
  {
    var t := s[ReceivedKey(rec.msgid) := rec];
    KeysApart(rec.msgid, rec.msgid);
    PutAgrees(s, ReceivedKey(rec.msgid), rec, rec.msgid);
    hide KindOf, SentKey, ReleaseKey, ReceivedKey, Fits;
    OutboundUntouched(s, t, rec.msgid);
  }

  lemma PutReceived(s: Store, rec: Record)
    requires Shape(s) && rec.PublishRecord? && InRange(rec.msgid) && rec.qos == 2
    ensures var t := s[ReceivedKey(rec.msgid) := rec];
      && Shape(t) && OutboundSame(s, t) && ReceivedDiffers(s, t, rec.msgid)
      && HasReceived(t, rec.msgid) && ReceivedOf(t, rec.msgid) == rec
      && StoredReceived(t) == StoredReceived(s)[rec.msgid := rec.pub]
  {
    var t := s[ReceivedKey(rec.msgid) := rec];
    PutReceivedShape(s, rec);
    hide KindOf, SentKey, ReleaseKey, ReceivedKey, Fits, Shape, OutboundSame;
    assert forall k :: HasReceived(s, k) && k != rec.msgid ==> ReceivedOf(t, k) == ReceivedOf(s, k);
    assert ReceivedOf(t, rec.msgid) == rec;
    assert ReceivedDiffers(s, t, rec.msgid);
    hide ReceivedOf, HasReceived, HasSent, HasRelease, StoredReceived;
    hide AgreesOff, ReceivedDiffers;
    ReceivedPut(s, t, rec.msgid);
  }

  lemma RemoveSentShape(s: Store, id: int)
    requires Shape(s) && InRange(id)
    ensures var t := s - {SentKey(id)};
      && Shape(t) && InboundSame(s, t) && AgreesOff(s, t, id)
      && !HasSent(t, id) && (HasRelease(t, id) <==> HasRelease(s, id))
  {
    var t := s - {SentKey(id)};
    KeysApart(id, id);
    RemoveAgrees(s, SentKey(id), id);
    hide KindOf, SentKey, ReleaseKey, ReceivedKey, Fits;
    InboundUntouched(s, t, id);
  }

  lemma RemoveSent(s: Store, id: int)
    requires Shape(s) && InRange(id)
    ensures var t := s - {SentKey(id)};
      && Shape(t) && InboundSame(s, t) && SentDiffers(s, t, id) && !HasSent(t, id)
      && StoredSent(t) == StoredSent(s) - {id} && StoredReleased(t) == StoredReleased(s)
  {
    var t := s - {SentKey(id)};
    RemoveSentShape(s, id);
    hide KindOf, SentKey, ReleaseKey, ReceivedKey, Fits, Shape, InboundSame;
    assert forall k :: HasSent(s, k) && k != id ==> SentOf(t, k) == SentOf(s, k);
    assert SentDiffers(s, t, id);
    hide SentOf, HasSent, HasReceived, StoredSent, StoredReleased;
    hide AgreesOff, SentDiffers;
    SentRemoved(s, t, id);
  }

  lemma RemoveReleaseShape(s: Store, id: int)
    requires Shape(s) && InRange(id)
    ensures var t := s - {ReleaseKey(id)};
      && Shape(t) && InboundSame(s, t) && AgreesOff(s, t, id)
      && !HasRelease(t, id) && (HasSent(t, id) <==> HasSent(s, id)) &&
        (HasSent(s, id) ==> t[SentKey(id)] == s[SentKey(id)])
  {
    var t := s - {ReleaseKey(id)};
    KeysApart(id, id);
    RemoveAgrees(s, ReleaseKey(id), id);
    hide KindOf, SentKey, ReleaseKey, ReceivedKey, Fits;
    InboundUntouched(s, t, id);
  }

  lemma RemoveRelease(s: Store, id: int)
    requires Shape(s) && InRange(id)
    ensures var t := s - {ReleaseKey(id)};
      && Shape(t) && InboundSame(s, t) && ReleaseDiffers(s, t, id) && !HasRelease(t, id)
      && StoredReleased(t) == StoredReleased(s) - {id} && StoredSent(t) == StoredSent(s)
  {
    var t := s - {ReleaseKey(id)};
    RemoveReleaseShape(s, id);
    hide KindOf, SentKey, ReleaseKey, ReceivedKey, Fits, Shape, InboundSame;
    assert forall k :: HasSent(s, k) ==> SentOf(t, k) == SentOf(s, k);
    assert ReleaseDiffers(s, t, id);
    hide SentOf, HasSent, HasReceived, StoredSent, StoredReleased;
    hide AgreesOff, ReleaseDiffers;
    ReleaseRemoved(s, t, id);
  }

  lemma RemoveReceivedShape(s: Store, id: int)
    requires Shape(s) && InRange(id)
    ensures var t := s - {ReceivedKey(id)};
      && Shape(t) && OutboundSame(s, t) && AgreesOff(s, t, id)
      && !HasReceived(t, id)
  {
    var t := s - {ReceivedKey(id)};
    KeysApart(id, id);
    RemoveAgrees(s, ReceivedKey(id), id);
    hide KindOf, SentKey, ReleaseKey, ReceivedKey, Fits;
    OutboundUntouched(s, t, id);
  }

  lemma RemoveReceived(s: Store, id: int)
    requires Shape(s) && InRange(id)
    ensures var t := s - {ReceivedKey(id)};
      && Shape(t) && OutboundSame(s, t) && ReceivedDiffers(s, t, id) && !HasReceived(t, id)
      && StoredReceived(t) == StoredReceived(s) - {id}
  {
    var t := s - {ReceivedKey(id)};
    RemoveReceivedShape(s, id);
    hide KindOf, SentKey, ReleaseKey, ReceivedKey, Fits, Shape, OutboundSame;
    assert forall k :: HasReceived(s, k) && k != id ==> ReceivedOf(t, k) == ReceivedOf(s, k);
    assert ReceivedDiffers(s, t, id);
    hide ReceivedOf, HasReceived, HasSent, HasRelease, StoredReceived;
    hide AgreesOff, ReceivedDiffers;
    ReceivedRemoved(s, t, id);
  }

  // ---------------- the lists and the store move together ----------------

  lemma StaysStored(m: Message, s: Store, t: Store, id: int)
    requires Shape(s) && Shape(t) && Stored(m, s) && m.msgid != id
    requires SentDiffers(s, t, id) || ReleaseDiffers(s, t, id)
    ensures Stored(m, t)
  {
    hide Shape, HasSent, HasRelease, IsOutbound, StoredReleased, StoredSent;
  }

  lemma StartStored(ms: seq<Message>, s: Store, t: Store, m: Message)
    requires Shape(s) && Shape(t) && OutboundStored(ms, s) && IsOutbound(m) && m.msgid !in Ids(ms) && !Released(m)
    requires SentDiffers(s, t, m.msgid) && HasSent(t, m.msgid) && SentOf(t, m.msgid) == RecordOf(m, false)
    ensures OutboundStored(ms + [m], t)
  {
    hide Shape, SentOf, HasSent, HasRelease, IsOutbound, StoredReleased, OutMap, InMap, ById, IndexOf;
    MapsOfAppended(ms, m);
    var ns := ms + [m];
    forall i | 0 <= i < |ms| ensures Stored(ms[i], t) {
      assert ms[i].msgid in Ids(ms);
      StaysStored(ms[i], s, t, m.msgid);
    }
    assert Stored(m, t) by { assert m.msgid !in Ids(ms); }
    hide Ids, Distinct, Stored;
  }

  lemma Started(ms: seq<Message>, s: Store, m: Message)
    requires Shape(s) && OutboundStored(ms, s) && IsOutbound(m) && m.msgid !in Ids(ms) && !Released(m)
    ensures var t := s[SentKey(m.msgid) := RecordOf(m, false)];
      && Shape(t) && InboundSame(s, t) && OutboundStored(ms + [m], t)
      && SenderOf(ms + [m], t) == StartPublish(SenderOf(ms, s), m.msgid, m.qos, m.pub)
  {
    hide KindOf, SentKey, ReleaseKey, ReceivedKey, Fits, SentOf;
    PutSent(s, RecordOf(m, false));
    StartStored(ms, s, s[SentKey(m.msgid) := RecordOf(m, false)], m);
    hide Shape, InboundSame, HasSent, HasRelease;
    MapsOfAppended(ms, m);
    hide OutMap, StoredSent, StoredReleased, Distinct, Ids;
  }

  lemma ReleaseStored(ms: seq<Message>, s: Store, t: Store, i: int)
    requires Shape(s) && Shape(t) && OutboundStored(ms, s) && 0 <= i < |ms| && ms[i].qos == 2
    requires ReleaseDiffers(s, t, ms[i].msgid) && HasRelease(t, ms[i].msgid)
    ensures OutboundStored(ms[i := ms[i].(next := PUBCOMP)], t)
  {
    hide Shape, SentOf, HasSent, HasRelease, StoredSent, OutMap, InMap, ById, IndexOf;
    var ns := ms[i := ms[i].(next := PUBCOMP)];
    MapsOfUpdate(ms, i, ns[i]);
    forall j | 0 <= j < |ms| && j != i ensures Stored(ns[j], t) {
      StaysStored(ms[j], s, t, ms[i].msgid);
    }
    assert Stored(ns[i], t) by { assert Stored(ms[i], s); }
    assert ms[i].msgid in Ids(ms);
    hide Ids, Distinct, Stored;
  }

  lemma AwaitsPubrec(ms: seq<Message>, s: Store, i: int)
    requires Shape(s) && Distinct(ms) && 0 <= i < |ms|
    ensures TakesPubrec(SenderOf(ms, s), ms[i].msgid) <==> ms[i].qos == 2 && ms[i].next != PUBCOMP
    ensures TakesPubcomp(SenderOf(ms, s), ms[i].msgid) <==> ms[i].qos == 2 && ms[i].next == PUBCOMP
    ensures ms[i].msgid in OutMap(ms) && OutMap(ms)[ms[i].msgid] == Abs(ms[i])
  {
    AtIndex(ms, i);
    hide OutMap, StoredSent, StoredReleased, Distinct, Ids;
  }

  lemma PubrecTaken(ms: seq<Message>, s: Store, i: int)
    requires Shape(s) && OutboundStored(ms, s) && 0 <= i < |ms| && ms[i].qos == 2 && ms[i].next == PUBREC
    ensures var id := ms[i].msgid;
      var t := s[ReleaseKey(id) := PubrelRecord(id)];
      var ns := ms[i := ms[i].(next := PUBCOMP)];
      && Shape(t) && InboundSame(s, t) && OutboundStored(ns, t)
      && SenderOf(ns, t) == OnPubrec(SenderOf(ms, s), id)
  {
    var id, ns := ms[i].msgid, ms[i := ms[i].(next := PUBCOMP)];
    AwaitsPubrec(ms, s, i);
    hide KindOf, SentKey, ReleaseKey, ReceivedKey, Fits, SentOf;
    PutRelease(s, id);
    ReleaseStored(ms, s, s[ReleaseKey(id) := PubrelRecord(id)], i);
    MapsOfUpdate(ms, i, ns[i]);
    hide OutMap, StoredSent, StoredReleased, Distinct, Ids, Shape, InboundSame, HasSent, HasRelease;
  }

  // The two removals of a finished message
  function WithoutRecords(s: Store, m: Message): Store
    requires InRange(m.msgid)
  {
    if m.qos == 2 then s - {SentKey(m.msgid)} - {ReleaseKey(m.msgid)} else s - {SentKey(m.msgid)}
  }

  lemma RecordsRemoved(s: Store, m: Message)
    requires Shape(s) && InRange(m.msgid) && Stored(m, s)
    ensures var t := WithoutRecords(s, m);
      && Shape(t) && InboundSame(s, t) && !HasSent(t, m.msgid) && !HasRelease(t, m.msgid)
      && (forall x :: Stored(x, s) && x.msgid != m.msgid ==> Stored(x, t))
      && (forall k :: HasSent(t, k) ==> HasSent(s, k)) && (forall k :: HasRelease(t, k) ==> HasRelease(s, k))
      && StoredSent(t) == StoredSent(s) - {m.msgid} && StoredReleased(t) == StoredReleased(s) - {m.msgid}
  {
    hide KindOf, SentKey, ReleaseKey, ReceivedKey, Fits, SentOf;
    var id := m.msgid;
    var u := s - {SentKey(id)};
    RemoveSent(s, id);
    forall x | Stored(x, s) && x.msgid != id ensures Stored(x, u) { StaysStored(x, s, u, id); }
    if m.qos == 2 {
      RemoveRelease(u, id);
      forall x | Stored(x, u) && x.msgid != id ensures Stored(x, u - {ReleaseKey(id)}) {
        StaysStored(x, u, u - {ReleaseKey(id)}, id);
      }
    }
    hide Stored, Shape, InboundStored;
  }

  lemma RestStored(ms: seq<Message>, s: Store, t: Store, i: int)
    requires Shape(s) && Shape(t) && OutboundStored(ms, s) && 0 <= i < |ms|
    requires !HasSent(t, ms[i].msgid) && !HasRelease(t, ms[i].msgid)
    requires forall x :: Stored(x, s) && x.msgid != ms[i].msgid ==> Stored(x, t)
    requires (forall k :: HasSent(t, k) ==> HasSent(s, k)) && (forall k :: HasRelease(t, k) ==> HasRelease(s, k))
    ensures OutboundStored(Without(ms, i), t)
  {
    hide Shape, SentOf, HasSent, HasRelease, Stored, OutMap, InMap, ById, IndexOf;
    var ns := Without(ms, i);
    MapsOfWithout(ms, i);
    forall j | 0 <= j < |ns| ensures Stored(ns[j], t) {
      var k := if j < i then j else j + 1;
      assert ns[j] == ms[k] && ms[k].msgid != ms[i].msgid;
      assert Stored(ms[k], s);
    }
    hide Distinct, Ids, Without;
  }

  lemma Finished(ms: seq<Message>, s: Store, i: int)
    requires Shape(s) && OutboundStored(ms, s) && 0 <= i < |ms| && InRange(ms[i].msgid)
    ensures var id := ms[i].msgid;
      var t := WithoutRecords(s, ms[i]);
      && Shape(t) && InboundSame(s, t) && OutboundStored(Without(ms, i), t)
      && SenderOf(Without(ms, i), t) == Sender(OutMap(ms) - {id}, StoredSent(s) - {id}, StoredReleased(s) - {id})
  {
    hide KindOf, SentKey, ReleaseKey, ReceivedKey, Fits, SentOf, WithoutRecords, OutMap, ById, IndexOf, Without, Shape,
        HasSent, HasRelease;
    assert Stored(ms[i], s);
    RecordsRemoved(s, ms[i]);
    MapsOfWithout(ms, i);
    RestStored(ms, s, WithoutRecords(s, ms[i]), i);
    hide StoredSent, StoredReleased, Distinct, Ids, InboundSame, Stored, OutboundStored;
  }

  // What a retry writes again changes nothing but the DUP flag of the record
  lemma Rewritten(ms: seq<Message>, s: Store, i: int)
    requires Shape(s) && OutboundStored(ms, s) && 0 <= i < |ms|
    ensures var t := if Released(ms[i]) then s[ReleaseKey(ms[i].msgid) := PubrelRecord(ms[i].msgid)]
                     else s[SentKey(ms[i].msgid) := RecordOf(ms[i], true)];
      Shape(t) && InboundSame(s, t) && OutboundStored(ms, t) && SenderOf(ms, t) == SenderOf(ms, s)
  {
    hide KindOf, SentKey, ReleaseKey, ReceivedKey, Fits, SentOf, InboundSame;
    var m := ms[i];
    assert Stored(m, s);
    if Released(m) {
      PutRelease(s, m.msgid);
      SameSender(ms, s, s[ReleaseKey(m.msgid) := PubrelRecord(m.msgid)]);
    } else {
      PutSent(s, RecordOf(m, true));
      SameSender(ms, s, s[SentKey(m.msgid) := RecordOf(m, true)]);
    }
  }

  // ---------------- the inbound list ----------------

  lemma StaysStoredIn(m: Message, s: Store, t: Store, id: int)
    requires Shape(s) && Shape(t) && StoredIn(m, s) && m.msgid != id && ReceivedDiffers(s, t, id)
    ensures StoredIn(m, t)
  {
    hide Shape, HasReceived, ReceivedOf;
  }

  function Kept(ms: seq<Message>, i: int, m: Message): seq<Message>
    requires -1 <= i < |ms|
  {
    if i < 0 then ms + [m] else ms[i := m]
  }

  lemma MapsOfKept(ms: seq<Message>, m: Message)
    requires Distinct(ms)
    ensures var ns := Kept(ms, IndexOf(ms, m.msgid), m);
      Distinct(ns) && InMap(ns) == InMap(ms)[m.msgid := m.pub] && Ids(ns) == Ids(ms) + {m.msgid}
  {
    var i := IndexOf(ms, m.msgid);
    hide InMap, OutMap, Distinct;
    if i < 0 {
      MapsOfAppended(ms, m);
    } else {
      MapsOfUpdate(ms, i, m);
      assert m.msgid in Ids(ms);
    }
  }

  lemma OneKept(ms: seq<Message>, s: Store, t: Store, m: Message, j: int)
    requires Shape(s) && Shape(t) && InboundStored(ms, s) && ReceivedDiffers(s, t, m.msgid) && StoredIn(m, t)
    requires 0 <= j < |Kept(ms, IndexOf(ms, m.msgid), m)|
    ensures StoredIn(Kept(ms, IndexOf(ms, m.msgid), m)[j], t)
  {
    var i := IndexOf(ms, m.msgid);
    if j < |ms| && j != i {
      assert ms[j].msgid in Ids(ms) && StoredIn(ms[j], s);
      hide Shape, HasReceived, ReceivedOf, StoredIn, ReceivedDiffers, InboundStored;
      StaysStoredIn(ms[j], s, t, m.msgid);
    }
  }

  lemma KeptStored(ms: seq<Message>, s: Store, t: Store, m: Message)
    requires Shape(s) && Shape(t) && InboundStored(ms, s) && ReceivedDiffers(s, t, m.msgid) && StoredIn(m, t)
    ensures InboundStored(Kept(ms, IndexOf(ms, m.msgid), m), t)
  {
    hide Shape, HasReceived, ReceivedOf, StoredIn, Distinct, Ids, Kept, InMap;
    var ns := Kept(ms, IndexOf(ms, m.msgid), m);
    MapsOfKept(ms, m);
    forall j | 0 <= j < |ns| ensures StoredIn(ns[j], t) {
      OneKept(ms, s, t, m, j);
    }
    forall id | HasReceived(t, id) ensures id in Ids(ns) {
      assert id != m.msgid ==> HasReceived(s, id);
    }
  }

  lemma ReceivedStored(ms: seq<Message>, s: Store, m: Message, dup: bool)
    requires Shape(s) && InboundStored(ms, s) && InRange(m.msgid) && m.qos == 2 && m.next == PUBREL
    ensures var t := s[ReceivedKey(m.msgid) := RecordOf(m, dup)];
      var ns := Kept(ms, IndexOf(ms, m.msgid), m);
      && Shape(t) && OutboundSame(s, t) && InboundStored(ns, t)
      && ReceiverOf(ns, t) == OnPublish(ReceiverOf(ms, s), m.msgid, 2, m.pub).r
  {
    hide Shape, HasReceived, ReceivedOf, ReceivedKey, InMap, StoredReceived, Ids, OutboundSame;
    PutReceived(s, RecordOf(m, dup));
    MapsOfKept(ms, m);
    KeptStored(ms, s, s[ReceivedKey(m.msgid) := RecordOf(m, dup)], m);
  }

  lemma RestStoredIn(ms: seq<Message>, s: Store, t: Store, i: int)
    requires Shape(s) && Shape(t) && InboundStored(ms, s) && 0 <= i < |ms|
    requires ReceivedDiffers(s, t, ms[i].msgid) && !HasReceived(t, ms[i].msgid)
    ensures InboundStored(Without(ms, i), t)
  {
    hide Shape, ReceivedOf, HasReceived, OutMap, InMap, ById, IndexOf;
    var ns := Without(ms, i);
    MapsOfWithout(ms, i);
    forall j | 0 <= j < |ns| ensures StoredIn(ns[j], t) {
      var k := if j < i then j else j + 1;
      assert ns[j] == ms[k] && ms[k].msgid != ms[i].msgid;
      StaysStoredIn(ms[k], s, t, ms[i].msgid);
    }
    hide Distinct, Ids, StoredIn, Without;
  }

  lemma Delivered(ms: seq<Message>, s: Store, i: int)
    requires Shape(s) && InboundStored(ms, s) && 0 <= i < |ms|
    ensures var id := ms[i].msgid;
      var t := s - {ReceivedKey(id)};
      && Shape(t) && OutboundSame(s, t) && InboundStored(Without(ms, i), t)
      && forall dup :: ReceiverOf(Without(ms, i), t) == OnPubrel(ReceiverOf(ms, s), id, dup).r
  {
    hide OutMap, ById, IndexOf, ReceivedKey, Fits, Without, HasReceived;
    var id := ms[i].msgid;
    assert StoredIn(ms[i], s);
    RemoveReceived(s, id);
    MapsOfWithout(ms, i);
    AtIndex(ms, i);
    RestStoredIn(ms, s, s - {ReceivedKey(id)}, i);
    hide InMap, StoredReceived, InboundStored, Distinct, Ids, Shape, OutboundSame, StoredIn;
  }

  // ---------------- both lists and the store ----------------

  ghost predicate Mirrors(outbound: seq<Message>, inbound: seq<Message>, store: Store) {
    Shape(store) && OutboundStored(outbound, store) && InboundStored(inbound, store)
  }

  // From s to t only the sending side changed: from `before` to `after`, as protocol states from a to b
  ghost predicate SenderMoves(before: seq<Message>, s: Store, after: seq<Message>, t: Store, inbound: seq<Message>,
      b: Sender)
    requires Mirrors(before, inbound, s)
  {
    && Mirrors(after, inbound, t) && SenderOf(after, t) == b
    && ReceiverOf(inbound, t) == ReceiverOf(inbound, s)
  }

  ghost predicate ReceiverMoves(before: seq<Message>, s: Store, after: seq<Message>, t: Store, outbound: seq<Message>,
      b: Receiver)
    requires Mirrors(outbound, before, s)
  {
    && Mirrors(outbound, after, t) && ReceiverOf(after, t) == b
    && SenderOf(outbound, t) == SenderOf(outbound, s)
  }

  lemma MoveStarted(ms: seq<Message>, inbound: seq<Message>, s: Store, m: Message)
    requires Mirrors(ms, inbound, s) && IsOutbound(m) && m.msgid !in Ids(ms) && !Released(m)
    ensures SenderMoves(ms, s, ms + [m], s[SentKey(m.msgid) := RecordOf(m, false)], inbound,
                        StartPublish(SenderOf(ms, s), m.msgid, m.qos, m.pub))
  {
    Started(ms, s, m);
    hide Shape, OutboundStored, InboundStored, SentKey, RecordOf, StoredReceived, InMap;
  }

  lemma MovePubrec(ms: seq<Message>, inbound: seq<Message>, s: Store, i: int)
    requires Mirrors(ms, inbound, s) && 0 <= i < |ms| && ms[i].qos == 2 && ms[i].next == PUBREC
    ensures InRange(ms[i].msgid)
    ensures var id := ms[i].msgid;
      SenderMoves(ms, s, ms[i := ms[i].(next := PUBCOMP)], s[ReleaseKey(id) := PubrelRecord(id)], inbound,
        OnPubrec(SenderOf(ms, s), id))
  {
    assert Stored(ms[i], s);
    PubrecTaken(ms, s, i);
    hide Shape, OutboundStored, InboundStored, ReleaseKey, StoredReceived, InMap;
  }

  lemma UnderId(ms: seq<Message>, inbound: seq<Message>, s: Store, i: int)
    requires Mirrors(ms, inbound, s) && 0 <= i < |ms|
    ensures var id, sender := ms[i].msgid, SenderOf(ms, s);
      && InRange(id) && id in sender.out && sender.out[id] == Abs(ms[i])
      && (ms[i].qos == 1 ==> id !in sender.released)
  {
    assert Stored(ms[i], s);
    AtIndex(ms, i);
  }

  lemma UnderIdIn(ms: seq<Message>, outbound: seq<Message>, s: Store, i: int)
    requires Mirrors(outbound, ms, s) && 0 <= i < |ms|
    ensures InRange(ms[i].msgid) && ms[i].qos == 2 && ms[i].next == PUBREL
    ensures ms[i].msgid in ReceiverOf(ms, s).inbound && ReceiverOf(ms, s).inbound[ms[i].msgid] == ms[i].pub
  {
    assert StoredIn(ms[i], s);
    AtIndex(ms, i);
  }

  // Message and records go together
  lemma MoveFinished(ms: seq<Message>, inbound: seq<Message>, s: Store, i: int)
    requires Mirrors(ms, inbound, s) && 0 <= i < |ms| && InRange(ms[i].msgid)
    ensures var id, a := {ms[i].msgid}, SenderOf(ms, s);
      SenderMoves(ms, s, Without(ms, i), WithoutRecords(s, ms[i]), inbound,
        Sender(a.out - id, a.sent - id, a.released - id))
  {
    hide Shape, OutboundStored, InboundStored, WithoutRecords, Without, StoredReceived, InMap, StoredSent,
        StoredReleased, OutMap, Distinct, Ids;
    Finished(ms, s, i);
  }

  lemma PubackTakes(a: Sender, id: int)
    requires id in a.out && a.out[id].qos == 1 && id !in a.released
    ensures OnPuback(a, id) == Sender(a.out - {id}, a.sent - {id}, a.released - {id})
  {
    assert a.released - {id} == a.released;
  }

  lemma MovePuback(ms: seq<Message>, inbound: seq<Message>, s: Store, i: int)
    requires Mirrors(ms, inbound, s) && 0 <= i < |ms| && ms[i].qos == 1
    ensures InRange(ms[i].msgid)
    ensures SenderMoves(ms, s, Without(ms, i), WithoutRecords(s, ms[i]), inbound,
      OnPuback(SenderOf(ms, s), ms[i].msgid))
  {
    UnderId(ms, inbound, s, i);
    hide Mirrors, SenderMoves, SenderOf, WithoutRecords, Without;
    PubackTakes(SenderOf(ms, s), ms[i].msgid);
    hide OnPuback;
    MoveFinished(ms, inbound, s, i);
  }

  lemma MovePubcomp(ms: seq<Message>, inbound: seq<Message>, s: Store, i: int)
    requires Mirrors(ms, inbound, s) && 0 <= i < |ms| && ms[i].qos == 2 && ms[i].next == PUBCOMP
    ensures InRange(ms[i].msgid)
    ensures SenderMoves(ms, s, Without(ms, i), WithoutRecords(s, ms[i]), inbound,
      OnPubcomp(SenderOf(ms, s), ms[i].msgid))
  {
    UnderId(ms, inbound, s, i);
    MoveFinished(ms, inbound, s, i);
    hide Mirrors, SenderMoves, SenderOf, WithoutRecords, Without;
  }

  function RecordAgain(s: Store, m: Message): Store
    requires InRange(m.msgid)
  {
    if Released(m) then s[ReleaseKey(m.msgid) := PubrelRecord(m.msgid)] else s[SentKey(m.msgid) := RecordOf(m, true)]
  }

  lemma MoveRewritten(ms: seq<Message>, inbound: seq<Message>, s: Store, i: int)
    requires Mirrors(ms, inbound, s) && 0 <= i < |ms|
    ensures IsOutbound(ms[i])
    ensures SenderMoves(ms, s, ms, RecordAgain(s, ms[i]), inbound, SenderOf(ms, s))
  {
    assert Stored(ms[i], s);
    Rewritten(ms, s, i);
    hide Shape, OutboundStored, InboundStored, StoredReceived, InMap, StoredSent, StoredReleased, OutMap;
  }

  lemma Awaits(ms: seq<Message>, inbound: seq<Message>, s: Store, i: int)
    requires Mirrors(ms, inbound, s) && 0 <= i < |ms|
    ensures TakesPubrec(SenderOf(ms, s), ms[i].msgid) <==> ms[i].qos == 2 && ms[i].next != PUBCOMP
    ensures TakesPubcomp(SenderOf(ms, s), ms[i].msgid) <==> ms[i].qos == 2 && ms[i].next == PUBCOMP
    ensures ms[i].msgid in SenderOf(ms, s).out && SenderOf(ms, s).out[ms[i].msgid] == Abs(ms[i])
  {
    AwaitsPubrec(ms, s, i);
  }

  // No message under this id
  lemma NoneOf(ms: seq<Message>, inbound: seq<Message>, s: Store, id: int)
    requires Mirrors(ms, inbound, s)
    ensures id !in Ids(ms) <==> id !in SenderOf(ms, s).out
    ensures id !in Ids(inbound) <==> id !in ReceiverOf(inbound, s).inbound
  {
  }

  lemma MoveReceived(ms: seq<Message>, outbound: seq<Message>, s: Store, m: Message, dup: bool)
    requires Mirrors(outbound, ms, s) && InRange(m.msgid) && m.qos == 2 && m.next == PUBREL
    ensures ReceiverMoves(ms, s, Kept(ms, IndexOf(ms, m.msgid), m), s[ReceivedKey(m.msgid) := RecordOf(m, dup)],
      outbound, OnPublish(ReceiverOf(ms, s), m.msgid, 2, m.pub).r)
  {
    ReceivedStored(ms, s, m, dup);
    hide Shape, OutboundStored, InboundStored, StoredReceived, InMap, StoredSent, StoredReleased, OutMap, Kept, IndexOf;
  }

  lemma MoveRemoved(ms: seq<Message>, outbound: seq<Message>, s: Store, i: int, dup: bool)
    requires Mirrors(outbound, ms, s) && 0 <= i < |ms|
    ensures ReceiverMoves(ms, s, Without(ms, i), s - {ReceivedKey(ms[i].msgid)}, outbound,
                          OnPubrel(ReceiverOf(ms, s), ms[i].msgid, dup).r)
  {
    hide Shape, OutboundStored, InboundStored, StoredReceived, InMap, StoredSent, StoredReleased, OutMap, Without,
        Distinct, Ids;
    Delivered(ms, s, i);
  }

  lemma MoveDelivered(ms: seq<Message>, outbound: seq<Message>, s: Store, i: int, dup: bool)
    requires Mirrors(outbound, ms, s) && 0 <= i < |ms|
    ensures InRange(ms[i].msgid) && ms[i].qos == 2 && ms[i].next == PUBREL
    ensures var x := OnPubrel(ReceiverOf(ms, s), ms[i].msgid, dup);
      && x.out == [Pubcomp(ms[i].msgid)] && x.delivered == [ms[i].pub]
      && ReceiverMoves(ms, s, Without(ms, i), s - {ReceivedKey(ms[i].msgid)}, outbound, x.r)
  {
    UnderIdIn(ms, outbound, s, i);
    MoveRemoved(ms, outbound, s, i, dup);
    hide Mirrors, ReceiverMoves, ReceiverOf, Without;
  }
}
