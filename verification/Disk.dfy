/** The records of the store as bytes: what a client has written is read again, and what is refused is what a restart
    takes for a bad record. */
module Disk {
  import opened QosProtocol
  import opened MessageLists
  import opened StoreKeys
  import opened ClientStore
  import opened ProtocolClient
  import opened Restoring
  import opened RestoreOrder
  import opened PacketBytes
  import MessageQueue
  import Wire

  // What a C string and a packet can say
  ghost predicate Writable(rec: Record) {
    match rec
    case PublishRecord(_, qos, _, msgid, pub) =>
      && 0 <= qos <= 2 && InRange(msgid) && (qos == 0 ==> msgid == 0) && |pub.topic| < 65536
      && (forall i :: 0 <= i < |pub.topic| ==> 0 < pub.topic[i] as int < 256)
      && (forall i :: 0 <= i < |pub.payload| ==> 0 <= pub.payload[i] < 256)
    case PubrelRecord(msgid) => InRange(msgid)
    case OtherRecord => true
  }

  ghost function PacketOf(rec: Record): Wire.PublishPacket
    requires rec.PublishRecord? && Writable(rec)
  {
    Wire.PublishPacket(rec.dup, rec.qos, rec.retain, BytesOfText(rec.pub.topic), rec.msgid, rec.pub.payload)
  }

  // The record under this key has been written as these bytes; the dup flag of a PUBREL is not in the record
  ghost predicate WrittenAs(rec: Record, bytes: seq<Wire.Byte>) {
    Writable(rec) &&
    match rec
    case PublishRecord(_, _, _, _, _) => bytes == Wire.PublishBytes(PacketOf(rec))
    case PubrelRecord(msgid) => exists dup :: bytes == Wire.AckBytes(Wire.PUBREL, dup, msgid)
    case OtherRecord => true
  }

  // What the restoring loop takes a packet for, by the kind of its key. `serial` is not in the bytes.
  function RecordFrom(kind: Kind, p: Wire.Packet, serial: nat): Record {
    if kind == Release then
      if |p.data| >= 2 then PubrelRecord(Wire.ReadInt(p.data)) else OtherRecord
    else
      match Wire.PublishOf(p.header, p.data)
      case GotPublish(q) =>
        PublishRecord(q.dup, q.qos, q.retain, q.msgId, Publication(serial, TextOf(q.topic), q.payload))
      case _ => OtherRecord
  }

  lemma PublishReadBack(kind: Kind, rec: Record, bytes: seq<Wire.Byte>)
    requires rec.PublishRecord? && WrittenAs(rec, bytes) && kind != Release
    ensures Wire.EndsItsLength(bytes) && Wire.RecordOf(bytes).GoodRecord?
    ensures RecordFrom(kind, Wire.RecordOf(bytes).p, rec.pub.serial) == rec
  {
    var p := PacketOf(rec);
    var packet := Wire.Packet(Wire.PublishHeader(p), Wire.PublishBody(p));
    assert bytes == Wire.BytesOf(packet);
    Wire.ReadBack(p);
    Wire.HeaderRoundTrip(Wire.PUBLISH, p.dup, p.qos, p.retain);
    TextBack(rec.pub.topic);
    hide Wire.PublishBody, Wire.HeaderByte, Wire.KindOfHeader, Wire.PublishOf, Wire.Encode, TextOf, BytesOfText;
    Wire.RecordOfBytes(packet);
  }

  lemma PubrelReadBack(rec: Record, bytes: seq<Wire.Byte>, serial: nat)
    requires rec.PubrelRecord? && WrittenAs(rec, bytes)
    ensures Wire.EndsItsLength(bytes) && Wire.RecordOf(bytes).GoodRecord?
    ensures RecordFrom(Release, Wire.RecordOf(bytes).p, serial) == rec
  {
    var dup :| bytes == Wire.AckBytes(Wire.PUBREL, dup, rec.msgid);
    var packet := Wire.Packet(Wire.AckHeader(Wire.PUBREL, dup), Wire.WriteInt(rec.msgid));
    assert bytes == Wire.BytesOf(packet) && |packet.data| == 2;
    Wire.HeaderRoundTrip(Wire.PUBREL, dup, 1, false);
    Wire.IntRoundTrip(rec.msgid, []);
    Wire.SmallInt(rec.msgid);
    assert Wire.WriteInt(rec.msgid) + [] == Wire.WriteInt(rec.msgid);
    hide Wire.HeaderByte, Wire.KindOfHeader, Wire.ReadInt, Wire.WriteInt, Wire.Encode;
    Wire.RecordOfBytes(packet);
  }

  // The disk holds what the client has written to its store, and under the keys of `bad` what is no packet. Command and
  // queue records are not looked at.
  ghost predicate OnDisk(disk: map<string, seq<Wire.Byte>>, store: Store, bad: set<string>, serials: map<string, nat>) {
    && bad !! store.Keys && disk.Keys == store.Keys + bad
    && (forall key :: key in store ==> Kept(key, store[key], disk[key], serials))
    && (forall key :: key in bad ==> Refused(key, disk[key]))
  }

  ghost predicate Kept(key: string, rec: Record, bytes: seq<Wire.Byte>, serials: map<string, nat>) {
    && Fits(key, rec)
    && if ForOthers(key) then rec.OtherRecord?
       else WrittenAs(rec, bytes) && (rec.PublishRecord? ==> rec.pub.serial == SerialOf(serials, key))
  }

  ghost predicate Refused(key: string, bytes: seq<Wire.Byte>) {
    !ForOthers(key) && Wire.EndsItsLength(bytes) && Wire.RecordOf(bytes).BadRecord?
  }

  // Which publish call a record is from
  function SerialOf(serials: map<string, nat>, key: string): nat {
    if key in serials then serials[key] else 0
  }

  // What is read under one key
  datatype Read = BadOne | GoodOne(rec: Record)

  method ReadOne(key: string, bytes: seq<Wire.Byte>, serials: map<string, nat>) returns (r: Read)
    ensures Refused(key, bytes) ==> r == BadOne
    ensures forall rec :: Kept(key, rec, bytes, serials) ==> r == GoodOne(rec)
  {
    IgnoredExactly(key);
    if KindOf(key) == Ignored {
      return GoodOne(OtherRecord);
    }
    var packet := Wire.RestorePacket(bytes);
    forall rec | Kept(key, rec, bytes, serials)
      ensures packet.GoodRecord? && RecordFrom(KindOf(key), packet.p, SerialOf(serials, key)) == rec
    {
      KeptReadBack(key, rec, bytes, serials);
    }
    r := if packet.GoodRecord? then GoodOne(RecordFrom(KindOf(key), packet.p, SerialOf(serials, key))) else BadOne;
  }

  lemma KeptReadBack(key: string, rec: Record, bytes: seq<Wire.Byte>, serials: map<string, nat>)
    requires Kept(key, rec, bytes, serials) && KindOf(key) != Ignored
    ensures Wire.EndsItsLength(bytes) && Wire.RecordOf(bytes).GoodRecord?
    ensures RecordFrom(KindOf(key), Wire.RecordOf(bytes).p, SerialOf(serials, key)) == rec
  {
    KeyHolds(key, rec);
    IgnoredExactly(key);
    hide KindOf, ForOthers, RecordFrom, Wire.RecordOf, SentKey, ReleaseKey, ReceivedKey, Writable;
    if rec.PublishRecord? {
      NotReleaseKey(key, rec);
      PublishReadBack(KindOf(key), rec, bytes);
    } else {
      IsReleaseKey(key, rec);
      PubrelReadBack(rec, bytes, SerialOf(serials, key));
    }
  }

  lemma NotReleaseKey(key: string, rec: Record)
    requires Fits(key, rec) && KindOf(key) != Ignored && rec.PublishRecord?
    ensures KindOf(key) != Release
  {
    KindsAreTold(rec.msgid);
  }

  lemma IsReleaseKey(key: string, rec: Record)
    requires Fits(key, rec) && KindOf(key) != Ignored && !rec.PublishRecord?
    ensures rec.PubrelRecord? && KindOf(key) == Release
  {
    KindsAreTold(rec.msgid);
  }

  // The records of a disk, and the keys of those that are no packets
  method ReadStore(disk: map<string, seq<Wire.Byte>>, keys: seq<string>, serials: map<string, nat>)
    returns (store: Store, bad: set<string>)
    requires (forall key :: key in disk ==> key in keys) && forall i :: 0 <= i < |keys| ==> keys[i] in disk
    ensures forall s, b :: OnDisk(disk, s, b, serials) ==> store == s && bad == b
  {
    store, bad := map[], {};
    hide Kept, Refused;
    for i := 0 to |keys|
      invariant forall key :: key in store || key in bad ==> key in keys[..i]
      invariant store.Keys !! bad
      invariant forall key :: key in keys[..i] ==> ReadAs(key, disk, serials, store, bad)
    {
      var key := keys[i];
      assert keys[..i + 1] == keys[..i] + [key];
      var r := ReadOne(key, disk[key], serials);
      match r
      case BadOne => store, bad := store - {key}, bad + {key};
      case GoodOne(rec) => store, bad := store[key := rec], bad - {key};
    }
    assert keys[..|keys|] == keys;
    forall s, b | OnDisk(disk, s, b, serials) ensures store == s && bad == b {
      SameAsRead(disk, serials, store, bad, s, b);
    }
  }

  ghost predicate ReadAs(key: string, disk: map<string, seq<Wire.Byte>>, serials: map<string, nat>, store: Store,
      bad: set<string>)
    requires key in disk
  {
    && (key in store || key in bad)
    && (Refused(key, disk[key]) ==> key in bad)
    && forall rec :: Kept(key, rec, disk[key], serials) ==> key in store && store[key] == rec
  }

  lemma SameAsRead(disk: map<string, seq<Wire.Byte>>, serials: map<string, nat>, store: Store, bad: set<string>,
      s: Store, b: set<string>)
    requires OnDisk(disk, s, b, serials) && store.Keys !! bad
    requires forall key :: key in store || key in bad ==> key in disk
    requires forall key :: key in disk ==> ReadAs(key, disk, serials, store, bad)
    ensures store == s && bad == b
  {
    hide Kept, Refused;
    forall key | key in disk ensures (key in s ==> key in store && store[key] == s[key]) && (key in b ==> key in bad) {
      assert ReadAs(key, disk, serials, store, bad);
    }
  }

  lemma KeysOnDisk(disk: map<string, seq<Wire.Byte>>, store: Store, bad: set<string>, serials: map<string, nat>)
    requires OnDisk(disk, store, bad, serials)
    ensures disk.Keys == store.Keys + bad && (forall key :: key in bad ==> !ForOthers(key))
  {
  }

  // A queue whose records are left is recorded still
  lemma QueueStays(disk: map<string, seq<Wire.Byte>>, after: map<string, seq<Wire.Byte>>)
    requires (forall key :: key in after ==> key in disk && after[key] == disk[key])
    requires forall key :: key in disk && "q-" <= key ==> key in after
    ensures forall q :: MessageQueue.Recorded(q, disk) ==> MessageQueue.Recorded(q, after)
  {
    forall q: seq<MessageQueue.Queued> | MessageQueue.Recorded(q, disk) ensures MessageQueue.Recorded(q, after) {
      forall i | 0 <= i < |q| ensures MessageQueue.RecordedAt(q[i], after) {
        assert MessageQueue.RecordedAt(q[i], disk);
        KeysByText(q[i].seqno);
      }
    }
  }

  // The process ends and starts again with nothing but the bytes on the disk
  method RestartFrom(c: Client, disk: map<string, seq<Wire.Byte>>, keys: seq<string>, serials: map<string, nat>,
      ghost bad: set<string>) returns (after: map<string, seq<Wire.Byte>>)
    requires c.Valid() && OnDisk(disk, c.store, bad, serials) && Orders(keys, c.store, bad)
    modifies c
    ensures Shape(c.store) && !c.connected && c.app == old(c.app) && c.toPeer == old(c.toPeer)
    ensures c.AsSender() == RestoredSender(old(c.store), keys, bad) && c.AsReceiver() == old(c.AsReceiver())
    ensures c.AsSender() == old(c.AsSender()) <==> Undisturbed(old(c.store), Late(keys, bad), Spared(keys, bad))
    ensures after.Keys == c.store.Keys && forall key :: key in after ==> key in disk && after[key] == disk[key]
    ensures forall key :: key in disk && ("c-" <= key || "q-" <= key) ==> key in after
    ensures forall q :: MessageQueue.Recorded(q, disk) ==> MessageQueue.Recorded(q, after)
    ensures Undisturbed(old(c.store), Late(keys, bad), Spared(keys, bad)) ==>
      c.Valid() && (SameList(c.outbound, old(c.outbound)) <==> old(c.outbound) == [] || ComesBack(old(c.outbound)))
  {
    var store, refused := ReadStore(disk, keys, serials);
    assert store == c.store && refused == bad;
    c.store := store;
    KeysOnDisk(disk, store, bad, serials);
    hide Mirrors, SenderOf, ReceiverOf, Late, Spared, Undisturbed, ComesBack, SameList, RestoredSender, Orders, OnDisk,
      Remaining, Shape, MessageQueue.Recorded, ForOthers;
    var left := c.Restart(keys, refused);
    after := Remaining(disk, c.store, left);
    KeptOnDisk(disk, store, refused, c.store, left, after);
  }

  lemma KeptOnDisk(disk: map<string, seq<Wire.Byte>>, store: Store, bad: set<string>, now: Store, left: set<string>,
      after: map<string, seq<Wire.Byte>>)
    requires disk.Keys == store.Keys + bad && (forall key :: key in bad ==> !ForOthers(key))
    requires left == set key | key in bad && ("c-" <= key || "q-" <= key)
    requires forall key :: key in store && ("c-" <= key || "q-" <= key) ==> key in now
    requires forall key :: key in now ==> key in store
    requires after == Remaining(disk, now, left)
    ensures after.Keys == now.Keys && forall key :: key in after ==> key in disk && after[key] == disk[key]
    ensures forall key :: key in disk && ("c-" <= key || "q-" <= key) ==> key in after
    ensures forall q :: MessageQueue.Recorded(q, disk) ==> MessageQueue.Recorded(q, after)
  {
    assert left == {};
    QueueStays(disk, after);
  }

  function Remaining(disk: map<string, seq<Wire.Byte>>, store: Store, left: set<string>): map<string, seq<Wire.Byte>> {
    map key | key in disk && (key in store || key in left) :: disk[key]
  }
}
