/** What a restart makes of the store: the facts that the restoring loop keeps, key by key. */
module Restoring {
  import opened QosProtocol
  import opened MessageLists
  import opened Sequences
  import opened StoreKeys
  import opened ClientStore
  import opened RestoreOrder

  lemma {:induction false} DistinctOnce(ms: seq<Message>, x: Message)
    requires Distinct(ms)
    ensures multiset(ms)[x] <= 1
  {
    if ms != [] {
      var p, m := ms[..|ms| - 1], ms[|ms| - 1];
      assert ms == p + [m];
      DistinctOnce(p, x);
      assert forall i :: 0 <= i < |p| ==> p[i] == ms[i] && ms[i].msgid != m.msgid;
    }
  }

  lemma TwiceIn(ms: seq<Message>, i: int, j: int)
    requires 0 <= i < j < |ms| && ms[i] == ms[j]
    ensures multiset(ms)[ms[i]] >= 2
  {
    assert ms == ms[..i] + [ms[i]] + ms[i + 1..j] + [ms[j]] + ms[j + 1..];
  }

  // The order of a list does not matter for what it says of each id
  lemma Permuted(a: seq<Message>, b: seq<Message>)
    requires Distinct(a) && multiset(a) == multiset(b)
    ensures Distinct(b) && ById(a) == ById(b)
  {
    forall i, j | 0 <= i < j < |b| ensures b[i].msgid != b[j].msgid {
      assert b[i] in multiset(a) && b[j] in multiset(a);
      var k :| 0 <= k < |a| && a[k] == b[i];
      var l :| 0 <= l < |a| && a[l] == b[j];
      DistinctOnce(a, b[i]);
      if b[i] == b[j] { TwiceIn(b, i, j); }
    }
    forall i | 0 <= i < |b| ensures b[i].msgid in ById(a) && ById(a)[b[i].msgid] == b[i] {
      assert b[i] in multiset(a);
      var k :| 0 <= k < |a| && a[k] == b[i];
    }
    forall id | id in ById(a) ensures exists i :: 0 <= i < |b| && b[i].msgid == id {
      var k :| 0 <= k < |a| && a[k].msgid == id;
      assert a[k] in multiset(b);
      var i :| 0 <= i < |b| && b[i] == a[k];
      assert b[i].msgid == id;
    }
    ByIdIs(b, ById(a));
  }

  lemma KeyHolds(key: string, rec: Record)
    requires Fits(key, rec)
    ensures KindOf(key) == Received ==>
      rec.PublishRecord? && InRange(rec.msgid) && key == ReceivedKey(rec.msgid) && rec.qos == 2
    ensures KindOf(key) == SentPublish ==>
      rec.PublishRecord? && InRange(rec.msgid) && key == SentKey(rec.msgid) && 1 <= rec.qos <= 2
    ensures KindOf(key) == Release ==> rec.PubrelRecord? && InRange(rec.msgid) && key == ReleaseKey(rec.msgid)
    ensures KindOf(key) != Unknown
  {
    if !rec.OtherRecord? && InRange(rec.msgid) { KindsAreTold(rec.msgid); }
  }

  // ---------------- bad records ----------------

  ghost predicate Precedes(keys: seq<string>, a: string, b: string) {
    exists i, j :: 0 <= i < j < |keys| && keys[i] == a && keys[j] == b
  }

  ghost predicate DistinctKeys(keys: seq<string>) {
    forall i, j :: 0 <= i < j < |keys| ==> keys[i] != keys[j]
  }

  // The keys of all records, in any order; those of `bad` hold no packets
  ghost predicate Orders(keys: seq<string>, store: Store, bad: set<string>) {
    && DistinctKeys(keys) && (forall key :: key in store || key in bad ==> key in keys)
    && (forall i :: 0 <= i < |keys| ==> keys[i] in store || keys[i] in bad)
  }

  // The ids with a bad sc- record that is still in the store when the s- record is restored
  ghost function Late(keys: seq<string>, bad: set<string>): set<int> {
    set id: int | 0 <= id <= MAX_MSG_ID && ReleaseKey(id) in bad && Precedes(keys, SentKey(id), ReleaseKey(id))
  }

  // The ids with a bad s- record that is still in the store when the sc- record is looked at
  ghost function Spared(keys: seq<string>, bad: set<string>): set<int> {
    set id: int | 0 <= id <= MAX_MSG_ID && SentKey(id) in bad && Precedes(keys, ReleaseKey(id), SentKey(id))
  }

  // Before place i the bad records have been removed, except those that the loop does not look at
  ghost predicate BadLeft(keys: seq<string>, i: nat, bad: set<string>, left: set<string>)
    requires i <= |keys|
  {
    forall key :: key in left <==> key in bad && (KindOf(key) == Ignored || key !in keys[..i])
  }

  lemma StillAhead(keys: seq<string>, i: nat, other: string)
    requires DistinctKeys(keys) && i < |keys| && other in keys && other != keys[i]
    ensures other !in keys[..i] <==> Precedes(keys, keys[i], other)
  {
    var j :| 0 <= j < |keys| && keys[j] == other;
    if j < i { assert keys[..i][j] == other; }
  }

  lemma LateExactly(keys: seq<string>, i: nat, bad: set<string>, left: set<string>, id: int)
    requires DistinctKeys(keys) && i < |keys| && InRange(id) && keys[i] == SentKey(id)
    requires BadLeft(keys, i, bad, left) && forall key :: key in bad ==> key in keys
    ensures ReleaseKey(id) in left <==> id in Late(keys, bad)
  {
    KindsAreTold(id);
    KeysApart(id, id);
    hide KindOf, SentKey, ReleaseKey;
    if ReleaseKey(id) in bad { StillAhead(keys, i, ReleaseKey(id)); }
  }

  lemma SparedExactly(keys: seq<string>, i: nat, bad: set<string>, left: set<string>, id: int)
    requires DistinctKeys(keys) && i < |keys| && InRange(id) && keys[i] == ReleaseKey(id)
    requires BadLeft(keys, i, bad, left) && forall key :: key in bad ==> key in keys
    ensures SentKey(id) in left <==> id in Spared(keys, bad)
  {
    KindsAreTold(id);
    KeysApart(id, id);
    hide KindOf, SentKey, ReleaseKey;
    if SentKey(id) in bad { StillAhead(keys, i, SentKey(id)); }
  }

  lemma BadLeftNext(keys: seq<string>, i: nat, bad: set<string>, left: set<string>)
    requires DistinctKeys(keys) && i < |keys| && BadLeft(keys, i, bad, left)
    ensures BadLeft(keys, i + 1, bad, if keys[i] in left && KindOf(keys[i]) != Ignored then left - {keys[i]} else left)
  {
    hide KindOf;
    assert keys[..i + 1] == keys[..i] + [keys[i]];
    assert keys[i] !in keys[..i];
  }

  // What a restart makes of the sending side. Only the order of the keys of bad records matters.
  ghost function RestoredSender(store: Store, keys: seq<string>, bad: set<string>): Sender
    requires Shape(store)
  {
    SenderWith(store, Late(keys, bad), Spared(keys, bad))
  }

  ghost function SenderWith(store: Store, late: set<int>, spared: set<int>): Sender
    requires Shape(store)
  {
    var sent, released := StoredSent(store), StoredReleased(store);
    Sender(RestoreSender(Sender(map[], sent, released + late)).out, sent,
           set id | id in released && (id in sent || id in spared))
  }

  // No bad record makes a difference: no QoS 2 message has a bad sc- record that counts, and no sc- record is left
  // whose s- record is bad
  ghost predicate Undisturbed(store: Store, late: set<int>, spared: set<int>)
    requires Shape(store)
  {
    && (forall id :: HasSent(store, id) && SentOf(store, id).qos == 2 ==> id !in late)
    && (forall id :: HasRelease(store, id) && !HasSent(store, id) ==> id !in spared)
  }

  lemma UndisturbedExactly(store: Store, late: set<int>, spared: set<int>)
    requires Shape(store) && forall id :: id in late ==> !HasRelease(store, id)
    ensures SenderWith(store, late, spared) == RestoreSender(Sender(map[], StoredSent(store), StoredReleased(store)))
        <==> Undisturbed(store, late, spared)
  {
    var a := SenderWith(store, late, spared);
    var b := RestoreSender(Sender(map[], StoredSent(store), StoredReleased(store)));
    hide SentKey, ReleaseKey, Fits, SentOf, Shape;
    if Undisturbed(store, late, spared) {
      assert a.out == b.out;
      assert a.released == b.released;
    } else if exists id :: HasSent(store, id) && SentOf(store, id).qos == 2 && id in late {
      var id :| HasSent(store, id) && SentOf(store, id).qos == 2 && id in late;
      assert a.out[id] != b.out[id];
    } else {
      var id :| HasRelease(store, id) && !HasSent(store, id) && id in spared;
      assert id in a.released && id !in b.released;
    }
  }

  // No id has the s- record of a QoS 2 message and a bad sc- record, nor an sc- record and a bad s- record
  ghost predicate NoneMixed(store: Store, bad: set<string>)
    requires Shape(store)
  {
    && NoneBetween(store, bad)
    && forall id :: HasRelease(store, id) ==> SentKey(id) !in bad
  }

  ghost predicate NoneBetween(store: Store, bad: set<string>)
    requires Shape(store)
  {
    forall id :: HasSent(store, id) && SentOf(store, id).qos == 2 ==> ReleaseKey(id) !in bad
  }

  lemma NoneMixedIsUndisturbed(store: Store, keys: seq<string>, bad: set<string>)
    requires Shape(store) && NoneMixed(store, bad)
    ensures Undisturbed(store, Late(keys, bad), Spared(keys, bad))
  {
    hide SentKey, ReleaseKey, SentOf, Precedes, Shape;
  }

  lemma {:induction false} SomeOrder(rest: set<string>) returns (keys: seq<string>)
    ensures DistinctKeys(keys) && forall key :: key in keys <==> key in rest
  {
    if rest == {} {
      keys := [];
    } else {
      var key :| key in rest;
      var more := SomeOrder(rest - {key});
      keys := [key] + more;
      assert forall k :: k in keys <==> k == key || k in more;
    }
  }

  // Two orders that differ in two keys only
  lemma TwoOrders(store: Store, bad: set<string>, a: string, b: string) returns (k: seq<string>, l: seq<string>)
    requires a != b && (a in store || a in bad) && (b in store || b in bad)
    ensures Orders(k, store, bad) && Orders(l, store, bad) && Precedes(k, a, b) && Precedes(l, b, a)
  {
    var rest := SomeOrder(store.Keys + bad - {a, b});
    k, l := [a, b] + rest, [b, a] + rest;
    assert k[0] == a && k[1] == b && l[0] == b && l[1] == a;
    forall i | 0 <= i < |rest| ensures rest[i] in store.Keys + bad - {a, b} { assert rest[i] in rest; }
    forall key | key in store || key in bad ensures key in k && key in l {
      if key != a && key != b { assert key in rest; }
    }
  }

  lemma NotBoth(keys: seq<string>, a: string, b: string)
    requires DistinctKeys(keys) && Precedes(keys, a, b)
    ensures !Precedes(keys, b, a)
  {
  }

  lemma BadIsNoRelease(store: Store, keys: seq<string>, bad: set<string>)
    requires Shape(store) && bad !! store.Keys
    ensures forall id :: id in Late(keys, bad) ==> !HasRelease(store, id)
    ensures forall id :: id in Spared(keys, bad) ==> !HasSent(store, id)
  {
    hide SentKey, ReleaseKey, Precedes;
  }

  // The restored messages are the same for all orders of the keys exactly if no QoS 2 message has a bad sc- record
  lemma MessagesForAllOrders(store: Store, bad: set<string>)
    requires Shape(store) && bad !! store.Keys
    ensures NoneBetween(store, bad) <==>
      forall k, l :: Orders(k, store, bad) && Orders(l, store, bad) ==>
        RestoredSender(store, k, bad).out == RestoredSender(store, l, bad).out
  {
    hide SentKey, ReleaseKey, Fits, SentOf, Shape;
    if NoneBetween(store, bad) {
      forall k | Orders(k, store, bad)
        ensures RestoredSender(store, k, bad).out ==
          RestoreSender(Sender(map[], StoredSent(store), StoredReleased(store))).out
      {
        OutUndisturbed(store, k, bad);
      }
    } else {
      var id :| HasSent(store, id) && SentOf(store, id).qos == 2 && ReleaseKey(id) in bad;
      assert SentKey(id) in store && SentKey(id) != ReleaseKey(id);
      var k, l := TwoOrders(store, bad, SentKey(id), ReleaseKey(id));
      NotBoth(l, ReleaseKey(id), SentKey(id));
      BadIsNoRelease(store, l, bad);
      assert id in Late(k, bad) && id !in Late(l, bad);
      assert RestoredSender(store, k, bad).out[id] != RestoredSender(store, l, bad).out[id];
    }
  }

  lemma OutUndisturbed(store: Store, keys: seq<string>, bad: set<string>)
    requires Shape(store) && NoneBetween(store, bad)
    ensures RestoredSender(store, keys, bad).out ==
      RestoreSender(Sender(map[], StoredSent(store), StoredReleased(store))).out
  {
    hide SentKey, ReleaseKey, Fits, SentOf, Shape, Precedes;
    forall id | id in StoredSent(store) && StoredSent(store)[id].0 == 2 ensures id !in Late(keys, bad) {
      assert HasSent(store, id) && SentOf(store, id).qos == 2;
    }
  }

  // What is restored and what is left in the store is the same for all orders of the keys exactly if, besides, no sc-
  // record has a bad s- record
  lemma SameForAllOrders(store: Store, bad: set<string>)
    requires Shape(store) && bad !! store.Keys
    ensures NoneMixed(store, bad) <==>
      forall k, l :: Orders(k, store, bad) && Orders(l, store, bad) ==>
        RestoredSender(store, k, bad) == RestoredSender(store, l, bad)
  {
    hide SentKey, ReleaseKey, Fits, SentOf, Shape, Late, Spared;
    if NoneMixed(store, bad) {
      forall k | Orders(k, store, bad)
        ensures RestoredSender(store, k, bad) == RestoreSender(Sender(map[], StoredSent(store), StoredReleased(store)))
      {
        BadIsNoRelease(store, k, bad);
        NoneMixedIsUndisturbed(store, k, bad);
        UndisturbedExactly(store, Late(k, bad), Spared(k, bad));
      }
    } else {
      MessagesForAllOrders(store, bad);
      if NoneBetween(store, bad) {
        var id :| HasRelease(store, id) && SentKey(id) in bad;
        LeftByOrder(store, bad, id);
      }
    }
  }

  lemma LeftByOrder(store: Store, bad: set<string>, id: int)
    requires Shape(store) && bad !! store.Keys && HasRelease(store, id) && SentKey(id) in bad
    ensures !forall k, l :: Orders(k, store, bad) && Orders(l, store, bad) ==>
        RestoredSender(store, k, bad) == RestoredSender(store, l, bad)
  {
    hide SentKey, ReleaseKey, Fits, SentOf, Shape;
    assert ReleaseKey(id) in store && SentKey(id) != ReleaseKey(id);
    var k, l := TwoOrders(store, bad, ReleaseKey(id), SentKey(id));
    NotBoth(l, SentKey(id), ReleaseKey(id));
    assert id in Spared(k, bad) && id !in Spared(l, bad) && !HasSent(store, id);
    assert id in RestoredSender(store, k, bad).released && id !in RestoredSender(store, l, bad).released;
  }

  // ---------------- what the restoring loop keeps ----------------

  // The message made of the s- record; for QoS 1 the expected type is left unset
  ghost predicate IsRestored(m: Message, store: Store, late: set<int>)
    requires Shape(store)
  {
    && HasSent(store, m.msgid)
    && var rec := SentOf(store, m.msgid);
    && m.qos == rec.qos && m.retain == rec.retain && m.pub == rec.pub
    && if HasRelease(store, m.msgid) || m.msgid in late then m.next == PUBCOMP else m.qos == 2 ==> m.next == PUBREC
  }

  ghost predicate IsRestoredIn(m: Message, store: Store)
    requires Shape(store)
  {
    && HasReceived(store, m.msgid)
    && var rec := ReceivedOf(store, m.msgid);
    && m.qos == 2 && m.retain == rec.retain && m.pub == rec.pub && m.next == PUBREL
  }

  ghost predicate OutOf(keys: seq<string>, store: Store, ms: seq<Message>, late: set<int>)
    requires Shape(store)
  {
    && Distinct(ms)
    && (forall i :: 0 <= i < |ms| ==> IsRestored(ms[i], store, late) && SentKey(ms[i].msgid) in keys)
    && (forall id :: HasSent(store, id) && SentKey(id) in keys ==> id in Ids(ms))
  }

  ghost predicate InOf(keys: seq<string>, store: Store, ms: seq<Message>)
    requires Shape(store)
  {
    && Distinct(ms)
    && (forall i :: 0 <= i < |ms| ==> IsRestoredIn(ms[i], store) && ReceivedKey(ms[i].msgid) in keys)
    && (forall id :: HasReceived(store, id) && ReceivedKey(id) in keys ==> id in Ids(ms))
  }

  ghost predicate Orphan(store: Store, id: int, spared: set<int>) {
    HasRelease(store, id) && !HasSent(store, id) && id !in spared
  }

  // The store without the orphaned sc- records met so far
  ghost predicate Purged(keys: seq<string>, s: Store, t: Store, spared: set<int>)
    requires Shape(s)
  {
    && Shape(t)
    && (forall id :: HasSent(s, id) <==> HasSent(t, id)) &&
      (forall id :: HasSent(s, id) ==> SentOf(s, id) == SentOf(t, id))
    && (forall id :: HasReceived(s, id) <==> HasReceived(t, id)) &&
      (forall id :: HasReceived(s, id) ==> ReceivedOf(s, id) == ReceivedOf(t, id))
    && (forall id :: HasRelease(t, id) <==> HasRelease(s, id) && !(Orphan(s, id, spared) && ReleaseKey(id) in keys))
    && KeysKept(keys, s, t)
  }

  // Nothing but sc- records met so far is missing
  ghost predicate KeysKept(keys: seq<string>, s: Store, t: Store) {
    && (forall key :: key in t ==> key in s && t[key] == s[key])
    && (forall key :: key in s && (key !in keys || KindOf(key) != Release) ==> key in t)
  }

  lemma OutSkips(keys: seq<string>, key: string, store: Store, ms: seq<Message>, late: set<int>)
    requires Shape(store) && OutOf(keys, store, ms, late) && KindOf(key) != SentPublish
    ensures OutOf(keys + [key], store, ms, late)
  {
    hide IsRestored, SentKey, KindOf, Ids, Distinct;
    forall id | HasSent(store, id) && SentKey(id) in keys + [key] ensures SentKey(id) in keys { KindsAreTold(id); }
  }

  lemma InSkips(keys: seq<string>, key: string, store: Store, ms: seq<Message>)
    requires Shape(store) && InOf(keys, store, ms) && KindOf(key) != Received
    ensures InOf(keys + [key], store, ms)
  {
    hide IsRestoredIn, ReceivedKey, KindOf, Ids, Distinct;
    forall id | HasReceived(store, id) &&
        ReceivedKey(id) in keys + [key] ensures ReceivedKey(id) in keys { KindsAreTold(id); }
  }

  lemma OutTakes(keys: seq<string>, store: Store, ms: seq<Message>, m: Message, late: set<int>)
    requires Shape(store) && OutOf(keys, store, ms, late) && IsRestored(m, store, late) && InRange(m.msgid) &&
      SentKey(m.msgid) !in keys
    ensures OutOf(keys + [SentKey(m.msgid)], store, ms + [m], late)
  {
    hide IsRestored, SentKey, OutMap, InMap;
    assert m.msgid !in Ids(ms);
    MapsOfAppended(ms, m);
    hide Ids, Distinct;
    forall id | HasSent(store, id) && SentKey(id) in keys + [SentKey(m.msgid)] ensures id in Ids(ms + [m]) {
      if SentKey(id) == SentKey(m.msgid) { KeysApart(id, m.msgid); }
    }
  }

  lemma InTakes(keys: seq<string>, store: Store, ms: seq<Message>, m: Message)
    requires Shape(store) && InOf(keys, store, ms) && IsRestoredIn(m, store) && InRange(m.msgid) &&
      ReceivedKey(m.msgid) !in keys
    ensures InOf(keys + [ReceivedKey(m.msgid)], store, ms + [m])
  {
    hide IsRestoredIn, ReceivedKey, OutMap, InMap;
    assert m.msgid !in Ids(ms);
    MapsOfAppended(ms, m);
    hide Ids, Distinct;
    forall id | HasReceived(store, id) && ReceivedKey(id) in keys + [ReceivedKey(m.msgid)] ensures id in Ids(ms + [m]) {
      if ReceivedKey(id) == ReceivedKey(m.msgid) { KeysApart(id, m.msgid); }
    }
  }

  lemma PurgeSkips(keys: seq<string>, key: string, s: Store, t: Store, spared: set<int>)
    requires Shape(s) && Purged(keys, s, t, spared)
    requires forall id :: Orphan(s, id, spared) ==> key != ReleaseKey(id)
    ensures Purged(keys + [key], s, t, spared)
  {
    hide ReleaseKey, SentKey, ReceivedKey, Fits, SentOf, ReceivedOf, Shape;
  }

  lemma PurgeTakes(keys: seq<string>, id: int, s: Store, t: Store, spared: set<int>)
    requires Shape(s) && Purged(keys, s, t, spared) && Orphan(s, id, spared)
    ensures Purged(keys + [ReleaseKey(id)], s, t - {ReleaseKey(id)}, spared)
  {
    RemoveRelease(t, id);
    KeysKeptLess(keys, id, s, t);
    hide KindOf, ReleaseKey, SentKey, ReceivedKey, Fits, SentOf, Shape, InboundSame, KeysKept;
    ReceivedKept(s, t, id);
    hide ReceivedOf, HasReceived;
  }

  lemma KeysKeptLess(keys: seq<string>, id: int, s: Store, t: Store)
    requires KeysKept(keys, s, t) && InRange(id)
    ensures KeysKept(keys + [ReleaseKey(id)], s, t - {ReleaseKey(id)})
  {
    KindsAreTold(id);
    hide KindOf, ReleaseKey;
  }

  lemma ReceivedKept(s: Store, t: Store, id: int)
    requires Shape(s) && Shape(t) && InRange(id) && Shape(t - {ReleaseKey(id)})
    ensures var u := t - {ReleaseKey(id)};
      && (forall k :: HasReceived(u, k) <==> HasReceived(t, k))
      && (forall k :: HasReceived(t, k) ==> ReceivedOf(u, k) == ReceivedOf(t, k))
  {
    hide Shape, Fits;
    forall k | HasReceived(t, k) ensures ReceivedKey(k) != ReleaseKey(id) { KeysApart(id, k); }
    hide ReceivedKey, ReleaseKey;
  }

  ghost predicate Covers(keys: seq<string>, store: Store) {
    forall key :: key in store ==> key in keys
  }

  // No QoS 1 message has an sc- record
  ghost predicate OnlyQoS2Released(store: Store)
    requires Shape(store)
  {
    forall id :: HasRelease(store, id) && HasSent(store, id) ==> SentOf(store, id).qos == 2
  }

  lemma RestoredIsStored(m: Message, s: Store, t: Store, keys: seq<string>, late: set<int>, spared: set<int>)
    requires Shape(s) && Purged(keys, s, t, spared) && OnlyQoS2Released(s) && IsRestored(m, s, late)
    requires Undisturbed(s, late, spared)
    ensures Stored(m, t)
  {
    hide SentOf, HasRelease, ReceivedOf, HasReceived, Shape;
  }

  lemma OutRestoredStored(keys: seq<string>, s: Store, t: Store, ms: seq<Message>, late: set<int>, spared: set<int>)
    requires Shape(s) && Covers(keys, s) && Purged(keys, s, t, spared) && OutOf(keys, s, ms, late)
    requires OnlyQoS2Released(s) && Undisturbed(s, late, spared)
    ensures OutboundStored(ms, t)
  {
    hide SentKey, ReleaseKey, SentOf, ReceivedOf, ReceivedKey, Fits, Shape;
    forall i | 0 <= i < |ms| ensures Stored(ms[i], t) { RestoredIsStored(ms[i], s, t, keys, late, spared); }
    hide Stored, IsRestored;
  }

  lemma OutRestored(keys: seq<string>, s: Store, t: Store, ms: seq<Message>, late: set<int>, spared: set<int>)
    requires Shape(s) && Covers(keys, s) && Purged(keys, s, t, spared) && OutOf(keys, s, ms, late)
    ensures SenderOf(ms, t) == SenderWith(s, late, spared)
  {
    OutKeys(keys, s, t, ms, late, spared);
    OutIs(keys, s, ms, late, spared);
    hide OutMap, StoredSent, StoredReleased, Purged, Shape, Covers, OutOf, RestoreSender;
  }

  lemma OutIs(keys: seq<string>, s: Store, ms: seq<Message>, late: set<int>, spared: set<int>)
    requires Shape(s) && Covers(keys, s) && OutOf(keys, s, ms, late)
    ensures OutMap(ms) == SenderWith(s, late, spared).out
  {
    hide SentKey, ReleaseKey, SentOf, ReceivedOf, ReceivedKey, Fits, ById, OutMap, Shape;
    var b := SenderWith(s, late, spared);
    forall i | 0 <= i < |ms|
      ensures ms[i].msgid in b.out && ms[i].msgid in OutMap(ms) && OutMap(ms)[ms[i].msgid] == b.out[ms[i].msgid]
    {
      AtIndex(ms, i);
      assert IsRestored(ms[i], s, late);
    }
    OutMapKeys(ms);
    hide IsRestored, StoredSent, StoredReleased;
    assert OutMap(ms) == b.out;
  }

  lemma OutKeys(keys: seq<string>, s: Store, t: Store, ms: seq<Message>, late: set<int>, spared: set<int>)
    requires Shape(s) && Covers(keys, s) && Purged(keys, s, t, spared)
    ensures Shape(t) && StoredSent(t) == StoredSent(s)
    ensures StoredReleased(t) == SenderWith(s, late, spared).released
  {
    hide SentKey, ReleaseKey, SentOf, ReceivedOf, ReceivedKey, Fits, Shape;
  }

  lemma OutMapKeys(ms: seq<Message>)
    ensures OutMap(ms).Keys == Ids(ms) && InMap(ms).Keys == Ids(ms)
  {
  }

  lemma InRestored(keys: seq<string>, s: Store, t: Store, ms: seq<Message>, spared: set<int>)
    requires Shape(s) && Covers(keys, s) && Purged(keys, s, t, spared) && InOf(keys, s, ms)
    ensures ReceiverOf(ms, t) == RestoreReceiver(Receiver(map[], StoredReceived(s))) && InboundStored(ms, t)
  {
    hide SentKey, ReleaseKey, SentOf, ReceivedOf, ReceivedKey, Fits, ById, InMap, Shape;
    var a, b := ReceiverOf(ms, t), RestoreReceiver(Receiver(map[], StoredReceived(s)));
    assert a.received == b.received;
    forall i | 0 <= i < |ms|
      ensures ms[i].msgid in b.inbound && ms[i].msgid in a.inbound && a.inbound[ms[i].msgid] == b.inbound[ms[i].msgid]
      ensures StoredIn(ms[i], t)
    {
      AtIndex(ms, i);
      assert IsRestoredIn(ms[i], s);
    }
    OutMapKeys(ms);
    assert a.inbound == b.inbound;
  }

  // ---------------- one key of the loop ----------------

  lemma KeyFacts(keys: seq<string>, was: Store, now: Store, key: string, spared: set<int>)
    requires Shape(was) && Purged(keys, was, now, spared) && key in now
    ensures key in was && was[key] == now[key] && KindOf(key) != Unknown
    ensures KindOf(key) == Received ==>
      now[key].PublishRecord? && InRange(now[key].msgid) && key == ReceivedKey(now[key].msgid) && now[key].qos == 2
    ensures KindOf(key) == SentPublish ==>
      now[key].PublishRecord? && InRange(now[key].msgid) && key == SentKey(now[key].msgid) && 1 <= now[key].qos <= 2
    ensures KindOf(key) == Release ==>
      now[key].PubrelRecord? && InRange(now[key].msgid) && key == ReleaseKey(now[key].msgid)
    ensures KindOf(key) != Release ==> forall id :: Orphan(was, id, spared) ==> key != ReleaseKey(id)
  {
    KeyHolds(key, now[key]);
    hide KindOf;
    forall id | Orphan(was, id, spared) && KindOf(key) != Release ensures key != ReleaseKey(id) { KindsAreTold(id); }
  }

  lemma ReceivedKeyRestored(keys: seq<string>, was: Store, now: Store, key: string, ms: seq<Message>, spared: set<int>)
    requires Shape(was) && Purged(keys, was, now, spared) && InOf(keys, was, ms) && key in now && key !in keys &&
      KindOf(key) == Received
    ensures now[key].PublishRecord?
    ensures var rec := now[key];
      InOf(keys + [key], was, ms + [Message(rec.msgid, rec.qos, rec.retain, PUBREL, rec.pub)])
  {
    KeyFacts(keys, was, now, key, spared);
    hide KindOf, ReceivedKey, Fits, Shape;
    var rec := now[key];
    assert HasReceived(was, rec.msgid) && ReceivedOf(was, rec.msgid) == rec;
    hide ReceivedOf, InOf, Purged;
    InTakes(keys, was, ms, Message(rec.msgid, rec.qos, rec.retain, PUBREL, rec.pub));
  }

  lemma SentKeyRestored(keys: seq<string>, was: Store, now: Store, key: string, ms: seq<Message>, m: Message,
      late: set<int>, spared: set<int>)
    requires Shape(was) && Purged(keys, was, now, spared) && OutOf(keys, was, ms, late) && key in now && key !in keys &&
      KindOf(key) == SentPublish
    requires now[key].PublishRecord? && InRange(now[key].msgid) ==>
      var rec := now[key];
      && m == Message(rec.msgid, rec.qos, rec.retain, m.next, rec.pub)
      && if ReleaseKey(rec.msgid) in now || rec.msgid in late then m.next == PUBCOMP
         else rec.qos == 2 ==> m.next == PUBREC
    ensures OutOf(keys + [key], was, ms + [m], late)
  {
    KeyFacts(keys, was, now, key, spared);
    hide KindOf, SentKey, ReleaseKey, Fits, Shape;
    var rec := now[key];
    assert HasSent(was, rec.msgid) && SentOf(was, rec.msgid) == rec;
    assert HasRelease(was, rec.msgid) <==> HasRelease(now, rec.msgid);
    hide SentOf, OutOf, Purged;
    OutTakes(keys, was, ms, m, late);
  }

  lemma OrphanOrNot(keys: seq<string>, was: Store, now: Store, key: string, spared: set<int>)
    requires Shape(was) && Purged(keys, was, now, spared) && key in now && KindOf(key) == Release
    ensures now[key].PubrelRecord? && InRange(now[key].msgid) && key == ReleaseKey(now[key].msgid)
    ensures var n := now[key].msgid; SentKey(n) !in now && n !in spared <==> Orphan(was, n, spared)
    ensures var n := now[key].msgid;
      !Orphan(was, n, spared) ==> forall id :: Orphan(was, id, spared) ==> key != ReleaseKey(id)
  {
    KeyFacts(keys, was, now, key, spared);
    hide KindOf, SentKey, ReleaseKey, Fits, Shape;
    var n := now[key].msgid;
    assert HasSent(was, n) <==> HasSent(now, n);
    forall id | Orphan(was, id, spared) && key == ReleaseKey(id) ensures id == n { KeysApart(id, n); }
  }

  // A record that cannot be decoded
  lemma BadSkips(keys: seq<string>, key: string, was: Store, now: Store, out: seq<Message>, received: seq<Message>,
      late: set<int>, spared: set<int>)
    requires Shape(was) && key !in was
    requires Purged(keys, was, now, spared) && OutOf(keys, was, out, late) && InOf(keys, was, received)
    ensures Purged(keys + [key], was, now, spared) && OutOf(keys + [key], was, out, late)
    ensures InOf(keys + [key], was, received)
  {
    hide SentKey, ReleaseKey, ReceivedKey, Fits, SentOf, ReceivedOf, Shape, IsRestored, IsRestoredIn, Ids, Distinct;
  }

  lemma ShapeLess(s: Store, key: string)
    requires Shape(s)
    ensures Shape(s - {key})
  {
    hide Fits;
  }

  lemma AllSortedInAppended(ms: seq<Message>, m: Message)
    ensures AllSortedIn(ms + [m]) == SortedIn(AllSortedIn(ms), m)
  {
    assert (ms + [m])[..|ms|] == ms;
  }

  // The loop is done: the list is the sorted messages, turned at the largest gap
  lemma TurnedMirrors(keys: seq<string>, was: Store, now: Store, stored: seq<Message>, turned: seq<Message>,
      late: set<int>, spared: set<int>)
    requires Shape(was) && Covers(keys, was) && Purged(keys, was, now, spared) && OutOf(keys, was, stored, late)
    requires multiset(turned) == multiset(stored)
    ensures SenderOf(turned, now) == SenderWith(was, late, spared)
    ensures OnlyQoS2Released(was) && Undisturbed(was, late, spared) ==> OutboundStored(turned, now)
  {
    hide ById;
    Permuted(stored, turned);
    assert OutOf(keys, was, turned, late) by {
      hide SentKey, IsRestored;
      forall i | 0 <= i < |turned| ensures turned[i] in stored {
        assert turned[i] in multiset(stored);
      }
      assert Ids(turned) == ById(turned).Keys == Ids(stored);
    }
    OutRestored(keys, was, now, turned, late, spared);
    if OnlyQoS2Released(was) && Undisturbed(was, late, spared) {
      OutRestoredStored(keys, was, now, turned, late, spared);
    }
  }

  // ---------------- the order after a restart ----------------

  lemma SameMessages(a: seq<Message>, b: seq<Message>)
    requires Distinct(a) && Distinct(b) && ById(a) == ById(b)
    ensures multiset(a) == multiset(b)
  {
    forall x ensures multiset(a)[x] == multiset(b)[x] {
      DistinctOnce(a, x);
      DistinctOnce(b, x);
      assert x in a <==> x.msgid in ById(a) && ById(a)[x.msgid] == x by { InById(a, x); }
      assert x in b <==> x.msgid in ById(b) && ById(b)[x.msgid] == x by { InById(b, x); }
    }
  }

  lemma InById(a: seq<Message>, x: Message)
    requires Distinct(a)
    ensures x in a <==> x.msgid in ById(a) && ById(a)[x.msgid] == x
  {
    if x.msgid in ById(a) { var i :| 0 <= i < |a| && a[i].msgid == x.msgid; }
  }

  // The same message, up to what a QoS 1 message says of the expected packet
  ghost predicate SameMessage(a: Message, b: Message) {
    a.msgid == b.msgid && a.retain == b.retain && Abs(a) == Abs(b)
  }

  ghost predicate SameList(a: seq<Message>, b: seq<Message>) {
    |a| == |b| && forall i :: 0 <= i < |a| ==> SameMessage(a[i], b[i])
  }

  lemma RestoredAlike(lost: seq<Message>, s: Store, keys: seq<string>, stored: seq<Message>, late: set<int>, i: nat)
    requires Shape(s) && OutboundStored(lost, s) && Covers(keys, s) && OutOf(keys, s, stored, late) && i < |lost|
    requires Undisturbed(s, late, {})
    ensures lost[i].msgid in ById(stored) && SameMessage(ById(stored)[lost[i].msgid], lost[i])
  {
    hide SentKey, KindOf, Fits, IndexOf, Shape;
    assert Stored(lost[i], s);
    var j :| 0 <= j < |stored| && stored[j].msgid == lost[i].msgid;
    assert IsRestored(stored[j], s, late);
  }

  lemma AllLost(lost: seq<Message>, s: Store, keys: seq<string>, stored: seq<Message>, late: set<int>, id: int)
    requires Shape(s) && OutboundStored(lost, s) && OutOf(keys, s, stored, late) && id in ById(stored)
    ensures exists i :: 0 <= i < |lost| && lost[i].msgid == id
  {
    var j :| 0 <= j < |stored| && stored[j].msgid == id;
    assert IsRestored(stored[j], s, late);
    hide SentKey, SentOf, KindOf, Fits, IndexOf, Shape;
    assert HasSent(s, id);
  }

  // The messages of the store, put in the order of the list that was lost
  lemma Reordered(lost: seq<Message>, s: Store, keys: seq<string>, stored: seq<Message>, late: set<int>)
    returns (order: seq<Message>)
    requires Shape(s) && OutboundStored(lost, s) && Covers(keys, s) && OutOf(keys, s, stored, late)
    requires Undisturbed(s, late, {})
    ensures SameList(order, lost) && multiset(order) == multiset(stored)
  {
    assert Distinct(lost) && Distinct(stored);
    hide Shape, OutboundStored, Covers, OutOf, Undisturbed, IndexOf;
    forall i | 0 <= i < |lost|
      ensures lost[i].msgid in ById(stored) && SameMessage(ById(stored)[lost[i].msgid], lost[i])
    {
      RestoredAlike(lost, s, keys, stored, late, i);
    }
    order := seq(|lost|, i requires 0 <= i < |lost| => ById(stored)[lost[i].msgid]);
    forall id | id in ById(stored) ensures id in Ids(lost) {
      AllLost(lost, s, keys, stored, late, id);
    }
    hide Abs, ById, Distinct;
    ArrangedSame(lost, stored, order);
  }

  // `stored`, arranged by the ids of `lost`
  lemma ArrangedSame(lost: seq<Message>, stored: seq<Message>, order: seq<Message>)
    requires Distinct(lost) && Distinct(stored) && |order| == |lost|
    requires forall i :: 0 <= i < |lost| ==>
      lost[i].msgid in ById(stored) && order[i] == ById(stored)[lost[i].msgid] && order[i].msgid == lost[i].msgid
    requires forall id :: id in ById(stored) ==> id in Ids(lost)
    ensures multiset(order) == multiset(stored)
  {
    hide ById, IndexOf;
    forall id | id in ById(stored) ensures exists i :: 0 <= i < |order| && order[i].msgid == id {
      var i :| 0 <= i < |lost| && lost[i].msgid == id;
      assert order[i].msgid == id;
    }
    ByIdIs(order, ById(stored));
    SameMessages(order, stored);
  }

  ghost predicate SameSteps(a: seq<Message>, b: seq<Message>) {
    |a| == |b| && forall j :: 0 <= j < |a| ==> a[j].msgid == b[j].msgid
  }

  lemma SameIds(a: seq<Message>, b: seq<Message>)
    requires SameList(a, b)
    ensures SameSteps(a, b)
  {
    assert forall i :: 0 <= i < |a| ==> SameMessage(a[i], b[i]);
  }

  lemma {:induction false} DescentOfSame(a: seq<Message>, b: seq<Message>, i: nat)
    requires SameSteps(a, b) && 1 <= i <= |a|
    ensures DescentFrom(a, i) == DescentFrom(b, i)
    decreases |a| - i
  {
    if i < |a| && a[i].msgid >= a[i - 1].msgid { DescentOfSame(a, b, i + 1); }
  }

  lemma AdvanceAlike(a: seq<Message>, b: seq<Message>)
    requires SameSteps(a, b)
    ensures forall j :: 0 <= j < |a| ==> Advance(a, j) == Advance(b, j)
  { }

  lemma ComesBackToo(a: seq<Message>, b: seq<Message>)
    requires SameSteps(a, b) && a != [] && ComesBack(a)
    ensures ComesBack(b)
  {
    DescentOfSame(a, b, 1);
    AdvanceAlike(a, b);
    var c := Descent(a);
    assert Descent(b) == c;
    hide Advance, Descent;
    forall j | 1 <= j < |b| ensures if j < c then Advance(b, j) <= Advance(b, 0) else Advance(b, j) < Advance(b, 0) {
      assert Advance(a, j) == Advance(b, j) && Advance(a, 0) == Advance(b, 0);
    }
  }

  lemma ComesBackAlike(a: seq<Message>, b: seq<Message>)
    requires SameSteps(a, b) && a != []
    ensures b != [] && (ComesBack(a) <==> ComesBack(b))
  {
    hide ComesBack;
    if ComesBack(a) { ComesBackToo(a, b); }
    if ComesBack(b) { ComesBackToo(b, a); }
  }

  // Two arrangements of the same messages are equal if their ids are
  lemma SameArrangement(a: seq<Message>, b: seq<Message>)
    requires Distinct(a) && multiset(a) == multiset(b) && SameSteps(a, b)
    ensures a == b
  {
    forall j | 0 <= j < |a| ensures a[j] == b[j] {
      assert b[j] in multiset(a);
      var i :| 0 <= i < |a| && a[i] == b[j];
      assert i == j;
    }
  }

  // A restart brings the messages back in the order in which they were sent, whatever the order of the keys, exactly
  // if it is an order that comes back
  lemma RestartKeepsOrder(lost: seq<Message>, s: Store, keys: seq<string>, stored: seq<Message>, k: int, late: set<int>)
    requires Shape(s) && OutboundStored(lost, s) && Covers(keys, s) && OutOf(keys, s, stored, late)
    requires Undisturbed(s, late, {})
    requires stored != [] && WrapsAt(AllSortedIn(stored), k)
    ensures lost != [] && (SameList(Rotated(AllSortedIn(stored), k), lost) <==> ComesBack(lost))
  {
    var order := Reordered(lost, s, keys, stored, late);
    assert |multiset(order)| == |multiset(stored)|;
    assert Distinct(stored) && 0 <= k < |AllSortedIn(stored)|;
    AllSortedInAscending(stored);
    Permuted(stored, order);
    SameIds(order, lost);
    hide Shape, OutboundStored, Covers, OutOf, WrapsAt, AllSortedIn, Ascending, ComesBack, SameList, ById, Rotated;
    RestoredExactly(order, stored, k);
    ComesBackAlike(order, lost);
    var back := Rotated(AllSortedIn(stored), k);
    RotatedKeeps(AllSortedIn(stored), k);
    SameSize(back, order);
    if SameList(back, lost) {
      SameIds(back, lost);
      SameArrangement(order, back);
    }
  }

  lemma NothingRestored(s: Store)
    requires Shape(s)
    ensures forall late :: OutOf([], s, [], late)
    ensures forall spared :: Purged([], s, s, spared)
    ensures InOf([], s, []) && AllSortedIn([]) == []
  {
  }

  lemma PurgedShape(keys: seq<string>, s: Store, t: Store, spared: set<int>)
    requires Shape(s) && Purged(keys, s, t, spared)
    ensures Shape(t)
  {
  }

  lemma Turned(keys: seq<string>, was: Store, stored: seq<Message>, k: int, turned: seq<Message>, late: set<int>)
    requires Shape(was) && OutOf(keys, was, stored, late)
    requires if AllSortedIn(stored) == [] then turned == []
             else WrapsAt(AllSortedIn(stored), k) && turned == Rotated(AllSortedIn(stored), k)
    ensures multiset(turned) == multiset(stored)
    ensures if stored == [] then turned == []
            else WrapsAt(AllSortedIn(stored), k) && turned == Rotated(AllSortedIn(stored), k)
  {
    var sorted := AllSortedIn(stored);
    AllSortedInAscending(stored);
    hide AllSortedIn, Ascending, OutOf, Distinct, Shape, Gap, Rotated;
    SameSize(sorted, stored);
    if sorted != [] { RotatedKeeps(sorted, k); }
  }

  lemma SameSize(a: seq<Message>, b: seq<Message>)
    requires multiset(a) == multiset(b)
    ensures |a| == |b|
  {
    assert |multiset(a)| == |multiset(b)|;
  }

  lemma RotatedKeeps(ms: seq<Message>, k: int)
    requires 0 <= k <= |ms|
    ensures multiset(Rotated(ms, k)) == multiset(ms)
  {
    assert ms == ms[..k] + ms[k..];
  }

  // A store that mirrors the lists gives the same protocol state back
  lemma SameProtocolState(outbound: seq<Message>, inbound: seq<Message>, s: Store)
    requires Mirrors(outbound, inbound, s)
    ensures RestoreSender(Sender(map[], StoredSent(s), StoredReleased(s))) == SenderOf(outbound, s)
    ensures RestoreReceiver(Receiver(map[], StoredReceived(s))) == ReceiverOf(inbound, s)
    ensures OnlyQoS2Released(s)
  {
    StoredIsMirrored(outbound, s);
    ReceivedIsMirrored(inbound, s);
    RestoreMirrored(SenderOf(outbound, s));
    var u := Sender(map[], StoredSent(s), StoredReleased(s));
    assert RestoreSender(u) == RestoreSender(SenderOf(outbound, s)) by {
      hide StoredSent, StoredReleased, OutMap;
      SameRestore(u, SenderOf(outbound, s));
    }
    hide SentOf, ReceivedOf, StoredSent, StoredReceived, StoredReleased, SentKey, ReleaseKey, ReceivedKey, Shape;
    forall id | HasRelease(s, id) && HasSent(s, id) ensures SentOf(s, id).qos == 2 {
      var i :| 0 <= i < |outbound| && outbound[i].msgid == id;
      assert Stored(outbound[i], s);
    }
  }

  // A restart does not look at the memory
  lemma SameRestore(a: Sender, b: Sender)
    requires a.sent == b.sent && a.released == b.released
    ensures RestoreSender(a) == RestoreSender(b)
  {
    assert RestoreSender(a).out == RestoreSender(b).out;
  }

  lemma NoIds()
    ensures Ids([]) == {}
  {
  }

  lemma NoneLost(lost: seq<Message>, s: Store, keys: seq<string>, late: set<int>)
    requires Shape(s) && OutboundStored(lost, s) && Covers(keys, s) && OutOf(keys, s, [], late)
    ensures lost == []
  {
    hide Ids, Distinct, SentOf, SentKey;
    forall i | 0 <= i < |lost| ensures lost[i].msgid in Ids([]) {
      assert Stored(lost[i], s);
    }
    var first := if |lost| > 0 then lost[0].msgid else 0;
    NoIds();
  }

  // The order after a restart, also of an empty list
  lemma OrderAfter(lost: seq<Message>, s: Store, keys: seq<string>, stored: seq<Message>, k: int, back: seq<Message>,
      late: set<int>)
    requires Shape(s) && OutboundStored(lost, s) && Covers(keys, s) && OutOf(keys, s, stored, late)
    requires Undisturbed(s, late, {})
    requires if stored == [] then back == []
             else WrapsAt(AllSortedIn(stored), k) && back == Rotated(AllSortedIn(stored), k)
    ensures SameList(back, lost) <==> lost == [] || ComesBack(lost)
  {
    hide Shape, OutboundStored, Covers, OutOf, WrapsAt, AllSortedIn, ComesBack, Rotated;
    if stored != [] {
      RestartKeepsOrder(lost, s, keys, stored, k, late);
    } else {
      NoneLost(lost, s, keys, late);
    }
  }
}
