/** The queue of messages for the application and its records in the store: what a restart makes of them. */
module MessageQueue {
  import opened Sequences
  import opened StoreKeys
  import opened Wire

  const INT_LIMIT := 0x8000_0000

  // `topic` are the topicLen bytes of the topic buffer; the buffer is read as a C string
  datatype Entry = Entry(payload: seq<Byte>, qos: nat, retained: nat, dup: nat, msgid: nat, topic: seq<Byte>,
      topicLen: nat)

  datatype Queued = Queued(entry: Entry, seqno: nat)

  // ---------------- the record of an entry ----------------

  // The four bytes of an int, the lowest one first
  function IntBytes(n: nat): (s: seq<Byte>)
    requires n < INT_LIMIT
    ensures |s| == 4
  {
    [n % 256, n / 256 % 256, n / 65536 % 256, n / 16777216]
  }

  function IntOf(s: seq<Byte>): nat
    requires |s| == 4
  {
    s[0] as int + 256 * (s[1] as int) + 65536 * (s[2] as int) + 16777216 * (s[3] as int)
  }

  lemma IntBack(n: nat)
    requires n < INT_LIMIT
    ensures IntOf(IntBytes(n)) == n
  {
    assert n / 256 / 256 == n / 65536 && n / 65536 / 256 == n / 16777216;
  }

  function UpToNul(s: seq<Byte>): (t: seq<Byte>)
    ensures |t| <= |s| && forall i :: 0 <= i < |t| ==> t[i] != 0
  {
    if s == [] || s[0] == 0 then [] else [s[0]] + UpToNul(s[1..])
  }

  lemma {:induction false} NulEnds(t: seq<Byte>, rest: seq<Byte>)
    requires forall i :: 0 <= i < |t| ==> t[i] != 0
    ensures UpToNul(t + [0] + rest) == t
  {
    var s := t + [0] + rest;
    if t != [] {
      NulEnds(t[1..], rest);
      assert s[1..] == t[1..] + [0] + rest;
      assert t == [t[0]] + t[1..];
    }
  }

  lemma {:induction false} UpToNulExactly(s: seq<Byte>)
    ensures UpToNul(s) == s <==> forall i :: 0 <= i < |s| ==> s[i] != 0
  {
    if s != [] && s[0] != 0 {
      UpToNulExactly(s[1..]);
      assert s == [s[0]] + s[1..];
      assert forall i :: 0 < i < |s| ==> s[i] == s[1..][i - 1];
    }
  }

  ghost predicate Storable(e: Entry) {
    |e.payload| < INT_LIMIT && e.qos < INT_LIMIT && e.retained < INT_LIMIT && e.dup < INT_LIMIT &&
        e.msgid < INT_LIMIT && e.topicLen < INT_LIMIT
  }

  // MQTTPersistence_persistQueueEntry: the buffers, one behind the other
  function EntryBytes(e: Entry): seq<Byte>
    requires Storable(e)
  {
    Numbers(e) + UpToNul(e.topic) + [0] + IntBytes(e.topicLen)
  }

  function Numbers(e: Entry): seq<Byte>
    requires Storable(e)
  {
    IntBytes(|e.payload|) + e.payload + IntBytes(e.qos) + IntBytes(e.retained) + IntBytes(e.dup) + IntBytes(e.msgid)
  }

  ghost predicate IntAt(s: seq<Byte>, i: nat, n: nat) {
    && i + 4 <= |s| && n < INT_LIMIT
    && s[i] as int == n % 256 && s[i + 1] as int == n / 256 % 256 && s[i + 2] as int == n / 65536 % 256
    && s[i + 3] as int == n / 16777216
  }

  // The layout of a record: length and payload, QoS, retained, dup, id, the topic with its NUL, and the topic length
  lemma EntryByNumber(e: Entry)
    requires Storable(e)
    ensures var s, n, t := EntryBytes(e), |e.payload|, UpToNul(e.topic);
      && |s| == n + |t| + 25 && IntAt(s, 0, n) && s[4..4 + n] == e.payload
      && IntAt(s, 4 + n, e.qos) && IntAt(s, 8 + n, e.retained) && IntAt(s, 12 + n, e.dup) && IntAt(s, 16 + n, e.msgid)
      && s[20 + n..20 + n + |t|] == t && s[20 + n + |t|] == 0 && IntAt(s, 21 + n + |t|, e.topicLen)
  {
    var s, n, t := EntryBytes(e), |e.payload|, UpToNul(e.topic);
    assert s == Numbers(e) + (t + [0] + IntBytes(e.topicLen));
  }

  // What is left of an entry in its record
  function Cut(e: Entry): Entry { e.(topic := UpToNul(e.topic)) }

  datatype RestoredEntry = BehindTheEnd | GotEntry(e: Entry)

  // MQTTPersistence_restoreQueueEntry. The source trusts the lengths in the record; reading on behind its end is
  // BehindTheEnd here. Of any bytes, what is laid out at their beginning is restored.
  method RestoreQueueEntry(buffer: seq<Byte>) returns (r: RestoredEntry)
    ensures forall e :: Laid(buffer, e) <==> r == GotEntry(e)
  {
    r := BehindTheEnd;
    hide IntOf, UpToNul;
    if |buffer| < 4 {
      return;
    }
    var payloadlen := IntOf(buffer[..4]);
    var ptr := 4;
    if |buffer| < ptr + payloadlen + 16 {
      return;
    }
    var payload := buffer[ptr..ptr + payloadlen];
    ptr := ptr + payloadlen;
    var qos := IntOf(buffer[ptr..ptr + 4]);
    ptr := ptr + 4;
    var retained := IntOf(buffer[ptr..ptr + 4]);
    ptr := ptr + 4;
    var dup := IntOf(buffer[ptr..ptr + 4]);
    ptr := ptr + 4;
    var msgid := IntOf(buffer[ptr..ptr + 4]);
    ptr := ptr + 4;
    var topic := UpToNul(buffer[ptr..]);
    ptr := ptr + |topic| + 1;
    if |buffer| < ptr + 4 {
      return;
    }
    var topicLen := IntOf(buffer[ptr..ptr + 4]);
    r := GotEntry(Entry(payload, qos, retained, dup, msgid, topic, topicLen));
  }

  // The fields of e, one behind the other, at the beginning of s
  ghost predicate Laid(s: seq<Byte>, e: Entry) {
    var n, t := |e.payload|, |e.topic|;
    && |s| >= n + t + 25
    && IntOf(s[..4]) == n && s[4..4 + n] == e.payload
    && IntOf(s[4 + n..8 + n]) == e.qos && IntOf(s[8 + n..12 + n]) == e.retained
    && IntOf(s[12 + n..16 + n]) == e.dup && IntOf(s[16 + n..20 + n]) == e.msgid
    && UpToNul(s[20 + n..]) == e.topic && IntOf(s[21 + n + t..25 + n + t]) == e.topicLen
  }

  // The record of an entry gives the entry back, with its topic up to the first NUL
  lemma RecordIsRestored(e: Entry, r: RestoredEntry)
    requires Storable(e) && forall x :: Laid(EntryBytes(e), x) <==> r == GotEntry(x)
    ensures r == GotEntry(Cut(e))
  {
    Layout(e);
  }

  lemma NumbersLaid(e: Entry)
    requires Storable(e)
    ensures var n, p := |e.payload|, Numbers(e);
      && |p| == 20 + n && p[..4] == IntBytes(n) && p[4..4 + n] == e.payload
      && p[4 + n..8 + n] == IntBytes(e.qos) && p[8 + n..12 + n] == IntBytes(e.retained)
      && p[12 + n..16 + n] == IntBytes(e.dup) && p[16 + n..20 + n] == IntBytes(e.msgid)
  {
    hide IntBytes;
  }

  function Behind(e: Entry): seq<Byte>
    requires Storable(e)
  {
    UpToNul(e.topic) + [0] + IntBytes(e.topicLen)
  }

  lemma TwoParts(e: Entry)
    requires Storable(e)
    ensures EntryBytes(e) == Numbers(e) + Behind(e)
  {
    hide Numbers, UpToNul, IntBytes;
  }

  lemma Front(s: seq<Byte>, p: seq<Byte>, q: seq<Byte>, i: nat, j: nat)
    requires s == p + q && i <= j <= |p|
    ensures s[i..j] == p[i..j]
  { }

  lemma FrontLaid(e: Entry)
    requires Storable(e)
    ensures var n, s := |e.payload|, EntryBytes(e);
      && |s| == 20 + n + |Behind(e)| && s[..4] == IntBytes(n) && s[4..4 + n] == e.payload
      && s[4 + n..8 + n] == IntBytes(e.qos) && s[8 + n..12 + n] == IntBytes(e.retained)
      && s[12 + n..16 + n] == IntBytes(e.dup) && s[16 + n..20 + n] == IntBytes(e.msgid)
      && s[20 + n..] == Behind(e)
  {
    var n, s, p, q := |e.payload|, EntryBytes(e), Numbers(e), Behind(e);
    NumbersLaid(e);
    TwoParts(e);
    hide IntBytes, Numbers, EntryBytes, Behind;
    Front(s, p, q, 0, 4);
    Front(s, p, q, 4, 4 + n);
    Front(s, p, q, 4 + n, 8 + n);
    Front(s, p, q, 8 + n, 12 + n);
    Front(s, p, q, 12 + n, 16 + n);
    Front(s, p, q, 16 + n, 20 + n);
  }

  lemma BehindLaid(e: Entry)
    requires Storable(e)
    ensures var t := UpToNul(e.topic);
      |Behind(e)| == |t| + 5 && UpToNul(Behind(e)) == t && Behind(e)[|t| + 1..] == IntBytes(e.topicLen)
  {
    NulEnds(UpToNul(e.topic), IntBytes(e.topicLen));
    hide IntBytes, UpToNul;
  }

  lemma Tail(s: seq<Byte>, i: nat, j: nat)
    requires i + j + 4 == |s|
    ensures s[i..][j..] == s[i + j..i + j + 4]
  { }

  lemma FrontRead(e: Entry)
    requires Storable(e)
    ensures var n, s := |e.payload|, EntryBytes(e);
      && |s| >= 20 + n && IntOf(s[..4]) == n && s[4..4 + n] == e.payload
      && IntOf(s[4 + n..8 + n]) == e.qos && IntOf(s[8 + n..12 + n]) == e.retained
      && IntOf(s[12 + n..16 + n]) == e.dup && IntOf(s[16 + n..20 + n]) == e.msgid
  {
    hide IntBytes, IntOf, EntryBytes, Behind;
    FrontLaid(e);
    IntBack(|e.payload|);
    IntBack(e.qos);
    IntBack(e.retained);
    IntBack(e.dup);
    IntBack(e.msgid);
  }

  lemma BehindRead(e: Entry)
    requires Storable(e)
    ensures var n, t, s := |e.payload|, UpToNul(e.topic), EntryBytes(e);
      && |s| == n + |t| + 25 && UpToNul(s[20 + n..]) == t && IntOf(s[21 + n + |t|..25 + n + |t|]) == e.topicLen
  {
    hide IntBytes, IntOf, UpToNul, Behind, EntryBytes;
    FrontLaid(e);
    BehindLaid(e);
    IntBack(e.topicLen);
    Tail(EntryBytes(e), 20 + |e.payload|, |UpToNul(e.topic)| + 1);
  }

  lemma Layout(e: Entry)
    requires Storable(e)
    ensures Laid(EntryBytes(e), Cut(e))
  {
    FrontRead(e);
    BehindRead(e);
    hide IntOf, UpToNul, EntryBytes;
  }

  lemma CutIsStable(e: Entry)
    requires Storable(e)
    ensures Storable(Cut(e)) && EntryBytes(Cut(e)) == EntryBytes(e) && Cut(Cut(e)) == Cut(e)
  {
    UpToNulExactly(UpToNul(e.topic));
  }

  // ---------------- the order of the queue ----------------

  ghost predicate Ascending(q: seq<Queued>) {
    forall i, j :: 0 <= i < j < |q| ==> q[i].seqno < q[j].seqno
  }

  // The number of the last one, or 0
  function Last(q: seq<Queued>): nat { if q == [] then 0 else q[|q| - 1].seqno }

  // MQTTPersistence_insertInSeqOrder
  method InsertInSeqOrder(q: seq<Queued>, x: Queued) returns (r: seq<Queued>)
    requires Ascending(q) && forall i :: 0 <= i < |q| ==> q[i].seqno != x.seqno
    ensures Ascending(r) && forall y :: y in r <==> y in q || y == x
    ensures Last(r) == if Last(q) > x.seqno then Last(q) else x.seqno
  {
    var index := 0;
    while index < |q| && !(x.seqno < q[index].seqno)
      invariant 0 <= index <= |q| && forall i :: 0 <= i < index ==> q[i].seqno < x.seqno
    {
      index := index + 1;
    }
    r := Spliced(q, index, x);
    SplicedInOrder(q, index, x);
  }

  lemma SplicedInOrder(q: seq<Queued>, k: nat, x: Queued)
    requires Ascending(q) && k <= |q| && forall i :: 0 <= i < k ==> q[i].seqno < x.seqno
    requires k < |q| ==> x.seqno < q[k].seqno
    ensures var r := Spliced(q, k, x);
      && Ascending(r) && (forall y :: y in r <==> y in q || y == x)
      && Last(r) == if Last(q) > x.seqno then Last(q) else x.seqno
  {
    var r := Spliced(q, k, x);
    forall i | 0 <= i < |r| ensures r[i] == if i < k then q[i] else if i == k then x else q[i - 1] { }
    assert r[k] == x;
    hide Spliced;
    forall y | y in q ensures y in r {
      var i :| 0 <= i < |q| && q[i] == y;
      assert r[if i < k then i else i + 1] == y;
    }
  }

  // What is in it says what the list is
  lemma {:induction false} SameAscending(a: seq<Queued>, b: seq<Queued>)
    requires Ascending(a) && Ascending(b) && forall x :: x in a <==> x in b
    ensures a == b
  {
    if a == [] {
      assert forall i :: 0 <= i < |b| ==> b[i] in b;
    } else {
      assert a[0] in b && b != [] && b[0] in a;
      var i :| 0 <= i < |b| && b[i] == a[0];
      var j :| 0 <= j < |a| && a[j] == b[0];
      assert a[0] == b[0];
      assert a == [a[0]] + a[1..] && b == [b[0]] + b[1..];
      forall x ensures x in a[1..] <==> x in b[1..] {
        assert x in a[1..] <==> x in a && x != a[0] by { OnlyFirst(a, x); }
        assert x in b[1..] <==> x in b && x != b[0] by { OnlyFirst(b, x); }
      }
      SameAscending(a[1..], b[1..]);
    }
  }

  lemma OnlyFirst(a: seq<Queued>, x: Queued)
    requires Ascending(a) && a != []
    ensures x in a[1..] <==> x in a && x != a[0]
  {
    assert a == [a[0]] + a[1..];
    if x in a[1..] {
      var i :| 0 <= i < |a[1..]| && a[1..][i] == x;
      assert a[i + 1] == x;
    }
  }

  function CutAll(q: seq<Queued>): (r: seq<Queued>)
    ensures |r| == |q|
    ensures forall i :: 0 <= i < |q| ==> r[i] == Queued(Cut(q[i].entry), q[i].seqno)
  {
    seq(|q|, i requires 0 <= i < |q| => Queued(Cut(q[i].entry), q[i].seqno))
  }

  // ---------------- the records ----------------

  type Store = map<string, seq<Byte>>

  // One record for each, under the key of its number, and no other records of the queue
  ghost predicate Recorded(q: seq<Queued>, store: Store) {
    && (forall i :: 0 <= i < |q| ==> RecordedAt(q[i], store))
    && (forall key :: key in store && StartsWith(key, QUEUE) ==>
      exists i :: 0 <= i < |q| && key == QueueKey(q[i].seqno))
  }

  ghost predicate RecordedAt(x: Queued, store: Store) {
    Storable(x.entry) && QueueKey(x.seqno) in store && store[QueueKey(x.seqno)] == EntryBytes(x.entry)
  }

  lemma IsQueueKey(n: nat)
    ensures StartsWith(QueueKey(n), QUEUE) && Atoi(0, QueueKey(n)[2..]) == n
  {
    assert QueueKey(n)[2..] == Decimal(n);
    AtoiDecimal(n);
  }

  lemma RecordedMore(q: seq<Queued>, store: Store, x: Queued)
    requires Recorded(q, store) && Storable(x.entry) && forall i :: 0 <= i < |q| ==> q[i].seqno != x.seqno
    ensures Recorded(q + [x], store[QueueKey(x.seqno) := EntryBytes(x.entry)])
  {
    hide EntryBytes, StartsWith, QueueKey, Storable;
    var t := store[QueueKey(x.seqno) := EntryBytes(x.entry)];
    forall i | 0 <= i < |q| ensures RecordedAt(q[i], t) {
      if QueueKey(q[i].seqno) == QueueKey(x.seqno) { QueueKeysApart(q[i].seqno, x.seqno); }
    }
    forall key | key in t && StartsWith(key, QUEUE)
      ensures exists i :: 0 <= i < |q + [x]| && key == QueueKey((q + [x])[i].seqno)
    {
      if key == QueueKey(x.seqno) {
        assert (q + [x])[|q|] == x;
      } else {
        var i :| 0 <= i < |q| && key == QueueKey(q[i].seqno);
        assert (q + [x])[i] == q[i];
      }
    }
  }

  lemma RecordedLess(q: seq<Queued>, store: Store, k: nat)
    requires Recorded(q, store) && Ascending(q) && k < |q|
    ensures Recorded(Without(q, k), store - {QueueKey(q[k].seqno)}) && Ascending(Without(q, k))
  {
    hide EntryBytes, StartsWith, QueueKey, Storable;
    var r, t := Without(q, k), store - {QueueKey(q[k].seqno)};
    assert forall i :: 0 <= i < |r| ==> r[i] == q[if i < k then i else i + 1];
    forall i | 0 <= i < |r| ensures RecordedAt(r[i], t) {
      if QueueKey(r[i].seqno) == QueueKey(q[k].seqno) { QueueKeysApart(r[i].seqno, q[k].seqno); }
    }
    forall key | key in t && StartsWith(key, QUEUE) ensures exists i :: 0 <= i < |r| && key == QueueKey(r[i].seqno) {
      var i :| 0 <= i < |q| && key == QueueKey(q[i].seqno);
      assert r[if i < k then i else i - 1] == q[i];
    }
  }

  lemma RecordedCut(q: seq<Queued>, store: Store)
    requires Recorded(q, store)
    ensures Recorded(CutAll(q), store)
  {
    hide StartsWith, QueueKey;
    forall i | 0 <= i < |q| ensures RecordedAt(CutAll(q)[i], store) { CutIsStable(q[i].entry); }
    forall key | key in store && StartsWith(key, QUEUE)
      ensures exists i :: 0 <= i < |CutAll(q)| && key == QueueKey(CutAll(q)[i].seqno)
    {
      var i :| 0 <= i < |q| && key == QueueKey(q[i].seqno);
      assert key == QueueKey(CutAll(q)[i].seqno);
    }
  }

  // Numbered in ascending order, and recorded
  ghost predicate Sound(q: seq<Queued>, seqno: nat, store: Store) {
    Ascending(q) && Recorded(q, store) && forall i :: 0 <= i < |q| ==> 1 <= q[i].seqno <= seqno
  }

  lemma SoundMore(q: seq<Queued>, seqno: nat, store: Store, e: Entry)
    requires Sound(q, seqno, store) && Storable(e)
    ensures Sound(q + [Queued(e, seqno + 1)], seqno + 1, store[QueueKey(seqno + 1) := EntryBytes(e)])
  {
    RecordedMore(q, store, Queued(e, seqno + 1));
    hide QueueKey, EntryBytes, Storable, Recorded;
  }

  lemma NotYet(q: seq<Queued>, seqno: nat, store: Store)
    requires Sound(q, seqno, store)
    ensures QueueKey(seqno + 1) !in store
  {
    IsQueueKey(seqno + 1);
    hide QueueKey, StartsWith, Ascending;
    if QueueKey(seqno + 1) in store {
      var i :| 0 <= i < |q| && QueueKey(seqno + 1) == QueueKey(q[i].seqno);
      QueueKeysApart(seqno + 1, q[i].seqno);
    }
  }

  // The record of an entry that is gone is left when another one is removed
  lemma RecordStays(q: seq<Queued>, seqno: nat, store: Store, k: nat, n: nat)
    requires Sound(q, seqno, store) && k < |q| && n != q[k].seqno
    ensures !Sound(Without(q, k), seqno, store - {QueueKey(n)})
  {
    var key, r, t := QueueKey(q[k].seqno), Without(q, k), store - {QueueKey(n)};
    IsQueueKey(q[k].seqno);
    if key == QueueKey(n) { QueueKeysApart(q[k].seqno, n); }
    WithoutAt(q, k);
    assert RecordedAt(q[k], store);
    assert key in t;
    hide QueueKey, StartsWith, Without, Storable, EntryBytes;
    if Sound(r, seqno, t) {
      var i :| 0 <= i < |r| && key == QueueKey(r[i].seqno);
      assert r[i] == q[if i < k then i else i + 1];
      QueueKeysApart(r[i].seqno, q[k].seqno);
      assert false;
    }
  }

  lemma SoundLess(q: seq<Queued>, seqno: nat, store: Store, k: nat)
    requires Sound(q, seqno, store) && k < |q|
    ensures Sound(Without(q, k), seqno, store - {QueueKey(q[k].seqno)})
  {
    RecordedLess(q, store, k);
    WithoutAt(q, k);
    hide Recorded, Ascending, Without, QueueKey;
    var r := Without(q, k);
    forall i | 0 <= i < |r| ensures 1 <= r[i].seqno <= seqno {
      assert r[i] == q[if i < k then i else i + 1];
    }
  }

  // ---------------- the restoring loop ----------------

  // The queue is what the keys met so far stand for
  ghost predicate Collected(keys: seq<string>, all: seq<Queued>, q: seq<Queued>) {
    Ascending(q) && forall x :: x in q <==> x in CutAll(all) && QueueKey(x.seqno) in keys
  }

  lemma Found(all: seq<Queued>, store: Store, key: string) returns (j: nat)
    requires Recorded(all, store) && key in store && StartsWith(key, QUEUE)
    ensures j < |all| && RecordedAt(all[j], store) && key == QueueKey(all[j].seqno) && Atoi(0, key[2..]) == all[j].seqno
  {
    j :| 0 <= j < |all| && key == QueueKey(all[j].seqno);
    IsQueueKey(all[j].seqno);
  }

  lemma NotTaken(keys: seq<string>, all: seq<Queued>, q: seq<Queued>, key: string, n: nat)
    requires Collected(keys, all, q) && key !in keys && key == QueueKey(n)
    ensures forall i :: 0 <= i < |q| ==> q[i].seqno != n
  {
    forall i | 0 <= i < |q| ensures q[i].seqno != n { assert q[i] in q; }
  }

  lemma CollectedMore(keys: seq<string>, all: seq<Queued>, q: seq<Queued>, r: seq<Queued>, key: string, j: nat)
    requires Collected(keys, all, q) && Ascending(all) && j < |all| && key == QueueKey(all[j].seqno)
    requires Ascending(r) && forall y :: y in r <==> y in q || y == CutAll(all)[j]
    ensures Collected(keys + [key], all, r)
  {
    hide QueueKey, Cut;
    forall x: Queued ensures x in r <==> x in CutAll(all) && QueueKey(x.seqno) in keys + [key] {
      if x in CutAll(all) && QueueKey(x.seqno) == key {
        var m :| 0 <= m < |all| && CutAll(all)[m] == x;
        QueueKeysApart(x.seqno, all[j].seqno);
        assert m == j;
      }
    }
  }

  lemma CollectedSkips(keys: seq<string>, all: seq<Queued>, q: seq<Queued>, key: string)
    requires Collected(keys, all, q) && !StartsWith(key, QUEUE)
    ensures Collected(keys + [key], all, q)
  {
    hide Ascending, CutAll, StartsWith;
    forall x: Queued ensures QueueKey(x.seqno) != key { IsQueueKey(x.seqno); }
  }

  lemma AllCollected(keys: seq<string>, all: seq<Queued>, q: seq<Queued>, store: Store)
    requires Collected(keys, all, q) && Ascending(all) && Recorded(all, store) && forall key :: key in store ==>
      key in keys
    ensures q == CutAll(all)
  {
    hide QueueKey, StartsWith, Cut;
    forall x | x in CutAll(all) ensures QueueKey(x.seqno) in keys {
      var m :| 0 <= m < |all| && CutAll(all)[m] == x;
      assert RecordedAt(all[m], store);
    }
    SameAscending(q, CutAll(all));
  }

  lemma NumbersCut(all: seq<Queued>, seqno: nat)
    requires Ascending(all) && forall i :: 0 <= i < |all| ==> 1 <= all[i].seqno <= seqno
    ensures var c := CutAll(all); Ascending(c) && Last(c) <= seqno && forall i :: 0 <= i < |c| ==>
      1 <= c[i].seqno <= Last(c)
  {
    hide Cut;
    var c := CutAll(all);
    assert |c| == |all| && forall i :: 0 <= i < |c| ==> c[i].seqno == all[i].seqno;
    hide CutAll;
    forall i | 0 <= i < |c| ensures 1 <= c[i].seqno <= Last(c) {
      if i < |c| - 1 { assert all[i].seqno < all[|all| - 1].seqno; }
    }
  }

  lemma SoundCut(all: seq<Queued>, seqno: nat, store: Store)
    requires Sound(all, seqno, store)
    ensures Sound(CutAll(all), Last(CutAll(all)), store) && Last(CutAll(all)) <= seqno
  {
    RecordedCut(all, store);
    NumbersCut(all, seqno);
    hide Recorded, CutAll, Ascending, Last;
  }

  // ---------------- the queue of a client ----------------

  function Entries(q: seq<Queued>): (es: seq<Entry>)
    ensures |es| == |q|
  {
    seq(|q|, i requires 0 <= i < |q| => q[i].entry)
  }

  function Cuts(es: seq<Entry>): (r: seq<Entry>)
    ensures |r| == |es|
  {
    seq(|es|, i requires 0 <= i < |es| => Cut(es[i]))
  }

  lemma CutsConcat(a: seq<Entry>, b: seq<Entry>)
    ensures Cuts(a + b) == Cuts(a) + Cuts(b)
  { }

  lemma EntriesConcat(a: seq<Queued>, b: seq<Queued>)
    ensures Entries(a + b) == Entries(a) + Entries(b)
  { }

  lemma CutAllEntries(q: seq<Queued>)
    ensures Cuts(Entries(CutAll(q))) == Cuts(Entries(q))
  {
    forall i | 0 <= i < |q| ensures Cut(Cut(q[i].entry)) == Cut(q[i].entry) {
      UpToNulExactly(UpToNul(q[i].entry.topic));
    }
  }

  // What has arrived has been delivered, or waits behind that, all in the order of arrival
  ghost predicate FirstInFirstOut(arrived: seq<Entry>, delivered: seq<Entry>, queue: seq<Queued>) {
    Cuts(arrived) == Cuts(delivered) + Cuts(Entries(queue))
  }

  lemma ArrivedLast(arrived: seq<Entry>, delivered: seq<Entry>, queue: seq<Queued>, x: Queued)
    requires FirstInFirstOut(arrived, delivered, queue)
    ensures FirstInFirstOut(arrived + [x.entry], delivered, queue + [x])
    ensures queue == [] ==> FirstInFirstOut(arrived + [x.entry], delivered + [x.entry], queue)
  {
    CutsConcat(arrived, [x.entry]);
    CutsConcat(delivered, [x.entry]);
    EntriesConcat(queue, [x]);
    CutsConcat(Entries(queue), [x.entry]);
    assert Entries([x]) == [x.entry];
    assert queue == [] ==> Cuts(Entries(queue)) == [];
  }

  lemma DeliveredFirst(arrived: seq<Entry>, delivered: seq<Entry>, queue: seq<Queued>)
    requires FirstInFirstOut(arrived, delivered, queue) && queue != []
    ensures FirstInFirstOut(arrived, delivered + [queue[0].entry], queue[1..])
  {
    var x := queue[0];
    assert queue == [x] + queue[1..] && Entries([x]) == [x.entry];
    EntriesConcat([x], queue[1..]);
    CutsConcat(delivered, [x.entry]);
    CutsConcat([x.entry], Entries(queue[1..]));
  }

  lemma Enqueued(stale: seq<Queued>, queue: seq<Queued>, seqno: nat, store: Store, e: Entry)
    requires Sound(stale + queue, seqno, store) && Storable(e)
    ensures Sound(stale + (queue + [Queued(e, seqno + 1)]), seqno + 1, store[QueueKey(seqno + 1) := EntryBytes(e)])
    ensures Entries(queue + [Queued(e, seqno + 1)]) == Entries(queue) + [e] && QueueKey(seqno + 1) !in store
  {
    var x := Queued(e, seqno + 1);
    EntriesConcat(queue, [x]);
    assert Entries([x]) == [e];
    hide EntryBytes, QueueKey, Storable, Sound, Entries;
    SoundMore(stale + queue, seqno, store, e);
    NotYet(stale + queue, seqno, store);
    assert stale + (queue + [x]) == (stale + queue) + [x];
  }

  class Mailbox {
    var queue: seq<Queued>
    var seqno: nat                 // qentry_seqno
    var store: Store
    var delivered: seq<Entry>      // given to the application
    ghost var arrived: seq<Entry>
    ghost var stale: seq<Queued>   // delivered, with the record still in the store

    ghost predicate Valid()
      reads this
    {
      Sound(stale + queue, seqno, store)
    }

    ghost predicate InOrder()
      reads this
    {
      FirstInFirstOut(arrived, delivered, queue)
    }

    constructor ()
      ensures Valid() && InOrder() && queue == [] && delivered == [] && arrived == [] && stale == [] && seqno == 0 &&
        store == map[]
    {
      queue, seqno, store, delivered, arrived, stale := [], 0, map[], [], [], [];
    }

    // Protocol_processPublication: the application gets the message at once if nothing waits and it takes it;
    // otherwise the message joins the queue and the store
    method Arrive(e: Entry, connected: bool, taken: bool)
      requires Valid() && Storable(e) && |QueueKey(seqno + 1)| <= PERSISTENCE_MAX_KEY_LENGTH
      modifies this
      ensures Valid() && (old(InOrder()) ==> InOrder()) && arrived == old(arrived) + [e] && stale == old(stale)
      ensures seqno <= old(seqno) + 1
      ensures if old(queue) == [] && connected && taken
              then delivered == old(delivered) + [e] && queue == old(queue) && store == old(store)
              else delivered == old(delivered) && Entries(queue) == old(Entries(queue)) + [e]
                   && store == old(store)[QueueKey(seqno) := EntryBytes(e)] && QueueKey(seqno) !in old(store)
    {
      if |queue| == 0 && connected && taken {
        if InOrder() { ArrivedLast(arrived, delivered, queue, Queued(e, 0)); }
        hide FirstInFirstOut, Sound;
        arrived := arrived + [e];
        delivered := delivered + [e];
      } else {
        Enqueue(e);
      }
    }

    // ListAppend to the queue, and MQTTPersistence_persistQueueEntry
    method Enqueue(e: Entry)
      requires Valid() && Storable(e) && |QueueKey(seqno + 1)| <= PERSISTENCE_MAX_KEY_LENGTH
      modifies `queue, `seqno, `store, `arrived
      ensures Valid() && (old(InOrder()) ==> InOrder()) && arrived == old(arrived) + [e]
      ensures seqno == old(seqno) + 1 && Entries(queue) == old(Entries(queue)) + [e]
      ensures store == old(store)[QueueKey(seqno) := EntryBytes(e)] && QueueKey(seqno) !in old(store)
    {
      hide EntryBytes, QueueKey, Storable, FirstInFirstOut, Sound, Entries;
      Enqueued(stale, queue, seqno, store, e);
      if InOrder() { ArrivedLast(arrived, delivered, queue, Queued(e, seqno + 1)); }
      arrived := arrived + [e];
      queue := queue + [Queued(e, seqno + 1)];
      seqno := seqno + 1;
      store := store[QueueKey(seqno) := EntryBytes(e)];
    }

    // The head of the queue goes to the application, and when it has been taken its record goes too. The entry is freed
    // before its number is read for the key: `freed` is what is read then. Queue and store stay in step exactly if it
    // is still the number.
    method Deliver(taken: bool, freed: nat)
      requires Valid()
      modifies this
      ensures Valid() <==> !taken || old(queue) == [] || freed == old(queue)[0].seqno
      ensures (old(InOrder()) ==> InOrder()) && arrived == old(arrived) && stale == old(stale) && seqno == old(seqno)
      ensures if taken && old(queue) != []
              then queue == old(queue)[1..] && delivered == old(delivered) + [old(queue)[0].entry]
                   && store == old(store) - {QueueKey(freed)}
              else queue == old(queue) && delivered == old(delivered) && store == old(store)
    {
      if |queue| > 0 && taken {
        if InOrder() { DeliveredFirst(arrived, delivered, queue); }
        ghost var q := stale + queue;
        assert q[|stale|] == queue[0];
        assert Without(q, |stale|) == stale + queue[1..];
        if freed == queue[0].seqno {
          SoundLess(q, seqno, store, |stale|);
        } else {
          RecordStays(q, seqno, store, |stale|, freed);
        }
        hide Sound, QueueKey, FirstInFirstOut, Without;
        delivered := delivered + [queue[0].entry];
        store := store - {QueueKey(freed)};
        queue := queue[1..];
      }
    }

    // MQTTPersistence_restoreMessageQueue, at the start of a new process. `keys` are the keys of the store, in any
    // order. What has been delivered comes back exactly if its record was left in the store.
    method Restart(keys: seq<string>)
      requires Valid() && (forall key :: key in store ==> key in keys) &&
        (forall i :: 0 <= i < |keys| ==> keys[i] in store)
      requires forall i, j :: 0 <= i < j < |keys| ==> keys[i] != keys[j]
      modifies `queue, `seqno, `stale
      ensures Valid() && stale == [] && queue == CutAll(old(stale + queue)) && seqno == Last(queue) <= old(seqno)
      ensures Cuts(Entries(queue)) == Cuts(Entries(old(queue))) <==> old(stale) == []
      ensures |queue| == |old(stale)| + |old(queue)|
      ensures old(InOrder()) ==> (InOrder() <==> old(stale) == [])
    {
      ghost var all := stale + queue;
      hide Sound, FirstInFirstOut, CutAll, Cuts, Entries;
      SoundCut(all, seqno, store);
      ComesBack(stale, queue);
      if InOrder() { CutKeepsOrder(arrived, delivered, stale, queue); }
      queue, seqno := RestoreAll(keys, store, all, seqno);
      stale := [];
      assert stale + queue == queue;
    }

    // The same by the callback of the synchronous client, which leaves the record in the store
    method CallBack(taken: bool)
      requires Valid()
      modifies this
      ensures Valid() && (old(InOrder()) ==> InOrder()) && arrived == old(arrived) && store == old(store) &&
        seqno == old(seqno)
      ensures if taken && old(queue) != []
              then queue == old(queue)[1..] && delivered == old(delivered) + [old(queue)[0].entry] &&
                  stale == old(stale) + [old(queue)[0]]
              else queue == old(queue) && delivered == old(delivered) && stale == old(stale)
    {
      if |queue| > 0 && taken {
        if InOrder() { DeliveredFirst(arrived, delivered, queue); }
        hide Sound, FirstInFirstOut;
        assert (stale + [queue[0]]) + queue[1..] == stale + queue;
        stale := stale + [queue[0]];
        delivered := delivered + [queue[0].entry];
        queue := queue[1..];
      }
    }
  }

  lemma StartsCollected(all: seq<Queued>)
    ensures Collected([], all, [])
  { }

  // The body of the restoring loop, for one key
  method RestoreKey(ghost keys: seq<string>, key: string, store: Store, q: seq<Queued>, seqno: nat,
      ghost all: seq<Queued>)
    returns (r: seq<Queued>, max: nat)
    requires Collected(keys, all, q) && Ascending(all) && Recorded(all, store) && key in store && key !in keys &&
      seqno == Last(q)
    ensures Collected(keys + [key], all, r) && max == Last(r)
  {
    hide EntryBytes, QueueKey, Storable, Recorded, CutAll, Atoi;
    r, max := q, seqno;
    if !StartsWith(key, QUEUE) {
      CollectedSkips(keys, all, q, key);
    } else {
      ghost var j := Found(all, store, key);
      var restored := RestoreQueueEntry(store[key]);
      RecordIsRestored(all[j].entry, restored);
      var n := Atoi(0, key[2..]);
      NotTaken(keys, all, q, key, n);
      r := InsertInSeqOrder(q, Queued(restored.e, n));
      max := if seqno > n then seqno else n;
      CollectedMore(keys, all, q, r, key, j);
    }
  }

  // The restoring loop
  method RestoreAll(keys: seq<string>, store: Store, ghost all: seq<Queued>, ghost limit: nat) returns (q: seq<Queued>,
      seqno: nat)
    requires Sound(all, limit, store)
    requires (forall key :: key in store ==> key in keys) && (forall i :: 0 <= i < |keys| ==> keys[i] in store)
    requires forall i, j :: 0 <= i < j < |keys| ==> keys[i] != keys[j]
    ensures q == CutAll(all) && seqno == Last(q)
  {
    hide EntryBytes, StartsWith, QueueKey, Recorded, Collected, CutAll, Atoi, Ascending;
    q, seqno := [], 0;
    StartsCollected(all);
    for i := 0 to |keys|
      invariant Collected(keys[..i], all, q) && seqno == Last(q)
    {
      assert keys[..i + 1] == keys[..i] + [keys[i]];
      q, seqno := RestoreKey(keys[..i], keys[i], store, q, seqno, all);
    }
    assert keys[..|keys|] == keys;
    AllCollected(keys, all, q, store);
  }

  lemma ComesBack(stale: seq<Queued>, queue: seq<Queued>)
    ensures Cuts(Entries(CutAll(stale + queue))) == Cuts(Entries(queue)) <==> stale == []
  {
    CutAllEntries(stale + queue);
    EntriesConcat(stale, queue);
    CutsConcat(Entries(stale), Entries(queue));
    assert |Cuts(Entries(stale + queue))| == |stale| + |queue|;
    assert stale == [] ==> stale + queue == queue;
  }

  // A message that comes back although it has been delivered breaks the order
  lemma CutKeepsOrder(arrived: seq<Entry>, delivered: seq<Entry>, stale: seq<Queued>, queue: seq<Queued>)
    requires FirstInFirstOut(arrived, delivered, queue)
    ensures FirstInFirstOut(arrived, delivered, CutAll(stale + queue)) <==> stale == []
  {
    CutAllEntries(stale + queue);
    assert |Cuts(arrived)| == |delivered| + |queue|;
    assert |CutAll(stale + queue)| == |stale| + |queue|;
    if stale == [] { assert stale + queue == queue; }
  }

  lemma OrderCounts(arrived: seq<Entry>, delivered: seq<Entry>, queue: seq<Queued>)
    requires FirstInFirstOut(arrived, delivered, queue)
    ensures |arrived| == |delivered| + |queue|
  {
    assert |Cuts(arrived)| == |Cuts(delivered)| + |Cuts(Entries(queue))|;
  }

  // ---------------- whole runs ----------------

  datatype Event =
    | Arrives(e: Entry, connected: bool, taken: bool)
    | Delivers(taken: bool)
    | CallsBack(taken: bool)
    | Restarts

  function ArrivalsOf(script: seq<Event>): seq<Entry> {
    if script == [] then []
    else
      var last := script[|script| - 1];
      ArrivalsOf(script[..|script| - 1]) + if last.Arrives? then [last.e] else []
  }

  // How many messages wait, how many delivered ones have left their record, and whether a restart has met one of these
  datatype Tally = Tally(waiting: nat, stale: nat, met: bool)

  function Counted(t: Tally, event: Event): Tally {
    match event
    case Arrives(_, connected, taken) =>
      if t.waiting == 0 && connected && taken then t else t.(waiting := t.waiting + 1)
    case Delivers(taken) => if taken && t.waiting > 0 then t.(waiting := t.waiting - 1) else t
    case CallsBack(taken) => if taken && t.waiting > 0 then t.(waiting := t.waiting - 1, stale := t.stale + 1) else t
    case Restarts => Tally(t.waiting + t.stale, 0, t.met || t.stale > 0)
  }

  function CountedAll(t: Tally, script: seq<Event>): Tally {
    if script == [] then t else Counted(CountedAll(t, script[..|script| - 1]), script[|script| - 1])
  }

  // The order holds as long as no restart has met a left-over record, and never again after that: there is a message
  // too many
  ghost predicate Agrees(m: Mailbox, t: Tally)
    reads m
  {
    && |m.queue| == t.waiting && |m.stale| == t.stale && (m.InOrder() <==> !t.met)
    && (t.met ==> |m.delivered| + |m.queue| > |m.arrived|)
  }

  // Over any run with any number of restarts, each message that has arrived is delivered once, in the order of
  // arrival, or still waits, exactly if no restart of the script meets a record that the synchronous callback has left
  method Run(m: Mailbox, script: seq<Event>)
    requires m.Valid() && m.InOrder() && m.stale == [] && m.seqno + |script| <= 999999
    requires forall i :: 0 <= i < |script| && script[i].Arrives? ==> Storable(script[i].e)
    modifies m
    ensures m.Valid() && m.arrived == old(m.arrived) + ArrivalsOf(script)
    ensures Agrees(m, CountedAll(Tally(old(|m.queue|), 0, false), script))
    ensures m.InOrder() <==> !CountedAll(Tally(old(|m.queue|), 0, false), script).met
  {
    ghost var start := Tally(|m.queue|, 0, false);
    hide Mailbox.Valid, Mailbox.InOrder, Storable, QueueKey, EntryBytes, Entries, Cuts, CutAll, Counted;
    for k := 0 to |script|
      invariant m.Valid() && m.arrived == old(m.arrived) + ArrivalsOf(script[..k]) && m.seqno <= old(m.seqno) + k
      invariant Agrees(m, CountedAll(start, script[..k]))
    {
      assert script[..k + 1][..k] == script[..k];
      Happen(m, script[k], CountedAll(start, script[..k]));
    }
    assert script[..|script|] == script;
  }

  // The freed entry still holds its number
  method DeliverHead(m: Mailbox, taken: bool)
    requires m.Valid()
    modifies m
    ensures m.Valid() && (old(m.InOrder()) ==> m.InOrder()) && m.arrived == old(m.arrived) && m.stale == old(m.stale)
    ensures m.seqno == old(m.seqno)
    ensures if taken && old(m.queue) != []
            then m.queue == old(m.queue)[1..] && m.delivered == old(m.delivered) + [old(m.queue)[0].entry]
            else m.queue == old(m.queue) && m.delivered == old(m.delivered)
  {
    hide FirstInFirstOut, QueueKey, Sound;
    m.Deliver(taken, if |m.queue| > 0 then m.queue[0].seqno else 0);
  }

  method Happen(m: Mailbox, event: Event, ghost t: Tally)
    requires m.Valid() && m.seqno < 999999 && (event.Arrives? ==> Storable(event.e)) && Agrees(m, t)
    modifies m
    ensures m.Valid() && m.arrived == old(m.arrived) + (if event.Arrives? then [event.e] else [])
    ensures m.seqno <= old(m.seqno) + 1 && Agrees(m, Counted(t, event))
  {
    QueueKeyFits(m.seqno + 1);
    hide Mailbox.Valid, Storable, QueueKey, EntryBytes, Entries, Cuts, CutAll, FirstInFirstOut;
    match event
    case Arrives(e, connected, taken) => m.Arrive(e, connected, taken);
    case Delivers(taken) => DeliverHead(m, taken);
    case CallsBack(taken) => m.CallBack(taken);
    case Restarts =>
      var keys := KeysOf(m.store);
      m.Restart(keys);
    if m.InOrder() { OrderCounts(m.arrived, m.delivered, m.queue); }
  }

  function Redelivery(e: Entry): seq<Event> { [Arrives(e, false, false), CallsBack(true), Restarts] }

  lemma RedeliveryCounted(e: Entry)
    ensures CountedAll(Tally(0, 0, false), Redelivery(e)) == Tally(1, 0, true) && ArrivalsOf(Redelivery(e)) == [e]
  {
    var t := Tally(0, 0, false);
    var one := [Arrives(e, false, false)];
    CountedMore(t, [], one[0]);
    CountedMore(t, one, CallsBack(true));
    CountedMore(t, one + [CallsBack(true)], Restarts);
    assert [] + one == one && one + [CallsBack(true)] + [Restarts] == Redelivery(e);
  }

  // A message arrives, the callback takes it, the process starts again: the message is delivered and waits
  method CallbackRedelivers(e: Entry) returns (m: Mailbox)
    requires Storable(e)
    ensures m.Valid() && !m.InOrder() && |m.queue| == 1 && m.arrived == [e]
  {
    RedeliveryCounted(e);
    var script := Redelivery(e);
    assert |script| == 3 && forall i :: 0 <= i < 3 && script[i].Arrives? ==> script[i].e == e;
    hide *;
    m := new Mailbox();
    Run(m, script);
    Broken(m, Tally(1, 0, true));
  }

  lemma CountedMore(t: Tally, script: seq<Event>, event: Event)
    ensures CountedAll(t, script + [event]) == Counted(CountedAll(t, script), event)
    ensures ArrivalsOf(script + [event]) == ArrivalsOf(script) + if event.Arrives? then [event.e] else []
  {
    assert (script + [event])[..|script|] == script;
  }

  lemma Broken(m: Mailbox, t: Tally)
    requires Agrees(m, t) && t.met
    ensures !m.InOrder() && |m.queue| == t.waiting
  { }
}
