/** The bytes of a packet: the remaining length, and PUBLISH and acknowledgement packets. */
module Wire {

  type Byte = b: int | 0 <= b < 256

  const MAX_NO_OF_REMAINING_LENGTH_BYTES := 4
  const MAX_REMAINING_LENGTH := 268435455

  // ---------------- the remaining length ----------------

  function Encode(n: nat): (s: seq<Byte>)
    ensures |s| >= 1
  {
    if n < 128 then [n] else [n % 128 + 128] + Encode(n / 128)
  }

  datatype Length = More | BadLength | Length(value: nat, used: nat)

  // What the first bytes of a stream say, when `left` length bytes are still allowed
  function DecodeUpTo(s: seq<Byte>, left: nat): (r: Length)
    ensures r.Length? ==> 1 <= r.used <= |s| && r.used <= left
    ensures r.More? ==> |s| < left
  {
    if left == 0 then BadLength
    else if s == [] then More
    else if s[0] < 128 then Length(s[0], 1)
    else
      match DecodeUpTo(s[1..], left - 1)
      case Length(v, u) => Length(s[0] - 128 + 128 * v, u + 1)
      case other => other
  }

  function Decode(s: seq<Byte>): Length { DecodeUpTo(s, MAX_NO_OF_REMAINING_LENGTH_BYTES) }

  lemma EncodeStep(n: nat, buf: seq<Byte>)
    ensures buf + Encode(n) == buf + [n % 128 + if n >= 128 then 128 else 0] + if n >= 128 then Encode(n / 128) else []
  {
    if n >= 128 {
      var d := [n % 128 + 128];
      assert Encode(n) == d + Encode(n / 128);
      hide Encode;
      assert buf + (d + Encode(n / 128)) == buf + d + Encode(n / 128);
    } else {
      assert Encode(n) == [n];
    }
  }

  // The do-while loop of MQTTPacket_encode
  method EncodeLength(length: nat) returns (buf: seq<Byte>)
    ensures buf == Encode(length)
  {
    buf := [];
    var n := length;
    hide Encode;
    while true
      invariant buf + Encode(n) == Encode(length)
      decreases n
    {
      var d := n % 128;
      EncodeStep(n, buf);
      n := n / 128;
      if n > 0 {
        d := d + 128;
      }
      buf := buf + [d];
      if n == 0 {
        break;
      }
    }
  }

  function Pow128(k: nat): nat { if k == 0 then 1 else 128 * Pow128(k - 1) }

  lemma {:induction false} EncodedSize(n: nat, k: nat)
    requires n < Pow128(k) && k >= 1
    ensures |Encode(n)| <= k
  {
    if n >= 128 {
      assert k >= 2 by { assert Pow128(1) == 128; }
      EncodedSize(n / 128, k - 1);
    }
  }

  lemma {:induction false} DecodeEncode(n: nat, rest: seq<Byte>, left: nat)
    requires |Encode(n)| <= left
    ensures DecodeUpTo(Encode(n) + rest, left) == Length(n, |Encode(n)|)
  {
    if n >= 128 {
      DecodeEncode(n / 128, rest, left - 1);
      assert (Encode(n) + rest)[1..] == Encode(n / 128) + rest;
    }
  }

  // Decoding gives back every length of 0..268435455, written in one to four bytes
  lemma LengthRoundTrip(n: nat, rest: seq<Byte>)
    requires n <= MAX_REMAINING_LENGTH
    ensures 1 <= |Encode(n)| <= MAX_NO_OF_REMAINING_LENGTH_BYTES
    ensures Decode(Encode(n) + rest) == Length(n, |Encode(n)|)
  {
    assert Pow128(4) == 268435456;
    EncodedSize(n, 4);
    DecodeEncode(n, rest, 4);
  }

  lemma {:induction false} EncodedLarge(n: nat, k: nat)
    requires n >= Pow128(k)
    ensures |Encode(n)| > k
  {
    if k >= 1 {
      assert n >= 128 by { PowAtLeast(k - 1); }
      EncodedLarge(n / 128, k - 1);
    }
  }

  lemma {:induction false} PowAtLeast(k: nat)
    ensures Pow128(k) >= 1
  {
    if k > 0 { PowAtLeast(k - 1); }
  }

  // A longer length is not read back
  lemma {:induction false} TooLong(n: nat, rest: seq<Byte>, left: nat)
    requires |Encode(n)| > left
    ensures DecodeUpTo(Encode(n) + rest, left) == BadLength
  {
    if left > 0 {
      TooLong(n / 128, rest, left - 1);
      assert (Encode(n) + rest)[1..] == Encode(n / 128) + rest;
    }
  }

  lemma LengthRoundTripExactly(n: nat, rest: seq<Byte>)
    ensures Decode(Encode(n) + rest) == Length(n, |Encode(n)|) <==> n <= MAX_REMAINING_LENGTH
  {
    if n <= MAX_REMAINING_LENGTH {
      LengthRoundTrip(n, rest);
    } else {
      assert Pow128(4) == 268435456;
      EncodedLarge(n, 4);
      TooLong(n, rest, 4);
    }
  }

  // No byte string for n is shorter than Encode(n), and none other is as short
  lemma {:induction false} EncodeIsMinimal(s: seq<Byte>, left: nat)
    requires DecodeUpTo(s, left).Length?
    ensures var r := DecodeUpTo(s, left);
      r.used >= |Encode(r.value)| && (r.used == |Encode(r.value)| ==> s[..r.used] == Encode(r.value))
  {
    if s[0] >= 128 {
      EncodeIsMinimal(s[1..], left - 1);
      var r := DecodeUpTo(s[1..], left - 1);
      var v := s[0] - 128 + 128 * r.value;
      assert v / 128 == r.value && v % 128 == s[0] - 128;
      assert s[..r.used + 1] == [s[0]] + s[1..][..r.used];
    }
  }

  // No length is a proper beginning of another
  lemma PrefixFree(m: nat, n: nat)
    requires Encode(m) <= Encode(n)
    ensures m == n
  {
    var left := |Encode(m)| + |Encode(n)|;
    DecodeEncode(m, Encode(n)[|Encode(m)|..], left);
    DecodeEncode(n, [], left);
    assert Encode(n) + [] == Encode(n) == Encode(m) + Encode(n)[|Encode(m)|..];
  }

  // More bytes behind do not change what has been read
  lemma {:induction false} DecodeStable(s: seq<Byte>, rest: seq<Byte>, left: nat)
    requires !DecodeUpTo(s, left).More?
    ensures DecodeUpTo(s + rest, left) == DecodeUpTo(s, left)
  {
    if left > 0 && s[0] >= 128 {
      DecodeStable(s[1..], rest, left - 1);
      assert (s + rest)[1..] == s[1..] + rest;
    }
  }

  // ---------------- integers and strings ----------------

  // Both bytes are cut to eight bits, as the casts to char do
  function WriteInt(n: nat): seq<Byte> { [n / 256 % 256, n % 256] }

  function ReadInt(s: seq<Byte>): nat
    requires |s| >= 2
  {
    256 * (s[0] as int) + s[1] as int
  }

  datatype ReadString = NoString | ReadString(text: seq<Byte>, rest: seq<Byte>)

  // readUTFlen; what is left of the buffer begins at the current position
  function ReadUTF(s: seq<Byte>): ReadString {
    if |s| <= 1 then NoString
    else
      var len := ReadInt(s);
      if 2 + len <= |s| then ReadString(s[2..2 + len], s[2 + len..]) else NoString
  }

  lemma IntRoundTrip(n: nat, rest: seq<Byte>)
    ensures ReadInt(WriteInt(n) + rest) == n % 65536
  {
    assert 256 * (n / 256 % 256) + n % 256 == n % 65536;
  }

  // ---------------- PUBLISH ----------------

  datatype PublishPacket = PublishPacket(dup: bool, qos: nat, retain: bool, topic: seq<Byte>, msgId: nat,
      payload: seq<Byte>)

  const PUBLISH := 3
  const PUBACK := 4
  const PUBREC := 5
  const PUBREL := 6
  const PUBCOMP := 7

  function Bit(b: bool): (r: nat)
    ensures r <= 1
  {
    if b then 1 else 0
  }

  function HeaderByte(kind: nat, dup: bool, qos: nat, retain: bool): Byte
    requires kind < 16 && qos < 4
  {
    16 * kind + 8 * Bit(dup) + 2 * qos + Bit(retain)
  }

  function KindOfHeader(h: Byte): nat { h / 16 }
  function DupOf(h: Byte): bool { h / 8 % 2 == 1 }
  function QosOf(h: Byte): nat { h / 2 % 4 }
  function RetainOf(h: Byte): bool { h % 2 == 1 }

  lemma HeaderRoundTrip(kind: nat, dup: bool, qos: nat, retain: bool)
    requires kind < 16 && qos < 4
    ensures var h := HeaderByte(kind, dup, qos, retain);
      KindOfHeader(h) == kind && DupOf(h) == dup && QosOf(h) == qos && RetainOf(h) == retain
  {
  }

  // What a topic and a message id can be: the topic is a C string; QoS 0 has no id
  ghost predicate Sendable(p: PublishPacket) {
    p.qos <= 2 && (p.qos == 0 ==> p.msgId == 0) && p.msgId < 65536 && forall i :: 0 <= i < |p.topic| ==> p.topic[i] != 0
  }

  function PublishHeader(p: PublishPacket): Byte
    requires p.qos < 4
  {
    HeaderByte(PUBLISH, p.dup, p.qos, p.retain)
  }

  function PublishBody(p: PublishPacket): seq<Byte> {
    WriteInt(|p.topic|) + p.topic + (if p.qos > 0 then WriteInt(p.msgId) else []) + p.payload
  }

  function PublishBytes(p: PublishPacket): seq<Byte>
    requires p.qos < 4
  {
    [PublishHeader(p)] + Encode(|PublishBody(p)|) + PublishBody(p)
  }

  function Flat(bufs: seq<seq<Byte>>): seq<Byte> {
    if bufs == [] then [] else bufs[0] + Flat(bufs[1..])
  }

  // MQTTPacket_send_publish and MQTTPacket_sends: the first buffer holds the header and the length
  method BuffersOfPublish(p: PublishPacket) returns (bufs: seq<seq<Byte>>)
    requires p.qos < 4
    ensures |bufs| <= 5 && Flat(bufs) == PublishBytes(p)
    ensures bufs != [] && |bufs[0]| >= 2
    ensures bufs[0][0] == 0x30 + (if p.dup then 8 else 0) + 2 * p.qos + (if p.retain then 1 else 0)
    ensures bufs[0][1..] == Encode(2 + |p.topic| + (if p.qos > 0 then 2 else 0) + |p.payload|)
    ensures bufs[1..] == [[|p.topic| / 256 % 256, |p.topic| % 256], p.topic] +
      (if p.qos > 0 then [[p.msgId / 256 % 256, p.msgId % 256], p.payload] else [p.payload])
  {
    var topiclen := WriteInt(|p.topic|);
    var rest: seq<seq<Byte>>;
    if p.qos > 0 {
      rest := [topiclen, p.topic, WriteInt(p.msgId), p.payload];
    } else {
      rest := [topiclen, p.topic, p.payload];
    }
    var total := 0;
    for i := 0 to |rest|
      invariant total == |Flat(rest[..i])|
    {
      total := total + |rest[i]|;
      FlatAppend(rest[..i], rest[i]);
      assert rest[..i + 1] == rest[..i] + [rest[i]];
    }
    assert rest[..|rest|] == rest;
    var length := EncodeLength(total);
    bufs := [[PublishHeader(p)] + length] + rest;
    assert bufs[1..] == rest;
    FlatBody(p, rest);
  }

  lemma {:induction false} FlatAppend(bufs: seq<seq<Byte>>, b: seq<Byte>)
    ensures Flat(bufs + [b]) == Flat(bufs) + b
  {
    if bufs == [] {
      assert Flat([b]) == b + Flat([]);
    } else {
      FlatAppend(bufs[1..], b);
      assert (bufs + [b])[1..] == bufs[1..] + [b];
    }
  }

  lemma Associates(a: seq<Byte>, b: seq<Byte>, c: seq<Byte>)
    ensures a + (b + c) == a + b + c
  { }

  lemma {:induction false} FlatConcat(a: seq<seq<Byte>>, b: seq<seq<Byte>>)
    ensures Flat(a + b) == Flat(a) + Flat(b)
  {
    if a == [] {
      assert a + b == b;
    } else {
      FlatConcat(a[1..], b);
      assert (a + b)[1..] == a[1..] + b && (a + b)[0] == a[0];
      Associates(a[0], Flat(a[1..]), Flat(b));
    }
  }

  lemma FlatBody(p: PublishPacket, rest: seq<seq<Byte>>)
    requires rest ==
      if p.qos > 0 then [WriteInt(|p.topic|), p.topic, WriteInt(p.msgId), p.payload]
      else [WriteInt(|p.topic|), p.topic, p.payload]
    ensures Flat(rest) == PublishBody(p)
  {
    if p.qos > 0 {
      calc {
        Flat(rest);
        rest[0] + Flat(rest[1..]);
        { assert rest[1..] == [p.topic, WriteInt(p.msgId), p.payload]; }
        rest[0] + (p.topic + Flat([WriteInt(p.msgId), p.payload]));
        {
          assert [WriteInt(p.msgId), p.payload][1..] == [p.payload] && [p.payload][1..] == [];
          assert Flat([p.payload]) == p.payload;
        }
        PublishBody(p);
      }
    } else {
      assert rest[1..] == [p.topic, p.payload] && rest[1..][1..] == [p.payload] && [p.payload][1..] == [];
      assert Flat([p.payload]) == p.payload;
    }
  }

  // Reading stops at a missing topic. The two bytes of the id are read without a look at the end of the data.
  datatype ReadPublish = NoPublish | PastTheEnd | GotPublish(p: PublishPacket)

  // MQTTPacket_publish
  function PublishOf(header: Byte, data: seq<Byte>): ReadPublish {
    match ReadUTF(data)
    case NoString => NoPublish
    case ReadString(topic, rest) =>
      if QosOf(header) > 0 then
        if |rest| < 2 then PastTheEnd
        else GotPublish(PublishPacket(DupOf(header), QosOf(header), RetainOf(header), topic, ReadInt(rest), rest[2..]))
      else GotPublish(PublishPacket(DupOf(header), 0, RetainOf(header), topic, 0, rest))
  }

  lemma StringRoundTrip(text: seq<Byte>, rest: seq<Byte>)
    requires |text| < 65536
    ensures ReadUTF(WriteInt(|text|) + text + rest) == ReadString(text, rest)
  {
    var s := WriteInt(|text|) + text + rest;
    assert s == WriteInt(|text|) + (text + rest);
    IntRoundTrip(|text|, text + rest);
    hide WriteInt, ReadInt;
    assert s[2..2 + |text|] == text;
    assert s[2 + |text|..] == rest;
  }

  lemma ReadBack(p: PublishPacket)
    requires Sendable(p) && |p.topic| < 65536
    ensures PublishOf(PublishHeader(p), PublishBody(p)) == GotPublish(p)
  {
    HeaderRoundTrip(PUBLISH, p.dup, p.qos, p.retain);
    hide HeaderByte, QosOf, DupOf, RetainOf, ReadUTF, ReadInt;
    var id := if p.qos > 0 then WriteInt(p.msgId) else [];
    assert PublishBody(p) == WriteInt(|p.topic|) + p.topic + (id + p.payload);
    StringRoundTrip(p.topic, id + p.payload);
    if p.qos > 0 {
      IntRoundTrip(p.msgId, p.payload);
      assert (id + p.payload)[2..] == p.payload;
    }
  }

  // A packet survives exactly when its topic is within the length that two bytes can say
  lemma ReadBackExactly(p: PublishPacket)
    requires Sendable(p)
    ensures PublishOf(PublishHeader(p), PublishBody(p)) == GotPublish(p) <==> |p.topic| < 65536
  {
    if |p.topic| < 65536 {
      ReadBack(p);
    }
  }

  // ---------------- acknowledgements ----------------

  function AckHeader(kind: nat, dup: bool): Byte
    requires kind < 16
  {
    HeaderByte(kind, dup, if kind == PUBREL then 1 else 0, false)
  }

  function AckBytes(kind: nat, dup: bool, msgId: nat): seq<Byte>
    requires kind < 16
  {
    [AckHeader(kind, dup)] + Encode(2) + WriteInt(msgId)
  }

  // Sections 2.2 and 3.4 to 3.7 of MQTT 3.1.1: the type in the upper half of the first byte, and of the flags below it
  // only the 2 of a PUBREL and the 8 of a repeated packet; then the length, and the id with its high byte first
  lemma AckByNumber(dup: bool, id: nat)
    ensures var d, hi, lo := if dup then 8 else 0, id / 256 % 256, id % 256;
      && AckBytes(PUBACK, dup, id) == [0x40 + d, 2, hi, lo] && AckBytes(PUBREC, dup, id) == [0x50 + d, 2, hi, lo]
      && AckBytes(PUBREL, dup, id) == [0x62 + d, 2, hi, lo] && AckBytes(PUBCOMP, dup, id) == [0x70 + d, 2, hi, lo]
  {
  }

  // The bytes of section 2.2.3 of MQTT 3.1.1: seven bits each, the lowest first, and the eighth in all but the last
  lemma {:induction false} LengthByNumber(n: nat)
    ensures var s := Encode(n);
      && (forall i :: 0 <= i < |s| ==> (s[i] >= 128 <==> i < |s| - 1))
      && n == SevenBits(s)
  {
    if n >= 128 {
      LengthByNumber(n / 128);
      var s, t := Encode(n), Encode(n / 128);
      assert s[1..] == t;
      forall i | 1 <= i < |s| ensures s[i] >= 128 <==> i < |s| - 1 { assert s[i] == t[i - 1]; }
    }
  }

  function SevenBits(s: seq<Byte>): nat {
    if s == [] then 0 else s[0] % 128 + 128 * SevenBits(s[1..])
  }

  // The limits of that section
  lemma LengthLimits()
    ensures Encode(0) == [0x00] && Encode(127) == [0x7F]
    ensures Encode(128) == [0x80, 0x01] && Encode(16383) == [0xFF, 0x7F]
    ensures Encode(16384) == [0x80, 0x80, 0x01] && Encode(2097151) == [0xFF, 0xFF, 0x7F]
    ensures Encode(2097152) == [0x80, 0x80, 0x80, 0x01] && Encode(268435455) == [0xFF, 0xFF, 0xFF, 0x7F]
  {
    assert Encode(1) == [1] && Encode(127) == [127];
    assert Encode(16383) == [0xFF] + Encode(127) && Encode(2097151) == [0xFF] + Encode(16383);
    assert Encode(128) == [0x80] + Encode(1) && Encode(16384) == [0x80] + Encode(128);
  }

  // ---------------- packets in a stream ----------------

  datatype Packet = Packet(header: Byte, data: seq<Byte>)

  datatype First = Incomplete | Malformed | Found(p: Packet, used: nat)

  // The first packet of a stream of bytes
  function FirstOf(s: seq<Byte>): (r: First)
    ensures r.Found? ==> 2 <= r.used <= |s|
  {
    if s == [] then Incomplete
    else
      match Decode(s[1..])
      case More => Incomplete
      case BadLength => Malformed
      case Length(v, u) =>
        if 1 + u + v <= |s| then Found(Packet(s[0], s[1 + u..1 + u + v]), 1 + u + v) else Incomplete
  }

  // All packets that are whole
  function AllOf(s: seq<Byte>): seq<Packet>
    decreases |s|
  {
    var r := FirstOf(s);
    if r.Found? then [r.p] + AllOf(s[r.used..]) else []
  }

  function BytesOf(p: Packet): seq<Byte> { [p.header] + Encode(|p.data|) + p.data }

  function Stream(ps: seq<Packet>): seq<Byte> {
    if ps == [] then [] else BytesOf(ps[0]) + Stream(ps[1..])
  }

  lemma FirstOfBytes(p: Packet, rest: seq<Byte>)
    requires |p.data| <= MAX_REMAINING_LENGTH
    ensures FirstOf(BytesOf(p) + rest) == Found(p, |BytesOf(p)|)
  {
    var e := Encode(|p.data|);
    LengthRoundTrip(|p.data|, p.data + rest);
    var s := BytesOf(p) + rest;
    assert s[1..] == e + (p.data + rest);
    assert s[1 + |e|..1 + |e| + |p.data|] == p.data;
  }

  // What is sent packet by packet is read packet by packet
  lemma {:induction false} StreamRoundTrip(ps: seq<Packet>)
    requires forall i :: 0 <= i < |ps| ==> |ps[i].data| <= MAX_REMAINING_LENGTH
    ensures AllOf(Stream(ps)) == ps
  {
    if ps != [] {
      StreamRoundTrip(ps[1..]);
      FirstOfBytes(ps[0], Stream(ps[1..]));
      assert Stream(ps)[|BytesOf(ps[0])|..] == Stream(ps[1..]);
    }
  }

  // More bytes behind do not change the first packet
  lemma FirstStable(s: seq<Byte>, rest: seq<Byte>)
    requires FirstOf(s).Found?
    ensures FirstOf(s + rest) == FirstOf(s)
  {
    DecodeStable(s[1..], rest, MAX_NO_OF_REMAINING_LENGTH_BYTES);
    assert (s + rest)[1..] == s[1..] + rest;
    var u, v := Decode(s[1..]).used, Decode(s[1..]).value;
    hide Decode;
    assert (s + rest)[1 + u..1 + u + v] == s[1 + u..1 + u + v];
  }

  // From a stream that breaks off anywhere, only packets that were sent are read, in the order in which they were sent
  lemma {:induction false} PartOfStream(ps: seq<Packet>, s: seq<Byte>)
    requires (forall i :: 0 <= i < |ps| ==> |ps[i].data| <= MAX_REMAINING_LENGTH) && s <= Stream(ps)
    ensures AllOf(s) <= ps
  {
    if ps != [] {
      var b, behind := BytesOf(ps[0]), Stream(ps[1..]);
      hide FirstOf;
      if |b| <= |s| {
        assert s == b + s[|b|..] && s[|b|..] <= behind;
        FirstOfBytes(ps[0], s[|b|..]);
        PartOfStream(ps[1..], s[|b|..]);
      } else {
        assert b == s + b[|s|..] && b + [] == b;
        FirstOfBytes(ps[0], []);
        if FirstOf(s).Found? { FirstStable(s, b[|s|..]); }
      }
    }
  }

  // A PUBLISH that is sent is read from the stream with the same topic, id, payload, QoS and flags
  lemma PublishRoundTrip(p: PublishPacket, rest: seq<Byte>)
    requires Sendable(p) && |p.topic| < 65536 && |PublishBody(p)| <= MAX_REMAINING_LENGTH
    ensures var r := FirstOf(PublishBytes(p) + rest);
      && r.Found? && r.used == |PublishBytes(p)| && KindOfHeader(r.p.header) == PUBLISH
      && PublishOf(r.p.header, r.p.data) == GotPublish(p)
  {
    FirstOfBytes(Packet(PublishHeader(p), PublishBody(p)), rest);
    HeaderRoundTrip(PUBLISH, p.dup, p.qos, p.retain);
    ReadBack(p);
  }

  lemma AckRoundTrip(kind: nat, dup: bool, msgId: nat, rest: seq<Byte>)
    requires kind < 16 && msgId < 65536
    ensures var r := FirstOf(AckBytes(kind, dup, msgId) + rest);
      && r.Found? && r.used == 4 && KindOfHeader(r.p.header) == kind && DupOf(r.p.header) == dup
      && |r.p.data| == 2 && ReadInt(r.p.data) == msgId
  {
    assert |Encode(2)| == 1;
    hide HeaderByte, KindOfHeader, DupOf, QosOf, RetainOf, ReadInt, FirstOf, Encode;
    var p := Packet(AckHeader(kind, dup), WriteInt(msgId));
    assert AckBytes(kind, dup, msgId) == BytesOf(p);
    FirstOfBytes(p, rest);
    HeaderRoundTrip(kind, dup, if kind == PUBREL then 1 else 0, false);
    IntRoundTrip(msgId, []);
    assert WriteInt(msgId) + [] == WriteInt(msgId);
    SmallInt(msgId);
  }

  lemma SmallInt(n: nat)
    requires n < 65536
    ensures n % 65536 == n
  {
  }

  // ---------------- stored packets ----------------

  datatype Restored = BadRecord | GoodRecord(p: Packet) | BehindTheRecord

  // The types of packet that can be read
  predicate HasReader(kind: nat) { kind in {2, 3, 4, 5, 6, 7, 9, 11, 12, 13, 14} }

  lemma HasReaderExactly(kind: nat)
    ensures HasReader(kind) <==> 2 <= kind <= 14 && kind != 8 && kind != 10
  {
  }

  // Only the reader of PUBLISH can refuse its data
  predicate Readable(p: Packet) {
    HasReader(KindOfHeader(p.header)) && (KindOfHeader(p.header) == PUBLISH ==> !PublishOf(p.header, p.data).NoPublish?)
  }

  // By number: a PUBLISH, which is type 3, is refused if its topic is not whole
  lemma ReadableExactly(p: Packet)
    ensures var kind, d := p.header / 16, p.data;
      Readable(p) <==> HasReader(kind) && (kind == 3 ==> |d| >= 2 && 2 + 256 * (d[0] as int) + d[1] as int <= |d|)
  {
  }

  // Some length byte announces no other
  ghost predicate EndsItsLength(record: seq<Byte>) {
    exists i :: 1 <= i < |record| && record[i] < 128
  }

  ghost function UnlimitedValue(s: seq<Byte>): nat {
    if s == [] then 0 else if s[0] < 128 then s[0] else s[0] - 128 + 128 * UnlimitedValue(s[1..])
  }

  ghost function UnlimitedSize(s: seq<Byte>): nat {
    if s == [] then 0 else if s[0] < 128 then 1 else 1 + UnlimitedSize(s[1..])
  }

  lemma {:induction false} UnlimitedRoundTrip(n: nat, rest: seq<Byte>)
    ensures UnlimitedValue(Encode(n) + rest) == n && UnlimitedSize(Encode(n) + rest) == |Encode(n)|
  {
    if n >= 128 {
      UnlimitedRoundTrip(n / 128, rest);
      assert (Encode(n) + rest)[1..] == Encode(n / 128) + rest;
    }
  }

  lemma Distribute(m: nat, c: nat, v: nat)
    ensures m * (c + 128 * v) == c * m + m * 128 * v
  {
  }

  lemma NextDigit(s: seq<Byte>, multiplier: nat)
    requires s != []
    ensures s[0] < 128 ==> multiplier * UnlimitedValue(s) == s[0] % 128 * multiplier && UnlimitedSize(s) == 1
    ensures s[0] >= 128 ==>
      multiplier * UnlimitedValue(s) == s[0] % 128 * multiplier + multiplier * 128 * UnlimitedValue(s[1..])
    ensures s[0] >= 128 ==> UnlimitedSize(s) == 1 + UnlimitedSize(s[1..])
  {
    var c := s[0] % 128;
    if s[0] >= 128 {
      var v := UnlimitedValue(s[1..]);
      assert UnlimitedValue(s) == c + 128 * v;
      hide UnlimitedValue;
      Distribute(multiplier, c, v);
    } else {
      assert UnlimitedValue(s) == c;
      hide UnlimitedValue;
    }
  }

  // The length loop of MQTTPersistence_restorePacket: unlike the socket reader it sets no limit on the length bytes,
  // and it does not look at the end of the record
  method LengthOfRecord(buffer: seq<Byte>) returns (ended: bool, fixed: nat, remaining: nat)
    requires buffer != []
    ensures ended <==> EndsItsLength(buffer)
    ensures ended ==>
      fixed == 1 + UnlimitedSize(buffer[1..]) && remaining == UnlimitedValue(buffer[1..]) && 2 <= fixed <= |buffer|
  {
    var multiplier: nat := 1;
    ended, fixed, remaining := true, 1, 0;
    var c := 128;
    hide UnlimitedSize, UnlimitedValue, EndsItsLength;
    while c >= 128 && ended
      invariant 1 <= fixed <= |buffer|
      invariant c >= 128 ==> forall i :: 1 <= i < fixed ==> buffer[i] >= 128
      invariant c < 128 ==> ended && fixed >= 2 && buffer[fixed - 1] < 128
      invariant !ended ==> fixed == |buffer|
      invariant c >= 128 ==> UnlimitedValue(buffer[1..]) == remaining + multiplier * UnlimitedValue(buffer[fixed..])
      invariant c >= 128 ==> UnlimitedSize(buffer[1..]) == fixed - 1 + UnlimitedSize(buffer[fixed..])
      invariant c < 128 ==> UnlimitedValue(buffer[1..]) == remaining && UnlimitedSize(buffer[1..]) == fixed - 1
      decreases |buffer| - fixed, c, ended
    {
      if fixed == |buffer| {
        ended := false;
      } else {
        NextDigit(buffer[fixed..], multiplier);
        assert buffer[fixed..][1..] == buffer[fixed + 1..];
        c := buffer[fixed];
        remaining := remaining + c % 128 * multiplier;
        multiplier := multiplier * 128;
        fixed := fixed + 1;
      }
    }
    LengthEndsAt(buffer, fixed, ended);
  }

  lemma LengthEndsAt(buffer: seq<Byte>, fixed: nat, ended: bool)
    requires if ended then 2 <= fixed <= |buffer| && buffer[fixed - 1] < 128
             else forall i :: 1 <= i < |buffer| ==> buffer[i] >= 128
    ensures ended <==> EndsItsLength(buffer)
  {
  }

  // MQTTPersistence_restorePacket. A record without an end of its length makes the source read on behind it.
  method RestorePacket(buffer: seq<Byte>) returns (r: Restored)
    ensures r.BehindTheRecord? <==> !EndsItsLength(buffer)
    ensures EndsItsLength(buffer) ==> r == RecordOf(buffer)
  {
    if |buffer| == 0 {
      return BehindTheRecord;
    }
    var ended, fixed, remaining := LengthOfRecord(buffer);
    hide UnlimitedSize, UnlimitedValue, EndsItsLength, Readable;
    if !ended {
      return BehindTheRecord;
    }
    r := BadRecord;
    if fixed + remaining == |buffer| {
      var p := Packet(buffer[0], buffer[fixed..]);
      if Readable(p) {
        r := GoodRecord(p);
      }
    }
  }

  ghost function RecordOf(record: seq<Byte>): Restored
    requires record != []
  {
    var fixed := 1 + UnlimitedSize(record[1..]);
    if fixed + UnlimitedValue(record[1..]) == |record| && Readable(Packet(record[0], record[fixed..])) then
      GoodRecord(Packet(record[0], record[fixed..]))
    else
      BadRecord
  }

  // A packet of any length is restored from its bytes
  lemma RecordOfBytes(p: Packet)
    ensures EndsItsLength(BytesOf(p)) && RecordOf(BytesOf(p)) == if Readable(p) then GoodRecord(p) else BadRecord
  {
    RecordEndsItsLength(p);
    var s := BytesOf(p);
    assert s[1..] == Encode(|p.data|) + p.data;
    UnlimitedRoundTrip(|p.data|, p.data);
    hide UnlimitedSize, UnlimitedValue, Readable, Encode;
    assert s[1 + |Encode(|p.data|)|..] == p.data;
  }

  // Every record of a PUBLISH can be read again, however long
  lemma RecordEndsItsLength(p: Packet)
    ensures EndsItsLength(BytesOf(p))
  {
    EncodeEnds(|p.data|);
    var e := Encode(|p.data|);
    assert BytesOf(p)[|e|] == e[|e| - 1];
  }

  lemma {:induction false} EncodeEnds(n: nat)
    ensures Encode(n)[|Encode(n)| - 1] < 128
  {
    if n >= 128 { EncodeEnds(n / 128); }
  }

  // Sent, stored and restored: equal topic, id, payload, QoS and flags
  method StoreAndRestore(p: PublishPacket) returns (r: Restored)
    requires Sendable(p) && |p.topic| < 65536
    ensures r.GoodRecord? && PublishOf(r.p.header, r.p.data) == GotPublish(p)
  {
    var bufs := BuffersOfPublish(p);
    ghost var packet := Packet(PublishHeader(p), PublishBody(p));
    RecordOfBytes(packet);
    ReadBack(p);
    HeaderRoundTrip(PUBLISH, p.dup, p.qos, p.retain);
    var record := Gather(bufs);
    assert record == BytesOf(packet);
    r := RestorePacket(record);
  }

  // The store gets the buffers one behind the other
  method Gather(bufs: seq<seq<Byte>>) returns (s: seq<Byte>)
    ensures s == Flat(bufs)
  {
    s := [];
    for i := 0 to |bufs|
      invariant s == Flat(bufs[..i])
    {
      FlatAppend(bufs[..i], bufs[i]);
      assert bufs[..i + 1] == bufs[..i] + [bufs[i]];
      s := s + bufs[i];
    }
    assert bufs[..|bufs|] == bufs;
  }
}
