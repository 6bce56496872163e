/** The packets of the delivery protocol as bytes on the connection. */
module PacketBytes {
  import opened QosProtocol
  import Wire

  function BytesOfText(text: string): (s: seq<Wire.Byte>)
    requires ByteText(text)
    ensures |s| == |text|
  {
    seq(|text|, i requires 0 <= i < |text| => text[i] as int)
  }

  function TextOf(s: seq<Wire.Byte>): string {
    seq(|s|, i requires 0 <= i < |s| => (s[i] as int) as char)
  }

  predicate ByteText(text: string) { forall i :: 0 <= i < |text| ==> text[i] as int < 256 }

  lemma TextBack(text: string)
    requires ByteText(text)
    ensures TextOf(BytesOfText(text)) == text
  {
  }

  // What a topic that is a C string, and a packet, can say
  ghost predicate Speakable(p: Packet) {
    match p
    case Publish(id, qos, _, pub) =>
      && 0 <= qos <= 2 && 0 <= id <= MAX_MSG_ID && (qos == 0 ==> id == 0) && |pub.topic| < 65536
      && (forall i :: 0 <= i < |pub.topic| ==> 0 < pub.topic[i] as int < 256)
      && (forall i :: 0 <= i < |pub.payload| ==> 0 <= pub.payload[i] < 256)
    case _ => 0 <= p.id <= MAX_MSG_ID
  }

  ghost function PublishFrom(p: Packet, retain: bool): Wire.PublishPacket
    requires p.Publish? && Speakable(p)
  {
    Wire.PublishPacket(p.dup, p.qos, retain, BytesOfText(p.pub.topic), p.id, p.pub.payload)
  }

  // The bytes that the senders of MQTTPacket.c write
  ghost function SentAs(p: Packet, retain: bool): seq<Wire.Byte>
    requires Speakable(p)
  {
    match p
    case Publish(_, _, _, _) => Wire.PublishBytes(PublishFrom(p, retain))
    case Puback(id) => Wire.AckBytes(Wire.PUBACK, false, id)
    case Pubrec(id) => Wire.AckBytes(Wire.PUBREC, false, id)
    case Pubrel(id, dup) => Wire.AckBytes(Wire.PUBREL, dup, id)
    case Pubcomp(id) => Wire.AckBytes(Wire.PUBCOMP, false, id)
  }

  datatype Understood = Other | Understood(p: Packet)

  // What a packet of bytes says to the protocol, by the number of its type; `serial` is not in the bytes
  function Meaning(q: Wire.Packet, serial: nat): Understood {
    var kind := q.header / 16;
    if kind == 3 then
      match Wire.PublishOf(q.header, q.data)
      case GotPublish(p) => Understood(Publish(p.msgId, p.qos, p.dup, Publication(serial, TextOf(p.topic), p.payload)))
      case _ => Other
    else if |q.data| != 2 then Other
    else
      var id := 256 * (q.data[0] as int) + q.data[1] as int;
      if kind == 4 then Understood(Puback(id))
      else if kind == 5 then Understood(Pubrec(id))
      else if kind == 6 then Understood(Pubrel(id, q.header / 8 % 2 == 1))
      else if kind == 7 then Understood(Pubcomp(id))
      else Other
  }

  // What one client sends the other takes for the same packet, whatever follows
  lemma SentIsUnderstood(p: Packet, retain: bool, rest: seq<Wire.Byte>, serial: nat)
    requires Speakable(p) && (p.Publish? ==> p.pub.serial == serial)
    requires p.Publish? ==> |Wire.PublishBody(PublishFrom(p, retain))| <= Wire.MAX_REMAINING_LENGTH
    ensures var first := Wire.FirstOf(SentAs(p, retain) + rest);
      first.Found? && first.used == |SentAs(p, retain)| && Meaning(first.p, serial) == Understood(p)
  {
    if p.Publish? {
      PublishIsUnderstood(p, retain, rest);
    } else {
      var kind := if p.Puback? then 4 else if p.Pubrec? then 5 else if p.Pubrel? then 6 else 7;
      AckIsUnderstood(kind, p.Pubrel? && p.dup, p.id, rest);
      hide Wire.FirstOf, Wire.AckBytes;
    }
  }

  lemma PublishIsUnderstood(p: Packet, retain: bool, rest: seq<Wire.Byte>)
    requires Speakable(p) && p.Publish? && |Wire.PublishBody(PublishFrom(p, retain))| <= Wire.MAX_REMAINING_LENGTH
    ensures var first := Wire.FirstOf(SentAs(p, retain) + rest);
      first.Found? && first.used == |SentAs(p, retain)| && Meaning(first.p, p.pub.serial) == Understood(p)
  {
    TextBack(p.pub.topic);
    hide TextOf, BytesOfText, Wire.PublishBytes, Wire.FirstOf, Wire.PublishOf, Wire.PublishBody;
    Wire.PublishRoundTrip(PublishFrom(p, retain), rest);
  }

  lemma AckIsUnderstood(kind: nat, dup: bool, id: nat, rest: seq<Wire.Byte>)
    requires 4 <= kind <= 7 && id < 65536
    ensures var first := Wire.FirstOf(Wire.AckBytes(kind, dup, id) + rest);
      && first.Found? && first.used == |Wire.AckBytes(kind, dup, id)| && |first.p.data| == 2
      && first.p.header / 16 == kind && (first.p.header / 8 % 2 == 1 <==> dup)
      && 256 * (first.p.data[0] as int) + first.p.data[1] as int == id
  {
    assert |Wire.AckBytes(kind, dup, id)| == 4 by { assert |Wire.Encode(2)| == 1; }
    hide Wire.FirstOf, Wire.AckBytes;
    Wire.AckRoundTrip(kind, dup, id, rest);
  }
}
