/** Frames of the inter-node bus: how one is built, how its bytes come in, and what the receiver makes of them. */
module Icp {
  import opened Wire
  import Crc

  const BUFFER_LEN := 65535
  const HEAD_LENGTH := 4
  const TAIL_LENGTH := 2
  const MAX_PAYLOAD_LENGTH := BUFFER_LEN / 2 - HEAD_LENGTH - TAIL_LENGTH
  const MIN_PAYLOAD_LENGTH := 1
  const NUM_OF_NODES := 7
  const BROADCAST := 0

  datatype Role = NO_ROLE | TX | RX | LISTEN_IN

  datatype ReturnCode = SUCCESS | BUSY | INVALID_PARAMETERS

  datatype IcpPacket = IcpPacket(destination: Byte, source: Byte, data: seq<Byte>)

  function Shifted(w: bv16, bit: bool): bv16 { (w << 1) | if bit then 1 else 0 }

  // A byte as a machine word, bit by bit
  function Word(b: Byte): bv16
    decreases b
  {
    if b == 0 then 0 else Shifted(Word(b / 2), b % 2 == 1)
  }

  function Words(s: seq<Byte>): seq<bv16> { seq(|s|, i requires 0 <= i < |s| => Word(s[i])) }

  function Checksum(s: seq<Byte>): (c: nat)
    ensures c < 65536
  {
    Number(Crc.Crc16(Words(s)))
  }

  method ComputeChecksum(s: seq<Byte>) returns (c: nat)
    ensures c == Checksum(s)
  {
    var crc := Crc.ComputeCrc(Words(s));
    c := crc as int;
  }

  function Head(destination: Byte, source: Byte, length: nat): seq<Byte>
    requires length < 65536
  {
    [destination, source, length / 256, length % 256]
  }

  function Frame(p: IcpPacket): seq<Byte>
    requires |p.data| < 65536
  {
    var body := Head(p.destination, p.source, |p.data|) + p.data;
    body + [Checksum(body) / 256, Checksum(body) % 256]
  }

  // The layout of a frame, byte by byte; the checksum is that of all bytes before it
  lemma FrameByNumber(p: IcpPacket)
    requires |p.data| < 65536
    ensures var f, n := Frame(p), |p.data|;
      && |f| == n + 6 && f[0] == p.destination && f[1] == p.source && f[2] as int == n / 256 && f[3] as int == n % 256
      && f[4..4 + n] == p.data
      && f[4 + n] as int == Checksum(f[..4 + n]) / 256 && f[5 + n] as int == Checksum(f[..4 + n]) % 256
    ensures Deliverable(p) <==> p.destination <= 6 && p.source <= 6 && 1 <= |p.data| <= 32761
  {
    var body := Head(p.destination, p.source, |p.data|) + p.data;
    assert Frame(p)[..4 + |p.data|] == body;
    hide Checksum;
  }

  // What the receiver takes a buffer for that begins with a frame
  datatype Parsed = NoFrame | Parsed(packet: IcpPacket)

  function Parse(rx: seq<Byte>): Parsed
    requires |rx| == BUFFER_LEN
  {
    if rx[0] >= NUM_OF_NODES || rx[1] >= NUM_OF_NODES then NoFrame
    else
      var length := 256 * (rx[2] as int) + rx[3] as int;
      if length > MAX_PAYLOAD_LENGTH || length < MIN_PAYLOAD_LENGTH then NoFrame
      else
        var i := HEAD_LENGTH + length;
        if 256 * (rx[i] as int) + rx[i + 1] as int != Checksum(rx[..i]) then NoFrame
        else Parsed(IcpPacket(rx[0], rx[1], rx[HEAD_LENGTH..i]))
  }

  ghost predicate Deliverable(p: IcpPacket) {
    p.destination < NUM_OF_NODES && p.source < NUM_OF_NODES && MIN_PAYLOAD_LENGTH <= |p.data| <= MAX_PAYLOAD_LENGTH
  }

  lemma Divided(length: nat)
    requires length < 65536
    ensures 256 * (length / 256) + length % 256 == length && length / 256 < 256
  { }

  // The receiver finds a packet exactly in a buffer that begins with the frame of that packet
  lemma ParsesExactly(p: IcpPacket, rx: seq<Byte>)
    requires |rx| == BUFFER_LEN
    ensures Parse(rx) == Parsed(p) <==> Deliverable(p) && Frame(p) <= rx
  {
    if Deliverable(p) && Frame(p) <= rx { FrameParses(p, rx); }
    if Parse(rx) == Parsed(p) { ParsedFrame(p, rx); }
  }

  lemma FrameParses(p: IcpPacket, rx: seq<Byte>)
    requires Deliverable(p) && |rx| == BUFFER_LEN && Frame(p) <= rx
    ensures Parse(rx) == Parsed(p)
  {
    var n := |p.data|;
    var body := Head(p.destination, p.source, n) + p.data;
    var f := Frame(p);
    Divided(n);
    Divided(Checksum(body));
    hide Checksum;
    assert forall k :: 0 <= k < |f| ==> rx[k] == f[k];
    assert rx[2] as int == n / 256 && rx[3] as int == n % 256;
    assert rx[..4 + n] == body;
    assert rx[4..4 + n] == p.data;
    assert rx[4 + n] as int == Checksum(body) / 256 && rx[5 + n] as int == Checksum(body) % 256;
  }

  lemma ParsedFrame(p: IcpPacket, rx: seq<Byte>)
    requires |rx| == BUFFER_LEN && Parse(rx) == Parsed(p)
    ensures Deliverable(p) && Frame(p) <= rx
  {
    var n := |p.data|;
    var body := Head(p.destination, p.source, n) + p.data;
    hide Checksum;
    assert rx[..4 + n] == body;
    Divided(n);
    var hi, lo := rx[4 + n] as int, rx[5 + n] as int;
    assert 256 * hi + lo == Checksum(body);
    assert hi == Checksum(body) / 256 && lo == Checksum(body) % 256;
    assert rx[..6 + n] == body + [rx[4 + n], rx[5 + n]];
  }

  // ---------------- frames and the checksum theory ----------------

  function Number(c: bv16): (n: nat)
    ensures n < 65536
  {
    c as int
  }

  lemma WordParts(c: bv16)
    ensures Number(c) == 256 * Number(Crc.High(c)) + Number(Crc.Low(c))
  { }

  lemma SmallParts(c: bv16)
    ensures Number(Crc.Low(c)) < 256 && Number(Crc.High(c)) < 256
  { }

  function Half(w: bv16): bv16 { w >> 1 }
  predicate Odd(w: bv16) { w & 1 == 1 }

  lemma ShiftedIs(w: bv16, bit: bool)
    requires Number(w) < 128
    ensures Number(Shifted(w, bit)) == 2 * Number(w) + if bit then 1 else 0
  { }

  lemma HalfShifted(w: bv16)
    ensures Shifted(Half(w), Odd(w)) == w
  { }

  lemma HalfSmall(w: bv16)
    requires Number(w) < 256
    ensures Number(Half(w)) < 128
  { }

  lemma HalfIs(w: bv16)
    requires Number(w) < 256
    ensures Number(w) == 2 * Number(Half(w)) + if Odd(w) then 1 else 0
    ensures Shifted(Half(w), Odd(w)) == w
  {
    HalfShifted(w);
    HalfSmall(w);
    hide Shifted, Half, Odd, Number;
    ShiftedIs(Half(w), Odd(w));
  }

  lemma ZeroIs(w: bv16)
    ensures Number(w) == 0 <==> w == 0
  { }

  lemma SmallWord(w: bv16)
    requires Number(w) < 256
    ensures w <= 0xff
  { }

  lemma {:induction false} ByteWord(b: Byte)
    ensures Number(Word(b)) == b && Word(b) <= 0xff
    decreases b
  {
    ZeroIs(0);
    hide Shifted, Number;
    if b != 0 {
      ByteWord(b / 2);
      ShiftedIs(Word(b / 2), b % 2 == 1);
    }
    SmallWord(Word(b));
  }

  lemma {:induction false} WordBack(c: bv16)
    requires Number(c) < 256
    ensures Word(Number(c)) == c
    decreases Number(c)
  {
    ZeroIs(c);
    hide Shifted, Number, Half, Odd;
    if Number(c) != 0 {
      HalfIs(c);
      WordBack(Half(c));
    }
  }

  lemma ChecksumBytes(c: bv16)
    ensures Word(Number(c) / 256) == Crc.High(c) && Word(Number(c) % 256) == Crc.Low(c)
  {
    hide Number, Crc.High, Crc.Low, Word;
    WordParts(c);
    SmallParts(c);
    WordBack(Crc.High(c));
    WordBack(Crc.Low(c));
    Quotient(Number(Crc.High(c)), Number(Crc.Low(c)));
  }

  lemma Quotient(h: nat, l: nat)
    requires l < 256
    ensures (256 * h + l) / 256 == h && (256 * h + l) % 256 == l
  { }

  lemma WordsOfTail(s: seq<Byte>, a: Byte, b: Byte)
    ensures Words(s + [a, b]) == Words(s) + [Word(a), Word(b)]
  {
    hide Word;
  }

  lemma FrameWords(p: IcpPacket)
    requires |p.data| < 65536
    ensures var words := Words(Head(p.destination, p.source, |p.data|) + p.data);
      var c := Crc.Crc16(words);
      Words(Frame(p)) == words + [Crc.High(c), Crc.Low(c)]
  {
    var body := Head(p.destination, p.source, |p.data|) + p.data;
    hide Words, Word, Crc.Crc16, Crc.High, Crc.Low;
    ChecksumBytes(Crc.Crc16(Words(body)));
    WordsOfTail(body, Checksum(body) / 256, Checksum(body) % 256);
  }

  // A frame is divisible by the polynomial
  lemma FrameIsValid(p: IcpPacket)
    requires |p.data| < 65536
    ensures Crc.Crc16(Words(Frame(p))) == 0
  {
    FrameWords(p);
    hide Words, Word, Frame, Crc.Crc16, Crc.High, Crc.Low;
    var words := Words(Head(p.destination, p.source, |p.data|) + p.data);
    var c := Crc.Crc16(words);
    Crc.LowSmall(c);
    Crc.ValidExactly(words, Crc.High(c), Crc.Low(c));
  }

  lemma WordsInjective(s: seq<Byte>, t: seq<Byte>)
    requires Words(s) == Words(t)
    ensures s == t
  {
    assert |Words(s)| == |s| && |Words(t)| == |t|;
    forall i | 0 <= i < |s| ensures s[i] == t[i] {
      assert Words(s)[i] == Words(t)[i];
      ByteWord(s[i]);
      ByteWord(t[i]);
    }
  }

  // Two frames of equal length that differ at all differ in bits more than sixteen places apart
  lemma FramesFarApart(p: IcpPacket, q: IcpPacket, i: nat)
    requires |p.data| == |q.data| < 65536 && i + 16 <= 8 * |Frame(p)|
    requires var f, g := Words(Frame(p)), Words(Frame(q));
      forall j :: 0 <= j < 8 * |Frame(p)| && !(i <= j < i + 16) ==> Crc.Bits(f)[j] == Crc.Bits(g)[j]
    ensures Frame(p) == Frame(q)
  {
    FrameIsValid(p);
    FrameIsValid(q);
    var f, g := Words(Frame(p)), Words(Frame(q));
    assert forall j :: 0 <= j < |f| ==> f[j] <= 0xff && g[j] <= 0xff by {
      forall j | 0 <= j < |f| ensures f[j] <= 0xff && g[j] <= 0xff {
        ByteWord(Frame(p)[j]);
        ByteWord(Frame(q)[j]);
      }
    }
    hide Crc.Bits, Crc.Crc16;
    Crc.BurstDetected(f, g, i);
    WordsInjective(Frame(p), Frame(q));
  }

  // ---------------- a node on the bus ----------------

  class Node {
    const mac: Byte
    const ackTimeout: nat              // 16 bits wide, the counter only 8
    const rx: array<Byte>
    const tx: array<Byte>
    var rxPos: nat
    var txStart: nat
    var txEnd: nat
    var role: Role
    var destinationReceived: bool
    var listenToAll: bool
    var wrongRecipients: nat           // notifications that a frame is for another node
    var delivered: seq<IcpPacket>      // packets given to the host
    var waitingForAck: bool
    var ackTimeoutCount: nat
    var out: seq<Byte>                 // bytes put on the bus

    ghost predicate Valid()
      reads rx, `rxPos, `txStart, `txEnd, `ackTimeoutCount
    {
      && rx.Length == tx.Length == BUFFER_LEN && rx != tx && rxPos <= BUFFER_LEN
      && txStart <= txEnd + 1 <= BUFFER_LEN && ackTimeoutCount < 256
      && forall i :: rxPos <= i < BUFFER_LEN ==> rx[i] == 0xFF
    }

    constructor (mac: Byte, ackTimeout: nat)
      ensures Valid() && rxPos == 0 && role == NO_ROLE && delivered == [] && this.mac == mac && !listenToAll
      ensures this.ackTimeout == ackTimeout && !waitingForAck && ackTimeoutCount == 0 && out == []
      ensures txStart == 0 && txEnd == 0 && !destinationReceived && wrongRecipients == 0
      ensures fresh(rx) && fresh(tx)
    {
      this.mac, this.ackTimeout := mac, ackTimeout;
      waitingForAck, ackTimeoutCount, out := false, 0, [];
      rx := new Byte[BUFFER_LEN](_ => 0xFF);
      tx := new Byte[BUFFER_LEN](_ => 0);
      rxPos, txStart, txEnd, role, destinationReceived := 0, 0, 0, NO_ROLE, false;
      listenToAll, wrongRecipients, delivered := false, 0, [];
    }

    // Head and data of a frame
    method PutBody(destination: Byte, data: seq<Byte>)
      requires tx.Length == BUFFER_LEN && |data| <= MAX_PAYLOAD_LENGTH
      modifies tx
      ensures tx[..4 + |data|] == Head(destination, mac, |data|) + data
    {
      var n := |data|;
      tx[0], tx[1], tx[2], tx[3] := destination, mac, n / 256, n % 256;
      forall i | 0 <= i < n { tx[4 + i] := data[i]; }
    }

    // The checksum behind the first i bytes
    method PutChecksum(i: nat)
      requires tx.Length == BUFFER_LEN && i + 2 <= BUFFER_LEN
      modifies tx
      ensures tx[..i + 2] == old(tx[..i]) + [Checksum(old(tx[..i])) / 256, Checksum(old(tx[..i])) % 256]
    {
      var crc := ComputeChecksum(tx[..i]);
      hide Checksum;
      tx[i], tx[i + 1] := crc / 256, crc % 256;
    }

    // icp_send_packet
    method SendPacket(destination: Byte, data: seq<Byte>) returns (rc: ReturnCode)
      requires Valid() && |data| < 65536
      modifies tx, `txStart, `txEnd
      ensures Valid()
      ensures rc == SUCCESS <==> MIN_PAYLOAD_LENGTH < |data| <= MAX_PAYLOAD_LENGTH && destination < NUM_OF_NODES
      ensures rc == SUCCESS ==> txStart == 0 && Loaded(IcpPacket(destination, mac, data))
      ensures rc != SUCCESS ==>
        rc == INVALID_PARAMETERS && tx[..] == old(tx[..]) && txStart == old(txStart) && txEnd == old(txEnd)
    {
      if |data| > MAX_PAYLOAD_LENGTH || |data| <= MIN_PAYLOAD_LENGTH || destination >= NUM_OF_NODES {
        return INVALID_PARAMETERS;
      }
      hide Checksum;
      txStart, txEnd := 0, 0;
      PutBody(destination, data);
      PutChecksum(4 + |data|);
      txEnd := 5 + |data|;
      rc := SUCCESS;
    }

    // The transmit buffer ends with the frame of p
    ghost predicate Loaded(p: IcpPacket)
      requires |p.data| < 65536
      reads tx, `txEnd
    {
      tx.Length == BUFFER_LEN && txEnd < BUFFER_LEN && tx[..txEnd + 1] == Frame(p)
    }

    // icp_flush_rx_buffer
    method FlushRx()
      requires Valid()
      modifies rx, `rxPos
      ensures Valid() && rxPos == 0
    {
      forall i | 0 <= i < rx.Length { rx[i] := 0xFF; }
      rxPos := 0;
    }

    // icp_notify_acces_active: somebody begins to transmit
    method AccessActive()
      requires Valid()
      modifies `role, `destinationReceived
      ensures Valid() && role == RX && !destinationReceived
    {
      role, destinationReceived := RX, false;
    }

    // The destination of a frame, which is its first byte
    method CheckDestination(destination: Byte)
      requires Valid() && role == RX
      modifies rx, `rxPos, `role, `destinationReceived, `wrongRecipients
      ensures Valid() && destinationReceived
      ensures role == if destination == mac then RX else if listenToAll then LISTEN_IN else NO_ROLE
      ensures if role == NO_ROLE then rxPos == 0 && wrongRecipients == old(wrongRecipients) + 1
              else rx[..] == old(rx[..]) && rxPos == old(rxPos) && wrongRecipients == old(wrongRecipients)
    {
      destinationReceived := true;
      if destination != mac {
        role := if listenToAll then LISTEN_IN else NO_ROLE;
        if role == NO_ROLE {
          FlushRx();
          wrongRecipients := wrongRecipients + 1;
        }
      }
    }

    // The first n bytes go to the end of the receive buffer
    method PutBytes(bytes: seq<Byte>, n: nat)
      requires Valid() && n <= |bytes| && rxPos + n < BUFFER_LEN
      modifies rx, `rxPos
      ensures Valid() && rxPos == old(rxPos) + n && rx[..rxPos] == old(rx[..rxPos]) + bytes[..n]
    {
      if n != 1 {
        forall i | 0 <= i < n { rx[rxPos + i] := bytes[i]; }
        rxPos := rxPos + n;
      } else {
        rx[rxPos] := bytes[0];
        rxPos := rxPos + 1;
      }
    }

    // icp_bytes_in, which looks at the first byte for the destination whatever n is
    method BytesIn(bytes: seq<Byte>, n: nat) returns (rc: ReturnCode)
      requires Valid() && n <= |bytes| && (role == RX && !destinationReceived ==> bytes != [])
      modifies rx, `rxPos, `role, `destinationReceived, `wrongRecipients
      ensures Valid()
      ensures destinationReceived == (old(destinationReceived) || old(role) == RX)
      ensures wrongRecipients == old(wrongRecipients) + if old(role) == RX && role == NO_ROLE then 1 else 0
      ensures role == if old(role) == RX && !old(destinationReceived) && bytes[0] != mac
                        then (if listenToAll then LISTEN_IN else NO_ROLE) else old(role)
      ensures role == NO_ROLE && old(role) == RX ==> rxPos == 0 && rc == BUSY
      ensures role == old(role) && role != RX && role != LISTEN_IN ==> rc == BUSY && rx[..rxPos] == old(rx[..rxPos])
      ensures role == RX || role == LISTEN_IN ==>
        if old(rxPos) + n < 65535 then rc == SUCCESS && rx[..rxPos] == old(rx[..rxPos]) + bytes[..n]
        else rc == BUSY && rx[..rxPos] == old(rx[..rxPos])
    {
      if role == RX && !destinationReceived {
        CheckDestination(bytes[0]);
      }
      if !(role == RX || role == LISTEN_IN) || rxPos >= BUFFER_LEN || rxPos + n >= BUFFER_LEN {
        return BUSY;
      }
      PutBytes(bytes, n);
      rc := SUCCESS;
    }

    // icp_process_rx_buffer
    method ProcessRx()
      requires Valid()
      modifies rx, `rxPos, `role, `delivered
      ensures Valid()
      ensures var parsed := if old(rxPos) == 0 then NoFrame else Parse(old(rx[..]));
        match parsed
        case NoFrame => rx[..] == old(rx[..]) && rxPos == old(rxPos) && role == old(role) && delivered == old(delivered)
        case Parsed(p) => rxPos == 0 && delivered == old(delivered) + [p]
                          && role == if old(role) == RX || old(role) == LISTEN_IN then NO_ROLE else old(role)
    {
      if rxPos == 0 || rx[0] >= NUM_OF_NODES || rx[1] >= NUM_OF_NODES {
        return;
      }
      var length := 256 * (rx[2] as int) + rx[3] as int;
      if length > MAX_PAYLOAD_LENGTH || length < MIN_PAYLOAD_LENGTH {
        return;
      }
      var i := HEAD_LENGTH + length;
      var packet := IcpPacket(rx[0], rx[1], rx[HEAD_LENGTH..i]);
      var crc := ComputeChecksum(rx[..i]);
      hide Checksum;
      assert rx[..][..i] == rx[..i] && rx[..][HEAD_LENGTH..i] == rx[HEAD_LENGTH..i];
      if 256 * (rx[i] as int) + rx[i + 1] as int != crc {
        return;
      }
      if role == RX || role == LISTEN_IN {
        role := NO_ROLE;
      }
      FlushRx();
      delivered := delivered + [packet];
    }

    // icp_process_tx_buffer. Whether the bus is free and can be reserved, and how many of the bytes that it is offered
    // the host puts out, is up to the host; it reports the number as one byte.
    method ProcessTx(lineFree: bool, reserved: bool, put: nat)
      requires Valid() && put <= txEnd + 1 - txStart
      modifies `role, `txStart, `out
      ensures Valid()
      ensures if old(txStart) < txEnd && (old(role) == TX || (lineFree && reserved))
              then role == TX && txStart == old(txStart) + put % 256 &&
                out == old(out) + tx[old(txStart)..old(txStart) + put]
              else role == old(role) && txStart == old(txStart) && out == old(out)
    {
      if txStart > txEnd - 1 {
        return;
      }
      if role != TX {
        if !lineFree || !reserved {
          return;
        }
        role := TX;
      }
      out := out + tx[txStart..txStart + put];
      txStart := txStart + put % 256;
    }

    // icp_notify_bytes_out_finished
    method BytesOutFinished()
      requires Valid()
      modifies `role, `waitingForAck
      ensures if tx[0] == 0 then role == NO_ROLE && waitingForAck == old(waitingForAck)
              else waitingForAck && role == old(role)
    {
      if tx[0] == BROADCAST {
        role := NO_ROLE;
      } else {
        waitingForAck := true;
      }
    }

    // icp_notify_acces_inactive: for a sender that waits this is the acknowledgement. The counter keeps its value.
    method AccessInactive() returns (acknowledged: bool)
      requires Valid()
      modifies rx, `rxPos, `role, `waitingForAck
      ensures Valid() && role == (if acknowledged || old(role) == RX ||
        old(role) == LISTEN_IN then NO_ROLE else old(role))
      ensures acknowledged <==> old(waitingForAck) && old(role) == TX
      ensures waitingForAck == (old(waitingForAck) && !acknowledged)
      ensures if old(role) == RX || old(role) == LISTEN_IN then rxPos == 0
              else rxPos == old(rxPos) && rx[..] == old(rx[..])
    {
      acknowledged := false;
      if waitingForAck && role == TX {
        role, waitingForAck, acknowledged := NO_ROLE, false, true;
      } else if role == RX || role == LISTEN_IN {
        role := NO_ROLE;
        FlushRx();
      }
    }

    // The end of icp_update for a node that is busy, with icp_ack_timeout; the counter is one byte wide
    method Tick()
      requires Valid()
      modifies `waitingForAck, `ackTimeoutCount, `role
      ensures Valid()
      ensures if old(waitingForAck) && ackTimeout <= old(ackTimeoutCount)
              then !waitingForAck && ackTimeoutCount == 0 && role == NO_ROLE
              else waitingForAck == old(waitingForAck) && role == old(role)
                   && ackTimeoutCount == if waitingForAck then (old(ackTimeoutCount) + 1) % 256
                     else old(ackTimeoutCount)
    {
      if waitingForAck {
        var count := ackTimeoutCount;
        ackTimeoutCount := (ackTimeoutCount + 1) % 256;
        if ackTimeout <= count {
          ackTimeoutCount := 0;
          waitingForAck := false;
          role := NO_ROLE;
        }
      }
    }

    // What icp_update finds in the receive buffer
    function Found(): Parsed
      requires rx.Length == BUFFER_LEN
      reads rx, `rxPos
    {
      if rxPos == 0 then NoFrame else Parse(rx[..])
    }

    // icp_update: a frame that has come in is delivered, and only a node that then has no role looks at its transmit
    // buffer
    method Update(lineFree: bool, reserved: bool, put: nat) returns (rc: ReturnCode)
      requires Valid() && put <= txEnd + 1 - txStart
      modifies rx, `rxPos, `role, `delivered, `txStart, `out, `waitingForAck, `ackTimeoutCount
      ensures Valid()
      ensures match old(Found())
        case NoFrame => delivered == old(delivered) && rxPos == old(rxPos) && rx[..] == old(rx[..])
        case Parsed(p) => delivered == old(delivered) + [p] && rxPos == 0
      ensures Found() == NoFrame
      ensures rc == SUCCESS <==> old(role) == NO_ROLE || (old(Found()).Parsed? && old(role) != TX)
      ensures rc == SUCCESS ==> waitingForAck == old(waitingForAck) && ackTimeoutCount == old(ackTimeoutCount)
      ensures if rc == SUCCESS && old(txStart) < txEnd && lineFree && reserved
              then role == TX && txStart == old(txStart) + put % 256 &&
                out == old(out) + tx[old(txStart)..old(txStart) + put]
              else txStart == old(txStart) && out == old(out) && (rc == SUCCESS ==> role == NO_ROLE)
      ensures rc != SUCCESS ==>
        rc == BUSY &&
        if old(waitingForAck) && ackTimeout <= old(ackTimeoutCount)
        then !waitingForAck && ackTimeoutCount == 0 && role == NO_ROLE
        else waitingForAck == old(waitingForAck) && role == old(role)
             && ackTimeoutCount == if waitingForAck then (old(ackTimeoutCount) + 1) % 256 else old(ackTimeoutCount)
    {
      ProcessRx();
      hide Parse;
      if role == NO_ROLE {
        ProcessTx(lineFree, reserved, put);
        rc := SUCCESS;
      } else {
        Tick();
        rc := BUSY;
      }
    }

    // A sender that gets no acknowledgement, for up to `updates` updates: it gives up exactly when there are enough of
    // them and the limit is one that the counter can reach. A count left over from before makes the wait shorter. It
    // puts nothing more out; a frame left in its receive buffer is delivered by the first update.
    method WaitInVain(updates: nat, put: nat) returns (n: nat)
      requires Valid() && role == TX && waitingForAck && put <= txEnd + 1 - txStart
      modifies rx, `rxPos, `role, `delivered, `txStart, `out, `waitingForAck, `ackTimeoutCount
      ensures Valid() && n <= updates && (waitingForAck ==> n == updates && role == TX) &&
        (!waitingForAck ==> role == NO_ROLE)
      ensures out == old(out) && txStart == old(txStart)
      ensures delivered == old(delivered) + if updates > 0 && old(Found()).Parsed? then [old(Found()).packet] else []
      ensures !waitingForAck <==> updates > 0 && ackTimeout <= 255 && ackTimeout < old(ackTimeoutCount) + updates
      ensures !waitingForAck ==>
        n == if ackTimeout < old(ackTimeoutCount) then 1 else ackTimeout - old(ackTimeoutCount) + 1
    {
      n := 0;
      hide Found;
      while n < updates && waitingForAck
        invariant Valid() && n <= updates && out == old(out) && txStart == old(txStart)
        invariant n == 0 ==> delivered == old(delivered) && Found() == old(Found())
        invariant n > 0 ==> Found() == NoFrame
        invariant n > 0 ==> delivered == old(delivered) + if old(Found()).Parsed? then [old(Found()).packet] else []
        invariant waitingForAck ==> role == TX && (n > 0 ==> ackTimeout > 255 || old(ackTimeoutCount) + n <= ackTimeout)
        invariant waitingForAck && (n == 0 || ackTimeout <= 255) ==> ackTimeoutCount == old(ackTimeoutCount) + n
        invariant !waitingForAck ==>
          role == NO_ROLE && n > 0 && ackTimeout <= 255 && ackTimeout < old(ackTimeoutCount) + n
        invariant !waitingForAck ==>
          n == if ackTimeout < old(ackTimeoutCount) then 1 else ackTimeout - old(ackTimeoutCount) + 1
        decreases updates - n
      {
        var rc := Update(false, false, put);
        n := n + 1;
      }
    }

    // One reservation of the bus by a node that has no role: the host puts out all that it is offered, says so, and
    // the frame is acknowledged
    method Reserve()
      requires Valid() && role == NO_ROLE
      modifies rx, `rxPos, `role, `delivered, `txStart, `out, `waitingForAck, `ackTimeoutCount
      ensures Valid() && role == NO_ROLE
      ensures if old(txStart) < txEnd
              then out == old(out) + tx[old(txStart)..txEnd + 1] &&
                   txStart == old(txStart) + (txEnd + 1 - old(txStart)) % 256
              else out == old(out) && txStart == old(txStart)
    {
      hide Parse;
      var rc := Update(true, true, txEnd + 1 - txStart);
      if role == TX {
        BytesOutFinished();
        if role == TX {
          var acknowledged := AccessInactive();
        }
      }
    }

    // The state after a reservation: the frame f is still in the transmit buffer, and the host has reported |f| % 256
    ghost predicate Reported(f: seq<Byte>)
      reads this, tx
    {
      tx.Length == BUFFER_LEN && |f| == txEnd + 1 <= BUFFER_LEN && tx[..|f|] == f && txStart == |f| % 256
    }

    method ReserveAgain(ghost f: seq<Byte>)
      requires Valid() && role == NO_ROLE && Reported(f)
      modifies rx, `rxPos, `role, `delivered, `txStart, `out, `waitingForAck, `ackTimeoutCount
      ensures Valid() && role == NO_ROLE && Reported(f)
      ensures out == old(out) + if |f| <= 255 then [] else f[|f| % 256..]
    {
      TailOf(|f|);
      assert tx[|f| % 256..|f|] == f[|f| % 256..];
      hide Parse;
      Reserve();
    }

    method SendFirst(destination: Byte, data: seq<Byte>) returns (rc: ReturnCode)
      requires Valid() && role == NO_ROLE && |data| < 65536
      modifies rx, tx, `rxPos, `role, `delivered, `txStart, `txEnd, `out, `waitingForAck, `ackTimeoutCount
      ensures Valid() && role == NO_ROLE
      ensures rc == SUCCESS <==> MIN_PAYLOAD_LENGTH < |data| <= MAX_PAYLOAD_LENGTH && destination < NUM_OF_NODES
      ensures rc == SUCCESS ==>
        var f := Frame(IcpPacket(destination, mac, data)); Reported(f) && out == old(out) + f
    {
      rc := SendPacket(destination, data);
      if rc == SUCCESS {
        FrameSize(IcpPacket(destination, mac, data));
        hide Frame, Parse;
        assert tx[0..txEnd + 1] == tx[..txEnd + 1];
        Reserve();
      }
    }

    // A packet is sent and the bus reserved; the host puts out the first `put` bytes
    method SendPart(destination: Byte, data: seq<Byte>, put: nat) returns (rc: ReturnCode)
      requires Valid() && role == NO_ROLE && |data| < 65536 && put <= |Frame(IcpPacket(destination, mac, data))|
      modifies rx, tx, `rxPos, `role, `delivered, `txStart, `txEnd, `out, `waitingForAck, `ackTimeoutCount
      ensures Valid()
      ensures rc == SUCCESS <==> MIN_PAYLOAD_LENGTH < |data| <= MAX_PAYLOAD_LENGTH && destination < NUM_OF_NODES
      ensures rc == SUCCESS ==>
        role == TX && txStart == put % 256 && out == old(out) + Frame(IcpPacket(destination, mac, data))[..put]
    {
      rc := SendPacket(destination, data);
      if rc == SUCCESS {
        FrameSize(IcpPacket(destination, mac, data));
        hide Frame, Parse;
        assert tx[0..put] == tx[..txEnd + 1][..put];
        var busy := Update(true, true, put);
      }
    }

    // A packet is sent and the bus reserved n times: the frame goes out in the first reservation. One of at most 255
    // bytes goes out only then; of a longer one all but the first |frame| % 256 bytes go out again in every
    // reservation.
    method SendRepeatedly(destination: Byte, data: seq<Byte>, n: nat) returns (rc: ReturnCode)
      requires Valid() && role == NO_ROLE && |data| < 65536 && n > 0
      modifies rx, tx, `rxPos, `role, `delivered, `txStart, `txEnd, `out, `waitingForAck, `ackTimeoutCount
      ensures Valid() && role == NO_ROLE
      ensures rc == SUCCESS <==> MIN_PAYLOAD_LENGTH < |data| <= MAX_PAYLOAD_LENGTH && destination < NUM_OF_NODES
      ensures rc == SUCCESS ==>
        var f := Frame(IcpPacket(destination, mac, data));
        out == old(out) + f + if |f| <= 255 then [] else Repeated(f[|f| % 256..], n - 1)
    {
      rc := SendFirst(destination, data);
      if rc != SUCCESS { return; }
      ghost var f := Frame(IcpPacket(destination, mac, data));
      ghost var again := if |f| <= 255 then [] else f[|f| % 256..];
      ghost var sent := old(out) + f;
      RepeatedNone(again);
      NothingRepeated(n - 1);
      hide Reported, Frame, Repeated;
      for k := 1 to n
        invariant Valid() && role == NO_ROLE && Reported(f)
        invariant out == sent + Repeated(again, k - 1)
      {
        RepeatedOnce(sent, again, k - 1);
        ReserveAgain(f);
      }
    }

    // ---------------- receiving ----------------

    // The bytes of a transmission, from the access signal on, in chunks
    method TakeIn(chunks: seq<seq<Byte>>)
      requires Valid() && rxPos == 0 && 0 < |Flat(chunks)| < BUFFER_LEN
      requires forall i :: 0 <= i < |chunks| ==> chunks[i] != []
      modifies rx, `rxPos, `role, `destinationReceived, `wrongRecipients
      ensures Valid() && destinationReceived
      ensures role == if Flat(chunks)[0] == mac then RX else if listenToAll then LISTEN_IN else NO_ROLE
      ensures if role == NO_ROLE then rxPos == 0 else rxPos > 0 && rx[..] == Filled(Flat(chunks))
    {
      AccessActive();
      NotNothing(chunks);
      ghost var first := Flat(chunks)[0];
      for k := 0 to |chunks|
        invariant Valid()
        invariant k == 0 ==> role == RX && !destinationReceived && rxPos == 0
        invariant k > 0 ==>
          destinationReceived && role == if first == mac then RX else if listenToAll then LISTEN_IN else NO_ROLE
        invariant if role == NO_ROLE then rxPos == 0 else rx[..rxPos] == Flat(chunks[..k])
      {
        PartOfAll(chunks, k);
        hide Flat;
        var rc := BytesIn(chunks[k], |chunks[k]|);
        assert chunks[k][..|chunks[k]|] == chunks[k];
      }
      assert chunks[..|chunks|] == chunks;
      assert rx[..] == rx[..rxPos] + rx[rxPos..];
    }

    // The first `put` bytes of the frame of p come in
    method ReceivePart(p: IcpPacket, put: nat, chunks: seq<seq<Byte>>)
      requires Valid() && rxPos == 0 && Deliverable(p) && 0 < put <= |Frame(p)|
      requires Flat(chunks) == Frame(p)[..put] && forall i :: 0 <= i < |chunks| ==> chunks[i] != []
      modifies rx, `rxPos, `role, `destinationReceived, `wrongRecipients, `delivered
      ensures Valid()
      ensures delivered == old(delivered) + [p] <==>
        (p.destination == mac || listenToAll) && FilledFrom(Frame(p), put)
    {
      FrameSize(p);
      Arrives(p, put);
      hide Frame, Flat, Parse, FilledFrom, Filled;
      ghost var was := delivered;
      TakeIn(chunks);
      ProcessRx();
      assert delivered == was + [p] ==> delivered[|was|] == p;
    }

    // A whole transmission, from the access signal to the processing of the buffer
    method Receive(p: IcpPacket, chunks: seq<seq<Byte>>)
      requires Valid() && rxPos == 0 && Deliverable(p)
      requires Flat(chunks) == Frame(p) && forall i :: 0 <= i < |chunks| ==> chunks[i] != []
      modifies rx, `rxPos, `role, `destinationReceived, `wrongRecipients, `delivered
      ensures Valid() && rxPos == 0 && role == NO_ROLE
      ensures delivered == old(delivered) + if p.destination == mac || listenToAll then [p] else []
    {
      FrameSize(p);
      hide Frame, Flat, Parse;
      TakeIn(chunks);
      FrameParses(p, Filled(Frame(p)));
      ProcessRx();
    }
  }

  // What a receive buffer holds after the bytes s
  function Filled(s: seq<Byte>): seq<Byte>
    requires |s| <= BUFFER_LEN
  {
    s + seq(BUFFER_LEN - |s|, _ => 0xFF)
  }

  function Repeated(s: seq<Byte>, n: nat): seq<Byte> {
    if n == 0 then [] else Repeated(s, n - 1) + s
  }

  lemma RepeatedNone(s: seq<Byte>)
    ensures Repeated(s, 0) == []
  { }

  lemma RepeatedOnce(t: seq<Byte>, s: seq<Byte>, n: nat)
    ensures t + Repeated(s, n) + s == t + Repeated(s, n + 1)
  { }

  lemma {:induction false} NothingRepeated(n: nat)
    ensures Repeated([], n) == []
  {
    if n > 0 { NothingRepeated(n - 1); }
  }

  // What is left of a frame after the report of the host is reported as nothing
  lemma TailOf(length: nat)
    ensures (length - length % 256) % 256 == 0
    ensures length <= 255 <==> length % 256 == length
  { }

  lemma FrameSize(p: IcpPacket)
    requires |p.data| < 65536
    ensures |Frame(p)| == 6 + |p.data| && Frame(p)[0] == p.destination
  {
    hide Checksum;
  }

  lemma PartOfAll(chunks: seq<seq<Byte>>, k: nat)
    requires k < |chunks| && |Flat(chunks)| < BUFFER_LEN && forall i :: 0 <= i < |chunks| ==> chunks[i] != []
    ensures |Flat(chunks[..k])| + |chunks[k]| < BUFFER_LEN
    ensures Flat(chunks[..k + 1]) == Flat(chunks[..k]) + chunks[k]
    ensures k == 0 ==> Flat(chunks[..k]) == [] && chunks[k][0] == Flat(chunks)[0]
  {
    assert chunks[..k + 1] == chunks[..k] + [chunks[k]];
    FlatAppend(chunks[..k], chunks[k]);
    FlatConcat(chunks[..k + 1], chunks[k + 1..]);
    assert chunks == chunks[..k + 1] + chunks[k + 1..];
  }

  lemma NotNothing(chunks: seq<seq<Byte>>)
    requires |Flat(chunks)| > 0
    ensures |chunks| > 0
  { }

  // The host of a puts out the first `put` bytes of a frame in one reservation, and they reach b: the packet arrives
  // exactly if b is addressed or listens to all, and the bytes that do not come, if any, are those that b's buffer is
  // filled with anyhow
  method AcrossBus(a: Node, b: Node, destination: Byte, data: seq<Byte>, put: nat, chunks: seq<seq<Byte>>)
    returns (rc: ReturnCode)
    requires a != b && {a.rx, a.tx} !! {b.rx, b.tx} && a.Valid() && b.Valid()
    requires a.role == NO_ROLE && a.mac < NUM_OF_NODES && b.rxPos == 0 && |data| < 65536
    requires var f := Frame(IcpPacket(destination, a.mac, data));
      0 < put <= |f| && Flat(chunks) == f[..put] && forall i :: 0 <= i < |chunks| ==> chunks[i] != []
    modifies a, a.rx, a.tx, b, b.rx
    ensures rc == SUCCESS <==> MIN_PAYLOAD_LENGTH < |data| <= MAX_PAYLOAD_LENGTH && destination < NUM_OF_NODES
    ensures a.Valid() && b.Valid()
    ensures rc == SUCCESS ==>
      var p := IcpPacket(destination, a.mac, data);
      && a.out == old(a.out) + Flat(chunks) && a.role == TX
      && (b.delivered == old(b.delivered) + [p] <==>
        (destination == b.mac || b.listenToAll) && FilledFrom(Frame(p), put))
  {
    rc := a.SendPart(destination, data, put);
    if rc != SUCCESS { return; }
    hide Frame, Flat, Parse, FilledFrom;
    b.ReceivePart(IcpPacket(destination, a.mac, data), put, chunks);
  }

  // From place k on s is what a receive buffer is filled with
  ghost predicate FilledFrom(s: seq<Byte>, k: nat) { forall i :: k <= i < |s| ==> s[i] == 0xFF }

  lemma Arrives(p: IcpPacket, put: nat)
    requires Deliverable(p) && put <= |Frame(p)| <= BUFFER_LEN
    ensures Parse(Filled(Frame(p)[..put])) == Parsed(p) <==> FilledFrom(Frame(p), put)
  {
    var f := Frame(p);
    var s := Filled(f[..put]);
    hide Parse, Frame;
    ParsesExactly(p, s);
    if f <= s {
      forall i | put <= i < |f| ensures f[i] == 0xFF { assert f[i] == s[i]; }
    }
    if FilledFrom(f, put) {
      assert s[..|f|] == f;
    }
  }
}
