/** Both ends of a connection: what reaches the reader is a beginning of the packets that the writer accepted. */
module Connection {
  import opened Wire
  import SocketReader
  import SocketWriter

  // ---------------- the first packet of a stream that breaks off ----------------

  // A beginning of a stream of packets holds the first of them whole, or no packet at all, and is never malformed
  lemma FirstOfPart(ps: seq<Packet>, s: seq<Byte>)
    requires AllSendable(ps) && s <= Stream(ps)
    ensures !FirstOf(s).Malformed?
    ensures FirstOf(s).Found? ==>
      ps != [] && FirstOf(s) == Found(ps[0], |BytesOf(ps[0])|) && s == BytesOf(ps[0]) + s[|BytesOf(ps[0])|..]
  {
    if ps != [] {
      var b, behind := BytesOf(ps[0]), Stream(ps[1..]);
      hide FirstOf;
      if |b| <= |s| {
        assert s == b + s[|b|..];
        FirstOfBytes(ps[0], s[|b|..]);
      } else {
        assert b == s + b[|s|..] && b + [] == b;
        FirstOfBytes(ps[0], []);
        if FirstOf(s).Found? { FirstStable(s, b[|s|..]); }
        if FirstOf(s).Malformed? { MalformedStable(s, b[|s|..]); }
      }
    }
  }

  lemma MalformedStable(s: seq<Byte>, rest: seq<Byte>)
    requires FirstOf(s).Malformed?
    ensures FirstOf(s + rest).Malformed?
  {
    assert (s + rest)[1..] == s[1..] + rest;
    DecodeStable(s[1..], rest, MAX_NO_OF_REMAINING_LENGTH_BYTES);
  }

  ghost predicate AllSendable(ps: seq<Packet>) {
    forall i :: 0 <= i < |ps| ==> |ps[i].data| <= MAX_REMAINING_LENGTH
  }

  lemma {:induction false} StreamParts(a: seq<Packet>, b: seq<Packet>)
    ensures Stream(a + b) == Stream(a) + Stream(b)
  {
    hide BytesOf;
    if a == [] {
      assert a + b == b;
    } else {
      StreamParts(a[1..], b);
      assert (a + b)[1..] == a[1..] + b && (a + b)[0] == a[0];
      Associates(BytesOf(a[0]), Stream(a[1..]), Stream(b));
    }
  }

  lemma StreamOne(p: Packet)
    ensures Stream([p]) == BytesOf(p)
  {
    assert Stream([p][1..]) == [];
  }

  // ---------------- the two ends, by value ----------------

  datatype Action = Send(p: Packet, bufs: seq<seq<Byte>>, taken: SocketWriter.Outcome)
    | GoOn(taken: SocketWriter.Outcome) | Receive

  // Packets are given to the writer as they are, in any buffers that hold their bytes
  ghost predicate Possible(action: Action) {
    action.Send? ==> |action.p.data| <= MAX_REMAINING_LENGTH && Flat(action.bufs) == BytesOf(action.p)
  }

  datatype Ends = Ends(
    accepted: seq<Packet>,         // the packets taken for writing
    line: SocketWriter.Line,       // what the connection has taken of them, and what is pending
    unread: seq<Byte>,             // what the connection has taken and the reader has not made packets of
    got: seq<Packet>,              // the packets read
    failed: bool,                  // the connection has failed at the reader
    closed: bool,                  // the reader has met an error and closed its end
    reading: nat,                  // the reads so far
    short: nat)                    // those that were cut short

  const START := Ends([], SocketWriter.Line([], SocketWriter.Nothing, false), [], [], false, false, 0, 0)

  // What an action does to the writing end. A packet is accepted unless a write is pending or the system call fails.
  function Written(accepted: seq<Packet>, line: SocketWriter.Line, action: Action): (seq<Packet>, SocketWriter.Line) {
    match action
    case Send(p, bufs, taken) =>
      if line.pending.Due? || taken.Fails? then (accepted, line)
      else (accepted + [p], SocketWriter.LinePut(line, BytesOf(p), bufs, taken))
    case GoOn(taken) =>
      if line.pending.Nothing? then (accepted, line) else (accepted, SocketWriter.LineContinued(line, taken))
    case Receive => (accepted, line)
  }

  function WrittenAll(script: seq<Action>): (seq<Packet>, SocketWriter.Line) {
    if script == [] then (START.accepted, START.line)
    else
      var (accepted, line) := WrittenAll(script[..|script| - 1]);
      Written(accepted, line, script[|script| - 1])
  }

  // A read takes the first packet, or is cut short, or fails, and then the end is closed
  ghost predicate Reads(a: Ends, b: Ends) {
    var first := FirstOf(a.unread);
    || (first.Found? &&
        b == a.(got := a.got + [first.p], unread := a.unread[first.used..], reading := a.reading + 1))
    || b == a.(short := a.short + 1, reading := a.reading + 1)
    || (b == a.(failed := b.failed, closed := true, unread := b.unread, reading := a.reading + 1) &&
        (b.failed || first.Malformed?))
  }

  ghost predicate Steps(a: Ends, b: Ends, action: Action) {
    if action.Receive? then
      if a.closed then b == a else Reads(a, b)
    else
      var (accepted, line) := Written(a.accepted, a.line, action);
      && a.line.sent <= line.sent
      && b == a.(accepted := accepted, line := line, unread := a.unread + line.sent[|a.line.sent|..])
  }

  ghost predicate Traced(trace: seq<Ends>, script: seq<Action>) {
    && |trace| == |script| + 1 && trace[0] == START
    && forall i :: 0 <= i < |script| ==> Possible(script[i]) && Steps(trace[i], trace[i + 1], script[i])
  }

  // The packets accepted are those that the script alone tells
  lemma {:induction false} TraceWrites(trace: seq<Ends>, script: seq<Action>, i: nat)
    requires Traced(trace, script) && i <= |script|
    ensures (trace[i].accepted, trace[i].line) == WrittenAll(script[..i])
  {
    if i > 0 {
      TraceWrites(trace, script, i - 1);
      assert script[..i][..i - 1] == script[..i - 1];
      assert Steps(trace[i - 1], trace[i], script[i - 1]);
    }
  }

  // The bytes that are still to be written
  ghost function Rest(pending: SocketWriter.Pending): seq<Byte> {
    match pending
    case Nothing => []
    case Due(bufs, bytes) => if bytes <= |Flat(bufs)| then Flat(bufs)[bytes..] else []
  }

  // As long as neither end has failed, the bytes of the packets accepted are those of the packets read, and then those
  // still to be read, and then those still to be written
  ghost predicate Sound(e: Ends) {
    && AllSendable(e.accepted)
    && (e.line.pending.Due? ==> e.line.pending.bytes < |Flat(e.line.pending.bufs)|)
    && (!e.line.broken ==>
        && e.got <= e.accepted
        && Stream(e.accepted) == e.line.sent + Rest(e.line.pending)
        && (!e.failed ==> e.line.sent == Stream(e.got) + e.unread)
        && (e.closed ==> e.failed))
    && (!e.closed ==> !e.failed && |e.got| + e.short == e.reading)
  }

  lemma AcceptedMore(accepted: seq<Packet>, got: seq<Packet>, p: Packet)
    requires AllSendable(accepted) && |p.data| <= MAX_REMAINING_LENGTH
    ensures AllSendable(accepted + [p]) && Stream(accepted + [p]) == Stream(accepted) + BytesOf(p)
    ensures got <= accepted ==> got <= accepted + [p]
  {
    StreamParts(accepted, [p]);
    StreamOne(p);
  }

  // What is taken and what is left of some bytes
  lemma Split(sent: seq<Byte>, all: seq<Byte>, n: nat)
    requires n <= |all|
    ensures sent + all == sent + all[..n] + all[n..] && sent <= sent + all[..n]
    ensures (sent + all[..n])[|sent|..] == all[..n]
  {
  }

  lemma SendSound(a: Ends, b: Ends, p: Packet, bufs: seq<seq<Byte>>, taken: SocketWriter.Outcome)
    requires Sound(a) && Steps(a, b, Send(p, bufs, taken)) && Possible(Send(p, bufs, taken))
    ensures Sound(b)
  {
    var all := BytesOf(p);
    hide Stream, AllSendable, BytesOf, Flat;
    if a.line.pending.Due? || taken.Fails? {
      assert a.unread + [] == a.unread;
    } else {
      AcceptedMore(a.accepted, a.got, p);
      var n := SocketWriter.Taken(taken, |all|);
      Split(a.line.sent, all, n);
      assert a.line.sent + [] == a.line.sent && (n == |all| ==> all[n..] == []);
      assert Stream(a.got) + a.unread + all[..n] == Stream(a.got) + (a.unread + all[..n]);
    }
  }

  lemma GoOnSound(a: Ends, b: Ends, taken: SocketWriter.Outcome)
    requires Sound(a) && Steps(a, b, GoOn(taken))
    ensures Sound(b)
  {
    hide Stream, AllSendable, Flat, SocketWriter.Offered;
    if a.line.pending.Nothing? || taken.Fails? {
      assert a.unread + [] == a.unread;
    } else {
      var bufs, bytes := a.line.pending.bufs, a.line.pending.bytes;
      var offered, rest := SocketWriter.Offered(bufs, bytes), Flat(bufs)[bytes..];
      SocketWriter.OfferedOfRest(bufs, bytes);
      var n := SocketWriter.Taken(taken, |offered|);
      assert offered[..n] == rest[..n] && rest[n..] == Flat(bufs)[bytes + n..];
      Split(a.line.sent, rest, n);
      assert Stream(a.got) + a.unread + rest[..n] == Stream(a.got) + (a.unread + rest[..n]);
    }
  }

  lemma CutFront(a: seq<Byte>, x: seq<Byte>, b: seq<Byte>)
    requires a + x <= a + b
    ensures x <= b && (a + x == a + b ==> x == b)
  {
    var s, t := a + x, a + b;
    assert s[|a|..] == x && t[|a|..] == b;
    forall i | 0 <= i < |x| ensures x[i] == b[i] {
      assert s[|a| + i] == t[|a| + i];
    }
  }

  // What is pending at the reader is a beginning of the packets that it has not got
  lemma PendingIsPart(accepted: seq<Packet>, got: seq<Packet>, sent: seq<Byte>, pending: seq<Byte>)
    requires got <= accepted && sent <= Stream(accepted) && sent == Stream(got) + pending
    ensures pending <= Stream(accepted[|got|..]) && (sent == Stream(accepted) ==> pending == Stream(accepted[|got|..]))
  {
    hide Stream;
    assert accepted == got + accepted[|got|..];
    StreamParts(got, accepted[|got|..]);
    CutFront(Stream(got), pending, Stream(accepted[|got|..]));
  }

  // The packet that is read is the next of those accepted
  lemma NextGot(accepted: seq<Packet>, got: seq<Packet>, sent: seq<Byte>, pending: seq<Byte>, p: Packet,
      after: seq<Byte>)
    requires AllSendable(accepted) && got <= accepted && sent <= Stream(accepted) && sent == Stream(got) + pending
    requires SocketReader.TakesFirst(pending, p, after)
    ensures got + [p] <= accepted && sent == Stream(got + [p]) + after
  {
    hide Stream, FirstOf;
    PendingIsPart(accepted, got, sent, pending);
    FirstOfPart(accepted[|got|..], pending);
    assert p == accepted[|got|];
    StreamParts(got, [p]);
    StreamOne(p);
    assert Stream(got) + (BytesOf(p) + after) == Stream(got) + BytesOf(p) + after;
  }

  lemma NeverMalformed(accepted: seq<Packet>, got: seq<Packet>, sent: seq<Byte>, pending: seq<Byte>)
    requires AllSendable(accepted) && got <= accepted && sent <= Stream(accepted) && sent == Stream(got) + pending
    ensures !FirstOf(pending).Malformed?
  {
    hide Stream, FirstOf;
    PendingIsPart(accepted, got, sent, pending);
    FirstOfPart(accepted[|got|..], pending);
  }

  lemma ReadSound(a: Ends, b: Ends)
    requires Sound(a) && Steps(a, b, Receive)
    ensures Sound(b)
  {
    if !a.closed && !a.line.broken {
      assert a.line.sent <= Stream(a.accepted);
      hide Stream, FirstOf, AllSendable;
      NeverMalformed(a.accepted, a.got, a.line.sent, a.unread);
      var first := FirstOf(a.unread);
      if first.Found? {
        NextGot(a.accepted, a.got, a.line.sent, a.unread, first.p, a.unread[first.used..]);
      }
    }
  }

  lemma {:induction false} TraceSound(trace: seq<Ends>, script: seq<Action>, i: nat)
    requires Traced(trace, script) && i <= |script|
    ensures Sound(trace[i])
  {
    if i > 0 {
      TraceSound(trace, script, i - 1);
      var a, b := trace[i - 1], trace[i];
      assert Steps(a, b, script[i - 1]);
      hide Sound, Steps;
      match script[i - 1]
      case Send(p, bufs, taken) => SendSound(a, b, p, bufs, taken);
      case GoOn(taken) => GoOnSound(a, b, taken);
      case Receive => ReadSound(a, b);
    }
  }

  // With nothing pending at the writer, the bytes of all packets that are not read are pending at the reader
  lemma AllRead(accepted: seq<Packet>, got: seq<Packet>, pending: seq<Byte>)
    requires got <= accepted && Stream(accepted) == Stream(got) + pending
    ensures pending == Stream(accepted[|got|..]) && (got == accepted <==> pending == [])
  {
    PendingIsPart(accepted, got, Stream(accepted), pending);
    assert accepted[|got|..] == [] <==> got == accepted;
  }

  // The packets read are a beginning of those accepted, in order and each once; when nothing is pending at the writer,
  // the bytes of all the others are pending at the reader; each read that is not cut short brings a packet
  ghost predicate Delivers(e: Ends) {
    && (!e.line.broken ==> e.got <= e.accepted)
    && (!e.line.broken && !e.failed ==> |e.got| + e.short == e.reading)
    && (!e.line.broken && !e.failed && e.line.pending.Nothing? ==>
        e.got <= e.accepted && e.unread == Stream(e.accepted[|e.got|..]) && (e.got == e.accepted <==> e.unread == []))
  }

  lemma TraceDelivers(trace: seq<Ends>, script: seq<Action>)
    requires Traced(trace, script)
    ensures forall i :: 0 <= i <= |script| ==> Delivers(trace[i])
    ensures (trace[|script|].accepted, trace[|script|].line) == WrittenAll(script)
  {
    assert |trace| == |script| + 1;
    hide Traced, WrittenAll;
    forall i | 0 <= i <= |script| ensures Delivers(trace[i]) {
      var e := trace[i];
      TraceSound(trace, script, i);
      hide Stream, AllSendable;
      if !e.line.broken && !e.failed && e.line.pending.Nothing? {
        assert e.line.sent + [] == e.line.sent;
        AllRead(e.accepted, e.got, e.unread);
      }
    }
    TraceWrites(trace, script, |script|);
    assert script[..|script|] == script;
  }

  function Receives(script: seq<Action>): nat {
    if script == [] then 0
    else Receives(script[..|script| - 1]) + if script[|script| - 1].Receive? then 1 else 0
  }

  // Until the reader has closed its end, every Receive of the script is a read
  lemma {:induction false} TraceReads(trace: seq<Ends>, script: seq<Action>, i: nat)
    requires Traced(trace, script) && i <= |script|
    ensures trace[i].reading <= Receives(script[..i])
    ensures !trace[i].closed ==> trace[i].reading == Receives(script[..i])
  {
    if i > 0 {
      TraceReads(trace, script, i - 1);
      assert script[..i][..i - 1] == script[..i - 1];
      assert Steps(trace[i - 1], trace[i], script[i - 1]);
      hide FirstOf, Written;
    }
  }

  // ---------------- a writer and a reader ----------------

  // The objects that a read may change
  ghost function Footprint(r: SocketReader.Reader): set<object>
    reads r
  {
    {r, r.defQueue} + set q | q in r.queues
  }

  // Socket s of the writer and socket t of the reader are in this state
  ghost predicate Shows(w: SocketWriter.Writer, r: SocketReader.Reader, s: int, t: int, e: Ends)
    reads w, r, r.queues, r.defQueue
  {
    && w.Valid() && r.Valid() && t != 0 && t in r.unread
    && Writes(w, s, e.accepted, e.line)
    && e.unread == r.Pending(t) && e.failed == (t in r.broken) && e.short == r.shortReads
  }

  ghost predicate Writes(w: SocketWriter.Writer, s: int, accepted: seq<Packet>, line: SocketWriter.Line)
    reads w
  {
    && s in w.sent && s in w.accepted && w.accepted[s] == Stream(accepted)
    && line == SocketWriter.Line(w.sent[s], SocketWriter.PendingAt(w.writes, s), s in w.broken)
  }

  method Put(w: SocketWriter.Writer, s: int, p: Packet, bufs: seq<seq<Byte>>, taken: SocketWriter.Outcome,
      ghost accepted: seq<Packet>, ghost line: SocketWriter.Line) returns (ok: bool)
    requires w.Valid() && Writes(w, s, accepted, line) && Flat(bufs) == BytesOf(p)
    modifies w
    ensures w.Valid() && s in w.sent && old(w.sent[s]) <= w.sent[s] && (ok <==> !(line.pending.Due? || taken.Fails?))
    ensures var (accepted', line') := Written(accepted, line, Send(p, bufs, taken)); Writes(w, s, accepted', line')
  {
    assert BytesOf(p) != [];
    SocketWriter.NothingDue(w.writes, s);
    StreamParts(accepted, [p]);
    StreamOne(p);
    hide SocketWriter.Writer.Valid, Flat, SocketWriter.Find, SocketWriter.DueIn, SocketWriter.OthersSame, Stream,
      BytesOf, SocketWriter.Taken, SocketWriter.PendingAt;
    var rc := w.PutDatas(s, bufs, taken);
    w.SameKeys();
    ok := rc != SocketWriter.Code.ERROR;
  }

  method GoOnWith(w: SocketWriter.Writer, s: int, taken: SocketWriter.Outcome, ghost accepted: seq<Packet>,
      ghost line: SocketWriter.Line)
    requires w.Valid() && Writes(w, s, accepted, line)
    modifies w
    ensures w.Valid() && s in w.sent && old(w.sent[s]) <= w.sent[s]
    ensures var (accepted', line') := Written(accepted, line, GoOn(taken)); Writes(w, s, accepted', line')
  {
    SocketWriter.NothingDue(w.writes, s);
    hide SocketWriter.Writer.Valid, Flat, BytesOf, SocketWriter.Find, SocketWriter.DueIn, SocketWriter.OthersSame,
      Stream, SocketWriter.Taken, SocketWriter.PendingAt, SocketWriter.Continued, SocketWriter.LineContinued,
      SocketWriter.LinePut;
    var k := w.FindWrite(s);
    if k >= 0 {
      GoOnAt(w, s, taken, line);
    }
  }

  method GoOnAt(w: SocketWriter.Writer, s: int, taken: SocketWriter.Outcome, ghost line: SocketWriter.Line)
    requires w.Valid() && SocketWriter.Find(w.writes, s) >= 0 && s in w.sent && s in w.accepted
    requires line == SocketWriter.Line(w.sent[s], SocketWriter.PendingAt(w.writes, s), s in w.broken)
    modifies w
    ensures w.Valid() && s in w.sent && old(w.sent[s]) <= w.sent[s] && w.accepted == old(w.accepted)
    ensures line.pending.Due? && SocketWriter.LineContinued(line, taken) ==
      SocketWriter.Line(w.sent[s], SocketWriter.PendingAt(w.writes, s), s in w.broken)
  {
    hide SocketWriter.Writer.Valid, Flat, SocketWriter.Find, SocketWriter.DueIn, SocketWriter.OthersSame,
        SocketWriter.Taken, SocketWriter.PendingAt, SocketWriter.Continued, SocketWriter.LineContinued;
    var done;
    ghost var offered;
    done, offered := w.ContinueWrite(s, taken);
    w.SameKeys();
    SocketWriter.LineGoesOn(line, taken, offered, SocketWriter.PendingAt(w.writes, s));
  }

  // What the connection has taken is at the reader
  method HandOver(w: SocketWriter.Writer, r: SocketReader.Reader, s: int, t: int, n: nat)
    requires s in w.sent && n <= |w.sent[s]| && r.Valid() && t in r.unread
    modifies r`unread
    ensures r.Valid() && t in r.unread && r.Pending(t) == old(r.Pending(t)) + w.sent[s][n..]
  {
    hide SocketReader.Reader.Valid, SocketReader.Reader.Pending;
    r.Arrive(t, w.sent[s][n..]);
  }

  // The writer's part, which leaves the reader alone
  method WriteBeside(w: SocketWriter.Writer, r: SocketReader.Reader, s: int, ghost t: int, action: Action,
      ghost accepted: seq<Packet>, ghost line: SocketWriter.Line) returns (ok: bool)
    requires w.Valid() && r.Valid() && Writes(w, s, accepted, line) && !action.Receive? && Possible(action)
    modifies w
    ensures w.Valid() && s in w.sent && old(w.sent[s]) <= w.sent[s] && r.Valid() && r.Pending(t) == old(r.Pending(t))
    ensures var (accepted', line') := Written(accepted, line, action); Writes(w, s, accepted', line')
    ensures ok <==> action.Send? && !(line.pending.Due? || action.taken.Fails?)
  {
    ok := false;
    hide SocketWriter.Writer.Valid, SocketReader.Reader.Valid, SocketReader.Reader.Pending, Flat, BytesOf, Written,
      Writes, Stream;
    match action {
      case Send(p, bufs, taken) => ok := Put(w, s, p, bufs, taken, accepted, line);
      case GoOn(taken) => GoOnWith(w, s, taken, accepted, line);
    }
    assert unchanged(r, r.queues, r.defQueue);
  }

  method WriteOne(w: SocketWriter.Writer, r: SocketReader.Reader, s: int, t: int, action: Action, ghost e: Ends)
    returns (ghost e': Ends, ok: bool)
    requires Shows(w, r, s, t, e) && !action.Receive? && Possible(action)
    modifies w, r`unread
    ensures Shows(w, r, s, t, e') && Steps(e, e', action)
    ensures ok <==> action.Send? && !(e.line.pending.Due? || action.taken.Fails?)
  {
    var n := |w.sent[s]|;
    hide SocketWriter.Writer.Valid, SocketReader.Reader.Valid, SocketReader.Reader.Pending, Stream, Flat, BytesOf,
      Written, SocketWriter.PendingAt, Possible;
    ok := WriteBeside(w, r, s, t, action, e.accepted, e.line);
    HandOver(w, r, s, t, n);
    ghost var (accepted, line) := Written(e.accepted, e.line, action);
    e' := e.(accepted := accepted, line := line, unread := e.unread + line.sent[|e.line.sent|..]);
  }

  method ReadOne(w: SocketWriter.Writer, r: SocketReader.Reader, s: int, t: int, ghost e: Ends)
    returns (ghost e': Ends, rc: SocketReader.Code, p: Packet)
    requires Shows(w, r, s, t, e) && !e.closed && !e.failed
    modifies Footprint(r)
    ensures Shows(w, r, s, t, e') && Steps(e, e', Receive) && unchanged(w)
    ensures e'.got == e.got + (if rc == SocketReader.Code.COMPLETE then [p] else [])
    ensures e'.closed == (rc == SocketReader.Code.ERROR) && e'.reading == e.reading + 1
    ensures fresh(Footprint(r) - old(Footprint(r)))
  {
    hide SocketWriter.Writer.Valid, SocketReader.Reader.Valid, SocketReader.Reader.Pending, FirstOf, Writes;
    assert e.got + [] == e.got;
    ghost var gone;
    rc, p, gone := r.Read(t);
    assert unchanged(w);
    ghost var next := e.(unread := r.Pending(t), failed := t in r.broken, short := r.shortReads,
                          reading := e.reading + 1);
    match rc
    case COMPLETE => e' := next.(got := e.got + [p]);
    case INTERRUPTED => e' := next;
    case ERROR => e' := next.(closed := true);
  }

  method Perform(w: SocketWriter.Writer, r: SocketReader.Reader, s: int, t: int, action: Action,
      accepted: seq<Packet>, got: seq<Packet>, closed: bool, reading: nat, ghost e: Ends)
    returns (accepted': seq<Packet>, got': seq<Packet>, closed': bool, reading': nat, ghost e': Ends)
    requires Shows(w, r, s, t, e) && w !in Footprint(r) && Possible(action) && (e.failed ==> e.closed)
    requires accepted == e.accepted && got == e.got && closed == e.closed && reading == e.reading
    modifies w, Footprint(r)
    ensures Shows(w, r, s, t, e') && Steps(e, e', action)
    ensures accepted' == e'.accepted && got' == e'.got && closed' == e'.closed && reading' == e'.reading
    ensures fresh(Footprint(r) - old(Footprint(r))) && w !in Footprint(r)
  {
    accepted', got', closed', reading', e' := accepted, got, closed, reading, e;
    hide Shows, FirstOf, Stream, BytesOf, Flat, SocketWriter.LinePut, SocketWriter.LineContinued;
    if !action.Receive? {
      var ok;
      e', ok := WriteOne(w, r, s, t, action, e);
      if ok { accepted' := accepted + [action.p]; }
    } else if !closed {
      var rc, p;
      e', rc, p := ReadOne(w, r, s, t, e);
      got' := got + if rc == SocketReader.Code.COMPLETE then [p] else [];
      closed' := rc == SocketReader.Code.ERROR;
      reading' := reading + 1;
    }
  }

  method OpenReader(t: int) returns (r: SocketReader.Reader)
    requires t != 0
    ensures fresh(Footprint(r)) && r.Valid() && t in r.unread && r.Pending(t) == [] && r.broken == {} &&
      r.shortReads == 0
  {
    r := new SocketReader.Reader();
    assert r.Pending(t) == [];
    hide SocketReader.Reader.Valid, SocketReader.Reader.Pending;
    r.Arrive(t, []);
  }

  method OpenWriter(s: int) returns (w: SocketWriter.Writer)
    ensures fresh(w) && w.Valid() && Writes(w, s, [], START.line)
  {
    assert Stream([]) == [];
    w := new SocketWriter.Writer();
    hide SocketWriter.Writer.Valid;
    w.Open(s);
  }

  method Open(s: int, t: int) returns (w: SocketWriter.Writer, r: SocketReader.Reader)
    requires t != 0
    ensures fresh(w) && fresh(Footprint(r)) && w !in Footprint(r) && Shows(w, r, s, t, START)
  {
    hide SocketReader.Reader.Valid, SocketReader.Reader.Pending, SocketWriter.Writer.Valid, Writes;
    w := OpenWriter(s);
    r := OpenReader(t);
  }

  lemma TraceStarts()
    ensures Traced([START], [])
  {
  }

  lemma TraceGrows(trace: seq<Ends>, script: seq<Action>, action: Action, e: Ends)
    requires Traced(trace, script) && Possible(action) && Steps(trace[|script|], e, action)
    ensures Traced(trace + [e], script + [action])
  {
    hide Steps, Possible;
    var t := trace + [e];
    forall i | 0 <= i < |script| + 1
      ensures Possible((script + [action])[i]) && Steps(t[i], t[i + 1], (script + [action])[i])
    {
      assert t[i] == trace[i];
    }
  }

  lemma FailedIsClosed(trace: seq<Ends>, script: seq<Action>)
    requires Traced(trace, script)
    ensures trace[|script|].failed ==> trace[|script|].closed
  {
    hide Traced;
    TraceSound(trace, script, |script|);
  }

  lemma Finally(w: SocketWriter.Writer, r: SocketReader.Reader, s: int, t: int, trace: seq<Ends>, script: seq<Action>)
    requires Traced(trace, script) && Shows(w, r, s, t, trace[|script|])
    ensures var e := trace[|script|];
      && e.accepted == WrittenAll(script).0
      && (s !in w.broken ==> e.got <= e.accepted)
      && (s !in w.broken && t !in r.broken ==> e.reading == Receives(script) && |e.got| + r.shortReads == e.reading)
      && (s !in w.broken && t !in r.broken && s !in w.writePending ==>
          r.Pending(t) == Stream(e.accepted[|e.got|..]) && (e.got == e.accepted <==> r.Pending(t) == []))
  {
    TraceDelivers(trace, script);
    TraceSound(trace, script, |script|);
    TraceReads(trace, script, |script|);
    assert script[..|script|] == script;
    w.PendingIsDue(s);
    SocketWriter.NothingDue(w.writes, s);
  }

  // The ends as the script goes on
  ghost predicate Along(w: SocketWriter.Writer, r: SocketReader.Reader, s: int, t: int, trace: seq<Ends>,
      script: seq<Action>)
    reads w, r, r.queues, r.defQueue
  {
    Traced(trace, script) && Shows(w, r, s, t, trace[|script|])
  }

  lemma AlongGrows(w: SocketWriter.Writer, r: SocketReader.Reader, s: int, t: int, trace: seq<Ends>,
      script: seq<Action>, i: nat, e: Ends)
    requires i < |script| && Traced(trace, script[..i]) && Possible(script[i]) && Steps(trace[i], e, script[i])
    requires Shows(w, r, s, t, e)
    ensures Along(w, r, s, t, trace + [e], script[..i + 1])
  {
    hide Steps, Possible, Shows;
    assert script[..i + 1] == script[..i] + [script[i]];
    TraceGrows(trace, script[..i], script[i], e);
  }

  ghost predicate Holds(e: Ends, accepted: seq<Packet>, got: seq<Packet>, closed: bool, reading: nat) {
    accepted == e.accepted && got == e.got && closed == e.closed && reading == e.reading
  }

  method PerformNext(w: SocketWriter.Writer, r: SocketReader.Reader, s: int, t: int, script: seq<Action>, i: nat,
      accepted: seq<Packet>, got: seq<Packet>, closed: bool, reading: nat, ghost trace: seq<Ends>)
    returns (accepted': seq<Packet>, got': seq<Packet>, closed': bool, reading': nat, ghost trace': seq<Ends>)
    requires i < |script| && |trace| == i + 1 && Along(w, r, s, t, trace, script[..i]) && Possible(script[i])
    requires w !in Footprint(r) && Holds(trace[i], accepted, got, closed, reading)
    modifies w, Footprint(r)
    ensures |trace'| == i + 2 && Along(w, r, s, t, trace', script[..i + 1])
    ensures Holds(trace'[i + 1], accepted', got', closed', reading')
    ensures fresh(Footprint(r) - old(Footprint(r))) && w !in Footprint(r)
  {
    FailedIsClosed(trace, script[..i]);
    hide Shows, Steps, Possible, Footprint, Traced;
    ghost var next;
    accepted', got', closed', reading', next :=
      Perform(w, r, s, t, script[i], accepted, got, closed, reading, trace[i]);
    AlongGrows(w, r, s, t, trace, script, i, next);
    trace' := trace + [next];
  }

  lemma AlongStarts(w: SocketWriter.Writer, r: SocketReader.Reader, s: int, t: int, script: seq<Action>)
    requires Shows(w, r, s, t, START)
    ensures Along(w, r, s, t, [START], script[..0]) && Holds(START, [], [], false, 0) && script[..|script|] == script
  {
    hide Shows;
    TraceStarts();
    assert script[..0] == [];
  }

  lemma FreshStill(first: set<object>, before: set<object>, now: set<object>)
    ensures forall x :: x in now - first ==> x in now - before || x in before - first
  {
  }

  method PerformAll(w: SocketWriter.Writer, r: SocketReader.Reader, s: int, t: int, script: seq<Action>)
    returns (accepted: seq<Packet>, got: seq<Packet>, closed: bool, reading: nat, ghost trace: seq<Ends>)
    requires w !in Footprint(r) && Shows(w, r, s, t, START) && forall i :: 0 <= i < |script| ==> Possible(script[i])
    modifies w, Footprint(r)
    ensures |trace| == |script| + 1 && Along(w, r, s, t, trace, script)
    ensures Holds(trace[|script|], accepted, got, closed, reading)
  {
    hide Shows, Along, Possible, Holds;
    accepted, got, closed, reading := [], [], false, 0;
    trace := [START];
    AlongStarts(w, r, s, t, script);
    for i := 0 to |script|
      invariant fresh(Footprint(r) - old(Footprint(r))) && w !in Footprint(r)
      invariant |trace| == i + 1 && Along(w, r, s, t, trace, script[..i])
      invariant Holds(trace[i], accepted, got, closed, reading)
    {
      ghost var before := Footprint(r);
      accepted, got, closed, reading, trace :=
        PerformNext(w, r, s, t, script, i, accepted, got, closed, reading, trace);
      FreshStill(old(Footprint(r)), before, Footprint(r));
    }
  }

  // Over any script of packets given to one end, continued writes and reads at the other end, with every system call
  // taking or delivering as much as it likes, the two ends go through a trace of the steps by value
  method Run(s: int, t: int, script: seq<Action>)
    returns (w: SocketWriter.Writer, r: SocketReader.Reader, accepted: seq<Packet>, got: seq<Packet>, reading: nat,
      ghost trace: seq<Ends>)
    requires t != 0 && forall i :: 0 <= i < |script| ==> Possible(script[i])
    ensures Traced(trace, script) && Shows(w, r, s, t, trace[|script|])
    ensures accepted == trace[|script|].accepted == WrittenAll(script).0 && got == trace[|script|].got
    ensures reading == trace[|script|].reading && (s !in w.broken && t !in r.broken ==> reading == Receives(script))
    ensures s !in w.broken ==> got <= accepted
    ensures s !in w.broken && t !in r.broken && s !in w.writePending ==>
      r.Pending(t) == Stream(accepted[|got|..]) && (got == accepted <==> r.Pending(t) == [])
    ensures s !in w.broken && t !in r.broken ==> |got| + r.shortReads == reading
  {
    w, r := Open(s, t);
    hide Shows, Traced, WrittenAll, Receives, Footprint, Possible, Stream;
    var closed;
    accepted, got, closed, reading, trace := PerformAll(w, r, s, t, script);
    Finally(w, r, s, t, trace, script);
  }
}
