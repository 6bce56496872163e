/** Reading packets from non-blocking sockets: an interrupted read leaves what it has got in a queue for the socket
    and starts over from there. */
module SocketReader {
  import opened Wire

  datatype Code = COMPLETE | INTERRUPTED | ERROR

  const FIXED_HEADER_SIZE := 5

  class SocketQueue {
    var socket: int
    var index: nat
    var headerlen: nat
    var fixedHeader: seq<Byte>
    var datalen: nat
    var buf: seq<Byte>

    // headerlen is left as it happens to be
    constructor ()
      ensures socket == 0 && index == 0 && datalen == 0 && buf == [] && |fixedHeader| == FIXED_HEADER_SIZE
    {
      socket, index, datalen, buf, fixedHeader := 0, 0, 0, [], [0, 0, 0, 0, 0];
      headerlen := *;
    }

    ghost predicate Sized()
      reads this
    {
      |fixedHeader| == FIXED_HEADER_SIZE && index <= headerlen <= FIXED_HEADER_SIZE && datalen <= |buf|
    }

    ghost function Header(): seq<Byte>
      requires Sized()
      reads this
    {
      fixedHeader[..headerlen]
    }

    ghost function Saved(): seq<Byte>
      requires Sized()
      reads this
    {
      Header() + buf[..datalen]
    }
  }

  // A header that is whole: the length has ended with its last byte
  ghost predicate WholeHeader(h: seq<Byte>, value: nat) {
    h != [] && Decode(h[1..]) == Length(value, |h| - 1)
  }

  ghost predicate PartHeader(h: seq<Byte>) {
    h == [] || Decode(h[1..]).More?
  }

  // The value of length bytes that all announce another one
  function ValueOf(d: seq<Byte>): int {
    if d == [] then 0 else d[0] - 128 + 128 * ValueOf(d[1..])
  }

  function Weighted(digit: int, weight: int): (r: int)
    ensures digit >= 0 && weight >= 0 ==> r >= 0
  {
    digit * weight
  }

  ghost predicate AllContinue(d: seq<Byte>) {
    forall i :: 0 <= i < |d| ==> d[i] >= 128
  }

  lemma {:induction false} ContinuedDecode(d: seq<Byte>, c: Byte, left: nat)
    requires AllContinue(d) && |d| < left
    ensures c < 128 ==>
      ValueOf(d) + Weighted(c, Pow128(|d|)) >= 0 &&
        DecodeUpTo(d + [c], left) == Length(ValueOf(d) + Weighted(c, Pow128(|d|)), |d| + 1)
    ensures DecodeUpTo(d, left).More?
    ensures c >= 128 && |d| + 1 == left ==> DecodeUpTo(d + [c], left).BadLength?
  {
    if d != [] {
      ContinuedDecode(d[1..], c, left - 1);
      assert (d + [c])[1..] == d[1..] + [c];
      Scale(c, Pow128(|d| - 1));
    }
  }

  lemma TooManyLengthBytes(header: Byte, h: seq<Byte>, value: nat, multiplier: nat, c: Byte)
    requires Lengthened(header, h, value, multiplier, c) && c >= 128 && |h| == MAX_NO_OF_REMAINING_LENGTH_BYTES + 1
    ensures TooMany(h)
  {
    var d := h[1..];
    ContinuedDecode(d[..3], d[3], 4);
    assert d == d[..3] + [d[3]];
  }

  lemma Scale(c: int, p: int)
    ensures 128 * (c * p) == c * (128 * p)
  {
  }

  lemma {:induction false} ValueOfAppended(d: seq<Byte>, c: Byte, digit: int)
    requires digit == c - 128
    ensures ValueOf(d + [c]) == ValueOf(d) + Weighted(digit, Pow128(|d|))
  {
    if d != [] {
      ValueOfAppended(d[1..], c, digit);
      assert (d + [c])[1..] == d[1..] + [c];
      Scale(digit, Pow128(|d| - 1));
    } else {
      assert ValueOf([c]) == c - 128 + 128 * ValueOf([]);
    }
  }

  lemma LowBits(c: Byte)
    ensures c % 128 == if c >= 128 then c - 128 else c
  {
  }

  // One more length byte, with the multiplier and the value so far, that announces another
  lemma NextLengthByte(h: seq<Byte>, c: Byte, value: nat, multiplier: nat)
    requires h != [] && AllContinue(h[1..]) && c >= 128
    requires value == ValueOf(h[1..]) && multiplier == Pow128(|h| - 1)
    ensures AllContinue((h + [c])[1..]) && multiplier * 128 == Pow128(|h|)
    ensures value + Weighted(c - 128, multiplier) == ValueOf((h + [c])[1..])
  {
    hide ValueOf, Weighted, AllContinue, Pow128;
    ValueOfAppended(h[1..], c, c - 128);
    assert (h + [c])[1..] == h[1..] + [c];
    AllContinued(h[1..], c);
    NextPower(|h|);
  }

  lemma AllContinued(d: seq<Byte>, c: Byte)
    requires AllContinue(d) && c >= 128
    ensures AllContinue(d + [c])
  {
  }

  lemma NextPower(n: nat)
    requires n > 0
    ensures Pow128(n - 1) * 128 == Pow128(n)
  {
  }

  // One more length byte that is the last
  lemma LastLengthByte(h: seq<Byte>, c: Byte, value: nat, multiplier: nat)
    requires h != [] && |h| <= MAX_NO_OF_REMAINING_LENGTH_BYTES && AllContinue(h[1..]) && c < 128
    requires value == ValueOf(h[1..]) && multiplier == Pow128(|h| - 1)
    ensures WholeHeader(h + [c], value + Weighted(c, multiplier))
  {
    var d := h[1..];
    assert (h + [c])[1..] == d + [c];
    hide ValueOf, Pow128, DecodeUpTo, Weighted, AllContinue;
    ContinuedDecode(d, c, MAX_NO_OF_REMAINING_LENGTH_BYTES);
  }

  ghost predicate TooMany(h: seq<Byte>) { h != [] && Decode(h[1..]).BadLength? }

  // The state of the length loop
  ghost predicate Lengthened(header: Byte, h: seq<Byte>, value: nat, multiplier: nat, c: Byte) {
    && h != [] && h[0] == header
    && if c >= 128 then AllContinue(h[1..]) && value == ValueOf(h[1..]) &&
      multiplier == Pow128(|h| - 1) else WholeHeader(h, value)
  }

  lemma StartsEmpty(header: Byte)
    ensures Lengthened(header, [header], 0, 1, 128)
  {
  }

  lemma LengthEnded(header: Byte, h: seq<Byte>, value: nat, multiplier: nat, c: Byte)
    ensures c < 128 && Lengthened(header, h, value, multiplier, c) ==>
      h != [] && h[0] == header && WholeHeader(h, value)
  {
  }

  lemma Unfinished(h: seq<Byte>)
    requires h != [] && |h| <= MAX_NO_OF_REMAINING_LENGTH_BYTES && AllContinue(h[1..])
    ensures PartHeader(h)
  {
    ContinuedDecode(h[1..], 0, MAX_NO_OF_REMAINING_LENGTH_BYTES);
  }

  method AddDigit(c: Byte, value: nat, multiplier: nat, ghost h: seq<Byte>) returns (value': nat, multiplier': nat)
    requires h != [] && |h| <= MAX_NO_OF_REMAINING_LENGTH_BYTES && AllContinue(h[1..])
    requires value == ValueOf(h[1..]) && multiplier == Pow128(|h| - 1)
    ensures c >= 128 ==> AllContinue((h + [c])[1..]) && value' == ValueOf((h + [c])[1..]) && multiplier' == Pow128(|h|)
    ensures c < 128 ==> WholeHeader(h + [c], value')
  {
    var digit := c % 128;
    LowBits(c);
    if c >= 128 {
      NextLengthByte(h, c, value, multiplier);
    } else {
      LastLengthByte(h, c, value, multiplier);
    }
    value' := value + Weighted(digit, multiplier);
    multiplier' := multiplier * 128;
  }

  // What the header at the front of a stream says about its first packet
  lemma FirstAfterHeader(h: seq<Byte>, value: nat, rest: seq<Byte>)
    requires WholeHeader(h, value)
    ensures FirstOf(h + rest) == if value <= |rest| then Found(Packet(h[0], rest[..value]), |h| + value) else Incomplete
  {
    assert (h + rest)[1..] == h[1..] + rest;
    DecodeStable(h[1..], rest, MAX_NO_OF_REMAINING_LENGTH_BYTES);
    assert value <= |rest| ==> (h + rest)[|h|..|h| + value] == rest[..value];
  }

  lemma MalformedAfterHeader(h: seq<Byte>, rest: seq<Byte>)
    requires TooMany(h)
    ensures FirstOf(h + rest).Malformed?
  {
    assert (h + rest)[1..] == h[1..] + rest;
    DecodeStable(h[1..], rest, MAX_NO_OF_REMAINING_LENGTH_BYTES);
  }

  // With the header h there can be n bytes of data that wait for the rest
  ghost predicate CanHold(h: seq<Byte>, n: nat) {
    || (PartHeader(h) && n == 0)
    || (h != [] && Decode(h[1..]).Length? && Decode(h[1..]).used == |h| - 1 && n < Decode(h[1..]).value)
  }

  lemma WholeIsNotPart(h: seq<Byte>)
    requires PartHeader(h)
    ensures forall n: nat :: CanHold(h, n) ==> n == 0
  {
  }

  // A saved header that begins with a whole header is that header
  lemma WholeIsAll(h: seq<Byte>, saved: seq<Byte>, value: nat, n: nat)
    requires WholeHeader(h, value) && h <= saved && CanHold(saved, n)
    ensures saved == h && n < value
  {
    assert saved[1..] == h[1..] + saved[|h|..];
    DecodeStable(h[1..], saved[|h|..], MAX_NO_OF_REMAINING_LENGTH_BYTES);
  }

  lemma WholeCanHold(h: seq<Byte>, value: nat, n: nat)
    requires WholeHeader(h, value) && n < value
    ensures CanHold(h, n)
  {
  }

  // From the stream `before` the first packet is taken, and `after` is left
  ghost predicate TakesFirst(before: seq<Byte>, p: Packet, after: seq<Byte>) {
    var first := FirstOf(before);
    first.Found? && p == first.p && after == before[first.used..]
  }

  lemma TakenFromAll(before: seq<Byte>, p: Packet, after: seq<Byte>)
    requires TakesFirst(before, p, after)
    ensures AllOf(before) == [p] + AllOf(after)
  {
  }

  // What a queue may hold between two calls
  ghost predicate Resumable(q: SocketQueue)
    requires q.Sized()
    reads q
  {
    q.headerlen >= 1 && q.index == 0 && CanHold(q.Header(), q.datalen)
  }

  class Reader {
    var defQueue: SocketQueue
    var queues: seq<SocketQueue>
    ghost var saved: map<int, SocketQueue>       // the queue of each socket that has one
    var unread: map<int, seq<Byte>>              // what each connection has yet to deliver
    ghost var shortReads: nat                    // how often a connection has delivered less than asked for
    ghost var broken: set<int>                   // the connections that have failed

    ghost predicate Linked()
      reads this, queues, defQueue
    {
      && defQueue !in queues
      && (forall i, j :: 0 <= i < j < |queues| ==> queues[i] != queues[j])
      && (forall k :: k in saved ==> k != 0 && saved[k] in queues && saved[k].socket == k)
      && (forall i :: 0 <= i < |queues| ==> queues[i].socket != 0 ==>
        queues[i].socket in saved && saved[queues[i].socket] == queues[i])
      && |defQueue.fixedHeader| == FIXED_HEADER_SIZE
    }

    ghost predicate Valid()
      reads this, queues, defQueue
    {
      && Linked()
      && (forall k :: k in saved ==> saved[k].Sized() && Resumable(saved[k]))
      && defQueue.socket == 0 && defQueue.datalen == 0
    }

    // The bytes that are still to become packets of this socket
    ghost function Pending(k: int): seq<Byte>
      reads this, queues
    {
      (if k in saved && saved[k] in queues && saved[k].Sized() then saved[k].Saved() else [])
      + if k in unread then unread[k] else []
    }

    constructor ()
      ensures Valid() && saved == map[] && unread == map[] && broken == {} && shortReads == 0
      ensures fresh(defQueue) && queues == []
    {
      defQueue := new SocketQueue();
      queues, saved, unread, shortReads, broken := [], map[], map[], 0, {};
    }

    // Within a call that has read the header bytes h of `socket`
    ghost predicate Mid(socket: int, h: seq<Byte>)
      reads this, queues, defQueue
    {
      && Linked() && socket != 0 && socket in unread
      && (forall k :: k in saved && k != socket ==> saved[k].Sized() && Resumable(saved[k]))
      && defQueue.datalen == 0
      && if socket in saved then
           var q := saved[socket];
           && q.Sized() && q.headerlen >= 1 && q.index == |h| && h == q.fixedHeader[..q.index] && defQueue.socket == 0
           && (CanHold(q.Header(), q.datalen) || (q.datalen == 0 && h == q.Header()))
         else if h == [] then
           defQueue.socket == 0
         else
           defQueue.socket == socket && defQueue.Sized() && defQueue.index == defQueue.headerlen &&
               defQueue.Header() == h
    }

    // The bytes behind h
    ghost function Left(socket: int, h: seq<Byte>): seq<Byte>
      requires Mid(socket, h)
      reads this, queues, defQueue
    {
      (if socket in saved then
         var q := saved[socket]; q.fixedHeader[|h|..q.headerlen] + q.buf[..q.datalen]
       else [])
      + unread[socket]
    }

    // Nothing happens to the other sockets
    twostate predicate OthersKeep(socket: int)
      reads this, queues
    {
      unread.Keys == old(unread.Keys) && forall k :: k != socket ==> Pending(k) == old(Pending(k))
    }

    // The connections have not been asked for anything
    twostate predicate Quiet()
      reads this
    {
      unread == old(unread) && shortReads == old(shortReads) && broken == old(broken)
    }

    // ListFindItem over the queues; entries of an interrupted first byte have socket 0 and are never found
    method FindQueue(socket: int) returns (q: SocketQueue?)
      requires Linked() && socket != 0
      ensures if socket in saved then q == saved[socket] else q == null
    {
      var i := 0;
      while i < |queues| && queues[i].socket != socket
        invariant 0 <= i <= |queues|
        invariant forall j :: 0 <= j < i ==> queues[j].socket != socket
      {
        i := i + 1;
      }
      q := if i < |queues| then queues[i] else null;
    }

    // The kernel hands over up to n of the bytes that have arrived; or none are there; or the connection is gone
    method Recv(socket: int, n: nat) returns (got: seq<Byte>, failed: bool)
      requires socket in unread && n > 0
      modifies `unread, `shortReads, `broken
      ensures |got| <= n && (failed ==> got == [])
      ensures shortReads == old(shortReads) + (if !failed && |got| < n then 1 else 0)
      ensures broken == old(broken) + (if failed then {socket} else {})
      ensures unread.Keys == old(unread.Keys) && got + unread[socket] == old(unread[socket])
      ensures forall k :: k in unread && k != socket ==> unread[k] == old(unread[k])
    {
      failed := *;
      var k: int := *;
      got := [];
      if !failed && 0 <= k <= n && k <= |unread[socket]| {
        got := unread[socket][..k];
        unread := unread[socket := unread[socket][k..]];
      }
      shortReads := shortReads + if !failed && |got| < n then 1 else 0;
      broken := broken + if failed then {socket} else {};
    }

    // Bytes come in on a connection; with the first of them, or before, it is opened
    method Arrive(socket: int, bytes: seq<Byte>)
      requires Valid()
      modifies `unread
      ensures Valid() && unread.Keys == old(unread.Keys) + {socket}
      ensures Pending(socket) == old(Pending(socket)) + bytes
      ensures forall k :: k != socket ==> Pending(k) == old(Pending(k))
    {
      unread := unread[socket := (if socket in unread then unread[socket] else []) + bytes];
    }

    // The next saved byte of the header is read again
    method AdvanceIndex(socket: int, q: SocketQueue, ghost h: seq<Byte>) returns (c: Byte)
      requires Mid(socket, h) && PartHeader(h) && socket in saved && q == saved[socket] && q.index < q.headerlen
      modifies q`index
      ensures Mid(socket, h + [c]) && old(Left(socket, h)) == [c] + Left(socket, h + [c]) && OthersKeep(socket)
    {
      hide CanHold, PartHeader, Resumable;
      c := q.fixedHeader[q.index];
      assert h + [c] == q.fixedHeader[..q.index + 1];
      assert q.fixedHeader[q.index..q.headerlen] == [c] + q.fixedHeader[q.index + 1..q.headerlen];
      ghost var header := q.Header();
      q.index := q.index + 1;
      assert q.Header() == header;
    }

    // SocketBuffer_getQueuedChar
    method GetQueuedChar(socket: int, ghost h: seq<Byte>) returns (rc: Code, c: Byte)
      requires Mid(socket, h) && PartHeader(h) && |h| < FIXED_HEADER_SIZE
      modifies (if socket in saved then {saved[socket]} else {})`index
      ensures rc != ERROR
      ensures rc == COMPLETE ==> Mid(socket, h + [c]) && old(Left(socket, h)) == [c] + Left(socket, h + [c])
      ensures rc == INTERRUPTED ==> Mid(socket, h) && Left(socket, h) == old(Left(socket, h))
      ensures rc == INTERRUPTED && socket in saved ==> saved[socket].Header() == h && saved[socket].datalen == 0
      ensures OthersKeep(socket)
    {
      rc, c := INTERRUPTED, 0;
      WholeIsNotPart(h);
      hide CanHold, PartHeader, Resumable;
      var q := FindQueue(socket);
      if q != null {
        if q.index < q.headerlen {
          c := AdvanceIndex(socket, q, h);
          rc := COMPLETE;
        } else if q.index > 4 {
          rc := ERROR;
        } else {
          assert q.Header() == h;
        }
      }
    }

    // The queue that the socket is being read into
    ghost function Current(socket: int): SocketQueue
      reads this
    {
      if socket in saved then saved[socket] else defQueue
    }

    // A queue has been chosen for the next header byte of `socket`, behind the bytes h
    ghost predicate Chosen(socket: int, h: seq<Byte>)
      reads this, queues, defQueue
    {
      && Linked() && socket != 0 && socket in unread
      && (forall k :: k in saved && k != socket ==> saved[k].Sized() && Resumable(saved[k]))
      && defQueue.socket == (if socket in saved then 0 else socket)
      && defQueue.datalen == 0
      && var q := Current(socket);
         |q.fixedHeader| == FIXED_HEADER_SIZE && q.datalen == 0 && q.index == |h| <= 4 && h == q.fixedHeader[..|h|]
    }

    // SocketBuffer_queueChar: the queue of the socket, or the default queue, which then is for this socket
    method ChooseQueue(socket: int, ghost h: seq<Byte>) returns (curq: SocketQueue, error: bool)
      requires Mid(socket, h) && |h| < FIXED_HEADER_SIZE
      requires socket in saved ==> saved[socket].Header() == h && saved[socket].datalen == 0
      modifies defQueue`socket, defQueue`index, defQueue`datalen
      ensures Chosen(socket, h) && curq == Current(socket) && !error && OthersKeep(socket)
    {
      hide CanHold, PartHeader, Resumable;
      curq, error := defQueue, false;
      var q := FindQueue(socket);
      if q != null {
        curq := q;
      } else if defQueue.socket == 0 {
        defQueue.socket := socket;
        defQueue.index, defQueue.datalen := 0, 0;
      } else if defQueue.socket != socket {
        error := true;
      }
      if curq.index > 4 {
        error := true;
      }
    }

    // The byte goes behind those in the queue
    method PutChar(socket: int, curq: SocketQueue, c: Byte, ghost h: seq<Byte>)
      requires Chosen(socket, h) && curq == Current(socket)
      modifies curq`fixedHeader, curq`index, curq`headerlen
      ensures Mid(socket, h + [c]) && Left(socket, h + [c]) == unread[socket] && OthersKeep(socket)
    {
      hide CanHold, PartHeader, Resumable;
      curq.fixedHeader := curq.fixedHeader[curq.index := c];
      curq.index := curq.index + 1;
      curq.headerlen := curq.index;
      assert curq.fixedHeader[..curq.index] == h + [c];
    }

    // SocketBuffer_queueChar, for a byte that has just been received
    method QueueChar(socket: int, c: Byte, ghost h: seq<Byte>)
      requires Mid(socket, h) && |h| < FIXED_HEADER_SIZE && Left(socket, h) == unread[socket]
      requires socket in saved ==> saved[socket].Header() == h && saved[socket].datalen == 0
      modifies defQueue, if socket in saved then {saved[socket]} else {}
      ensures Mid(socket, h + [c]) && Left(socket, h + [c]) == old(Left(socket, h)) && OthersKeep(socket)
    {
      hide CanHold, PartHeader, Resumable, Mid, Left, Linked, Chosen, Pending;
      var curq, error := ChooseQueue(socket, h);
      if !error {
        PutChar(socket, curq, c, h);
      }
    }

    // No queue comes from nowhere
    twostate predicate SameObjects()
      reads this
    {
      && (defQueue in old(queues) || defQueue == old(defQueue) || fresh(defQueue))
      && forall i :: 0 <= i < |queues| ==> queues[i] in old(queues) || queues[i] == old(defQueue) || fresh(queues[i])
    }

    // The default queue, with what it holds, joins the list and is replaced
    method SaveDefault(socket: int, ghost h: seq<Byte>) returns (q: SocketQueue)
      requires Mid(socket, h) && socket !in saved
      requires h != [] ==> defQueue.Sized()
      modifies this
      ensures q == old(defQueue) && q in queues && fresh(defQueue) && defQueue.socket == 0 && defQueue.datalen == 0
      ensures saved == if h != [] then old(saved)[socket := q] else old(saved)
      ensures SameObjects() && Quiet() && Linked() && OthersKeep(socket)
    {
      hide CanHold, Resumable;
      q := defQueue;
      queues := queues + [defQueue];
      defQueue := new SocketQueue();
      if q.socket != 0 {
        saved := saved[socket := q];
      }
    }

    // What has been read so far is to be read again
    method Park(socket: int, q: SocketQueue, actual: nat)
      requires Linked() && q in queues && (socket in saved ==> q == saved[socket])
      requires forall k :: k in saved && k != socket ==> saved[k] != q && saved[k].Sized() && Resumable(saved[k])
      requires socket in saved ==>
        q.Sized() && q.headerlen >= 1 && actual <= |q.buf| && CanHold(q.Header(), actual)
      requires defQueue.socket == 0 && defQueue.datalen == 0
      modifies q`index, q`datalen
      ensures Valid() && OthersKeep(socket)
      ensures socket in saved ==> q.Sized() && q.Saved() == old(q.Header()) + old(q.buf[..actual])
    {
      hide CanHold;
      q.index := 0;
      q.datalen := actual;
    }

    // SocketBuffer_interrupted
    method Interrupted(socket: int, actual: nat, ghost h: seq<Byte>)
      requires Mid(socket, h)
      requires if socket in saved || h != [] then
          actual <= |Current(socket).buf| && Current(socket).Sized() && CanHold(Current(socket).Header(), actual)
        else actual == 0
      modifies this, defQueue, if socket in saved then {saved[socket]} else {}
      ensures Valid() && OthersKeep(socket) && SameObjects() && Quiet()
      ensures Pending(socket) ==
        (if socket in old(saved) || h != [] then old(Current(socket).Header() + Current(socket).buf[..actual]) else [])
        + unread[socket]
    {
      hide CanHold, Resumable;
      var q := FindQueue(socket);
      if q == null {
        q := SaveDefault(socket, h);
      }
      Park(socket, q, actual);
    }

    // ListDetach
    method Detach(q: SocketQueue)
      requires q in queues
      requires forall i, j :: 0 <= i < j < |queues| ==> queues[i] != queues[j]
      modifies `queues
      ensures q !in queues
      ensures forall x :: x != q ==> (x in queues <==> x in old(queues))
      ensures forall i, j :: 0 <= i < j < |queues| ==> queues[i] != queues[j]
    {
      var i := 0;
      while queues[i] != q
        invariant 0 <= i < |queues| && forall j :: 0 <= j < i ==> queues[j] != q
        decreases |queues| - i
      {
        i := i + 1;
      }
      queues := queues[..i] + queues[i + 1..];
      forall x | x != q && x in old(queues) ensures x in queues {
        var j :| 0 <= j < |old(queues)| && old(queues)[j] == x;
        assert x == queues[if j < i then j else j - 1];
      }
    }

    // The list is left with the queues of the other sockets
    method Forget(socket: int, q: SocketQueue)
      requires Linked() && socket in saved && q == saved[socket]
      modifies `queues, `saved
      ensures Linked() && OthersKeep(socket) && q !in queues && saved == old(saved) - {socket}
      ensures forall i :: 0 <= i < |queues| ==> queues[i] in old(queues) && queues[i].socket != socket
    {
      hide Resumable, CanHold;
      Detach(q);
      saved := saved - {socket};
      forall i | 0 <= i < |queues|
        ensures queues[i] != q && exists j :: 0 <= j < |old(queues)| && old(queues)[j] == queues[i]
      {
        assert queues[i] in queues;
        assert queues[i] in old(queues);
      }
    }

    // The socket has no queue, whatever the default queue holds
    ghost predicate Loose(socket: int)
      reads this, queues, defQueue
    {
      Linked() && socket !in saved && forall k :: k in saved ==> saved[k].Sized() && Resumable(saved[k])
    }

    method Reset(socket: int)
      requires Loose(socket)
      modifies defQueue`socket, defQueue`index, defQueue`headerlen, defQueue`datalen
      ensures Valid() && OthersKeep(socket)
    {
      hide CanHold;
      defQueue.socket, defQueue.index, defQueue.headerlen, defQueue.datalen := 0, 0, 0, 0;
    }

    // The queue of the socket, if there is one, becomes the default queue
    method TakeBack(socket: int, ghost h: seq<Byte>)
      requires Mid(socket, h)
      modifies `defQueue, `queues, `saved
      ensures Loose(socket) && OthersKeep(socket) && SameObjects()
      ensures defQueue == old(Current(socket))
    {
      hide CanHold, Resumable;
      var q := FindQueue(socket);
      if q != null {
        Forget(socket, q);
        defQueue := q;
      }
    }

    // SocketBuffer_complete
    method Complete(socket: int, ghost h: seq<Byte>)
      requires Mid(socket, h)
      modifies this, defQueue, if socket in saved then {saved[socket]} else {}
      ensures Valid() && OthersKeep(socket) && SameObjects() && Quiet() && socket !in saved
      ensures defQueue == old(Current(socket)) && defQueue.buf == old(Current(socket).buf)
      ensures Pending(socket) == unread[socket]
    {
      TakeBack(socket, h);
      hide Mid, Linked, Valid;
      Reset(socket);
      assert [] + unread[socket] == unread[socket];
    }

    // SocketBuffer_getQueuedData: room for `bytes` bytes behind what has been saved
    method GetQueuedData(socket: int, bytes: nat, ghost h: seq<Byte>) returns (q: SocketQueue, actual: nat)
      requires Mid(socket, h)
      modifies Current(socket)`buf
      ensures Mid(socket, h) && Left(socket, h) == old(Left(socket, h)) && OthersKeep(socket)
      ensures q == Current(socket) && actual == q.datalen && bytes <= |q.buf| && q.buf[..actual] == old(q.buf[..actual])
    {
      hide CanHold;
      var found := FindQueue(socket);
      if found != null {
        q, actual := found, found.datalen;
      } else {
        q, actual := defQueue, 0;
      }
      if bytes > |q.buf| {
        ghost var header := if socket in saved || h != [] then q.Header() else [];
        ghost var kept := q.buf[..q.datalen];
        q.buf := q.buf[..q.datalen] + seq(bytes - q.datalen, _ => 0);
        assert q.buf[..q.datalen] == kept;
        assert socket in saved || h != [] ==> q.Header() == header;
      }
    }

    // A byte from the connection, when nothing saved is left to read
    method RecvByte(socket: int, ghost h: seq<Byte>) returns (got: seq<Byte>, failed: bool)
      requires Mid(socket, h)
      requires socket in saved ==> saved[socket].Header() == h && saved[socket].datalen == 0
      modifies `unread, `shortReads, `broken
      ensures |got| <= 1 && (failed ==> got == [])
      ensures shortReads == old(shortReads) + (if !failed && got == [] then 1 else 0)
      ensures broken == old(broken) + (if failed then {socket} else {})
      ensures Mid(socket, h) && got + Left(socket, h) == old(Left(socket, h)) && OthersKeep(socket)
      ensures Left(socket, h) == unread[socket]
    {
      hide CanHold, Resumable;
      got, failed := Recv(socket, 1);
      assert socket in saved ==> |h| == saved[socket].headerlen;
    }

    // The byte that the connection has for Socket_getch, if it has one
    method FreshByte(socket: int, ghost h: seq<Byte>) returns (rc: Code, c: Byte)
      requires Mid(socket, h) && CanHold(h, 0) && |h| < FIXED_HEADER_SIZE
      requires socket in saved ==> saved[socket].Header() == h && saved[socket].datalen == 0
      requires socket in saved || h != [] ==> Current(socket).Sized() && Current(socket).Header() == h
      modifies this, defQueue, if socket in saved then {saved[socket]} else {}
      ensures OthersKeep(socket) && SameObjects()
      ensures Asked(socket, rc == INTERRUPTED, rc == ERROR)
      ensures rc == COMPLETE ==> Mid(socket, h + [c]) && old(Left(socket, h)) == [c] + Left(socket, h + [c]) && Kept()
      ensures rc == INTERRUPTED ==> Valid() && Pending(socket) == h + old(Left(socket, h))
      ensures rc == ERROR ==> Mid(socket, h) && Left(socket, h) == old(Left(socket, h)) && Kept()
    {
      hide CanHold, Left, Linked, Mid, Pending, Valid, PartHeader;
      rc, c := COMPLETE, 0;
      var got, failed := RecvByte(socket, h);
      if got == [] {
        assert got + Left(socket, h) == Left(socket, h);
        rc := if failed then ERROR else INTERRUPTED;
        if !failed { InterruptedHeader(socket, h); }
      } else {
        c := got[0];
        assert got == [c];
        QueueChar(socket, c, h);
      }
    }

    // Socket_getch
    method Getch(socket: int, ghost h: seq<Byte>) returns (rc: Code, c: Byte)
      requires Mid(socket, h) && PartHeader(h) && |h| < FIXED_HEADER_SIZE
      modifies this, defQueue, if socket in saved then {saved[socket]} else {}
      ensures OthersKeep(socket) && SameObjects()
      ensures Asked(socket, rc == INTERRUPTED, rc == ERROR)
      ensures rc == COMPLETE ==> Mid(socket, h + [c]) && old(Left(socket, h)) == [c] + Left(socket, h + [c]) && Kept()
      ensures rc == INTERRUPTED ==> Valid() && Pending(socket) == h + old(Left(socket, h))
      ensures rc == ERROR ==> Mid(socket, h) && Left(socket, h) == old(Left(socket, h)) && Kept()
    {
      rc, c := GetQueuedChar(socket, h);
      if rc == INTERRUPTED {
        CanWait(socket, h);
        hide CanHold, Left, Linked, Mid, Pending, Valid, PartHeader;
        rc, c := FreshByte(socket, h);
      }
    }

    lemma CanWait(socket: int, h: seq<Byte>)
      requires Mid(socket, h) && PartHeader(h)
      requires socket in saved ==> saved[socket].Header() == h && saved[socket].datalen == 0
      ensures CanHold(h, 0) && (socket in saved || h != [] ==> Current(socket).Sized() && Current(socket).Header() == h)
    {
    }

    // The read stops in the header
    method InterruptedHeader(socket: int, ghost h: seq<Byte>)
      requires Mid(socket, h) && CanHold(h, 0) && Left(socket, h) == unread[socket]
      requires socket in saved || h != [] ==> Current(socket).Sized() && Current(socket).Header() == h
      modifies this, defQueue, if socket in saved then {saved[socket]} else {}
      ensures Valid() && OthersKeep(socket) && SameObjects() && Quiet()
      ensures Pending(socket) == h + old(Left(socket, h))
    {
      ghost var q := Current(socket);
      assert h + [] == h && q.buf[..0] == [];
      hide CanHold, Left, Linked, Pending, Valid, PartHeader;
      Interrupted(socket, 0, h);
    }

    // At most one short read, and that only if the call was interrupted; a failure only of this connection
    twostate predicate Asked(socket: int, interrupted: bool, failed: bool)
      reads this
    {
      && shortReads == old(shortReads) + (if interrupted then 1 else 0)
      && broken == old(broken) + (if failed then {socket} else {})
    }

    // The same queues as before
    twostate predicate Kept()
      reads this
    {
      defQueue == old(defQueue) && queues == old(queues) && saved == old(saved)
    }

    // One round of the loop of MQTTPacket_decode
    method NextLength(socket: int, header: Byte, len: nat, value: nat, multiplier: nat, ghost h: seq<Byte>)
      returns (rc: Code, c: Byte, value': nat, multiplier': nat, ghost h': seq<Byte>)
      requires Mid(socket, h) && |h| == len + 1 <= MAX_NO_OF_REMAINING_LENGTH_BYTES
      requires Lengthened(header, h, value, multiplier, 128)
      modifies this, defQueue, if socket in saved then {saved[socket]} else {}
      ensures OthersKeep(socket) && SameObjects() && Asked(socket, rc == INTERRUPTED, rc == ERROR)
      ensures rc == INTERRUPTED ==> Valid() && Pending(socket) == h + old(Left(socket, h))
      ensures rc != INTERRUPTED ==> Mid(socket, h') && h' + Left(socket, h') == h + old(Left(socket, h)) && Kept()
      ensures rc == COMPLETE ==> |h'| == |h| + 1 && Lengthened(header, h', value', multiplier', c)
    {
      hide Mid, Left, CanHold, Linked, Pending, Resumable, Valid, ValueOf, Pow128, WholeHeader, PartHeader, Decode;
      Unfinished(h);
      value', multiplier', h' := value, multiplier, h;
      rc, c := Getch(socket, h);
      if rc == COMPLETE {
        value', multiplier' := AddDigit(c, value, multiplier, h);
        h' := h + [c];
        assert h + ([c] + Left(socket, h')) == h' + Left(socket, h');
      }
    }

    // MQTTPacket_decode
    method DecodeLength(socket: int, header: Byte) returns (rc: Code, value: nat, ghost h: seq<Byte>, ghost bad: bool)
      requires Mid(socket, [header])
      modifies this, defQueue, if socket in saved then {saved[socket]} else {}
      ensures OthersKeep(socket) && SameObjects() && Asked(socket, rc == INTERRUPTED, rc == ERROR && !bad)
      ensures rc == COMPLETE ==> h != [] && h[0] == header && WholeHeader(h, value)
      ensures rc == INTERRUPTED ==> Valid() && Pending(socket) == [header] + old(Left(socket, [header]))
      ensures rc != INTERRUPTED ==>
        Mid(socket, h) && [header] + old(Left(socket, [header])) == h + Left(socket, h) && Kept()
      ensures rc == ERROR && bad ==> TooMany(h)
    {
      bad, h, value, rc := false, [header], 0, COMPLETE;
      var multiplier: nat := 1;
      var c: Byte := 128;
      var len := 0;
      StartsEmpty(header);
      hide Mid, Left, CanHold, Linked, Pending, Resumable, Valid, Lengthened, TooMany;
      while c >= 128
        invariant 0 <= len <= MAX_NO_OF_REMAINING_LENGTH_BYTES && |h| == len + 1 && rc == COMPLETE && !bad
        invariant Mid(socket, h) && h + Left(socket, h) == [header] + old(Left(socket, [header]))
        invariant Kept() && OthersKeep(socket) && Asked(socket, false, false)
        invariant Lengthened(header, h, value, multiplier, c)
        decreases MAX_NO_OF_REMAINING_LENGTH_BYTES - len
      {
        if len == MAX_NO_OF_REMAINING_LENGTH_BYTES {
          TooManyLengthBytes(header, h, value, multiplier, c);
          bad, rc := true, ERROR;
          break;
        }
        rc, c, value, multiplier, h := NextLength(socket, header, len, value, multiplier, h);
        if rc != COMPLETE {
          break;
        }
        len := len + 1;
      }
      LengthEnded(header, h, value, multiplier, c);
    }

    // With the header read, what is left is the saved data and what the connection still has
    lemma DataLeft(socket: int, h: seq<Byte>, value: nat)
      requires Mid(socket, h) && WholeHeader(h, value)
      ensures Current(socket).Sized() && Current(socket).Header() == h
      ensures Current(socket).datalen < value || (value == 0 && Current(socket).datalen == 0)
      ensures Left(socket, h) == Current(socket).buf[..Current(socket).datalen] + unread[socket]
    {
      if socket in saved {
        var q := saved[socket];
        if CanHold(q.Header(), q.datalen) {
          assert h <= q.Header();
          WholeIsAll(h, q.Header(), value, q.datalen);
        }
        assert |h| == q.headerlen && q.fixedHeader[|h|..q.headerlen] == [];
      } else {
        assert defQueue.buf[..0] == [];
      }
    }

    // The bytes received are in the buffer, behind what is there
    method PutBehind(socket: int, q: SocketQueue, actual: nat, got: seq<Byte>, ghost h: seq<Byte>)
      requires Mid(socket, h) && q == Current(socket) && q.datalen == actual && actual + |got| <= |q.buf|
      modifies Current(socket)`buf
      ensures Mid(socket, h) && OthersKeep(socket)
      ensures |q.buf| == old(|q.buf|) && q.buf[..actual + |got|] == old(q.buf[..actual]) + got
    {
      hide CanHold, Resumable;
      ghost var header := if socket in saved || h != [] then q.Header() else [];
      q.buf := q.buf[..actual] + got + q.buf[actual + |got|..];
      assert socket in saved || h != [] ==> q.Header() == header;
    }

    // recv into the buffer
    method RecvData(socket: int, q: SocketQueue, actual: nat, bytes: nat, ghost h: seq<Byte>) returns (n: nat,
        failed: bool)
      requires Mid(socket, h) && q == Current(socket) && q.datalen == actual < bytes <= |q.buf|
      modifies `unread, `shortReads, `broken, Current(socket)`buf
      ensures Asked(socket, !failed && actual + n < bytes, failed)
      ensures Mid(socket, h) && OthersKeep(socket) && (failed ==> n == 0) && q.datalen == actual && q == Current(socket)
      ensures actual + n <= bytes <= |q.buf| &&
        q.buf[..actual + n] + unread[socket] == old(q.buf[..actual] + unread[socket])
    {
      hide CanHold, Resumable;
      ghost var before := q.buf[..actual];
      var got;
      got, failed := Recv(socket, bytes - actual);
      n := |got|;
      PutBehind(socket, q, actual, got, h);
      assert before + got + unread[socket] == before + (got + unread[socket]);
    }

    // Data behind the header, if there is to be any
    method GetSome(socket: int, bytes: nat, ghost h: seq<Byte>) returns (data: seq<Byte>, actual: nat, failed: bool)
      requires Mid(socket, h) && WholeHeader(h, bytes) && bytes > 0
      modifies `unread, `shortReads, `broken, Current(socket)`buf
      ensures OthersKeep(socket) && Mid(socket, h) && Asked(socket, !failed && actual != bytes, failed)
      ensures Current(socket).Sized() && Current(socket).Header() == h && actual <= bytes
      ensures !failed ==> actual <= |Current(socket).buf| && data == Current(socket).buf[..actual]
                          && data + unread[socket] == old(Left(socket, h))
    {
      DataLeft(socket, h, bytes);
      data := [];
      hide CanHold, Resumable, Linked, Pending, WholeHeader;
      var q, n;
      q, actual := GetQueuedData(socket, bytes, h);
      n, failed := RecvData(socket, q, actual, bytes, h);
      if !failed {
        actual := actual + n;
        data := q.buf[..actual];
      }
      HeaderKept(socket, h, bytes);
    }

    lemma HeaderKept(socket: int, h: seq<Byte>, value: nat)
      requires Mid(socket, h) && WholeHeader(h, value)
      ensures Current(socket).Sized() && Current(socket).Header() == h
    {
      DataLeft(socket, h, value);
    }

    // The data is not all there: it stays in the queue, behind the header
    method Suspend(socket: int, bytes: nat, actual: nat, ghost data: seq<Byte>, ghost h: seq<Byte>)
      requires Mid(socket, h) && WholeHeader(h, bytes) && actual < bytes
      requires Current(socket).Sized() && Current(socket).Header() == h
      requires actual <= |Current(socket).buf| && data == Current(socket).buf[..actual]
      modifies this, defQueue, if socket in saved then {saved[socket]} else {}
      ensures Valid() && OthersKeep(socket) && SameObjects() && Quiet()
      ensures Pending(socket) == h + (data + old(unread[socket]))
    {
      WholeCanHold(h, bytes, actual);
      hide Mid, Pending, Linked, Resumable, CanHold, WholeHeader, Valid;
      Interrupted(socket, actual, h);
      assert h + data + unread[socket] == h + (data + unread[socket]);
    }

    // Socket_getdata
    method Getdata(socket: int, bytes: nat, ghost h: seq<Byte>) returns (data: seq<Byte>, actual: nat, failed: bool)
      requires Mid(socket, h) && WholeHeader(h, bytes)
      modifies this, defQueue, if socket in saved then {saved[socket]} else {}
      ensures OthersKeep(socket) && SameObjects()
      ensures Asked(socket, !failed && actual != bytes, failed)
      ensures failed ==> Mid(socket, h) && Kept()
      ensures !failed && actual == bytes ==>
        Valid() && data + Pending(socket) == old(Left(socket, h)) && |data| == bytes
      ensures !failed && actual != bytes ==> Valid() && Pending(socket) == h + old(Left(socket, h))
    {
      failed, actual, data := false, 0, [];
      hide Pending, Linked, Resumable, CanHold, WholeHeader, Valid;
      if bytes == 0 {
        NoDataLeft(socket, h);
        Complete(socket, h);
      } else {
        hide Left;
        data, actual, failed := GetSome(socket, bytes, h);
        if !failed {
          if actual == bytes {
            hide Mid;
            Complete(socket, h);
          } else {
            hide Mid;
            Suspend(socket, bytes, actual, data, h);
          }
        }
      }
    }

    lemma NoDataLeft(socket: int, h: seq<Byte>)
      requires Mid(socket, h) && WholeHeader(h, 0)
      ensures Left(socket, h) == [] + unread[socket]
    {
      DataLeft(socket, h, 0);
    }

    lemma AtTheStart(socket: int)
      requires Valid() && socket != 0 && socket in unread
      ensures Mid(socket, []) && PartHeader([]) && Left(socket, []) == Pending(socket)
    {
    }

    // The header byte and the remaining length
    method ReadHeader(socket: int) returns (rc: Code, header: Byte, remaining: nat, ghost h: seq<Byte>, ghost bad: bool)
      requires Valid() && socket != 0 && socket in unread
      modifies this, defQueue, if socket in saved then {saved[socket]} else {}
      ensures OthersKeep(socket) && SameObjects() && Asked(socket, rc == INTERRUPTED, rc == ERROR && !bad)
      ensures rc == COMPLETE ==> Mid(socket, h) && h != [] && h[0] == header && WholeHeader(h, remaining)
                                 && old(Pending(socket)) == h + Left(socket, h) && Kept()
      ensures rc == INTERRUPTED ==> Valid() && Pending(socket) == old(Pending(socket))
      ensures rc == ERROR ==> Mid(socket, h) && Kept() && (bad ==> FirstOf(old(Pending(socket))).Malformed?)
    {
      AtTheStart(socket);
      hide Mid, Left, Linked, Valid, CanHold, Resumable, PartHeader, Pending, FirstOf, Decode, WholeHeader;
      remaining, h, bad := 0, [], false;
      rc, header := Getch(socket, []);
      if rc != COMPLETE {
        assert rc == INTERRUPTED ==> [] + old(Left(socket, [])) == old(Left(socket, []));
        return;
      }
      assert [] + [header] == [header];
      rc, remaining, h, bad := DecodeLength(socket, header);
      if rc == ERROR && bad { MalformedAfterHeader(h, Left(socket, h)); }
    }

    // MQTTPacket_Factory: the first packet of what is pending is taken off, or nothing changes
    method Factory(socket: int) returns (rc: Code, packet: Packet, ghost h: seq<Byte>, ghost gone: bool)
      requires Valid() && socket != 0 && socket in unread
      modifies this, defQueue, if socket in saved then {saved[socket]} else {}
      ensures OthersKeep(socket) && SameObjects()
      ensures Asked(socket, rc == INTERRUPTED, rc == ERROR && gone)
      ensures rc == COMPLETE ==> Valid() && TakesFirst(old(Pending(socket)), packet, Pending(socket))
      ensures rc == INTERRUPTED ==> Valid() && Pending(socket) == old(Pending(socket))
      ensures rc == ERROR ==> Mid(socket, h) && Kept() && (gone || FirstOf(old(Pending(socket))).Malformed?)
    {
      hide Mid, Left, Linked, Valid, CanHold, Resumable, PartHeader, Pending, FirstOf, Decode, TakesFirst, WholeHeader;
      packet := Packet(0, []);
      var header, remaining;
      ghost var bad;
      rc, header, remaining, h, bad := ReadHeader(socket);
      gone := !bad;
      if rc == COMPLETE {
        gone := true;
        ghost var left := Left(socket, h);
        var data, actual, failed := Getdata(socket, remaining, h);
        if failed {
          rc := ERROR;
        } else if actual != remaining {
          rc := INTERRUPTED;
        } else {
          packet := Packet(header, data);
          Taken(h, remaining, left, data, Pending(socket));
        }
      }
    }

    lemma Taken(h: seq<Byte>, value: nat, left: seq<Byte>, data: seq<Byte>, rest: seq<Byte>)
      requires WholeHeader(h, value) && |data| == value && data + rest == left
      ensures TakesFirst(h + left, Packet(h[0], data), rest)
    {
      FirstAfterHeader(h, value, left);
      assert left[..value] == data;
      assert h + left == h + data + rest;
    }

    // SocketBuffer_cleanup, on the way of closing a socket after an error
    method Cleanup(socket: int, ghost h: seq<Byte>)
      requires Mid(socket, h)
      modifies this, defQueue
      ensures Valid() && OthersKeep(socket) && SameObjects() && socket !in saved && Quiet()
    {
      hide CanHold;
      var q := FindQueue(socket);
      if q != null {
        Forget(socket, q);
      }
      if defQueue.socket == socket {
        defQueue.socket, defQueue.index, defQueue.headerlen, defQueue.datalen := 0, 0, 0, 0;
      }
    }

    // One read from a socket, which is cleaned up after an error
    method Read(socket: int) returns (rc: Code, packet: Packet, ghost gone: bool)
      requires Valid() && socket != 0 && socket in unread
      modifies this, defQueue, queues
      ensures Valid() && OthersKeep(socket) && SameObjects()
      ensures Asked(socket, rc == INTERRUPTED, rc == ERROR && gone)
      ensures rc == COMPLETE ==> TakesFirst(old(Pending(socket)), packet, Pending(socket))
      ensures rc == INTERRUPTED ==> Pending(socket) == old(Pending(socket))
      ensures rc == ERROR ==> gone || FirstOf(old(Pending(socket))).Malformed?
    {
      InQueues(socket);
      ghost var h;
      rc, packet, h, gone := Factory(socket);
      hide Mid, Left, Linked, Valid, CanHold, Resumable, PartHeader, Pending;
      if rc == ERROR {
        Cleanup(socket, h);
      }
    }

    lemma InQueues(socket: int)
      requires Valid()
      ensures socket in saved ==> saved[socket] in queues
    {
    }

    // Any number of reads from any sockets in any order, each of them interrupted wherever it may be: what is
    // received, with what is still pending, is what the unbroken stream holds; and each read that is not cut short
    // by its connection brings a packet
    method ReadAll(schedule: seq<int>) returns (log: seq<(int, Packet)>, closed: set<int>)
      requires Valid() && broken == {} && forall i :: 0 <= i < |schedule| ==> schedule[i] != 0 && schedule[i] in unread
      modifies this, defQueue, queues
      ensures Valid() && unread.Keys == old(unread.Keys)
      ensures forall k :: k in unread ==>
        Accounted(AllOf(old(Pending(k))), ReceivedBy(log, k), AllOf(Pending(k)), k in closed, k in broken)
      ensures closed == {} ==> |log| + shortReads == |schedule| + old(shortReads)
    {
      log, closed := [], {};
      hide Mid, Left, Linked, Valid, CanHold, Resumable, PartHeader, Pending, TakesFirst, AllOf;
      for i := 0 to |schedule|
        invariant Valid() && SameObjects() && unread.Keys == old(unread.Keys)
        invariant broken <= closed
        invariant forall k :: k in unread ==>
          Accounted(AllOf(old(Pending(k))), ReceivedBy(log, k), AllOf(Pending(k)), k in closed, k in broken)
        invariant closed == {} ==> |log| + shortReads == i + old(shortReads)
      {
        var socket := schedule[i];
        if socket !in closed {
          hide Accounted, ReceivedBy;
          ghost var all, before := AllOf(old(Pending(socket))), Pending(socket);
          var rc, packet;
          ghost var gone;
          rc, packet, gone := Read(socket);
          if rc == COMPLETE {
            TakenFromAll(before, packet, Pending(socket));
            AccountedMore(all, ReceivedBy(log, socket), packet, AllOf(Pending(socket)));
            LogGrows(log, socket, packet);
            log := log + [(socket, packet)];
          } else if rc == ERROR {
            closed := closed + {socket};
            if !gone { MalformedEnds(before); }
            AccountedLast(all, ReceivedBy(log, socket), AllOf(before), AllOf(Pending(socket)), gone);
          }
        }
      }
    }
  }

  // The packets of one socket, in the order in which they were received
  function ReceivedBy(log: seq<(int, Packet)>, socket: int): seq<Packet> {
    if log == [] then []
    else
      var (k, p) := log[|log| - 1];
      ReceivedBy(log[..|log| - 1], socket) + if k == socket then [p] else []
  }

  lemma LogGrows(log: seq<(int, Packet)>, socket: int, p: Packet)
    ensures ReceivedBy(log + [(socket, p)], socket) == ReceivedBy(log, socket) + [p]
    ensures forall k :: k != socket ==> ReceivedBy(log + [(socket, p)], k) == ReceivedBy(log, k)
  {
    assert (log + [(socket, p)])[..|log|] == log;
  }

  // `all` are the packets of the whole stream, `got` the received ones, `rest` those that are pending
  ghost predicate Accounted(all: seq<Packet>, got: seq<Packet>, rest: seq<Packet>, closed: bool, broken: bool) {
    && got <= all
    && (!closed ==> all == got + rest)
    && (closed && !broken ==> all == got)
  }

  lemma AccountedMore(all: seq<Packet>, got: seq<Packet>, p: Packet, rest: seq<Packet>)
    requires Accounted(all, got, [p] + rest, false, false)
    ensures Accounted(all, got + [p], rest, false, false)
  {
    assert got + ([p] + rest) == got + [p] + rest;
  }

  lemma AccountedLast(all: seq<Packet>, got: seq<Packet>, rest: seq<Packet>, rest': seq<Packet>, broken: bool)
    requires Accounted(all, got, rest, false, false) && (broken || rest == [])
    ensures Accounted(all, got, rest', true, broken)
  {
  }

  lemma MalformedEnds(s: seq<Byte>)
    requires FirstOf(s).Malformed?
    ensures AllOf(s) == []
  {
  }
}
