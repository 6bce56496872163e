/** Writing packets to non-blocking sockets: what a short write leaves over is written later, from where it stopped. */
module SocketWriter {
  import opened Sequences
  import opened Wire

  datatype Code = COMPLETE | INTERRUPTED | ERROR

  // What the connection makes of a system call
  datatype Outcome = Fails | Takes(bytes: nat)

  function Taken(taken: Outcome, offered: nat): (n: nat)
    ensures n <= offered
  {
    if taken.Fails? then 0 else if taken.bytes < offered then taken.bytes else offered
  }

  datatype PendingWrite = PendingWrite(socket: int, iovecs: seq<seq<Byte>>, total: nat, bytes: nat)

  // What is still to be done for a socket: the first `bytes` of these buffers have been written
  datatype Pending = Nothing | Due(bufs: seq<seq<Byte>>, bytes: nat)

  ghost function PendingAt(writes: seq<PendingWrite>, socket: int): Pending {
    var i := Find(writes, socket);
    if i < 0 then Nothing else Due(writes[i].iovecs, writes[i].bytes)
  }

  // What a round offers of it: all from the place where the last write stopped, but only up to the end of a buffer that
  // it stopped inside
  function Offered(bufs: seq<seq<Byte>>, bytes: nat): seq<Byte> {
    if bufs == [] then []
    else if bytes == 0 then Flat(bufs)
    else if bytes < |bufs[0]| then bufs[0][bytes..]
    else Offered(bufs[1..], bytes - |bufs[0]|)
  }

  // The buffers before the one that is reached are passed over
  lemma {:induction false} OfferedFrom(bufs: seq<seq<Byte>>, i: nat, bytes: nat)
    requires i <= |bufs| && bytes >= |Flat(bufs[..i])|
    requires forall j :: 0 <= j < i ==> bytes > |Flat(bufs[..j])|
    ensures Offered(bufs, bytes) == Offered(bufs[i..], bytes - |Flat(bufs[..i])|)
  {
    if i == 0 {
      assert bufs[..0] == [] && bufs[0..] == bufs;
    } else {
      OfferedFrom(bufs, i - 1, bytes);
      FlatTaken(bufs, i - 1);
      assert bufs[i - 1..][1..] == bufs[i..];
    }
  }

  lemma FlatTaken(bufs: seq<seq<Byte>>, i: nat)
    requires i < |bufs|
    ensures Flat(bufs[..i + 1]) == Flat(bufs[..i]) + bufs[i]
  {
    assert bufs[..i + 1] == bufs[..i] + [bufs[i]];
    FlatAppend(bufs[..i], bufs[i]);
  }

  ghost function Find(writes: seq<PendingWrite>, socket: int): (i: int)
    ensures -1 <= i < |writes|
    ensures i >= 0 ==> writes[i].socket == socket && forall j :: 0 <= j < i ==> writes[j].socket != socket
    ensures i < 0 ==> forall j :: 0 <= j < |writes| ==> writes[j].socket != socket
  {
    if writes == [] then -1
    else
      var i := Find(writes[..|writes| - 1], socket);
      if i >= 0 then i else if writes[|writes| - 1].socket == socket then |writes| - 1 else -1
  }

  ghost predicate Sound(pw: PendingWrite) {
    pw.total == |Flat(pw.iovecs)| && pw.bytes < pw.total
  }

  ghost function Rest(pw: PendingWrite): (rest: seq<Byte>)
    requires Sound(pw)
    ensures rest != []
  {
    Flat(pw.iovecs)[pw.bytes..]
  }

  ghost predicate AllSound(writes: seq<PendingWrite>) {
    && (forall i :: 0 <= i < |writes| ==> Sound(writes[i]))
    && (forall i, j :: 0 <= i < j < |writes| ==> writes[i].socket != writes[j].socket)
  }

  // The bytes of a socket that are still to be written
  ghost function DueIn(writes: seq<PendingWrite>, socket: int): seq<Byte>
    requires AllSound(writes)
  {
    var i := Find(writes, socket);
    if i < 0 then [] else Rest(writes[i])
  }

  lemma DueAfterAppend(writes: seq<PendingWrite>, pw: PendingWrite)
    requires AllSound(writes) && Sound(pw) && Find(writes, pw.socket) < 0
    ensures AllSound(writes + [pw]) && DueIn(writes + [pw], pw.socket) == Rest(pw)
    ensures PendingAt(writes + [pw], pw.socket) == Due(pw.iovecs, pw.bytes)
    ensures SameDue(writes, writes + [pw], pw.socket)
  {
    hide Sound, Rest;
    assert (writes + [pw])[..|writes|] == writes;
    forall s | s != pw.socket ensures Find(writes + [pw], s) == Find(writes, s) {
    }
  }

  lemma DueAfterUpdate(writes: seq<PendingWrite>, i: nat, pw: PendingWrite)
    requires AllSound(writes) && i < |writes| && Sound(pw) && pw.socket == writes[i].socket
    ensures AllSound(writes[i := pw]) && DueIn(writes[i := pw], pw.socket) == Rest(pw)
    ensures PendingAt(writes[i := pw], pw.socket) == Due(pw.iovecs, pw.bytes)
    ensures SameDue(writes, writes[i := pw], pw.socket)
  {
    hide Sound, Rest, Find;
    var t := writes[i := pw];
    var k := Find(t, pw.socket);
    assert t[i].socket == pw.socket;
    forall s | s != pw.socket ensures DueIn(t, s) == DueIn(writes, s) && PendingAt(t, s) == PendingAt(writes, s) {
      var a, b := Find(t, s), Find(writes, s);
      assert a >= 0 ==> writes[a].socket == s;
      assert b >= 0 ==> t[b].socket == s;
    }
  }

  lemma DueAfterRemoval(writes: seq<PendingWrite>, i: nat)
    requires AllSound(writes) && i < |writes|
    ensures AllSound(Without(writes, i)) && DueIn(Without(writes, i), writes[i].socket) == []
    ensures PendingAt(Without(writes, i), writes[i].socket) == Nothing
    ensures SameDue(writes, Without(writes, i), writes[i].socket)
  {
    hide Sound, Rest, Find;
    var t := Without(writes, i);
    assert forall j :: 0 <= j < |t| ==> t[j] == writes[if j < i then j else j + 1];
    var k := Find(t, writes[i].socket);
    forall s | s != writes[i].socket
      ensures DueIn(t, s) == DueIn(writes, s) && PendingAt(t, s) == PendingAt(writes, s)
    {
      var a, b := Find(t, s), Find(writes, s);
      assert b >= 0 ==> t[if b < i then b else b - 1] == writes[b];
    }
  }

  // ---------------- what a round offers ----------------

  // The buffers that Socket_continueWrite hands to the system: all of them from the one at whose beginning the last
  // write stopped; only the remainder of a buffer if it stopped inside
  ghost predicate Offers(pw: PendingWrite, iovecs: seq<seq<Byte>>)
    requires Sound(pw)
  {
    Flat(iovecs) <= Rest(pw) && Flat(iovecs) != [] && Flat(iovecs) == Offered(pw.iovecs, pw.bytes)
  }

  ghost predicate Listed(writes: seq<PendingWrite>, sockets: seq<int>) {
    |sockets| == |writes| && forall i :: 0 <= i < |writes| ==> sockets[i] == writes[i].socket
  }

  ghost predicate Known(writes: seq<PendingWrite>, sockets: set<int>) {
    forall i :: 0 <= i < |writes| ==> writes[i].socket in sockets
  }

  ghost predicate SameDue(writes: seq<PendingWrite>, writes': seq<PendingWrite>, socket: int)
    requires AllSound(writes) && AllSound(writes')
  {
    forall s :: s != socket ==> DueIn(writes', s) == DueIn(writes, s) && PendingAt(writes', s) == PendingAt(writes, s)
  }

  // Each byte is either sent or due, in order; on a connection on which the continuation of a write has failed some
  // bytes are neither
  ghost predicate BalancedAt(accepted: seq<Byte>, sent: seq<Byte>, due: seq<Byte>, broken: bool) {
    if broken then |sent| + |due| < |accepted| else accepted == sent + due
  }

  ghost predicate Balanced(accepted: map<int, seq<Byte>>, sent: map<int, seq<Byte>>, writes: seq<PendingWrite>,
      broken: set<int>)
    requires AllSound(writes)
  {
    accepted.Keys == sent.Keys && forall s :: s in sent ==>
      BalancedAt(accepted[s], sent[s], DueIn(writes, s), s in broken)
  }

  ghost predicate OthersSame(sent: map<int, seq<Byte>>, writes: seq<PendingWrite>, sent': map<int, seq<Byte>>,
      writes': seq<PendingWrite>, socket: int)
    requires AllSound(writes) && AllSound(writes')
  {
    && sent.Keys == sent'.Keys && SameDue(writes, writes', socket)
    && forall s :: s in sent && s != socket ==> sent'[s] == sent[s]
  }

  lemma StaysBalanced(accepted: map<int, seq<Byte>>, sent: map<int, seq<Byte>>, writes: seq<PendingWrite>,
      broken: set<int>, more: seq<Byte>, out: seq<Byte>, writes': seq<PendingWrite>, socket: int)
    requires AllSound(writes) && AllSound(writes') && Balanced(accepted, sent, writes, broken) && socket in sent
    requires SameDue(writes, writes', socket)
    requires sent[socket] + DueIn(writes, socket) + more == sent[socket] + out + DueIn(writes', socket)
    ensures var sent' := sent[socket := sent[socket] + out];
      && Balanced(accepted[socket := accepted[socket] + more], sent', writes', broken)
      && OthersSame(sent, writes, sent', writes', socket)
  {
    hide AllSound, DueIn;
    assert |sent[socket] + DueIn(writes, socket) + more| == |sent[socket] + out + DueIn(writes', socket)|;
  }

  // What is due is dropped
  lemma BreaksBalance(accepted: map<int, seq<Byte>>, sent: map<int, seq<Byte>>, writes: seq<PendingWrite>,
      broken: set<int>, writes': seq<PendingWrite>, socket: int)
    requires AllSound(writes) && AllSound(writes') && Balanced(accepted, sent, writes, broken) && socket in sent
    requires SameDue(writes, writes', socket) && DueIn(writes, socket) != [] && DueIn(writes', socket) == []
    ensures Balanced(accepted, sent, writes', broken + {socket}) && OthersSame(sent, writes, sent, writes', socket)
  {
    hide AllSound, DueIn;
  }

  class Writer {
    var writes: seq<PendingWrite>
    var writePending: seq<int>
    var sent: map<int, seq<Byte>>              // what each connection has taken so far
    ghost var accepted: map<int, seq<Byte>>    // what has been given to it for writing
    ghost var offers: seq<(int, seq<Byte>)>    // what the system calls have been given, call by call
    ghost var broken: set<int>                 // the connections on which the continuation of a write has failed

    ghost predicate Valid()
      reads this
    {
      && AllSound(writes) && Listed(writes, writePending) && Balanced(accepted, sent, writes, broken)
      && Known(writes, sent.Keys)
    }

    constructor ()
      ensures Valid() && sent == map[] && accepted == map[] && broken == {} && writes == []
    {
      writes, writePending, sent, accepted, offers, broken := [], [], map[], map[], [], {};
    }

    // Socket_addSocket, as far as the writes are concerned: a connection that nothing has been written to
    method Open(socket: int)
      requires Valid() && socket !in sent && socket !in broken
      modifies `sent, `accepted
      ensures Valid() && sent == old(sent)[socket := []] && accepted == old(accepted)[socket := []]
    {
      NoneKnown(writes, sent.Keys, socket);
      NothingDue(writes, socket);
      hide AllSound, DueIn, Find, Listed;
      sent := sent[socket := []];
      accepted := accepted[socket := []];
    }

    // What has been sent is always a beginning of what has been accepted, and all of it exactly if nothing is pending
    lemma StreamEquality(socket: int)
      requires Valid() && socket in sent && socket !in broken
      ensures sent[socket] <= accepted[socket]
      ensures sent[socket] == accepted[socket] <==> socket !in writePending
    {
      PendingIsDue(socket);
      hide AllSound, DueIn, Listed, Known;
      assert BalancedAt(accepted[socket], sent[socket], DueIn(writes, socket), false);
    }

    // With nothing pending everything has been sent exactly if no continuation of a write has failed
    lemma CompleteExactly(socket: int)
      requires Valid() && socket in sent && socket !in writePending
      ensures |sent[socket]| == |accepted[socket]| <==> socket !in broken
    {
      PendingIsDue(socket);
      hide AllSound, DueIn, Listed, Known;
      assert BalancedAt(accepted[socket], sent[socket], DueIn(writes, socket), socket in broken);
    }

    lemma PendingIsDue(socket: int)
      requires Valid()
      ensures DueIn(writes, socket) == [] <==> socket !in writePending
    {
      NothingDue(writes, socket);
      var i := Find(writes, socket);
      if i >= 0 { assert writePending[i] == socket; }
    }

    lemma SameKeys()
      requires Valid()
      ensures accepted.Keys == sent.Keys
    {
    }

    // Socket_noPendingWrites, and the search for the pending write of a socket
    method FindWrite(socket: int) returns (i: int)
      requires Valid()
      ensures i == Find(writes, socket)
    {
      i := 0;
      ghost var k := Find(writes, socket);
      while i < |writes| && writes[i].socket != socket
        invariant 0 <= i <= |writes|
        invariant forall j :: 0 <= j < i ==> writes[j].socket != socket
      {
        i := i + 1;
      }
      if i == |writes| {
        i := -1;
      }
    }

    // One system call: the connection takes `taken` bytes if there are as many, also none; or the call fails
    method Writev(socket: int, iovecs: seq<seq<Byte>>, taken: Outcome) returns (bytes: nat)
      requires socket in sent
      modifies `sent, `offers
      ensures offers == old(offers) + [(socket, Flat(iovecs))]
      ensures bytes == Taken(taken, |Flat(iovecs)|) <= |Flat(iovecs)|
      ensures sent == old(sent)[socket := old(sent)[socket] + Flat(iovecs)[..bytes]]
      ensures taken.Fails? ==> sent == old(sent)
    {
      var all := Flat(iovecs);
      bytes := Taken(taken, |all|);
      assert sent[socket] + [] == sent[socket] && sent[socket := sent[socket]] == sent;
      sent := sent[socket := sent[socket] + all[..bytes]];
      offers := offers + [(socket, all)];
    }

    static method Total(bufs: seq<seq<Byte>>) returns (total: nat)
      ensures total == |Flat(bufs)|
    {
      total := 0;
      for i := 0 to |bufs|
        invariant total == |Flat(bufs[..i])|
      {
        FlatTaken(bufs, i);
        total := total + |bufs[i]|;
      }
      assert bufs[..|bufs|] == bufs;
    }

    // Socket_putdatas; nothing is kept of what a failing call was to write
    method PutDatas(socket: int, bufs: seq<seq<Byte>>, taken: Outcome) returns (rc: Code)
      requires Valid() && socket in sent && Flat(bufs) != []
      modifies this
      ensures Valid() && broken == old(broken)
      ensures rc == ERROR <==> Find(old(writes), socket) >= 0 || taken.Fails?
      ensures rc == ERROR ==> sent == old(sent) && accepted == old(accepted) && writes == old(writes)
      ensures Find(old(writes), socket) >= 0 ==> offers == old(offers)
      ensures Find(old(writes), socket) < 0 ==> offers == old(offers) + [(socket, Flat(bufs))]
      ensures rc != ERROR ==> accepted == old(accepted)[socket := old(accepted)[socket] + Flat(bufs)]
      ensures rc != ERROR ==> sent == old(sent)[socket := old(sent)[socket] + Flat(bufs)[..Taken(taken, |Flat(bufs)|)]]
      ensures rc != ERROR ==> (rc == COMPLETE <==> DueIn(writes, socket) == [])
      ensures rc != ERROR ==>
        var n := Taken(taken, |Flat(bufs)|);
        PendingAt(writes, socket) == if n == |Flat(bufs)| then Nothing else Due(bufs, n)
      ensures OthersSame(old(sent), old(writes), sent, writes, socket)
    {
      var k := FindWrite(socket);
      NothingNew(sent, writes, socket);
      if k >= 0 {
        return ERROR;
      }
      var total := Total(bufs);
      NothingDue(writes, socket);
      hide Sound, Rest, Flat, Find, DueIn, AllSound, Balanced, SameDue, OthersSame, Known;
      var bytes := Writev(socket, bufs, taken);
      if taken.Fails? {
        return ERROR;
      }
      accepted := accepted[socket := accepted[socket] + Flat(bufs)];
      Parted(old(sent[socket]), Flat(bufs), bytes);
      rc := COMPLETE;
      if bytes != total {
        AddPending(PendingWrite(socket, bufs, total, bytes));
        rc := INTERRUPTED;
      } else {
        SameDueItself(writes, socket);
      }
      StaysBalanced(old(accepted), old(sent), old(writes), broken, Flat(bufs), Flat(bufs)[..bytes], writes, socket);
    }

    // SocketBuffer_pendingWrite
    method AddPending(pw: PendingWrite)
      requires AllSound(writes) && Listed(writes, writePending) && Known(writes, sent.Keys) && pw.socket in sent
      requires pw.total == |Flat(pw.iovecs)| && pw.bytes < pw.total && Find(writes, pw.socket) < 0
      modifies `writes, `writePending
      ensures AllSound(writes) && Listed(writes, writePending) && Known(writes, sent.Keys)
      ensures SameDue(old(writes), writes, pw.socket) && DueIn(writes, pw.socket) == Flat(pw.iovecs)[pw.bytes..]
      ensures PendingAt(writes, pw.socket) == Due(pw.iovecs, pw.bytes)
    {
      hide Sound, Rest, Flat, Find, DueIn, AllSound, SameDue;
      NewPending(pw);
      DueAfterAppend(writes, pw);
      writes := writes + [pw];
      writePending := writePending + [pw.socket];
    }

    // The loop of Socket_continueWrite that lays out what is left, up to the end of a buffer that was cut
    static method Remaining(pw: PendingWrite) returns (iovecs: seq<seq<Byte>>)
      requires Sound(pw)
      ensures Offers(pw, iovecs)
    {
      iovecs := [];
      var curbuflen, i := 0, 0;
      var cut := false;
      StartsAtNone(pw.iovecs, pw.bytes);
      hide Flat, Offered;
      while i < |pw.iovecs| && !cut
        invariant 0 <= i <= |pw.iovecs|
        invariant !cut ==> curbuflen == |Flat(pw.iovecs[..i])| && LaidOut(pw.iovecs, pw.bytes, i, iovecs)
        invariant cut ==> Flat(iovecs) == Offered(pw.iovecs, pw.bytes)
      {
        var buf := pw.iovecs[i];
        FlatTaken(pw.iovecs, i);
        if pw.bytes <= curbuflen {
          LaysWhole(pw.iovecs, pw.bytes, i, iovecs);
          iovecs := iovecs + [buf];
        } else if pw.bytes < curbuflen + |buf| {
          var offset := pw.bytes - curbuflen;
          LaysPart(pw.iovecs, pw.bytes, i, iovecs);
          iovecs := iovecs + [buf[offset..]];
          cut := true;
        } else {
          LaysNone(pw.iovecs, pw.bytes, i, iovecs);
        }
        curbuflen := curbuflen + |buf|;
        i := i + 1;
      }
      if !cut { AllLaidOut(pw, iovecs); }
      OfferedOfRest(pw.iovecs, pw.bytes);
    }

    // Socket_continueWrite, and the removal by Socket_continueWrites of a write that is complete. A failure counts as
    // completion, and what is left of the write is dropped.
    method ContinueWrite(socket: int, taken: Outcome) returns (done: bool, ghost offered: seq<Byte>)
      requires Valid() && Find(writes, socket) >= 0
      modifies `writes, `writePending, `sent, `offers, `broken
      ensures Valid() && sent.Keys == old(sent).Keys
      ensures offers == old(offers) + [(socket, offered)] && offered != [] && offered <= old(DueIn(writes, socket))
      ensures done <==> DueIn(writes, socket) == []
      ensures taken.Fails? ==> done
      ensures broken == if taken.Fails? then old(broken) + {socket} else old(broken)
      ensures OthersSame(old(sent), old(writes), sent, writes, socket)
      ensures socket in sent && sent[socket] == old(sent[socket]) + offered[..Taken(taken, |offered|)]
      ensures Continued(old(PendingAt(writes, socket)), taken, offered, PendingAt(writes, socket))
    {
      var k := FindWrite(socket);
      var iovecs := Remaining(writes[k]);
      offered := Flat(iovecs);
      hide Flat, Offers, AllSound, Balanced, Rest, Sound, SameDue, OthersSame, Known, Listed;
      assert DueIn(writes, socket) == Rest(writes[k]);
      OffersSome(writes[k], iovecs);
      hide DueIn, Find;
      if taken.Fails? {
        FailWrite(k, iovecs);
        done := true;
        assert offered[..0] == [];
      } else {
        done := WriteMore(k, iovecs, taken);
      }
    }

    method FailWrite(k: nat, iovecs: seq<seq<Byte>>)
      requires Valid() && k < |writes| && Offers(writes[k], iovecs) &&
        DueIn(writes, writes[k].socket) == Rest(writes[k])
      modifies `writes, `writePending, `sent, `offers, `broken
      ensures Valid() && sent == old(sent) && broken == old(broken) + {old(writes)[k].socket}
      ensures offers == old(offers) + [(old(writes)[k].socket, Flat(iovecs))]
      ensures DueIn(writes, old(writes)[k].socket) == [] && PendingAt(writes, old(writes)[k].socket) == Nothing
      ensures OthersSame(old(sent), old(writes), sent, writes, old(writes)[k].socket)
    {
      ghost var was := writes;
      var socket := writes[k].socket;
      assert Known(writes, sent.Keys) && socket in sent;
      assert Rest(writes[k]) != [];
      hide Flat, Find, Offers, AllSound, Balanced, Rest, Sound, SameDue, OthersSame, Known, Listed, DueIn;
      var bytes := Writev(socket, iovecs, Fails);
      Drop(k);
      broken := broken + {socket};
      BreaksBalance(accepted, sent, was, old(broken), writes, socket);
    }

    method WriteMore(k: nat, iovecs: seq<seq<Byte>>, taken: Outcome) returns (done: bool)
      requires Valid() && k < |writes| && Offers(writes[k], iovecs) &&
        DueIn(writes, writes[k].socket) == Rest(writes[k])
      modifies `writes, `writePending, `sent, `offers
      ensures Valid() && sent.Keys == old(sent).Keys
      ensures offers == old(offers) + [(old(writes)[k].socket, Flat(iovecs))]
      ensures done <==> DueIn(writes, old(writes)[k].socket) == []
      ensures OthersSame(old(sent), old(writes), sent, writes, old(writes)[k].socket)
      ensures var pw := old(writes)[k];
        var n := pw.bytes + Taken(taken, |Flat(iovecs)|);
        PendingAt(writes, pw.socket) == if n == |Flat(pw.iovecs)| then Nothing else Due(pw.iovecs, n)
      ensures var s := old(writes)[k].socket;
        s in sent && s in old(sent) && sent[s] == old(sent)[s] + Flat(iovecs)[..Taken(taken, |Flat(iovecs)|)]
    {
      ghost var was := writes;
      var pw := writes[k];
      var socket := pw.socket;
      assert Known(writes, sent.Keys) && socket in sent;
      hide Flat, Find, AllSound, Balanced, Sound, SameDue, OthersSame, Known, Listed, DueIn;
      var bytes := Writev(socket, iovecs, taken);
      OfferedPart(pw, iovecs, bytes, old(sent[socket]));
      hide Rest, Offers;
      done := Settle(k, pw, bytes);
      StaysBalanced(accepted, old(sent), was, broken, [], Flat(iovecs)[..bytes], writes, socket);
      assert accepted[socket] + [] == accepted[socket] && accepted[socket := accepted[socket]] == accepted;
    }

    // SocketBuffer_writeComplete, and the removal from the list of sockets
    method Drop(k: nat)
      requires AllSound(writes) && Listed(writes, writePending) && Known(writes, sent.Keys) && k < |writes|
      modifies `writes, `writePending
      ensures AllSound(writes) && Listed(writes, writePending) && Known(writes, sent.Keys)
      ensures SameDue(old(writes), writes, old(writes)[k].socket) && DueIn(writes, old(writes)[k].socket) == []
      ensures PendingAt(writes, old(writes)[k].socket) == Nothing
    {
      DueAfterRemoval(writes, k);
      hide AllSound, DueIn, SameDue, Flat;
      writes := Without(writes, k);
      writePending := writePending[..k] + writePending[k + 1..];
    }

    // pw->bytes += bytes; and the removal of a write that is complete
    method Settle(k: nat, pw: PendingWrite, bytes: nat) returns (done: bool)
      requires AllSound(writes) && Listed(writes, writePending) && Known(writes, sent.Keys)
      requires k < |writes| && pw == writes[k] && pw.bytes + bytes <= pw.total == |Flat(pw.iovecs)|
      modifies `writes, `writePending
      ensures AllSound(writes) && Listed(writes, writePending) && Known(writes, sent.Keys)
      ensures SameDue(old(writes), writes, pw.socket) && DueIn(writes, pw.socket) == Flat(pw.iovecs)[pw.bytes + bytes..]
      ensures done <==> pw.bytes + bytes == pw.total
      ensures PendingAt(writes, pw.socket) == if done then Nothing else Due(pw.iovecs, pw.bytes + bytes)
    {
      done := pw.bytes + bytes == pw.total;
      if done {
        Drop(k);
      } else {
        var after := pw.(bytes := pw.bytes + bytes);
        NewPending(after);
        DueAfterUpdate(writes, k, after);
        hide AllSound, DueIn, SameDue, Flat;
        writes := writes[k := after];
      }
    }
  }

  lemma NoneKnown(writes: seq<PendingWrite>, sockets: set<int>, socket: int)
    requires Known(writes, sockets) && socket !in sockets
    ensures Find(writes, socket) < 0
  {
  }

  lemma NothingNew(sent: map<int, seq<Byte>>, writes: seq<PendingWrite>, socket: int)
    requires AllSound(writes)
    ensures OthersSame(sent, writes, sent, writes, socket)
  {
  }

  lemma SameDueItself(writes: seq<PendingWrite>, socket: int)
    requires AllSound(writes)
    ensures SameDue(writes, writes, socket)
  {
  }

  lemma OffersSome(pw: PendingWrite, iovecs: seq<seq<Byte>>)
    requires Sound(pw) && Offers(pw, iovecs)
    ensures Flat(iovecs) <= Rest(pw) && Flat(iovecs) != [] && Flat(iovecs) == Offered(pw.iovecs, pw.bytes)
  {
  }

  // The buffers before place i have been looked at
  ghost predicate LaidOut(bufs: seq<seq<Byte>>, bytes: nat, i: nat, iovecs: seq<seq<Byte>>)
    requires i <= |bufs|
  {
    if bytes > |Flat(bufs[..i])| then
      iovecs == [] && forall j :: 0 <= j <= i ==> bytes > |Flat(bufs[..j])|
    else
      Offered(bufs, bytes) == Flat(iovecs) + Flat(bufs[i..])
  }

  lemma StartsAtNone(bufs: seq<seq<Byte>>, bytes: nat)
    ensures |Flat(bufs[..0])| == 0 && LaidOut(bufs, bytes, 0, [])
  {
    assert bufs[0..] == bufs && [] + Flat(bufs) == Flat(bufs);
  }

  lemma LaysWhole(bufs: seq<seq<Byte>>, bytes: nat, i: nat, iovecs: seq<seq<Byte>>)
    requires i < |bufs| && LaidOut(bufs, bytes, i, iovecs) && bytes <= |Flat(bufs[..i])|
    ensures LaidOut(bufs, bytes, i + 1, iovecs + [bufs[i]])
  {
    FlatTaken(bufs, i);
    FlatAppend(iovecs, bufs[i]);
    assert bufs[i..][0] == bufs[i] && bufs[i..][1..] == bufs[i + 1..];
    Associates(Flat(iovecs), bufs[i], Flat(bufs[i + 1..]));
  }

  lemma LaysPart(bufs: seq<seq<Byte>>, bytes: nat, i: nat, iovecs: seq<seq<Byte>>)
    requires i < |bufs| && LaidOut(bufs, bytes, i, iovecs)
    requires |Flat(bufs[..i])| < bytes < |Flat(bufs[..i])| + |bufs[i]|
    ensures Flat(iovecs + [bufs[i][bytes - |Flat(bufs[..i])|..]]) == Offered(bufs, bytes)
  {
    OfferedFrom(bufs, i, bytes);
    FlatAppend(iovecs, bufs[i][bytes - |Flat(bufs[..i])|..]);
    assert bufs[i..][0] == bufs[i];
  }

  lemma LaysNone(bufs: seq<seq<Byte>>, bytes: nat, i: nat, iovecs: seq<seq<Byte>>)
    requires i < |bufs| && LaidOut(bufs, bytes, i, iovecs) && |Flat(bufs[..i])| + |bufs[i]| <= bytes
    requires bytes > |Flat(bufs[..i])|
    ensures LaidOut(bufs, bytes, i + 1, iovecs)
  {
    FlatTaken(bufs, i);
    if bytes == |Flat(bufs[..i + 1])| {
      OfferedFrom(bufs, i + 1, bytes);
      assert Flat([]) + Flat(bufs[i + 1..]) == Flat(bufs[i + 1..]);
    }
  }

  lemma AllLaidOut(pw: PendingWrite, iovecs: seq<seq<Byte>>)
    requires Sound(pw) && LaidOut(pw.iovecs, pw.bytes, |pw.iovecs|, iovecs)
    ensures Flat(iovecs) == Offered(pw.iovecs, pw.bytes)
  {
    assert pw.iovecs[..|pw.iovecs|] == pw.iovecs && pw.iovecs[|pw.iovecs|..] == [];
    assert Flat([]) == [] && Flat(iovecs) + [] == Flat(iovecs);
  }

  // What is offered is a beginning of what is left, and something as long as anything is left
  lemma {:induction false} OfferedOfRest(bufs: seq<seq<Byte>>, bytes: nat)
    requires bytes < |Flat(bufs)|
    ensures Offered(bufs, bytes) <= Flat(bufs)[bytes..] && Offered(bufs, bytes) != []
  {
    if bytes > 0 {
      var rest := Flat(bufs[1..]);
      assert Flat(bufs) == bufs[0] + rest;
      if bytes < |bufs[0]| {
        assert Flat(bufs)[bytes..] == bufs[0][bytes..] + rest;
      } else {
        OfferedOfRest(bufs[1..], bytes - |bufs[0]|);
        assert Flat(bufs)[bytes..] == rest[bytes - |bufs[0]|..];
      }
    }
  }

  lemma OfferedPart(pw: PendingWrite, iovecs: seq<seq<Byte>>, n: nat, before: seq<Byte>)
    requires Sound(pw) && Offers(pw, iovecs) && n <= |Flat(iovecs)|
    ensures pw.total == |Flat(pw.iovecs)| && pw.bytes + n <= pw.total
    ensures Flat(iovecs) <= Rest(pw) && Flat(iovecs) != []
    ensures before + Rest(pw) + [] == before + Flat(iovecs)[..n] + Flat(pw.iovecs)[pw.bytes + n..]
    ensures Flat(pw.iovecs)[pw.bytes + n..] == [] <==> pw.bytes + n == pw.total
  {
    var f := Flat(pw.iovecs);
    var rest := Rest(pw);
    assert Flat(iovecs)[..n] == rest[..n];
    assert rest == rest[..n] + rest[n..];
    assert rest[n..] == f[pw.bytes + n..];
  }

  lemma NothingDue(writes: seq<PendingWrite>, socket: int)
    requires AllSound(writes)
    ensures DueIn(writes, socket) == [] <==> Find(writes, socket) < 0
    ensures PendingAt(writes, socket) == Nothing <==> Find(writes, socket) < 0
  {
  }

  // How a round of Socket_continueWrite, to which `offered` was offered, changes what is pending
  ghost predicate Continued(before: Pending, taken: Outcome, offered: seq<Byte>, after: Pending) {
    && before.Due? && offered == Offered(before.bufs, before.bytes)
    && var n := before.bytes + Taken(taken, |offered|);
       after == if taken.Fails? || n == |Flat(before.bufs)| then Nothing else Due(before.bufs, n)
  }

  lemma Parted(a: seq<Byte>, s: seq<Byte>, n: nat)
    requires n <= |s|
    ensures a + [] + s == a + s[..n] + s[n..] && (s[n..] == [] <==> n == |s|)
  {
    assert s == s[..n] + s[n..];
  }

  lemma NewPending(pw: PendingWrite)
    requires pw.total == |Flat(pw.iovecs)| && pw.bytes < pw.total
    ensures Sound(pw) && Rest(pw) == Flat(pw.iovecs)[pw.bytes..]
  {
  }

  // ---------------- whole runs ----------------

  datatype Call =
    | Opening(socket: int)
    | Putting(socket: int, bufs: seq<seq<Byte>>, taken: Outcome)
    | Continuing(socket: int, taken: Outcome)

  // What a connection has got, and what is still to be done for it
  datatype Line = Line(sent: seq<Byte>, pending: Pending, broken: bool)

  // All connections, and the writes that have been accepted
  datatype Ledger = Ledger(lines: map<int, Line>, log: seq<(int, seq<Byte>)>)

  // A write is accepted if the connection is open, nothing is pending on it and the system call does not fail
  predicate Accepts(lines: map<int, Line>, call: Call) {
    && call.Putting? && call.socket in lines && lines[call.socket].pending.Nothing?
    && Flat(call.bufs) != [] && !call.taken.Fails?
  }

  function LinePut(line: Line, all: seq<Byte>, bufs: seq<seq<Byte>>, taken: Outcome): Line {
    var n := Taken(taken, |all|);
    Line(line.sent + all[..n], if n == |all| then Nothing else Due(bufs, n), line.broken)
  }

  function LineContinued(line: Line, taken: Outcome): Line
    requires line.pending.Due?
  {
    if taken.Fails? then
      Line(line.sent, Nothing, true)
    else
      var Due(bufs, bytes) := line.pending;
      var offered := Offered(bufs, bytes);
      var n := Taken(taken, |offered|);
      Line(line.sent + offered[..n], if bytes + n == |Flat(bufs)| then Nothing else Due(bufs, bytes + n), line.broken)
  }

  // A call that is not possible in the present state does nothing
  function Entered(l: Ledger, call: Call): Ledger {
    match call
    case Opening(s) =>
      if s in l.lines then l else l.(lines := l.lines[s := Line([], Nothing, false)])
    case Putting(s, bufs, taken) =>
      if Accepts(l.lines, call) then
        Ledger(l.lines[s := LinePut(l.lines[s], Flat(bufs), bufs, taken)], l.log + [(s, Flat(bufs))])
      else
        l
    case Continuing(s, taken) =>
      if s in l.lines && l.lines[s].pending.Due? then
        l.(lines := l.lines[s := LineContinued(l.lines[s], taken)])
      else
        l
  }

  function EnteredAll(script: seq<Call>): Ledger {
    if script == [] then Ledger(map[], []) else Entered(EnteredAll(script[..|script| - 1]), script[|script| - 1])
  }

  // What has been accepted for one socket
  function BytesFor(log: seq<(int, seq<Byte>)>, socket: int): seq<Byte> {
    if log == [] then []
    else
      var (k, bytes) := log[|log| - 1];
      BytesFor(log[..|log| - 1], socket) + if k == socket then bytes else []
  }

  lemma LogMore(log: seq<(int, seq<Byte>)>, socket: int, bytes: seq<Byte>)
    ensures BytesFor(log + [(socket, bytes)], socket) == BytesFor(log, socket) + bytes
    ensures forall k :: k != socket ==> BytesFor(log + [(socket, bytes)], k) == BytesFor(log, k)
  {
    assert (log + [(socket, bytes)])[..|log|] == log;
  }

  ghost predicate LogOf(accepted: map<int, seq<Byte>>, log: seq<(int, seq<Byte>)>) {
    && (forall s :: s in accepted ==> accepted[s] == BytesFor(log, s))
    && (forall s :: s !in accepted ==> BytesFor(log, s) == [])
  }

  lemma LoggedMore(accepted: map<int, seq<Byte>>, log: seq<(int, seq<Byte>)>, socket: int, bytes: seq<Byte>)
    requires LogOf(accepted, log) && socket in accepted
    ensures LogOf(accepted[socket := accepted[socket] + bytes], log + [(socket, bytes)])
  {
    LogMore(log, socket, bytes);
    hide BytesFor;
  }

  lemma LoggedNone(accepted: map<int, seq<Byte>>, log: seq<(int, seq<Byte>)>, socket: int)
    requires LogOf(accepted, log) && socket !in accepted
    ensures LogOf(accepted[socket := []], log)
  {
    hide BytesFor;
  }

  ghost predicate LineIs(sent: map<int, seq<Byte>>, writes: seq<PendingWrite>, broken: set<int>, s: int, line: Line)
    requires s in sent
  {
    line == Line(sent[s], PendingAt(writes, s), s in broken)
  }

  // The writer is in the state that the ledger tells
  ghost predicate LinesAre(sent: map<int, seq<Byte>>, writes: seq<PendingWrite>, broken: set<int>,
      lines: map<int, Line>) {
    && lines.Keys == sent.Keys && broken <= sent.Keys
    && forall s :: s in sent ==> LineIs(sent, writes, broken, s, lines[s])
  }

  ghost predicate Tells(w: Writer, l: Ledger)
    reads w
  {
    LinesAre(w.sent, w.writes, w.broken, l.lines) && LogOf(w.accepted, l.log) && w.accepted.Keys == w.sent.Keys
  }

  // Only one line changes
  lemma OneLine(sent: map<int, seq<Byte>>, writes: seq<PendingWrite>, broken: set<int>, lines: map<int, Line>,
      sent': map<int, seq<Byte>>, writes': seq<PendingWrite>, broken': set<int>, s: int)
    requires AllSound(writes) && AllSound(writes') && LinesAre(sent, writes, broken, lines)
    requires OthersSame(sent, writes, sent', writes', s) && s in sent && broken - {s} == broken' - {s}
    ensures LinesAre(sent', writes', broken', lines[s := Line(sent'[s], PendingAt(writes', s), s in broken')])
  {
    hide PendingAt, DueIn, AllSound;
    forall k | k in broken' ensures k in sent' { if k != s { assert k in broken' - {s}; } }
    forall k | k in sent' && k != s ensures LineIs(sent', writes', broken', k, lines[k]) {
      assert k in broken - {s} <==> k in broken' - {s};
    }
  }

  lemma LineGoesOn(line: Line, taken: Outcome, offered: seq<Byte>, after: Pending)
    requires Continued(line.pending, taken, offered, after)
    ensures line.pending.Due? && LineContinued(line, taken) ==
      Line(line.sent + offered[..Taken(taken, |offered|)], after, line.broken || taken.Fails?)
  {
    assert line.sent + [] == line.sent && offered[..0] == [];
  }

  method OpenOne(w: Writer, socket: int, ghost l: Ledger)
    requires w.Valid() && Tells(w, l)
    modifies w
    ensures w.Valid() && Tells(w, Entered(l, Opening(socket)))
  {
    w.SameKeys();
    if socket !in w.sent {
      LoggedNone(w.accepted, l.log, socket);
      NoneKnown(w.writes, w.sent.Keys, socket);
      NothingDue(w.writes, socket);
      hide LogOf, AllSound, Listed, Balanced, Known, PendingAt;
      w.Open(socket);
    }
  }

  method PutOne(w: Writer, socket: int, bufs: seq<seq<Byte>>, taken: Outcome, ghost l: Ledger) returns (ok: bool)
    requires w.Valid() && Tells(w, l)
    modifies w
    ensures w.Valid() && Tells(w, Entered(l, Putting(socket, bufs, taken)))
    ensures ok <==> Accepts(l.lines, Putting(socket, bufs, taken))
  {
    ok := false;
    w.SameKeys();
    NothingDue(w.writes, socket);
    if socket in w.sent && Flat(bufs) != [] {
      assert LineIs(w.sent, w.writes, w.broken, socket, l.lines[socket]);
      LoggedMore(w.accepted, l.log, socket, Flat(bufs));
      hide LogOf, AllSound, Listed, Balanced, Known, Flat, Find, DueIn, OthersSame, Taken, PendingAt, LinesAre;
      var rc := w.PutDatas(socket, bufs, taken);
      w.SameKeys();
      ok := rc != ERROR;
      if ok {
        OneLine(old(w.sent), old(w.writes), old(w.broken), l.lines, w.sent, w.writes, w.broken, socket);
      }
    }
  }

  method ContinueOne(w: Writer, socket: int, taken: Outcome, ghost l: Ledger)
    requires w.Valid() && Tells(w, l)
    modifies w
    ensures w.Valid() && Tells(w, Entered(l, Continuing(socket, taken)))
  {
    w.SameKeys();
    NothingDue(w.writes, socket);
    var k := w.FindWrite(socket);
    if k >= 0 {
      assert Known(w.writes, w.sent.Keys) && socket in w.sent;
      assert LineIs(w.sent, w.writes, w.broken, socket, l.lines[socket]);
      hide LogOf, AllSound, Listed, Balanced, Known, Flat, Find, DueIn, OthersSame, PendingAt, LinesAre, Offered, Taken,
        Continued, LineContinued;
      var done;
      ghost var offered;
      done, offered := w.ContinueWrite(socket, taken);
      w.SameKeys();
      OneLine(old(w.sent), old(w.writes), old(w.broken), l.lines, w.sent, w.writes, w.broken, socket);
      LineGoesOn(l.lines[socket], taken, offered, PendingAt(w.writes, socket));
    }
  }

  method Perform(w: Writer, call: Call, ghost l: Ledger) returns (more: seq<(int, seq<Byte>)>)
    requires w.Valid() && Tells(w, l)
    modifies w
    ensures w.Valid() && Tells(w, Entered(l, call)) && Entered(l, call).log == l.log + more
  {
    more := [];
    assert l.log + [] == l.log;
    hide Writer.Valid, Tells, Flat, LinePut, LineContinued;
    match call
    case Opening(socket) => OpenOne(w, socket, l);
    case Putting(socket, bufs, taken) =>
      var ok := PutOne(w, socket, bufs, taken, l);
      if ok { more := [(socket, Flat(bufs))]; }
    case Continuing(socket, taken) => ContinueOne(w, socket, taken, l);
  }

  lemma EnteredNext(script: seq<Call>, i: nat)
    requires i < |script|
    ensures EnteredAll(script[..i + 1]) == Entered(EnteredAll(script[..i]), script[i])
  {
    assert script[..i + 1][..i] == script[..i];
  }

  // A continuation that fails and meets a pending write
  ghost predicate BreaksAt(script: seq<Call>, i: nat, socket: int)
    requires i < |script|
  {
    && script[i].Continuing? && script[i].taken.Fails? && script[i].socket == socket
    && var lines := EnteredAll(script[..i]).lines;
       socket in lines && lines[socket].pending.Due?
  }

  ghost predicate BrokenIn(script: seq<Call>, socket: int) {
    exists i :: 0 <= i < |script| && BreaksAt(script, i, socket)
  }

  // Over any script of calls, with any number of bytes taken by each and any failures, the writer does what the ledger
  // tells. What a connection has got is a beginning of the concatenation of all that was accepted for it, each byte
  // once and in order, and all of it exactly if nothing is pending; unless a failing continuation has met a pending
  // write on it, and then some bytes are missing.
  method Run(script: seq<Call>) returns (w: Writer, log: seq<(int, seq<Byte>)>)
    ensures fresh(w) && w.Valid() && Tells(w, EnteredAll(script)) && log == EnteredAll(script).log
    ensures forall s :: s in w.sent && s !in w.broken ==>
      && w.sent[s] <= BytesFor(log, s)
      && (w.sent[s] == BytesFor(log, s) <==> s !in w.writePending)
    ensures forall s :: s in w.sent && s !in w.writePending ==> (|w.sent[s]| == |BytesFor(log, s)| <==> s !in w.broken)
    ensures forall s :: s in w.broken <==> BrokenIn(script, s)
  {
    w := new Writer();
    log := [];
    assert script[..0] == [] && script[..|script|] == script;
    for i := 0 to |script|
      invariant fresh(w) && w.Valid() && Tells(w, EnteredAll(script[..i])) && log == EnteredAll(script[..i]).log
    {
      hide Writer.Valid, Tells, Entered, EnteredAll;
      var more := Perform(w, script[i], EnteredAll(script[..i]));
      EnteredNext(script, i);
      log := log + more;
    }
    forall s | s in w.sent && s !in w.broken
      ensures w.sent[s] <= w.accepted[s] && (w.sent[s] == w.accepted[s] <==> s !in w.writePending)
    {
      w.StreamEquality(s);
    }
    forall s | s in w.sent && s !in w.writePending ensures |w.sent[s]| == |w.accepted[s]| <==> s !in w.broken {
      w.CompleteExactly(s);
    }
    forall s ensures s in w.broken <==> BrokenIn(script, s) {
      BrokenExactly(script, s);
      assert s in w.sent ==> LineIs(w.sent, w.writes, w.broken, s, EnteredAll(script).lines[s]);
    }
  }

  lemma BrokenOnce(l: Ledger, call: Call, s: int)
    ensures var lines, lines' := l.lines, Entered(l, call).lines;
      (s in lines' && lines'[s].broken) <==>
      (s in lines && (lines[s].broken ||
                      (call.Continuing? && call.taken.Fails? && call.socket == s && lines[s].pending.Due?)))
  {
  }

  lemma {:induction false} BrokenExactly(script: seq<Call>, s: int)
    ensures var lines := EnteredAll(script).lines; (s in lines && lines[s].broken) <==> BrokenIn(script, s)
  {
    if script != [] {
      var n := |script| - 1;
      var before := script[..n];
      BrokenExactly(before, s);
      EnteredNext(script, n);
      assert script[..n + 1] == script;
      BrokenOnce(EnteredAll(before), script[n], s);
      hide EnteredAll, Entered;
      forall i: nat | i < n ensures BreaksAt(before, i, s) <==> BreaksAt(script, i, s) {
        assert before[i] == script[i] && before[..i] == script[..i];
      }
      assert BrokenIn(script, s) <==> BrokenIn(before, s) || BreaksAt(script, n, s);
    }
  }

  // A write that is not taken at all, and a continuation that fails: the bytes are lost, and nothing is pending
  lemma FailureLoses()
    ensures var l := EnteredAll([Opening(1), Putting(1, [[0]], Takes(0)), Continuing(1, Fails)]);
      l.lines == map[1 := Line([], Nothing, true)] && l.log == [(1, [0])]
  {
    var script := [Opening(1), Putting(1, [[0]], Takes(0)), Continuing(1, Fails)];
    EnteredNext(script, 0);
    EnteredNext(script, 1);
    EnteredNext(script, 2);
    assert script[..0] == [] && script[..3] == script;
    assert Flat([[0]]) == [0] by { assert [[0]][1..] == []; }
    var first := map[1 := Line([], Nothing, false)];
    assert EnteredAll(script[..1]) == Ledger(first, []);
    var waiting := Line([], Due([[0]], 0), false);
    assert LinePut(first[1], [0], [[0]], Takes(0)) == waiting by { assert [] + [0][..0] == []; }
    assert first[1 := waiting] == map[1 := waiting] && [] + [(1, [0])] == [(1, [0])];
    assert Entered(Ledger(first, []), script[1]) == Ledger(map[1 := waiting], [(1, [0])]);
  }
}
