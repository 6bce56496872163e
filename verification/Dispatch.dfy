/** Commands and sockets: a command that is started finds its socket free. */
module Dispatch {
  import opened CommandQueue
  import SocketWriter
  import opened Wire

  // What a client is like, apart from its socket
  datatype State = State(connected: bool, connectState: int, outbound: nat)

  // What MQTTAsync_processCommand sees of a client: Socket_noPendingWrites looks at the list of pending writes
  ghost predicate Seen(situation: Situation, state: State, writes: seq<SocketWriter.PendingWrite>, socket: int) {
    && situation.connected == state.connected && situation.connectState == state.connectState
    && situation.outbound == state.outbound
    && (situation.pendingWrites <==> SocketWriter.PendingAt(writes, socket).Due?)
  }

  method LookAt(w: SocketWriter.Writer, socket: int, state: State) returns (situation: Situation)
    requires w.Valid()
    ensures Seen(situation, state, w.writes, socket)
  {
    var i := w.FindWrite(socket);
    SocketWriter.NothingDue(w.writes, socket);
    situation := Situation(state.connected, state.connectState, i >= 0, state.outbound);
  }

  method Look(w: SocketWriter.Writer, commands: seq<Command>, sockets: map<int, int>, states: map<int, State>)
    returns (situations: map<int, Situation>)
    requires w.Valid() && sockets.Keys == states.Keys
    requires forall i :: 0 <= i < |commands| ==> commands[i].client in sockets
    ensures forall i :: 0 <= i < |commands| ==> commands[i].client in situations
    ensures forall x :: x in situations ==> x in sockets && Seen(situations[x], states[x], w.writes, sockets[x])
  {
    situations := map[];
    hide SocketWriter.Writer.Valid, Seen;
    for i := 0 to |commands|
      invariant forall j :: 0 <= j < i ==> commands[j].client in situations
      invariant forall x :: x in situations ==> x in sockets && Seen(situations[x], states[x], w.writes, sockets[x])
    {
      var x := commands[i].client;
      var situation := LookAt(w, sockets[x], states[x]);
      situations := situations[x := situation];
    }
  }

  // A command is taken, and what it has to say is written. The write is refused only if the system call fails, never
  // for another one that is pending.
  method StartOne(q: Queue, w: SocketWriter.Writer, sockets: map<int, int>, states: map<int, State>,
      bufs: seq<seq<Byte>>, taken: SocketWriter.Outcome) returns (k: int, rc: SocketWriter.Code)
    requires q.Valid() && w.Valid() && sockets.Keys == states.Keys && Flat(bufs) != []
    requires forall i :: 0 <= i < |q.commands| ==> q.commands[i].client in sockets
    requires forall x :: x in sockets ==> sockets[x] in w.sent
    modifies q, w
    ensures q.Valid() && w.Valid() && -1 <= k < |old(q.commands)|
    ensures k >= 0 && old(q.commands)[k].kind in {PUBLISH, SUBSCRIBE, UNSUBSCRIBE} ==> (rc.ERROR? <==> taken.Fails?)
    ensures k >= 0 && old(q.commands)[k].kind in {PUBLISH, SUBSCRIBE, UNSUBSCRIBE} && !taken.Fails? ==>
      var s := sockets[old(q.commands)[k].client];
      s in w.accepted && s in old(w.accepted) && w.accepted[s] == old(w.accepted)[s] + Flat(bufs)
    ensures k < 0 || old(q.commands)[k].kind in {CONNECT, DISCONNECT} ==>
      w.sent == old(w.sent) && w.writes == old(w.writes)
  {
    hide SocketWriter.Writer.Valid, Queue.Valid, Flat, SocketWriter.OthersSame, SocketWriter.DueIn, SocketWriter.Taken,
      Runnable, FirstOfItsClient;
    var situations := Look(w, q.commands, sockets, states);
    rc := SocketWriter.Code.COMPLETE;
    k := q.ProcessCommand(situations);
    if k >= 0 {
      var c := q.started[|q.started| - 1];
      if c.kind == PUBLISH || c.kind == SUBSCRIBE || c.kind == UNSUBSCRIBE {
        IsFree(w, sockets[c.client]);
        hide SocketWriter.PendingAt, SocketWriter.Find;
        w.SameKeys();
        rc := w.PutDatas(sockets[c.client], bufs, taken);
      }
    }
  }

  lemma IsFree(w: SocketWriter.Writer, socket: int)
    requires w.Valid()
    ensures SocketWriter.PendingAt(w.writes, socket).Nothing? <==> SocketWriter.Find(w.writes, socket) < 0
  {
    SocketWriter.NothingDue(w.writes, socket);
  }
}
