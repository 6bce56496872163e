/** The queue of commands of the asynchronous client: which command is taken next, and in which order the commands of
    each client start. */
module CommandQueue {
  import opened Sequences

  datatype Kind = CONNECT | DISCONNECT | PUBLISH | SUBSCRIBE | UNSUBSCRIBE

  datatype Command = Command(client: int, kind: Kind, internal: bool, token: int)

  // What the choice looks at, for each client
  datatype Situation = Situation(connected: bool, connectState: int, pendingWrites: bool, outbound: nat)

  const MAX_MSG_ID := 65535

  // Neither a pending write nor a connect in progress, and a message id to be had
  predicate Runnable(c: Command, s: Situation) {
    && (c.kind == CONNECT || c.kind == DISCONNECT || (s.connected && s.connectState == 0 && !s.pendingWrites))
    && !((c.kind == PUBLISH || c.kind == SUBSCRIBE || c.kind == UNSUBSCRIBE) && s.outbound >= MAX_MSG_ID - 1)
  }

  // A command that has to wait: never a CONNECT or a DISCONNECT
  predicate Waits(c: Command, s: Situation) {
    && c.kind in {PUBLISH, SUBSCRIBE, UNSUBSCRIBE}
    && (!s.connected || s.connectState != 0 || s.pendingWrites || s.outbound >= 65534)
  }

  ghost predicate FirstOfItsClient(cs: seq<Command>, i: nat)
    requires i < |cs|
  {
    forall j :: 0 <= j < i ==> cs[j].client != cs[i].client
  }

  // The commands of one client, in order
  ghost function Of(cs: seq<Command>, client: int): seq<Command> {
    if cs == [] then []
    else Of(cs[..|cs| - 1], client) + if cs[|cs| - 1].client == client then [cs[|cs| - 1]] else []
  }

  lemma {:induction false} OfConcat(a: seq<Command>, b: seq<Command>, client: int)
    ensures Of(a + b, client) == Of(a, client) + Of(b, client)
  {
    if b == [] {
      assert a + b == a;
    } else {
      var n := |b| - 1;
      assert (a + b)[..|a + b| - 1] == a + b[..n];
      OfConcat(a, b[..n], client);
    }
  }

  lemma {:induction false} OfNone(cs: seq<Command>, client: int)
    requires forall j :: 0 <= j < |cs| ==> cs[j].client != client
    ensures Of(cs, client) == []
  {
    if cs != [] { OfNone(cs[..|cs| - 1], client); }
  }

  lemma OfOne(c: Command, client: int)
    ensures Of([c], client) == if c.client == client then [c] else []
  {
    assert [c][..0] == [];
  }

  // Taking the first command of a client takes the head of that client's commands and leaves the others alone
  lemma TakenFirst(cs: seq<Command>, k: nat, client: int)
    requires k < |cs| && FirstOfItsClient(cs, k)
    ensures if client == cs[k].client then Of(cs, client) == [cs[k]] + Of(Without(cs, k), client)
            else Of(Without(cs, k), client) == Of(cs, client)
  {
    var a, b := cs[..k], cs[k + 1..];
    assert cs == a + [cs[k]] + b;
    OfConcat(a + [cs[k]], b, client);
    OfConcat(a, [cs[k]], client);
    OfConcat(a, b, client);
    OfOne(cs[k], client);
    if client == cs[k].client { OfNone(a, client); }
  }

  type Orders = map<int, seq<Command>>

  ghost function OrderOf(order: Orders, client: int): seq<Command> {
    if client in order then order[client] else []
  }

  // The commands of every client have started in their order, and the rest of them wait in that order
  ghost predicate InOrder(order: Orders, started: seq<Command>, commands: seq<Command>) {
    forall x :: OrderOf(order, x) == Of(started, x) + Of(commands, x)
  }

  lemma AppendedOf(started: seq<Command>, cs: seq<Command>, c: Command, x: int)
    ensures Of(started, x) + Of(cs + [c], x) == Of(started, x) + Of(cs, x) + if c.client == x then [c] else []
  {
    OfConcat(cs, [c], x);
    OfOne(c, x);
    hide Of;
    if c.client == x {
      assert Of(started, x) + (Of(cs, x) + [c]) == Of(started, x) + Of(cs, x) + [c];
    } else {
      assert Of(cs, x) + [] == Of(cs, x);
    }
  }

  lemma AppendedInOrder(order: Orders, started: seq<Command>, cs: seq<Command>, c: Command)
    requires InOrder(order, started, cs)
    ensures InOrder(order[c.client := OrderOf(order, c.client) + [c]], started, cs + [c])
  {
    hide Of;
    forall x ensures OrderOf(order[c.client := OrderOf(order, c.client) + [c]], x) == Of(started, x) + Of(cs + [c], x) {
      AppendedOf(started, cs, c, x);
    }
  }

  lemma PrependedInOrder(order: Orders, started: seq<Command>, cs: seq<Command>, c: Command)
    requires InOrder(order, started, cs)
    ensures InOrder(order[c.client := Of(started, c.client) + [c] + Of(cs, c.client)], started, [c] + cs)
  {
    forall x ensures Of([c] + cs, x) == (if c.client == x then [c] else []) + Of(cs, x) {
      OfConcat([c], cs, x);
      OfOne(c, x);
    }
    hide Of;
  }

  lemma StartedOf(started: seq<Command>, cs: seq<Command>, k: nat, x: int)
    requires k < |cs| && FirstOfItsClient(cs, k)
    ensures Of(started + [cs[k]], x) + Of(Without(cs, k), x) == Of(started, x) + Of(cs, x)
  {
    hide Of, Without, FirstOfItsClient;
    TakenFirst(cs, k, x);
    OfConcat(started, [cs[k]], x);
    OfOne(cs[k], x);
    Shift(Of(started, x), [cs[k]], Of(Without(cs, k), x));
  }

  lemma Shift(a: seq<Command>, b: seq<Command>, c: seq<Command>)
    ensures a + b + c == a + (b + c) && a + [] == a
  { }

  lemma StartedInOrder(order: Orders, started: seq<Command>, cs: seq<Command>, k: nat)
    requires InOrder(order, started, cs) && k < |cs| && FirstOfItsClient(cs, k)
    ensures InOrder(order, started + [cs[k]], Without(cs, k))
  {
    hide Of, Without;
    forall x ensures OrderOf(order, x) == Of(started + [cs[k]], x) + Of(Without(cs, k), x) {
      StartedOf(started, cs, k, x);
    }
  }

  class Queue {
    var commands: seq<Command>
    var started: seq<Command>
    ghost var order: Orders      // for each client the order in which its commands are to start

    ghost predicate Valid()
      reads this
    {
      InOrder(order, started, commands)
    }

    constructor ()
      ensures Valid() && commands == [] && started == []
    {
      commands, started, order := [], [], map[];
    }

    // MQTTAsync_addCommand: CONNECT and an internal DISCONNECT go to the head, unless the head is the same already
    method AddCommand(c: Command)
      requires Valid()
      modifies `commands, `order
      ensures Valid()
      ensures forall x :: x != c.client ==> OrderOf(order, x) == OrderOf(old(order), x)
      ensures
        if c.kind == CONNECT || (c.kind == DISCONNECT && c.internal) then
          if old(commands) != [] && old(commands)[0].client == c.client && old(commands)[0].kind == c.kind then
            commands == old(commands) && order == old(order)
          else
            commands == [c] + old(commands) &&
                OrderOf(order, c.client) == Of(started, c.client) + [c] + Of(old(commands), c.client)
        else
          commands == old(commands) + [c] && OrderOf(order, c.client) == OrderOf(old(order), c.client) + [c]
    {
      hide Of, InOrder;
      if c.kind == CONNECT || (c.kind == DISCONNECT && c.internal) {
        if !(|commands| > 0 && commands[0].client == c.client && commands[0].kind == c.kind) {
          PrependedInOrder(order, started, commands, c);
          order := order[c.client := Of(started, c.client) + [c] + Of(commands, c.client)];
          commands := [c] + commands;
        }
      } else {
        AppendedInOrder(order, started, commands, c);
        order := order[c.client := OrderOf(order, c.client) + [c]];
        commands := commands + [c];
      }
    }

    // The selection of MQTTAsync_processCommand, with what it means for a command to be runnable
    method Choose(situations: map<int, Situation>) returns (k: int)
      requires forall i :: 0 <= i < |commands| ==> commands[i].client in situations
      ensures -1 <= k < |commands|
      ensures k >= 0 ==> Runnable(commands[k], situations[commands[k].client]) && FirstOfItsClient(commands, k)
      ensures forall i :: 0 <= i < (if k < 0 then |commands| else k) && FirstOfItsClient(commands, i) ==>
        !Runnable(commands[i], situations[commands[i].client])
      ensures k >= 0 ==> forall j :: 0 <= j < k ==> commands[j].client != commands[k].client
      ensures k >= 0 && commands[k].kind in {PUBLISH, SUBSCRIBE, UNSUBSCRIBE} ==>
        var s := situations[commands[k].client];
        s.connected && s.connectState == 0 && !s.pendingWrites && s.outbound < 65534
      ensures forall i ::
        0 <= i < (if k < 0 then |commands| else k) &&
        (forall j :: 0 <= j < i ==> commands[j].client != commands[i].client) ==>
          Waits(commands[i], situations[commands[i].client])
    {
      k := Select(situations);
      forall i | 0 <= i < (if k < 0 then |commands| else k) &&
          forall j :: 0 <= j < i ==> commands[j].client != commands[i].client
        ensures Waits(commands[i], situations[commands[i].client])
      {
        assert FirstOfItsClient(commands, i);
      }
    }

    // The loop of the selection
    method Select(situations: map<int, Situation>) returns (k: int)
      requires forall i :: 0 <= i < |commands| ==> commands[i].client in situations
      ensures -1 <= k < |commands|
      ensures k >= 0 ==> Runnable(commands[k], situations[commands[k].client]) && FirstOfItsClient(commands, k)
      ensures forall i :: 0 <= i < (if k < 0 then |commands| else k) && FirstOfItsClient(commands, i) ==>
        !Runnable(commands[i], situations[commands[i].client])
    {
      var ignored: set<int> := {};
      k := 0;
      while k < |commands|
        invariant 0 <= k <= |commands|
        invariant forall x :: x in ignored <==> exists j :: 0 <= j < k && commands[j].client == x
        invariant forall i :: 0 <= i < k && FirstOfItsClient(commands, i) ==>
          !Runnable(commands[i], situations[commands[i].client])
      {
        var c := commands[k];
        if c.client !in ignored {
          if Runnable(c, situations[c.client]) {
            return;
          }
          ignored := ignored + {c.client};
        }
        k := k + 1;
      }
      k := -1;
    }

    // The command that is chosen leaves the queue and starts
    method ProcessCommand(situations: map<int, Situation>) returns (k: int)
      requires Valid() && forall i :: 0 <= i < |commands| ==> commands[i].client in situations
      modifies `commands, `started
      ensures Valid() && -1 <= k < |old(commands)|
      ensures k < 0 ==> commands == old(commands) && started == old(started)
      ensures k < 0 ==> forall i :: 0 <= i < |commands| && FirstOfItsClient(commands, i) ==>
        !Runnable(commands[i], situations[commands[i].client])
      ensures k >= 0 ==> commands == Without(old(commands), k) && started == old(started) + [old(commands)[k]]
      ensures k >= 0 ==>
        FirstOfItsClient(old(commands), k) && Runnable(old(commands)[k], situations[old(commands)[k].client])
      ensures k >= 0 && old(commands)[k].kind in {PUBLISH, SUBSCRIBE, UNSUBSCRIBE} ==>
        var s := situations[old(commands)[k].client];
        s.connected && s.connectState == 0 && !s.pendingWrites && s.outbound < 65534
      ensures k < 0 && old(commands) != [] ==>
        old(commands)[0].kind != CONNECT && old(commands)[0].kind != DISCONNECT
    {
      k := Choose(situations);
      if k >= 0 {
        hide InOrder;
        var c := commands[k];
        StartedInOrder(order, started, commands, k);
        commands := Without(commands, k);
        started := started + [c];
      }
    }
  }
}
