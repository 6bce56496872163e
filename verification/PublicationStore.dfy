/** Reference counts of the stored publications. */
module PublicationStore {
  import opened Sequences

  class Publications {
    var refcount: int

    constructor ()
      ensures refcount == 1
    {
      refcount := 1;
    }
  }

  lemma WithoutParts<T>(s: seq<T>, i: nat)
    requires i < |s|
    ensures |Without(s, i)| == |s| - 1 && Without(s, i)[..i] == s[..i] && Without(s, i)[i..] == s[i + 1..]
  { }

  lemma WithoutOne<T>(s: seq<T>, i: nat)
    requires i < |s|
    ensures multiset(Without(s, i)) == multiset(s) - multiset{s[i]}
  {
    assert s == s[..i] + [s[i]] + s[i + 1..];
  }

  function Pubs(pending: seq<(int, Publications)>): seq<Publications> {
    seq(|pending|, i requires 0 <= i < |pending| => pending[i].1)
  }

  // Each of them once, and no others
  ghost predicate Exactly<T>(stored: multiset<T>, refs: multiset<T>) {
    (forall p :: p in stored ==> stored[p] == 1 && p in refs) && forall p :: p in refs ==> p in stored
  }

  ghost predicate Counts(stored: seq<Publications>, refs: multiset<Publications>)
    reads stored
  {
    forall p :: p in stored ==> p.refcount == refs[p]
  }

  ghost predicate Single(inbound: seq<Publications>, refs: multiset<Publications>) {
    forall p :: p in inbound ==> refs[p] == 1
  }

  lemma SingleAt(inbound: seq<Publications>, refs: multiset<Publications>, i: nat)
    requires Single(inbound, refs) && i < |inbound|
    ensures refs[inbound[i]] == 1
  { }

  lemma SingleWith(inbound: seq<Publications>, refs: multiset<Publications>, p: Publications)
    requires Single(inbound, refs) && p !in inbound
    ensures Single(inbound, refs + multiset{p})
  { }

  lemma SingleWithout(inbound: seq<Publications>, refs: multiset<Publications>, p: Publications)
    requires Single(inbound, refs) && p !in inbound
    ensures Single(inbound, refs - multiset{p})
  { }

  lemma OneLess<T>(stored: multiset<T>, refs: multiset<T>, p: T)
    requires Exactly(stored, refs) && p in refs
    ensures Exactly(if refs[p] == 1 then stored - multiset{p} else stored, refs - multiset{p})
  { }

  type Pending = seq<(int, Publications)>

  // Everything that points to a publication
  ghost function RefsOf(outbound: seq<Publications>, inbound: seq<Publications>,
      pending: Pending): (refs: multiset<Publications>)
    ensures forall i :: 0 <= i < |outbound| ==> outbound[i] in refs
    ensures forall i :: 0 <= i < |inbound| ==> inbound[i] in refs
    ensures forall i :: 0 <= i < |pending| ==> pending[i].1 in refs
  {
    assert forall i :: 0 <= i < |pending| ==> Pubs(pending)[i] == pending[i].1;
    multiset(outbound) + multiset(inbound) + multiset(Pubs(pending))
  }

  lemma RefsAppended(a: seq<Publications>, b: seq<Publications>, c: Pending, p: Publications, socket: int)
    ensures RefsOf(a + [p], b, c) == RefsOf(a, b, c) + multiset{p}
    ensures RefsOf(a, b + [p], c) == RefsOf(a, b, c) + multiset{p}
    ensures RefsOf(a, b, c + [(socket, p)]) == RefsOf(a, b, c) + multiset{p}
  {
    assert Pubs(c + [(socket, p)]) == Pubs(c) + [p];
    hide Pubs;
    AddedAnywhere(multiset(a), multiset(b), multiset(Pubs(c)), multiset{p});
  }

  lemma AddedAnywhere<T>(a: multiset<T>, b: multiset<T>, c: multiset<T>, x: multiset<T>)
    ensures a + x + b + c == a + b + c + x && a + (b + x) + c == a + b + c + x && a + b + (c + x) == a + b + c + x
  { }

  lemma RefsOutboundWithout(a: seq<Publications>, b: seq<Publications>, c: Pending, i: nat)
    requires i < |a|
    ensures RefsOf(Without(a, i), b, c) == RefsOf(a, b, c) - multiset{a[i]}
  {
    WithoutOne(a, i);
    assert a[i] in multiset(a);
  }

  lemma RefsInboundWithout(a: seq<Publications>, b: seq<Publications>, c: Pending, i: nat)
    requires i < |b|
    ensures RefsOf(a, Without(b, i), c) == RefsOf(a, b, c) - multiset{b[i]}
  {
    WithoutOne(b, i);
    assert b[i] in multiset(b);
  }

  lemma RefsPendingWithout(a: seq<Publications>, b: seq<Publications>, c: Pending, i: nat)
    requires i < |c|
    ensures c[i].1 in Pubs(c)
    ensures RefsOf(a, b, Without(c, i)) == RefsOf(a, b, c) - multiset{c[i].1}
  {
    assert Pubs(c)[i] == c[i].1;
    assert Pubs(Without(c, i)) == Without(Pubs(c), i);
    WithoutOne(Pubs(c), i);
    assert c[i].1 in multiset(Pubs(c));
  }

  lemma RefsReplaced(a: seq<Publications>, b: seq<Publications>, c: Pending, i: nat, p: Publications)
    requires i < |b| && p != b[i]
    ensures RefsOf(a, b[i := p], c) == RefsOf(a, b, c) + multiset{p} - multiset{b[i]}
  {
    ReplacedOne(b, i, p);
    assert b[i] in multiset(b);
  }

  lemma InboundWithin(a: seq<Publications>, b: seq<Publications>, c: Pending)
    ensures multiset(b) <= RefsOf(a, b, c)
  { }

  // The lists hold messages; of a message only its publication matters here
  class State {
    var publications: seq<Publications>
    var outbound: seq<Publications>
    var inbound: seq<Publications>
    var pending: Pending      // QoS 0 writes that did not finish, by socket

    ghost function Refs(): multiset<Publications>
      reads this
    {
      RefsOf(outbound, inbound, pending)
    }

    // Each stored publication counts what points to it, and is stored exactly as long as something does; what is
    // inbound is pointed to once
    ghost predicate Valid()
      reads this, publications
    {
      && Exactly(multiset(publications), Refs())
      && Counts(publications, Refs()) && Single(inbound, Refs())
    }

    constructor ()
      ensures Valid() && publications == [] && Refs() == multiset{}
    {
      publications, outbound, inbound, pending := [], [], [], [];
    }

    // MQTTProtocol_storePublication
    method StorePublication() returns (p: Publications)
      modifies `publications
      ensures fresh(p) && p.refcount == 1 && publications == old(publications) + [p]
    {
      p := new Publications();
      publications := publications + [p];
    }

    // ListRemove on the list of publications
    method RemoveFromList(p: Publications)
      modifies `publications
      ensures p !in old(publications) ==> publications == old(publications)
      ensures p in old(publications) ==> multiset(publications) == multiset(old(publications)) - multiset{p}
    {
      var i := 0;
      while i < |publications| && publications[i] != p
        invariant 0 <= i <= |publications| && publications == old(publications)
        invariant p !in publications[..i]
      {
        i := i + 1;
      }
      if i < |publications| {
        WithoutOne(publications, i);
        publications := Without(publications, i);
      } else {
        assert publications[..i] == publications;
      }
    }

    // MQTTProtocol_removePublication
    method RemovePublication(p: Publications)
      requires p in publications
      modifies `publications, p
      ensures p.refcount == old(p.refcount) - 1
      ensures if p.refcount == 0 then multiset(publications) == multiset(old(publications)) - multiset{p}
        else publications == old(publications)
    {
      p.refcount := p.refcount - 1;
      if p.refcount == 0 {
        RemoveFromList(p);
      }
    }

    // The same, for one of the references refs
    method DropReference(p: Publications, ghost refs: multiset<Publications>)
      requires Exactly(multiset(publications), refs) && Counts(publications, refs) && p in refs
      modifies `publications, p
      ensures Exactly(multiset(publications), refs - multiset{p}) && Counts(publications, refs - multiset{p})
      ensures forall q :: q in publications ==> q in old(publications)
      ensures p in publications <==> refs[p] > 1
    {
      assert p in multiset(publications);
      OneLess(multiset(publications), refs, p);
      RemovePublication(p);
      assert forall q :: q in publications <==> q in multiset(publications);
      assert forall q :: q in old(publications) <==> q in multiset(old(publications));
    }

    // A message of its own publication joins the outbound list
    method StartPublish() returns (p: Publications)
      requires Valid()
      modifies this
      ensures Valid() && fresh(p) && outbound == old(outbound) + [p] && inbound == old(inbound) &&
        pending == old(pending)
      ensures publications == old(publications) + [p]
    {
      hide Exactly, Counts, Single, RefsOf;
      p := StoreNew(Refs());
      RefsAppended(outbound, inbound, pending, p, 0);
      outbound := outbound + [p];
    }

    // MQTTProtocol_storePublication, with the new reference added to refs
    method StoreNew(ghost refs: multiset<Publications>) returns (p: Publications)
      requires Exactly(multiset(publications), refs) && Counts(publications, refs)
      modifies `publications
      ensures fresh(p) && publications == old(publications) + [p]
      ensures Exactly(multiset(publications), refs + multiset{p}) && Counts(publications, refs + multiset{p})
      ensures forall ms :: Single(ms, refs) && p !in ms ==> Single(ms, refs + multiset{p})
      ensures p !in refs
    {
      assert forall q :: q in refs ==> q in multiset(publications);
      p := StorePublication();
    }

    // MQTTProtocol_createMessage, when there is a message to share the publication with
    method StartShared(i: nat)
      requires Valid() && i < |outbound|
      modifies this, publications
      ensures Valid() && outbound == old(outbound) + [old(outbound)[i]] && publications == old(publications)
      ensures inbound == old(inbound) && pending == old(pending)
    {
      hide Exactly, Counts, Single, RefsOf;
      var p := outbound[i];
      InStored(Refs(), p);
      NotInbound(p);
      SingleWith(inbound, Refs(), p);
      RefsAppended(outbound, inbound, pending, p, 0);
      AddReference(p, Refs());
      outbound := outbound + [p];
    }

    method AddReference(p: Publications, ghost refs: multiset<Publications>)
      requires Exactly(multiset(publications), refs) && Counts(publications, refs) && p in refs
      modifies p
      ensures Exactly(multiset(publications), refs + multiset{p}) && Counts(publications, refs + multiset{p})
    {
      p.refcount := p.refcount + 1;
    }

    // The end of an outbound exchange: MQTTProtocol_removePublication, then ListRemove of the message
    method FinishOutbound(i: nat)
      requires Valid() && i < |outbound|
      modifies this, publications
      ensures Valid() && outbound == Without(old(outbound), i) && inbound == old(inbound) && pending == old(pending)
      ensures old(outbound)[i] in publications <==> old(Refs())[old(outbound)[i]] > 1
    {
      hide Exactly, Counts, Single, Without, RefsOf;
      var p := outbound[i];
      InStored(Refs(), p);
      NotInbound(p);
      SingleWithout(inbound, Refs(), p);
      RefsOutboundWithout(outbound, inbound, pending, i);
      DropReference(p, Refs());
      outbound := Without(outbound, i);
    }

    lemma CountOf(refs: multiset<Publications>, p: Publications)
      requires Exactly(multiset(publications), refs) && Counts(publications, refs) && p in refs
      ensures p.refcount == refs[p]
    {
      InStored(refs, p);
    }

    lemma InStored(refs: multiset<Publications>, p: Publications)
      requires Exactly(multiset(publications), refs) && p in refs
      ensures p in publications
    {
      assert p in multiset(publications);
    }

    // What is inbound is nowhere else
    lemma NotInbound(p: Publications)
      requires Single(inbound, Refs()) && (p in outbound || p in Pubs(pending))
      ensures p !in inbound
    {
      assert p in inbound ==> multiset(inbound)[p] >= 1;
      assert multiset(outbound)[p] >= 1 || multiset(Pubs(pending))[p] >= 1;
    }

    // MQTTProtocol_handlePublishes for QoS 2; i is the place of a message with the same id, or -1
    method Receive(i: int) returns (p: Publications)
      requires Valid() && -1 <= i < |inbound|
      modifies this, publications
      ensures Valid() && fresh(p) && outbound == old(outbound) && pending == old(pending)
      ensures inbound == if i < 0 then old(inbound) + [p] else old(inbound)[i := p]
    {
      hide Exactly, Counts, Single, RefsOf;
      InboundWithin(outbound, inbound, pending);
      if i >= 0 { InStored(Refs(), inbound[i]); }
      p := StoreNew(Refs());
      if i < 0 {
        SingleAppended(inbound, Refs(), p);
        RefsAppended(outbound, inbound, pending, p, 0);
        inbound := inbound + [p];
      } else {
        ReplaceInbound(i, p, Refs());
      }
    }

    method ReplaceInbound(i: nat, p: Publications, ghost refs: multiset<Publications>)
      requires i < |inbound| && refs == Refs() && Single(inbound, refs) && p !in refs
      requires Exactly(multiset(publications), refs + multiset{p}) && Counts(publications, refs + multiset{p})
      modifies `inbound, `publications, inbound[i]
      ensures Valid() && inbound == old(inbound)[i := p]
    {
      hide Exactly, Counts, Single, RefsOf;
      var was := inbound[i];
      assert was in refs && was != p;
      InStored(refs + multiset{p}, was);
      InboundWithin(outbound, inbound, pending);
      SingleReplaced(inbound, refs, i, p);
      RefsReplaced(outbound, inbound, pending, i, p);
      DropReference(was, refs + multiset{p});
      Exchange(i, p);
    }

    // ListInsert before the old message, and ListRemove of the old one
    method Exchange(i: nat, p: Publications)
      requires i < |inbound|
      modifies `inbound
      ensures inbound == old(inbound)[i := p]
    {
      inbound := inbound[..i] + [p] + inbound[i..];
      inbound := inbound[..i + 1] + inbound[i + 2..];
    }

    // MQTTProtocol_handlePubrels takes the publication out of the list without a look at its count, which is 1
    method Deliver(i: nat)
      requires Valid() && i < |inbound|
      modifies this
      ensures Valid() && inbound == Without(old(inbound), i) && outbound == old(outbound) && pending == old(pending)
      ensures old(inbound[i].refcount) == 1 && old(inbound)[i] !in publications
    {
      hide Exactly, Counts, Single, Without, RefsOf;
      var p := inbound[i];
      SingleAt(inbound, Refs(), i);
      CountOf(Refs(), p);
      InboundWithin(outbound, inbound, pending);
      SingleTaken(inbound, Refs(), i);
      RefsInboundWithout(outbound, inbound, pending, i);
      TakeUncounted(p, Refs());
      inbound := Without(inbound, i);
    }

    method TakeUncounted(p: Publications, ghost refs: multiset<Publications>)
      requires Exactly(multiset(publications), refs) && Counts(publications, refs) && refs[p] == 1
      modifies `publications
      ensures Exactly(multiset(publications), refs - multiset{p}) && Counts(publications, refs - multiset{p}) &&
        p !in publications
    {
      InStored(refs, p);
      TakenOut(p, refs);
      hide Exactly, Counts;
      ghost var stored := publications;
      RemoveFromList(p);
      SameCounts(stored, publications, refs, p);
    }

    lemma TakenOut(p: Publications, refs: multiset<Publications>)
      requires Exactly(multiset(publications), refs) && refs[p] == 1
      ensures Exactly(multiset(publications) - multiset{p}, refs - multiset{p}) &&
        p !in multiset(publications) - multiset{p}
    {
      OneLess(multiset(publications), refs, p);
    }

    // MQTTProtocol_storeQoS0: a copy is kept until the write is finished
    method StoreQoS0(socket: int) returns (p: Publications)
      requires Valid()
      modifies this
      ensures Valid() && fresh(p) && pending == old(pending) + [(socket, p)] && outbound == old(outbound) &&
        inbound == old(inbound)
    {
      hide Exactly, Counts, Single, RefsOf;
      p := StoreNew(Refs());
      RefsAppended(outbound, inbound, pending, p, socket);
      pending := pending + [(socket, p)];
    }

    // The body of the loop of MQTTProtocol_checkPendingWrites for a write that has finished
    method Finished(i: nat)
      requires Valid() && i < |pending|
      modifies `pending, `publications, pending[i].1
      ensures Valid() && pending == Without(old(pending), i) && outbound == old(outbound) && inbound == old(inbound)
      ensures forall q :: q in publications ==> q in old(publications)
    {
      hide Exactly, Counts, Single, Without, Pubs, RefsOf;
      var p := pending[i].1;
      RefsPendingWithout(outbound, inbound, pending, i);
      InStored(Refs(), p);
      NotInbound(p);
      SingleWithout(inbound, Refs(), p);
      DropReference(p, Refs());
      pending := Without(pending, i);
    }

    // MQTTProtocol_checkPendingWrites: the copies of the writes that have finished go, the others stay in order
    method CheckPendingWrites(unfinished: set<int>)
      requires Valid()
      modifies this, publications
      ensures Valid() && outbound == old(outbound) && inbound == old(inbound)
      ensures pending == Still(old(pending), unfinished)
    {
      hide Exactly, Counts, Single, Pubs, Without, RefsOf;
      var i := 0;
      ghost var k := 0;
      while i < |pending|
        invariant 0 <= i <= |pending| && Valid() && outbound == old(outbound) && inbound == old(inbound)
        invariant 0 <= k <= |old(pending)| && pending[i..] == old(pending)[k..]
        invariant pending[..i] == Still(old(pending)[..k], unfinished)
        invariant forall q :: q in publications ==> q in old(publications)
        decreases |pending| - i
      {
        assert old(pending)[..k + 1][..k] == old(pending)[..k];
        assert pending[i] == old(pending)[k];
        ghost var rest := pending[i + 1..];
        assert rest == pending[i..][1..] == old(pending)[k + 1..];
        if pending[i].0 !in unfinished {
          ghost var front := pending[..i];
          InStored(Refs(), pending[i].1);
          WithoutParts(pending, i);
          Finished(i);
        } else {
          assert pending[..i + 1] == pending[..i] + [pending[i]];
          i := i + 1;
        }
        k := k + 1;
      }
      assert old(pending)[..k] == old(pending) && pending[..i] == pending;
    }
  }

  // The pending writes of the sockets that still have something to write
  function Still(pending: seq<(int, Publications)>, unfinished: set<int>): seq<(int, Publications)> {
    if pending == [] then []
    else
      var last := pending[|pending| - 1];
      Still(pending[..|pending| - 1], unfinished) + if last.0 in unfinished then [last] else []
  }

  lemma ReplacedOne<T>(s: seq<T>, i: nat, x: T)
    requires i < |s|
    ensures multiset(s[i := x]) == multiset(s) - multiset{s[i]} + multiset{x}
  { }

  lemma SingleAppended(inbound: seq<Publications>, refs: multiset<Publications>, p: Publications)
    requires Single(inbound, refs) && p !in refs && multiset(inbound) <= refs
    ensures Single(inbound + [p], refs + multiset{p})
  {
    assert forall q :: q in inbound ==> q in multiset(inbound);
  }

  lemma OnlyOnce(inbound: seq<Publications>, refs: multiset<Publications>, i: nat)
    requires Single(inbound, refs) && multiset(inbound) <= refs && i < |inbound|
    ensures inbound[i] !in Without(inbound, i) && forall p :: p in Without(inbound, i) ==> p in inbound
  {
    WithoutOne(inbound, i);
    var p := inbound[i];
    assert refs[p] == 1 && multiset(inbound)[p] <= refs[p];
    assert forall q :: q in Without(inbound, i) ==> q in multiset(Without(inbound, i));
    assert forall q :: q in multiset(inbound) ==> q in inbound;
  }

  lemma SingleTaken(inbound: seq<Publications>, refs: multiset<Publications>, i: nat)
    requires Single(inbound, refs) && multiset(inbound) <= refs && i < |inbound|
    ensures Single(Without(inbound, i), refs - multiset{inbound[i]})
  {
    OnlyOnce(inbound, refs, i);
  }

  lemma SingleReplaced(inbound: seq<Publications>, refs: multiset<Publications>, i: nat, p: Publications)
    requires Single(inbound, refs) && multiset(inbound) <= refs && i < |inbound| && p !in refs
    ensures Single(inbound[i := p], refs + multiset{p} - multiset{inbound[i]})
  {
    OnlyOnce(inbound, refs, i);
    var t := inbound[i := p];
    forall j | 0 <= j < |t| && j != i ensures t[j] in Without(inbound, i) && t[j] in multiset(inbound) {
      assert Without(inbound, i)[if j < i then j else j - 1] == t[j];
      assert t[j] == inbound[j];
    }
  }

  lemma SameCounts(stored: seq<Publications>, after: seq<Publications>, refs: multiset<Publications>, p: Publications)
    requires Counts(stored, refs) && multiset(after) == multiset(stored) - multiset{p} && p !in multiset(after)
    ensures Counts(after, refs - multiset{p}) && p !in after
  {
    forall q | q in after ensures q in stored && refs[q] == (refs - multiset{p})[q] {
      assert q in multiset(after);
      assert multiset(after)[q] == (multiset(stored) - multiset{p})[q];
      assert q in multiset(stored);
    }
  }
}
