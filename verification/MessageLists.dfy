/** Message lists by value: the searches, updates and the restore order of the outbound list. */
module MessageLists {
  import opened QosProtocol
  import opened Sequences

  datatype MessageType = PUBACK | PUBREC | PUBREL | PUBCOMP

  datatype Message = Message(msgid: int, qos: int, retain: bool, next: MessageType, pub: Publication)

  ghost function Ids(ms: seq<Message>): set<int> {
    set i | 0 <= i < |ms| :: ms[i].msgid
  }

  ghost predicate Distinct(ms: seq<Message>) {
    forall i, j :: 0 <= i < j < |ms| ==> ms[i].msgid != ms[j].msgid
  }

  ghost function IndexOf(ms: seq<Message>, id: int): (i: int)
    ensures -1 <= i < |ms|
    ensures i >= 0 ==> ms[i].msgid == id && forall j :: 0 <= j < i ==> ms[j].msgid != id
    ensures i == -1 <==> id !in Ids(ms)
  {
    if ms == [] then -1
    else if ms[0].msgid == id then 0
    else
      var i := IndexOf(ms[1..], id);
      assert forall j :: 0 < j < |ms| ==> ms[j] == ms[1..][j - 1];
      if i < 0 then -1 else i + 1
  }

  // What the protocol knows of an outbound message; for QoS 1 the expected type is not looked at
  function Abs(m: Message): OutMessage {
    var next := if m.qos == 1 then AwaitPuback else if m.next == PUBCOMP then AwaitPubcomp else AwaitPubrec;
    OutMessage(m.qos, next, m.pub)
  }

  ghost function ById(ms: seq<Message>): (m: map<int, Message>)
    ensures m.Keys == Ids(ms)
    ensures Distinct(ms) ==> forall i :: 0 <= i < |ms| ==> ms[i].msgid in m && m[ms[i].msgid] == ms[i]
  {
    assert Distinct(ms) ==> forall i :: 0 <= i < |ms| ==> IndexOf(ms, ms[i].msgid) == i;
    map id | id in Ids(ms) :: ms[IndexOf(ms, id)]
  }

  ghost function AbsAll(m: map<int, Message>): map<int, OutMessage> {
    map id | id in m :: Abs(m[id])
  }

  ghost function PubAll(m: map<int, Message>): map<int, Publication> {
    map id | id in m :: m[id].pub
  }

  ghost function OutMap(ms: seq<Message>): map<int, OutMessage> { AbsAll(ById(ms)) }

  ghost function InMap(ms: seq<Message>): map<int, Publication> { PubAll(ById(ms)) }

  // The map is determined by its agreement with the list
  lemma ByIdIs(ms: seq<Message>, m: map<int, Message>)
    requires Distinct(ms)
    requires forall i :: 0 <= i < |ms| ==> ms[i].msgid in m && m[ms[i].msgid] == ms[i]
    requires forall id :: id in m ==> exists i :: 0 <= i < |ms| && ms[i].msgid == id
    ensures ById(ms) == m
  {
    hide IndexOf;
    var t := ById(ms);
    forall id ensures id in t <==> id in m {
      if id in t { var i :| 0 <= i < |ms| && ms[i].msgid == id; }
    }
    forall id | id in t ensures t[id] == m[id] {
      var i :| 0 <= i < |ms| && ms[i].msgid == id;
    }
  }

  lemma ByIdOfWithout(ms: seq<Message>, i: int)
    requires Distinct(ms) && 0 <= i < |ms|
    ensures Distinct(Without(ms, i)) && ById(Without(ms, i)) == ById(ms) - {ms[i].msgid}
  {
    hide IndexOf, ById;
    var t := Without(ms, i);
    var m := ById(ms) - {ms[i].msgid};
    forall j | 0 <= j < |t| ensures t[j].msgid in m && m[t[j].msgid] == t[j] {
      assert t[j] == ms[if j < i then j else j + 1];
    }
    forall id | id in m ensures exists j :: 0 <= j < |t| && t[j].msgid == id {
      var j :| 0 <= j < |ms| && ms[j].msgid == id;
      assert t[if j < i then j else j - 1] == ms[j];
    }
    ByIdIs(t, m);
  }

  lemma ByIdOfUpdate(ms: seq<Message>, i: int, x: Message)
    requires Distinct(ms) && 0 <= i < |ms| && x.msgid == ms[i].msgid
    ensures Distinct(ms[i := x]) && ById(ms[i := x]) == ById(ms)[x.msgid := x]
  {
    hide IndexOf, ById;
    var m := ById(ms)[x.msgid := x];
    var t := ms[i := x];
    forall id | id in m ensures exists j :: 0 <= j < |t| && t[j].msgid == id {
      if id == x.msgid {
        assert t[i].msgid == id;
      } else {
        var j :| 0 <= j < |ms| && ms[j].msgid == id;
        assert t[j].msgid == id;
      }
    }
    ByIdIs(t, m);
  }

  lemma DistinctInserted(ms: seq<Message>, i: int, x: Message)
    requires Distinct(ms) && 0 <= i <= |ms| && x.msgid !in Ids(ms)
    ensures Distinct(Spliced(ms, i, x))
  {
    hide IndexOf;
    var t := Spliced(ms, i, x);
    assert forall j :: 0 <= j < |ms| ==> ms[j].msgid != x.msgid;
    forall j, k | 0 <= j < k < |t| ensures t[j].msgid != t[k].msgid {
      assert j != i ==> t[j] == ms[if j < i then j else j - 1];
      assert k != i ==> t[k] == ms[if k < i then k else k - 1];
    }
  }

  lemma ByIdOfInserted(ms: seq<Message>, i: int, x: Message)
    requires Distinct(ms) && 0 <= i <= |ms| && x.msgid !in Ids(ms)
    ensures Distinct(Spliced(ms, i, x)) && ById(Spliced(ms, i, x)) == ById(ms)[x.msgid := x]
  {
    var t := Spliced(ms, i, x);
    DistinctInserted(ms, i, x);
    hide IndexOf, ById, Distinct;
    assert Without(t, i) == ms && t[i] == x;
    ByIdOfWithout(t, i);
    assert x.msgid in ById(t) && ById(t)[x.msgid] == x;
    assert ById(t) == ById(ms)[x.msgid := x];
  }

  lemma AllOfUpdate(m: map<int, Message>, x: Message)
    ensures AbsAll(m[x.msgid := x]) == AbsAll(m)[x.msgid := Abs(x)]
    ensures PubAll(m[x.msgid := x]) == PubAll(m)[x.msgid := x.pub]
  {
  }

  lemma AllOfRemoval(m: map<int, Message>, id: int)
    ensures AbsAll(m - {id}) == AbsAll(m) - {id} && PubAll(m - {id}) == PubAll(m) - {id}
  {
  }

  lemma MapsOfAppended(ms: seq<Message>, m: Message)
    requires Distinct(ms) && m.msgid !in Ids(ms)
    ensures Distinct(ms + [m]) && OutMap(ms + [m]) == OutMap(ms)[m.msgid := Abs(m)] &&
      InMap(ms + [m]) == InMap(ms)[m.msgid := m.pub]
    ensures Ids(ms + [m]) == Ids(ms) + {m.msgid}
  {
    assert Spliced(ms, |ms|, m) == ms + [m];
    ByIdOfInserted(ms, |ms|, m);
    AllOfUpdate(ById(ms), m);
    hide IndexOf, Distinct, Ids, AbsAll, PubAll, Spliced;
  }

  lemma MapsOfUpdate(ms: seq<Message>, i: int, m: Message)
    requires Distinct(ms) && 0 <= i < |ms| && m.msgid == ms[i].msgid
    ensures Distinct(ms[i := m]) && OutMap(ms[i := m]) == OutMap(ms)[m.msgid := Abs(m)] &&
      InMap(ms[i := m]) == InMap(ms)[m.msgid := m.pub]
    ensures Ids(ms[i := m]) == Ids(ms)
  {
    ByIdOfUpdate(ms, i, m);
    AllOfUpdate(ById(ms), m);
    assert m.msgid in Ids(ms);
    hide IndexOf, Distinct, Ids, AbsAll, PubAll;
  }

  lemma MapsOfWithout(ms: seq<Message>, i: int)
    requires Distinct(ms) && 0 <= i < |ms|
    ensures Distinct(Without(ms, i)) && OutMap(Without(ms, i)) == OutMap(ms) - {ms[i].msgid} &&
      InMap(Without(ms, i)) == InMap(ms) - {ms[i].msgid}
    ensures Ids(Without(ms, i)) == Ids(ms) - {ms[i].msgid}
  {
    ByIdOfWithout(ms, i);
    AllOfRemoval(ById(ms), ms[i].msgid);
    hide IndexOf, Distinct, Ids, AbsAll, PubAll, Without;
  }
}
