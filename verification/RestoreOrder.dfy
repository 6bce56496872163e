/** The order in which a restart brings back the outbound messages: sorted insertion by message id,
    then a rotation at the largest gap between ids. */
module RestoreOrder {
  import opened QosProtocol
  import opened MessageLists
  import opened Sequences

  ghost predicate Ascending(ms: seq<Message>) {
    forall i, j :: 0 <= i < j < |ms| ==> ms[i].msgid < ms[j].msgid
  }

  ghost function SortedIn(ms: seq<Message>, m: Message): seq<Message> {
    if ms == [] then [m]
    else if m.msgid < ms[0].msgid then [m] + ms
    else [ms[0]] + SortedIn(ms[1..], m)
  }

  ghost function AllSortedIn(ms: seq<Message>): seq<Message> {
    if ms == [] then [] else SortedIn(AllSortedIn(ms[..|ms| - 1]), ms[|ms| - 1])
  }

  // MQTTPersistence_insertInOrder
  method InsertInOrder(ms: seq<Message>, m: Message) returns (r: seq<Message>)
    ensures r == SortedIn(ms, m)
  {
    var index := 0;
    while index < |ms| && !(m.msgid < ms[index].msgid)
      invariant 0 <= index <= |ms|
      invariant SortedIn(ms, m) == ms[..index] + SortedIn(ms[index..], m)
    {
      assert ms[index..][1..] == ms[index + 1..];
      assert SortedIn(ms[index..], m) == [ms[index]] + SortedIn(ms[index + 1..], m);
      assert ms[..index + 1] == ms[..index] + [ms[index]];
      index := index + 1;
    }
    assert ms[index..] == [] ==> ms[..index] == ms;
    r := ms[..index] + [m] + ms[index..];
  }

  lemma {:induction false} SortedInKeeps(ms: seq<Message>, m: Message)
    ensures multiset(SortedIn(ms, m)) == multiset(ms) + multiset{m}
  {
    if ms != [] {
      assert ms == [ms[0]] + ms[1..];
      SortedInKeeps(ms[1..], m);
    }
  }

  lemma {:induction false} SortedInAscending(ms: seq<Message>, m: Message)
    requires Ascending(ms) && forall i :: 0 <= i < |ms| ==> ms[i].msgid != m.msgid
    ensures Ascending(SortedIn(ms, m))
    ensures ms != [] && ms[0].msgid < m.msgid ==> SortedIn(ms, m)[0] == ms[0]
  {
    if ms != [] && ms[0].msgid < m.msgid {
      SortedInAscending(ms[1..], m);
      var t := SortedIn(ms[1..], m);
      assert ms[0].msgid < t[0].msgid;
    }
  }

  lemma {:induction false} AllSortedInAscending(ms: seq<Message>)
    requires Distinct(ms)
    ensures Ascending(AllSortedIn(ms)) && multiset(AllSortedIn(ms)) == multiset(ms)
  {
    if ms != [] {
      var p, m := ms[..|ms| - 1], ms[|ms| - 1];
      AllSortedInAscending(p);
      assert ms == p + [m];
      var t := AllSortedIn(p);
      forall i | 0 <= i < |t| ensures t[i].msgid != m.msgid {
        assert t[i] in multiset(p);
        var j :| 0 <= j < |p| && p[j] == t[i];
        assert ms[j] == p[j];
      }
      SortedInAscending(t, m);
      SortedInKeeps(t, m);
    }
  }

  lemma SmallestFirst(a: seq<Message>, b: seq<Message>)
    requires Ascending(a) && Ascending(b) && multiset(a) == multiset(b) && a != []
    ensures b != [] && a[0] == b[0]
  {
    assert a[0] in multiset(b);
    var i :| 0 <= i < |b| && b[i] == a[0];
    assert b[0] in multiset(a);
    var j :| 0 <= j < |a| && a[j] == b[0];
  }

  lemma RestOf(a: seq<Message>)
    requires a != []
    ensures multiset(a[1..]) == multiset(a) - multiset{a[0]}
  {
    assert a == [a[0]] + a[1..];
  }

  lemma {:induction false} AscendingUnique(a: seq<Message>, b: seq<Message>)
    requires Ascending(a) && Ascending(b) && multiset(a) == multiset(b)
    ensures a == b
  {
    assert |a| == |multiset(a)| == |multiset(b)| == |b|;
    if a != [] {
      SmallestFirst(a, b);
      RestOf(a);
      RestOf(b);
      AscendingUnique(a[1..], b[1..]);
      assert a == [a[0]] + a[1..] && b == [b[0]] + b[1..];
    }
  }

  // ---------------- the rotation ----------------

  function Gap(ms: seq<Message>, k: int): int
    requires 0 <= k < |ms|
  {
    if k == 0 then MAX_MSG_ID - ms[|ms| - 1].msgid + ms[0].msgid else ms[k].msgid - ms[k - 1].msgid
  }

  // The first position with the largest gap before it
  ghost predicate WrapsAt(ms: seq<Message>, k: int) {
    && 0 <= k < |ms|
    && (forall j :: 0 <= j < k ==> Gap(ms, j) < Gap(ms, k))
    && (forall j :: k < j < |ms| ==> Gap(ms, j) <= Gap(ms, k))
  }

  // MQTTPersistence_wrapMsgID
  method WrapMsgID(ms: seq<Message>) returns (r: seq<Message>, ghost k: int)
    ensures ms == [] ==> r == [] && k == 0
    ensures ms != [] ==> WrapsAt(ms, k) && r == Rotated(ms, k)
    ensures ms != [] ==> exists j :: WrapsAt(ms, j) && r == Rotated(ms, j)
  {
    var wrapel := 0;
    if |ms| > 0 {
      var firstMsgID := ms[0].msgid;
      var lastMsgID := ms[|ms| - 1].msgid;
      var gap := MAX_MSG_ID - lastMsgID + firstMsgID;
      var current := 1;
      while current < |ms|
        invariant 1 <= current <= |ms|
        invariant 0 <= wrapel < current && gap == Gap(ms, wrapel)
        invariant forall j :: 0 <= j < wrapel ==> Gap(ms, j) < gap
        invariant forall j :: wrapel < j < current ==> Gap(ms, j) <= gap
      {
        var curgap := ms[current].msgid - ms[current - 1].msgid;
        if curgap > gap {
          gap := curgap;
          wrapel := current;
        }
        current := current + 1;
      }
    }
    r := Rotated(ms, wrapel);
    k := wrapel;
    assert ms != [] ==> WrapsAt(ms, k);
  }

  lemma WrapUnique(ms: seq<Message>, k: int, l: int)
    requires WrapsAt(ms, k) && WrapsAt(ms, l)
    ensures k == l
  {
    var gk, gl := Gap(ms, k), Gap(ms, l);
    assert k < l ==> gk < gl;
    assert l < k ==> gl < gk;
  }

  lemma TurnedExactly(sorted: seq<Message>, k: int, stored: seq<Message>, l: int)
    requires Ascending(sorted) && 0 <= k < |sorted|
    requires Distinct(stored) && multiset(stored) == multiset(sorted)
    requires WrapsAt(AllSortedIn(stored), l)
    ensures Rotated(AllSortedIn(stored), l) == Rotated(sorted, k) <==> WrapsAt(sorted, k)
  {
    AllSortedInAscending(stored);
    AscendingUnique(AllSortedIn(stored), sorted);
    if WrapsAt(sorted, k) { WrapUnique(sorted, k, l); }
    if k != l {
      assert Rotated(sorted, k)[0] == sorted[k] && Rotated(sorted, l)[0] == sorted[l];
    }
  }

  // ---------------- which send orders come back ----------------

  // The place of the first message whose id is below that of the one before it, or the length
  function DescentFrom(order: seq<Message>, i: nat): (c: nat)
    requires 1 <= i <= |order|
    ensures i <= c <= |order| && forall j :: i <= j < c ==> order[j - 1].msgid <= order[j].msgid
    ensures c < |order| ==> order[c].msgid < order[c - 1].msgid
    decreases |order| - i
  {
    if i == |order| || order[i].msgid < order[i - 1].msgid then i else DescentFrom(order, i + 1)
  }

  function Descent(order: seq<Message>): (c: nat)
    requires order != []
    ensures 1 <= c <= |order|
  {
    DescentFrom(order, 1)
  }

  // How far the id of a message is ahead of that of the message before it, around the range of ids
  function Advance(order: seq<Message>, i: int): int
    requires 0 <= i < |order|
  {
    var d := order[i].msgid - order[if i == 0 then |order| - 1 else i - 1].msgid;
    if d > 0 then d else d + MAX_MSG_ID
  }

  // The ids descend at most once, all those behind are smaller, and the first message is the farthest ahead of the one
  // before it, the last
  ghost predicate ComesBack(order: seq<Message>)
    requires order != []
  {
    var c := Descent(order);
    && (forall j :: c < j < |order| ==> order[j - 1].msgid < order[j].msgid)
    && (c < |order| ==> order[|order| - 1].msgid < order[0].msgid)
    && (forall j :: 1 <= j < c ==> Advance(order, j) <= Advance(order, 0))
    && (forall j :: c <= j < |order| ==> Advance(order, j) < Advance(order, 0))
  }

  // Where the message at place i of the turned list comes from
  function From(i: int, k: int, n: int): int { if i + k < n then i + k else i + k - n }

  lemma RotatedAt(ms: seq<Message>, k: int, i: int)
    requires 0 <= k < |ms| && 0 <= i < |ms|
    ensures |Rotated(ms, k)| == |ms| && Rotated(ms, k)[i] == ms[From(i, k, |ms|)]
  { }

  lemma DescentIs(order: seq<Message>, c: nat)
    requires 1 <= c <= |order| && forall j :: 1 <= j < c ==> order[j - 1].msgid <= order[j].msgid
    requires c < |order| ==> order[c].msgid < order[c - 1].msgid
    ensures Descent(order) == c
  {
    var d := Descent(order);
    assert d < |order| ==> order[d].msgid < order[d - 1].msgid;
  }

  // An ascending list begun anew at k
  lemma RotatedSteps(sorted: seq<Message>, k: int)
    requires Ascending(sorted) && 0 <= k < |sorted|
    ensures var order, n := Rotated(sorted, k), |sorted|;
      && |order| == n && Descent(order) == n - k
      && (forall j :: n - k < j < n ==> order[j - 1].msgid < order[j].msgid)
      && (n - k < n ==> order[n - 1].msgid < order[0].msgid)
  {
    var order, n := Rotated(sorted, k), |sorted|;
    forall i | 0 <= i < n ensures |order| == n && order[i] == sorted[From(i, k, n)] { RotatedAt(sorted, k, i); }
    hide Rotated;
    DescentIs(order, n - k);
  }

  lemma AdvanceIsGap(sorted: seq<Message>, k: int, i: int)
    requires Ascending(sorted) && 0 <= k < |sorted| && 0 <= i < |sorted|
    ensures Advance(Rotated(sorted, k), i) == Gap(sorted, From(i, k, |sorted|))
  {
    RotatedAt(sorted, k, i);
    RotatedAt(sorted, k, if i == 0 then |sorted| - 1 else i - 1);
    hide Rotated;
  }

  lemma AdvancesAreGaps(sorted: seq<Message>, k: int)
    requires Ascending(sorted) && 0 <= k < |sorted|
    ensures |Rotated(sorted, k)| == |sorted|
    ensures forall i :: 0 <= i < |sorted| ==> Advance(Rotated(sorted, k), i) == Gap(sorted, From(i, k, |sorted|))
  {
    forall i | 0 <= i < |sorted| ensures Advance(Rotated(sorted, k), i) == Gap(sorted, From(i, k, |sorted|)) {
      AdvanceIsGap(sorted, k, i);
    }
  }

  lemma WrappingComesBack(sorted: seq<Message>, k: int)
    requires Ascending(sorted) && WrapsAt(sorted, k)
    ensures ComesBack(Rotated(sorted, k))
  {
    var order, n := Rotated(sorted, k), |sorted|;
    RotatedSteps(sorted, k);
    AdvancesAreGaps(sorted, k);
    hide Advance, Gap, Descent, Rotated, Ascending;
    assert Advance(order, 0) == Gap(sorted, k);
    forall i | 1 <= i < n
      ensures if i < n - k then Advance(order, i) <= Advance(order, 0) else Advance(order, i) < Advance(order, 0)
    {
      assert Advance(order, i) == Gap(sorted, From(i, k, n));
    }
  }

  lemma ComingBackWraps(sorted: seq<Message>, k: int)
    requires Ascending(sorted) && 0 <= k < |sorted| && ComesBack(Rotated(sorted, k))
    ensures WrapsAt(sorted, k)
  {
    var order, n := Rotated(sorted, k), |sorted|;
    RotatedSteps(sorted, k);
    AdvancesAreGaps(sorted, k);
    hide Advance, Gap, Descent, Rotated, Ascending;
    assert Advance(order, 0) == Gap(sorted, k);
    forall j | 0 <= j < k ensures Gap(sorted, j) < Gap(sorted, k) { assert From(j + n - k, k, n) == j; }
    forall j | k < j < n ensures Gap(sorted, j) <= Gap(sorted, k) { assert From(j - k, k, n) == j; }
  }

  lemma AscendsInSteps(ms: seq<Message>)
    requires forall j :: 1 <= j < |ms| ==> ms[j - 1].msgid < ms[j].msgid
    ensures Ascending(ms)
  {
    forall i, j | 0 <= i < j < |ms| ensures ms[i].msgid < ms[j].msgid { StepsUp(ms, i, j); }
  }

  lemma {:induction false} StepsUp(ms: seq<Message>, i: nat, j: nat)
    requires i < j < |ms| && forall k :: 1 <= k < |ms| ==> ms[k - 1].msgid < ms[k].msgid
    ensures ms[i].msgid < ms[j].msgid
  {
    if i < j - 1 { StepsUp(ms, i, j - 1); }
  }

  // The ascending list that such an order is turned from
  lemma TurnedFrom(order: seq<Message>) returns (sorted: seq<Message>, k: int)
    requires Distinct(order) && order != [] && ComesBack(order)
    ensures Ascending(sorted) && 0 <= k < |sorted| && order == Rotated(sorted, k) && multiset(sorted) == multiset(order)
  {
    var c, n := Descent(order), |order|;
    sorted, k := order[c..] + order[..c], n - c;
    assert order == order[..c] + order[c..];
    StepsOf(order, sorted);
    hide ComesBack;
    AscendsInSteps(sorted);
  }

  lemma StepsOf(order: seq<Message>, sorted: seq<Message>)
    requires Distinct(order) && order != [] && ComesBack(order)
    requires var c := Descent(order); sorted == order[c..] + order[..c]
    ensures forall j :: 1 <= j < |sorted| ==> sorted[j - 1].msgid < sorted[j].msgid
  {
    var c, n := Descent(order), |order|;
    assert forall j :: 1 <= j < c ==> order[j - 1].msgid <= order[j].msgid;
    hide Descent, Advance;
    forall j | 1 <= j < n ensures sorted[j - 1].msgid < sorted[j].msgid {
      if j < n - c {
        assert sorted[j - 1] == order[c + j - 1] && sorted[j] == order[c + j];
      } else if j == n - c {
        assert sorted[j - 1] == order[n - 1] && sorted[j] == order[0];
      } else {
        assert sorted[j - 1] == order[j - 1 - (n - c)] && sorted[j] == order[j - (n - c)];
      }
    }
  }

  // Whatever the order of the keys, a restart gives the send order back exactly if it is one that comes back
  lemma RestoredExactly(order: seq<Message>, stored: seq<Message>, l: int)
    requires Distinct(order) && order != []
    requires Distinct(stored) && multiset(stored) == multiset(order)
    requires WrapsAt(AllSortedIn(stored), l)
    ensures Rotated(AllSortedIn(stored), l) == order <==> ComesBack(order)
  {
    assert 0 <= l < |AllSortedIn(stored)|;
    hide ComesBack, WrapsAt, AllSortedIn, Distinct, Ascending;
    if ComesBack(order) {
      var sorted, k := TurnedFrom(order);
      ComingBackWraps(sorted, k);
      TurnedExactly(sorted, k, stored, l);
    } else if Rotated(AllSortedIn(stored), l) == order {
      AllSortedInAscending(stored);
      WrappingComesBack(AllSortedIn(stored), l);
    }
  }

  // An id that stays in flight while the others go once around is passed over. The ids 5, 3 and 6, sent in this order,
  // are turned from no ascending list, and come back as 3, 5 and 6.
  lemma PassedOverTurns(a: Message, b: Message, c: Message)
    requires a.msgid == 5 && b.msgid == 3 && c.msgid == 6
    ensures !ComesBack([a, b, c])
    ensures AllSortedIn([a, b, c]) == [b, a, c] && WrapsAt([b, a, c], 0) &&
      Rotated([b, a, c], 0) == [b, a, c] != [a, b, c]
  {
    var order := [a, b, c];
    assert DescentFrom(order, 1) == 1;
    assert order[|order| - 1].msgid == 6 && order[0].msgid == 5;
    assert order[..2] == [a, b] && [a, b][..1] == [a] && [a][..0] == [];
    assert AllSortedIn([a]) == SortedIn(AllSortedIn([]), a) == [a];
    assert AllSortedIn([a, b]) == SortedIn([a], b) == [b, a];
    assert [b, a][1..] == [a] && [a][1..] == [];
    assert SortedIn([b, a], c) == [b] + SortedIn([a], c) && SortedIn([a], c) == [a] + SortedIn([], c) &&
      SortedIn([], c) == [c];
    assert AllSortedIn(order) == SortedIn(AllSortedIn([a, b]), c);
    assert Gap([b, a, c], 0) == MAX_MSG_ID - 3 && Gap([b, a, c], 1) == 2 && Gap([b, a, c], 2) == 1;
  }

  // ---------------- ids in a window ----------------

  function Offset(ms: seq<Message>, i: int): int
    requires 0 <= i < |ms|
  {
    (ms[i].msgid - ms[0].msgid) % MAX_MSG_ID
  }

  // The ids in flight, in send order, lie in a cyclic window of span w
  ghost predicate InWindow(order: seq<Message>, w: int) {
    && (forall i :: 0 <= i < |order| ==> 1 <= order[i].msgid <= MAX_MSG_ID)
    && (forall i, j :: 0 <= i < j < |order| ==> Offset(order, i) < Offset(order, j))
    && (forall i :: 0 <= i < |order| ==> Offset(order, i) <= w)
  }

  lemma OffsetIs(order: seq<Message>, i: int)
    requires 0 <= i < |order| && forall j :: 0 <= j < |order| ==> 1 <= order[j].msgid <= MAX_MSG_ID
    ensures Offset(order, i) ==
      order[i].msgid - order[0].msgid + if order[i].msgid < order[0].msgid then MAX_MSG_ID else 0
  {
  }

  lemma WindowSplits(order: seq<Message>, w: int) returns (c: int)
    requires InWindow(order, w) && order != []
    ensures 0 < c <= |order|
    ensures forall i :: 0 <= i < c ==> order[i].msgid >= order[0].msgid
    ensures forall i :: c <= i < |order| ==> order[i].msgid < order[0].msgid
  {
    c := 1;
    while c < |order| && order[c].msgid >= order[0].msgid
      invariant 1 <= c <= |order|
      invariant forall i :: 0 <= i < c ==> order[i].msgid >= order[0].msgid
    {
      c := c + 1;
    }
    forall i | c <= i < |order| ensures order[i].msgid < order[0].msgid {
      OffsetIs(order, i);
      OffsetIs(order, c);
      if c < i { assert Offset(order, c) < Offset(order, i); }
    }
  }

  ghost function UpOf(order: seq<Message>, c: int): seq<Message>
    requires 0 < c <= |order|
  {
    order[c..] + order[..c]
  }

  // The offsets written out, once the wrap-around is known to come before position c
  ghost predicate Laid(order: seq<Message>, c: int, w: int) {
    && 0 < c <= |order|
    && (forall i :: 0 <= i < |order| ==> 1 <= order[i].msgid <= MAX_MSG_ID)
    && (forall i, j :: 0 <= i < j < |order| && (j < c || c <= i) ==> order[i].msgid < order[j].msgid)
    && (forall i, j :: 0 <= i < c <= j < |order| ==> order[j].msgid < order[i].msgid)
    && order[|order| - 1].msgid - order[0].msgid + (if c < |order| then MAX_MSG_ID else 0) <= w
  }

  lemma WindowIsLaid(order: seq<Message>, w: int) returns (c: int)
    requires InWindow(order, w) && order != []
    ensures Laid(order, c, w)
  {
    c := WindowSplits(order, w);
    forall i, j | 0 <= i < j < |order| ensures
      (if j < c || c <= i then order[i].msgid < order[j].msgid else order[j].msgid < order[i].msgid)
    {
      OffsetIs(order, i);
      OffsetIs(order, j);
      assert Offset(order, i) < Offset(order, j);
    }
    OffsetIs(order, |order| - 1);
    assert Offset(order, |order| - 1) <= w;
  }

  lemma LaidAscends(order: seq<Message>, c: int, w: int)
    requires Laid(order, c, w)
    ensures Ascending(UpOf(order, c)) && multiset(UpOf(order, c)) == multiset(order)
    ensures Rotated(UpOf(order, c), if c == |order| then 0 else |order| - c) == order
  {
    assert order == order[..c] + order[c..];
  }

  lemma SmallGap(order: seq<Message>, c: int, w: int, j: int)
    requires Laid(order, c, w) && 0 <= j < |order| && j != (if c == |order| then 0 else |order| - c)
    ensures Gap(UpOf(order, c), j) <= w
  {
    var n := |order|;
    var s := UpOf(order, c);
    if c == n {
      assert s == order;
      assert order[0].msgid <= order[j - 1].msgid && order[j].msgid <= order[n - 1].msgid;
    } else if j == 0 {
      assert s[0] == order[c] && s[n - 1] == order[c - 1];
      assert order[0].msgid <= order[c - 1].msgid && order[c].msgid <= order[n - 1].msgid;
    } else if j < n - c {
      assert s[j] == order[c + j] && s[j - 1] == order[c + j - 1];
      assert order[0].msgid <= MAX_MSG_ID;
      assert order[c + j].msgid <= order[n - 1].msgid;
    } else {
      assert s[j] == order[j - (n - c)] && s[j - 1] == order[j - 1 - (n - c)];
      assert order[j - (n - c)].msgid <= MAX_MSG_ID;
      assert order[0].msgid <= order[j - 1 - (n - c)].msgid;
    }
  }

  lemma LargeGap(order: seq<Message>, c: int, w: int)
    requires Laid(order, c, w)
    ensures Gap(UpOf(order, c), if c == |order| then 0 else |order| - c) >= MAX_MSG_ID - w
  {
    var n := |order|;
    var s := UpOf(order, c);
    if c == n {
      assert s == order;
    } else {
      assert s[n - c] == order[0] && s[n - c - 1] == order[n - 1];
    }
  }

  lemma LaidWraps(order: seq<Message>, c: int, w: int)
    requires Laid(order, c, w) && 2 * w < MAX_MSG_ID
    ensures WrapsAt(UpOf(order, c), if c == |order| then 0 else |order| - c)
  {
    LargeGap(order, c, w);
    forall j | 0 <= j < |order| && j != (if c == |order| then 0 else |order| - c) ensures Gap(UpOf(order, c), j) <= w {
      SmallGap(order, c, w, j);
    }
  }

  // A window of less than half the id range is enough
  lemma WindowComesBack(order: seq<Message>, w: int)
    requires InWindow(order, w) && 2 * w < MAX_MSG_ID && order != []
    ensures Distinct(order) && ComesBack(order)
  {
    var c := WindowIsLaid(order, w);
    assert Distinct(order) by { hide UpOf, InWindow; }
    LaidAscends(order, c, w);
    LaidWraps(order, c, w);
    hide Laid, WrapsAt, ComesBack, Ascending, InWindow;
    WrappingComesBack(UpOf(order, c), if c == |order| then 0 else |order| - c);
  }

  // With such a window the messages come back in the order in which they were sent, whatever the order of the keys
  lemma RestoredInSendOrder(order: seq<Message>, w: int, stored: seq<Message>, l: int)
    requires InWindow(order, w) && 2 * w < MAX_MSG_ID && order != []
    requires Distinct(stored) && multiset(stored) == multiset(order)
    requires WrapsAt(AllSortedIn(stored), l)
    ensures Rotated(AllSortedIn(stored), l) == order
  {
    WindowComesBack(order, w);
    hide WrapsAt, ComesBack, InWindow;
    RestoredExactly(order, stored, l);
  }

  // The bound on the window is needed: the ids 1 and 40000, sent in this order, come back the other way round
  lemma WideWindowTurns(a: Message, b: Message)
    requires a.msgid == 1 && b.msgid == 40000
    ensures InWindow([a, b], 39999)
    ensures AllSortedIn([a, b]) == [a, b] && WrapsAt([a, b], 1) && Rotated([a, b], 1) == [b, a]
  {
    assert [a, b][..1] == [a] && [a][..0] == [];
    assert AllSortedIn([]) == [] && SortedIn([], a) == [a];
    assert AllSortedIn([a]) == SortedIn(AllSortedIn([]), a);
    assert Gap([a, b], 0) == 25536 && Gap([a, b], 1) == 39999;
    var s := AllSortedIn([a]);
    assert s == [a] && s[1..] == [];
    assert SortedIn(s, b) == [a] + SortedIn([], b);
  }
}
