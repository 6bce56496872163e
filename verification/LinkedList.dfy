/** The doubly linked list with a cursor that remembers the last element found. */
module LinkedList {
  import opened Sequences

  class ListElement<C> {
    var prev: ListElement?<C>
    var next: ListElement?<C>
    var content: C

    constructor (content: C)
      ensures this.content == content && prev == null && next == null
    {
      this.content, prev, next := content, null, null;
    }
  }

  // The element before place i, and the one at place i
  function Before<C>(els: seq<ListElement<C>>, i: nat): ListElement?<C>
    requires i <= |els|
  {
    if i == 0 then null else els[i - 1]
  }

  function At<C>(els: seq<ListElement<C>>, i: nat): ListElement?<C>
    requires i <= |els|
  {
    if i == |els| then null else els[i]
  }

  ghost predicate Distinct<C>(els: seq<ListElement<C>>) {
    forall i, j :: 0 <= i < j < |els| ==> els[i] != els[j]
  }

  ghost predicate Backward<C>(els: seq<ListElement<C>>)
    reads els`prev
  {
    forall i {:trigger els[i].prev} :: 0 <= i < |els| ==> els[i].prev == Before(els, i)
  }

  ghost predicate Forward<C>(els: seq<ListElement<C>>)
    reads els`next
  {
    forall i {:trigger els[i].next} :: 0 <= i < |els| ==> els[i].next == At(els, i + 1)
  }

  function Contents<C>(els: seq<ListElement<C>>): (s: seq<C>)
    reads els`content
    ensures |s| == |els| && forall i :: 0 <= i < |els| ==> s[i] == els[i].content
  {
    if els == [] then [] else Contents(els[..|els| - 1]) + [els[|els| - 1].content]
  }

  datatype Popped<+C> = Nothing | Got(content: C)

  // The place of the first match of a plain scan, or -1
  function FirstMatch<C>(s: seq<C>, callback: C -> bool): (k: int)
    ensures -1 <= k < |s|
    ensures k >= 0 ==> callback(s[k]) && forall j :: 0 <= j < k ==> !callback(s[j])
    ensures k < 0 ==> forall j :: 0 <= j < |s| ==> !callback(s[j])
  {
    if s == [] then -1
    else
      var k := FirstMatch(s[..|s| - 1], callback);
      if k >= 0 then k else if callback(s[|s| - 1]) then |s| - 1 else -1
  }

  // With at most one match the cursor makes no difference
  lemma CursorAgrees<C>(s: seq<C>, callback: C -> bool, k: nat)
    requires k < |s| && callback(s[k])
    ensures k == FirstMatch(s, callback) <==> forall j :: 0 <= j < k ==> !callback(s[j])
    ensures (forall i, j :: 0 <= i < j < |s| ==> !(callback(s[i]) && callback(s[j]))) ==> k == FirstMatch(s, callback)
  {
    var f := FirstMatch(s, callback);
  }

  class List<C> {
    var first: ListElement?<C>
    var last: ListElement?<C>
    var current: ListElement?<C>
    var count: int
    var size: int                       // grows with every element added, and never shrinks
    ghost var els: seq<ListElement<C>>

    ghost predicate Chained()
      reads this`first, this`last, this`count, this`els, els
    {
      && Distinct(els) && Backward(els) && Forward(els)
      && first == At(els, 0) && last == Before(els, |els|) && count == |els|
    }

    ghost predicate Valid()
      reads this, els
    {
      Chained() && (current != null ==> current in els)
    }

    constructor ()
      ensures Valid() && els == [] && current == null && size == 0
    {
      first, last, current, count, size, els := null, null, null, 0, 0, [];
    }

    // ListAppendNoMalloc
    method AppendNoMalloc(content: C, newel: ListElement<C>, sz: int)
      requires Valid() && newel !in els
      modifies this`first, this`last, this`count, this`size, this`els, els`next, newel
      ensures size == old(size) + sz
      ensures Valid() && els == old(els) + [newel] && Contents(els) == old(Contents(els)) + [content]
    {
      hide Contents;
      LinkBehind(content, newel);
      count := count + 1;
      size := size + sz;
      AppendedLinks(els, newel);
      ContentsAppended(els, newel);
      hide Backward, Forward, Distinct;
      els := els + [newel];
    }

    method LinkBehind(content: C, newel: ListElement<C>)
      requires Valid() && newel !in els
      modifies this`first, this`last, els`next, newel
      ensures newel.content == content && newel.next == null && newel.prev == Before(els, |els|) && last == newel
      ensures first == At(els + [newel], 0)
      ensures forall i {:trigger els[i].next} :: 0 <= i < |els| ==>
        els[i].next == if i == |els| - 1 then newel else old(els[i].next)
    {
      newel.content := content;
      newel.next := null;
      newel.prev := last;
      if first == null {
        first := newel;
      } else {
        last.next := newel;
      }
      last := newel;
    }

    // ListAppend
    method Append(content: C, sz: int)
      requires Valid()
      modifies this`first, this`last, this`count, this`size, this`els, els`next
      ensures Valid() && |els| == |old(els)| + 1 && els[..|old(els)|] == old(els) && fresh(els[|old(els)|])
      ensures Contents(els) == old(Contents(els)) + [content] && size == old(size) + sz
    {
      var newel := new ListElement(content);
      AppendNoMalloc(content, newel, sz);
    }

    // The four links around a new element at place k
    method LinkBefore(newel: ListElement<C>, index: ListElement<C>, ghost k: nat)
      requires Valid() && k < |els| && index == els[k] && newel !in els
      modifies this`first, els`next, els`prev, newel`next, newel`prev
      ensures first == if k == 0 then newel else old(first)
      ensures newel.next == index && newel.prev == Before(els, k)
      ensures forall i {:trigger els[i].prev} :: 0 <= i < |els| ==>
        els[i].prev == if i == k then newel else old(els[i].prev)
      ensures forall i {:trigger els[i].next} :: 0 <= i < |els| ==>
        els[i].next == if i == k - 1 then newel else old(els[i].next)
    {
      newel.next := index;
      newel.prev := index.prev;
      index.prev := newel;
      if newel.prev != null {
        newel.prev.next := newel;
      } else {
        first := newel;
      }
    }

    // ListInsert before the element `index`, or at the end
    method Insert(content: C, sz: int, index: ListElement?<C>, ghost k: nat)
      requires Valid() && k <= |els| && index == At(els, k)
      modifies this`first, this`last, this`count, this`size, this`els, els`next, els`prev
      ensures size == old(size) + sz
      ensures Valid() && |els| == |old(els)| + 1 && fresh(els[k]) && els == Spliced(old(els), k, els[k])
      ensures Contents(els) == Spliced(old(Contents(els)), k, content)
    {
      hide Contents;
      var newel := new ListElement(content);
      if index == null {
        AppendNoMalloc(content, newel, sz);
      } else {
        InsertBefore(newel, sz, index, k);
      }
    }

    method ChainBefore(newel: ListElement<C>, sz: int, index: ListElement<C>, ghost k: nat)
      requires Valid() && k < |els| && index == els[k] && newel !in els
      modifies this`first, this`count, this`size, this`els, els`next, els`prev, newel`next, newel`prev
      ensures size == old(size) + sz
      ensures Chained() && els == Spliced(old(els), k, newel)
    {
      LinkBefore(newel, index, k);
      count := count + 1;
      size := size + sz;
      SplicedLinks(els, k, newel);
      SplicedEnds(els, k, newel);
      hide Backward, Forward, Distinct, Spliced, Before, At;
      els := Spliced(els, k, newel);
    }

    method InsertBefore(newel: ListElement<C>, sz: int, index: ListElement<C>, ghost k: nat)
      requires Valid() && k < |els| && index == els[k] && newel !in els
      modifies this`first, this`count, this`size, this`els, els`next, els`prev, newel`next, newel`prev
      ensures size == old(size) + sz
      ensures Valid() && els == Spliced(old(els), k, newel)
      ensures Contents(els) == Spliced(old(Contents(els)), k, newel.content)
    {
      ContentsSpliced(els, k, newel);
      SplicedEnds(els, k, newel);
      hide Contents, Chained, Spliced, Distinct, Backward, Forward;
      ghost var t := Spliced(els, k, newel);
      ghost var s := Contents(t);
      assert current != null ==> current in t;
      ChainBefore(newel, sz, index, k);
      assert els == t && Contents(t) == s;
    }

    // ListNextElement: null stands for the place before the first element and for that behind the last
    method NextElement(pos: ListElement?<C>, ghost k: int) returns (next: ListElement?<C>)
      requires Valid() && -1 <= k < |els| && pos == (if k < 0 then null else els[k])
      ensures next == At(els, k + 1)
    {
      next := if pos == null then first else pos.next;
    }

    // ListPrevElement
    method PrevElement(pos: ListElement?<C>, ghost k: nat) returns (prev: ListElement?<C>)
      requires Valid() && k <= |els| && pos == At(els, k)
      ensures prev == Before(els, k)
    {
      prev := if pos == null then last else pos.prev;
    }

    // The scan of ListFindItem, from the first element on
    method Scan(callback: C -> bool) returns (rc: ListElement?<C>, ghost k: int)
      requires Valid()
      ensures -1 <= k < |els| && rc == (if k < 0 then null else els[k])
      ensures k >= 0 ==> callback(els[k].content) && forall j :: 0 <= j < k ==> !callback(els[j].content)
      ensures k < 0 ==> forall j :: 0 <= j < |els| ==> !callback(els[j].content)
    {
      k := 0;
      rc := NextElement(null, -1);
      while rc != null && !callback(rc.content)
        invariant 0 <= k <= |els| && rc == At(els, k)
        invariant forall j :: 0 <= j < k ==> !callback(els[j].content)
        decreases |els| - k
      {
        rc := NextElement(rc, k);
        k := k + 1;
      }
      k := if rc != null then k else -1;
    }

    // ListFindItem: the cursor is tried first, then the list from its beginning
    method FindItem(callback: C -> bool) returns (rc: ListElement?<C>, ghost k: int)
      requires Valid()
      modifies `current
      ensures Valid() && -1 <= k < |els| && rc == (if k < 0 then null else els[k])
      ensures k < 0 <==> FirstMatch(Contents(els), callback) < 0
      ensures k >= 0 ==> callback(rc.content) && current == rc
      ensures k < 0 ==> current == old(current)
      ensures k == FirstMatch(Contents(els), callback) || rc == old(current)
      ensures old(current) != null && callback(old(current).content) ==> rc == old(current)
    {
      ghost var f := FirstMatch(Contents(els), callback);
      hide Contents, FirstMatch, Chained;
      if current != null && callback(current.content) {
        rc := current;
        k :| 0 <= k < |els| && els[k] == current;
        assert callback(Contents(els)[k]);
      } else {
        rc, k := Scan(callback);
        assert k >= 0 ==> callback(Contents(els)[k]);
        if rc != null {
          current := rc;
        }
      }
    }

    // The element at place k goes out of both chains
    method LinkAround(e: ListElement<C>, ghost k: nat)
      requires Valid() && k < |els| && e == els[k]
      modifies `first, `last, els`next, els`prev
      ensures first == At(Without(els, k), 0) && last == Before(Without(els, k), |els| - 1)
      ensures forall i {:trigger els[i].prev} :: 0 <= i < |els| ==>
        els[i].prev == if i == k + 1 then Before(els, k) else old(els[i].prev)
      ensures forall i {:trigger els[i].next} :: 0 <= i < |els| ==>
        els[i].next == if i == k - 1 then At(els, k + 1) else old(els[i].next)
    {
      if e.prev == null {
        first := e.next;
      } else {
        e.prev.next := e.next;
      }
      if e.next == null {
        last := e.prev;
      } else {
        e.next.prev := e.prev;
      }
    }

    // ListUnlink
    method Unlink(callback: C -> bool) returns (removed: bool, ghost k: int)
      requires Valid()
      modifies this, els`next, els`prev
      ensures Valid() && -1 <= k < |old(els)| && (removed <==> k >= 0) && size == old(size)
      ensures removed <==> FirstMatch(old(Contents(els)), callback) >= 0
      ensures !removed ==> els == old(els) && current == old(current)
      ensures removed ==>
        callback(old(els[k].content)) && els == Without(old(els), k) && Contents(els) == Without(old(Contents(els)), k)
      ensures removed ==> k == FirstMatch(old(Contents(els)), callback) || old(els)[k] == old(current)
      ensures removed ==> current == if old(current) == old(els)[k] then At(old(els), k + 1) else old(current)
    {
      hide Contents, FirstMatch, Chained, Without;
      var saved := current;
      var e;
      e, k := FindItem(callback);
      removed := e != null;
      if removed {
        UnlinkAt(e, saved, k);
      }
    }

    method LinkOut(e: ListElement<C>, ghost k: nat)
      requires Valid() && k < |els| && e == els[k]
      modifies `first, `last, `count, `els, els`next, els`prev
      ensures Chained() && els == Without(old(els), k) && Contents(els) == Without(old(Contents(els)), k)
    {
      hide Contents;
      ContentsWithout(els, k);
      LinkAround(e, k);
      count := count - 1;
      WithoutLinks(els, k);
      hide Backward, Forward, Distinct, Without, Before, At;
      els := Without(els, k);
    }

    // The element found goes; the cursor goes back to where it was, or to the next element if that is the one removed
    method UnlinkAt(e: ListElement<C>, saved: ListElement?<C>, ghost k: nat)
      requires Valid() && k < |els| && e == els[k] && (saved != null ==> saved in els)
      modifies this, els`next, els`prev
      ensures Valid() && els == Without(old(els), k) && Contents(els) == Without(old(Contents(els)), k)
      ensures current == (if saved == e then At(old(els), k + 1) else saved) && size == old(size)
    {
      var next := e.next;
      assert next == At(els, k + 1);
      StaysIn(els, k, if saved == e then next else saved);
      hide Contents, Chained, Backward, Forward, Distinct, Without;
      LinkOut(e, k);
      current := if saved == e then next else saved;
    }

    // The first element goes out of the chain
    method CutHead()
      requires Chained() && els != []
      modifies `first, `last, `count, `els, els`next, els`prev
      ensures Chained() && els == Without(old(els), 0) && Contents(els) == Without(old(Contents(els)), 0)
    {
      hide Contents;
      ContentsWithout(els, 0);
      if last == first {
        last := null;
      }
      first := first.next;
      if first != null {
        first.prev := null;
      }
      count := count - 1;
      WithoutLinks(els, 0);
      hide Backward, Forward, Distinct;
      els := Without(els, 0);
    }

    // ListDetachHead; nothing comes out of an empty list
    method DetachHead() returns (content: Popped<C>)
      requires Valid()
      modifies this, els`next, els`prev
      ensures Valid() && size == old(size)
      ensures old(els) == [] ==> content == Nothing && els == [] && current == old(current)
      ensures old(els) != [] ==> content == Got(old(Contents(els))[0])
      ensures old(els) != [] ==> els == Without(old(els), 0) && Contents(els) == Without(old(Contents(els)), 0)
      ensures old(els) != [] ==> current == if old(current) == old(first) then At(old(els), 1) else old(current)
    {
      hide Contents;
      content := Nothing;
      if count > 0 {
        var head := first;
        if current == head {
          current := head.next;
        }
        StaysIn(els, 0, current);
        content := Got(head.content);
        hide Chained, Backward, Forward, Distinct, Without;
        CutHead();
      }
    }

    // The last element goes out of the chain
    method CutTail()
      requires Chained() && els != []
      modifies `first, `last, `count, `els, els`next, els`prev
      ensures Chained() && els == Without(old(els), |old(els)| - 1)
      ensures Contents(els) == Without(old(Contents(els)), |old(els)| - 1)
    {
      hide Contents;
      ghost var k := |els| - 1;
      ContentsWithout(els, k);
      if first == last {
        first := null;
      }
      last := last.prev;
      if last != null {
        last.next := null;
      }
      count := count - 1;
      WithoutLinks(els, k);
      hide Backward, Forward, Distinct;
      els := Without(els, k);
    }

    // ListPopTail
    method PopTail() returns (content: Popped<C>)
      requires Valid()
      modifies this, els`next, els`prev
      ensures Valid() && size == old(size)
      ensures old(els) == [] ==> content == Nothing && els == [] && current == old(current)
      ensures old(els) != [] ==> content == Got(old(Contents(els))[|old(els)| - 1])
      ensures old(els) != [] ==> els == Without(old(els), |old(els)| - 1)
      ensures old(els) != [] ==> Contents(els) == Without(old(Contents(els)), |old(els)| - 1)
      ensures old(els) != [] ==>
        current == if old(current) == old(last) then Before(old(els), |old(els)| - 1) else old(current)
    {
      hide Contents;
      content := Nothing;
      if count > 0 {
        var tail := last;
        if current == tail {
          current := tail.prev;
        }
        InWithout(els, |els| - 1);
        content := Got(tail.content);
        hide Chained, Backward, Forward, Distinct, Without;
        CutTail();
      }
    }

    // The chains are joined at their ends, and broken before `wrapel`
    method TurnLinks(wrapel: ListElement<C>, ghost k: nat)
      requires Valid() && 0 < k < |els| && wrapel == els[k]
      modifies this`first, this`last, els`next, els`prev
      ensures first == els[k] && last == els[k - 1]
      ensures forall i {:trigger els[i].prev} :: 0 <= i < |els| ==>
        els[i].prev == if i == k then null else if i == 0 then els[|els| - 1] else els[i - 1]
      ensures forall i {:trigger els[i].next} :: 0 <= i < |els| ==>
        els[i].next == if i == k - 1 then null else if i == |els| - 1 then els[0] else els[i + 1]
    {
      first.prev := last;
      last.next := first;
      first := wrapel;
      last := wrapel.prev;
      first.prev := null;
      last.next := null;
    }

    method TurnChain(wrapel: ListElement<C>, ghost k: nat)
      requires Valid() && 0 < k < |els| && wrapel == els[k]
      modifies this`first, this`last, this`els, els`next, els`prev
      ensures Chained() && els == Rotated(old(els), k)
    {
      TurnLinks(wrapel, k);
      TurnedLinks(els, k);
      RotatedEnds(els, k);
      hide Backward, Forward, Distinct, Rotated, Before, At;
      els := Rotated(els, k);
    }

    // The end of MQTTPersistence_wrapMsgID: the list begins anew at `wrapel`
    method Rotate(wrapel: ListElement<C>, ghost k: nat)
      requires Valid() && 0 < k < |els| && wrapel == els[k]
      modifies this`first, this`last, this`els, els`next, els`prev
      ensures Valid() && els == Rotated(old(els), k) && Contents(els) == Rotated(old(Contents(els)), k)
    {
      ContentsTurned(els, k);
      hide Contents, Chained, Rotated;
      ghost var t := Rotated(els, k);
      ghost var s := Contents(t);
      assert current != null ==> current in t;
      TurnChain(wrapel, k);
      assert els == t && Contents(t) == s;
    }
  }

  lemma SplicedLinks<C>(els: seq<ListElement<C>>, k: nat, x: ListElement<C>)
    requires k < |els| && Distinct(els) && x !in els
    requires x.prev == Before(els, k) && x.next == els[k]
    requires forall i {:trigger els[i].prev} :: 0 <= i < |els| ==> els[i].prev == if i == k then x else Before(els, i)
    requires forall i {:trigger els[i].next} :: 0 <= i < |els| ==>
      els[i].next == if i == k - 1 then x else At(els, i + 1)
    ensures Distinct(Spliced(els, k, x)) && Backward(Spliced(els, k, x)) && Forward(Spliced(els, k, x))
  {
    var t := Spliced(els, k, x);
    forall i | 0 <= i < |t|
      ensures i < k ==> t[i] == els[i]
      ensures i > k ==> t[i] == els[i - 1]
      ensures t[i].prev == Before(t, i) && t[i].next == At(t, i + 1)
    {
      assert t[k] == x;
    }
  }

  lemma AppendedLinks<C>(els: seq<ListElement<C>>, x: ListElement<C>)
    requires Distinct(els) && Backward(els) && x !in els
    requires x.prev == Before(els, |els|) && x.next == null
    requires forall i {:trigger els[i].next} :: 0 <= i < |els| ==>
      els[i].next == if i == |els| - 1 then x else At(els, i + 1)
    ensures Distinct(els + [x]) && Backward(els + [x]) && Forward(els + [x])
  {
  }

  lemma ContentsAppended<C>(els: seq<ListElement<C>>, x: ListElement<C>)
    ensures Contents(els + [x]) == Contents(els) + [x.content]
  {
    assert (els + [x])[..|els|] == els;
  }

  lemma ContentsConcat<C>(a: seq<ListElement<C>>, b: seq<ListElement<C>>)
    ensures Contents(a + b) == Contents(a) + Contents(b)
  {
    hide Contents;
    var s, t := Contents(a + b), Contents(a) + Contents(b);
    forall i | 0 <= i < |s| ensures s[i] == t[i] {
      assert s[i] == (a + b)[i].content;
    }
  }

  lemma ContentsParts<C>(els: seq<ListElement<C>>, k: nat)
    requires k <= |els|
    ensures Contents(els[..k]) == Contents(els)[..k] && Contents(els[k..]) == Contents(els)[k..]
  {
    hide Contents;
    var s, t := Contents(els[..k]), Contents(els)[..k];
    forall i | 0 <= i < |s| ensures s[i] == t[i] {
      assert s[i] == els[..k][i].content;
    }
    var u, v := Contents(els[k..]), Contents(els)[k..];
    forall i | 0 <= i < |u| ensures u[i] == v[i] {
      assert u[i] == els[k..][i].content;
    }
  }

  lemma ContentsOne<C>(x: ListElement<C>)
    ensures Contents([x]) == [x.content]
  {
  }

  lemma ContentsSpliced<C>(els: seq<ListElement<C>>, k: nat, x: ListElement<C>)
    requires k <= |els|
    ensures Contents(Spliced(els, k, x)) == Spliced(Contents(els), k, x.content)
  {
    ContentsOne(x);
    hide Contents;
    ContentsConcat(els[..k] + [x], els[k..]);
    ContentsConcat(els[..k], [x]);
    ContentsParts(els, k);
  }

  lemma SplicedEnds<C>(els: seq<ListElement<C>>, k: nat, x: ListElement<C>)
    requires k < |els|
    ensures Spliced(els, k, x)[k] == x && |Spliced(els, k, x)| == |els| + 1
    ensures forall e :: e in els ==> e in Spliced(els, k, x)
    ensures At(Spliced(els, k, x), 0) == (if k == 0 then x else els[0])
    ensures Before(Spliced(els, k, x), |els| + 1) == els[|els| - 1]
  {
    assert els == els[..k] + els[k..];
  }

  lemma WithoutLinks<C>(els: seq<ListElement<C>>, k: nat)
    requires k < |els| && Distinct(els)
    requires forall i {:trigger els[i].prev} :: 0 <= i < |els| ==>
      els[i].prev == if i == k + 1 then Before(els, k) else Before(els, i)
    requires forall i {:trigger els[i].next} :: 0 <= i < |els| ==>
      els[i].next == if i == k - 1 then At(els, k + 1) else At(els, i + 1)
    ensures Distinct(Without(els, k)) && Backward(Without(els, k)) && Forward(Without(els, k))
  {
    var t := Without(els, k);
    forall i | 0 <= i < |t|
      ensures t[i] == els[if i < k then i else i + 1]
      ensures t[i].prev == Before(t, i) && t[i].next == At(t, i + 1)
    {
    }
  }

  lemma ContentsWithout<C>(els: seq<ListElement<C>>, k: nat)
    requires k < |els|
    ensures Contents(Without(els, k)) == Without(Contents(els), k) && |Without(els, k)| == |els| - 1
  {
    hide Contents;
    ContentsConcat(els[..k], els[k + 1..]);
    ContentsParts(els, k);
    ContentsParts(els, k + 1);
  }

  lemma StaysIn<C>(els: seq<ListElement<C>>, k: nat, e: ListElement?<C>)
    requires k < |els| && Distinct(els) && (e == At(els, k + 1) || e == null || (e in els && e != els[k]))
    ensures e != null ==> e in Without(els, k)
  {
    InWithout(els, k);
  }

  lemma InWithout<C>(els: seq<ListElement<C>>, k: nat)
    requires k < |els| && Distinct(els)
    ensures forall e :: e in els && e != els[k] ==> e in Without(els, k)
    ensures k + 1 < |els| ==> els[k + 1] in Without(els, k)
    ensures k > 0 ==> els[k - 1] in Without(els, k)
  {
    assert els == els[..k] + [els[k]] + els[k + 1..];
    var t := Without(els, k);
    assert k + 1 < |els| ==> t[k] == els[k + 1];
    assert k > 0 ==> t[k - 1] == els[k - 1];
  }

  lemma TurnedLinks<C>(els: seq<ListElement<C>>, k: nat)
    requires 0 < k < |els| && Distinct(els)
    requires forall i {:trigger els[i].prev} :: 0 <= i < |els| ==>
      els[i].prev == if i == k then null else if i == 0 then els[|els| - 1] else els[i - 1]
    requires forall i {:trigger els[i].next} :: 0 <= i < |els| ==>
      els[i].next == if i == k - 1 then null else if i == |els| - 1 then els[0] else els[i + 1]
    ensures Distinct(Rotated(els, k)) && Backward(Rotated(els, k)) && Forward(Rotated(els, k))
  {
    var t := Rotated(els, k);
    var n := |els| - k;
    forall i | 0 <= i < |t|
      ensures t[i] == els[if i < n then k + i else i - n]
      ensures t[i].prev == Before(t, i) && t[i].next == At(t, i + 1)
    {
    }
  }

  lemma RotatedEnds<C>(els: seq<ListElement<C>>, k: nat)
    requires 0 < k < |els|
    ensures var t := Rotated(els, k); |t| == |els| && At(t, 0) == els[k] && Before(t, |t|) == els[k - 1]
  { }

  lemma ContentsTurned<C>(els: seq<ListElement<C>>, k: nat)
    requires 0 < k < |els|
    ensures Contents(Rotated(els, k)) == Rotated(Contents(els), k)
    ensures forall e :: e in els ==> e in Rotated(els, k)
  {
    hide Contents;
    assert els == els[..k] + els[k..];
    ContentsConcat(els[k..], els[..k]);
    ContentsParts(els, k);
  }
}
