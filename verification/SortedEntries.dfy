/** The entries of a tree in order: a finite map under a comparator, kept as a sorted list. */
module SortedEntries {
  import opened Sequences

  datatype Probe<+C, +K> = Content(c: C) | Key(k: K)

  datatype Entry<+C> = Entry(content: C, size: int)

  ghost function Sum<C>(entries: seq<Entry<C>>): int {
    if entries == [] then 0 else entries[0].size + Sum(entries[1..])
  }
  ghost predicate TotalComparator<C(!new), K(!new)>(compare: (C, Probe<C, K>) -> int) {
    && (forall a, b :: compare(a, Content(b)) > 0 <==> compare(b, Content(a)) < 0)
    && (forall a, b, q :: compare(a, Content(b)) > 0 && compare(b, q) >= 0 ==> compare(a, q) > 0)
    && (forall a, b, q :: compare(a, Content(b)) > 0 && compare(a, q) <= 0 ==> compare(b, q) < 0)
    && (forall a, b, q :: compare(a, Content(b)) == 0 ==> (compare(a, q) == 0 <==> compare(b, q) == 0))
  }

  ghost predicate Sorted<C, K>(compare: (C, Probe<C, K>) -> int, entries: seq<Entry<C>>) {
    forall i, j :: 0 <= i < j < |entries| ==> compare(entries[i].content, Content(entries[j].content)) > 0
  }
  // Entries before `lo` lie before the probe, entries from `hi` on lie after it
  ghost predicate Narrowed<C, K>(compare: (C, Probe<C, K>) -> int, es: seq<Entry<C>>, q: Probe<C, K>, lo: int,
      hi: int) {
    && 0 <= lo <= hi <= |es|
    && (forall i :: 0 <= i < lo ==> compare(es[i].content, q) > 0)
    && (forall i :: hi <= i < |es| ==> compare(es[i].content, q) < 0)
  }

  lemma Before<C(!new), K(!new)>(compare: (C, Probe<C, K>) -> int, a: C, b: C, q: Probe<C, K>)
    requires TotalComparator(compare) && compare(a, Content(b)) > 0
    ensures compare(b, q) >= 0 ==> compare(a, q) > 0
    ensures compare(a, q) <= 0 ==> compare(b, q) < 0
  {
  }

  lemma Narrow<C(!new), K(!new)>(compare: (C, Probe<C, K>) -> int, es: seq<Entry<C>>, q: Probe<C, K>, lo: int,
      pos: int, hi: int)
    requires TotalComparator(compare) && Sorted(compare, es)
    requires Narrowed(compare, es, q, lo, hi) && lo <= pos < hi
    ensures compare(es[pos].content, q) > 0 ==> Narrowed(compare, es, q, pos + 1, hi)
    ensures compare(es[pos].content, q) < 0 ==> Narrowed(compare, es, q, lo, pos)
    ensures compare(es[pos].content, q) == 0 ==> Narrowed(compare, es, q, pos, pos + 1)
  {
    hide TotalComparator;
    forall i | 0 <= i < pos ensures compare(es[pos].content, q) >= 0 ==> compare(es[i].content, q) > 0 {
      Before(compare, es[i].content, es[pos].content, q);
    }
    forall i | pos < i < |es| ensures compare(es[pos].content, q) <= 0 ==> compare(es[i].content, q) < 0 {
      Before(compare, es[pos].content, es[i].content, q);
    }
  }

  lemma AroundHole<C(!new), K(!new)>(compare: (C, Probe<C, K>) -> int, es: seq<Entry<C>>, at: int, c: C, k: int)
    requires TotalComparator(compare) && Narrowed(compare, es, Content(c), at, at) && 0 <= k < |es|
    ensures k < at ==> compare(es[k].content, Content(c)) > 0
    ensures at <= k ==> compare(c, Content(es[k].content)) > 0
  {
  }

  lemma SplicedSorted<C(!new), K(!new)>(compare: (C, Probe<C, K>) -> int, es: seq<Entry<C>>, at: int, e: Entry<C>)
    requires TotalComparator(compare) && Sorted(compare, es) && Narrowed(compare, es, Content(e.content), at, at)
    ensures Sorted(compare, Spliced(es, at, e))
  {
    var s := Spliced(es, at, e);
    assert |s| == |es| + 1;
    hide TotalComparator, Narrowed;
    forall i, j | 0 <= i < j < |s| ensures compare(s[i].content, Content(s[j].content)) > 0 {
      SplicedAt(es, at, e, i);
      SplicedAt(es, at, e, j);
      hide Spliced;
      if i == at {
        AroundHole(compare, es, at, e.content, j - 1);
      } else if j == at {
        AroundHole(compare, es, at, e.content, i);
      }
    }
  }

  lemma ReplacedSorted<C(!new), K(!new)>(compare: (C, Probe<C, K>) -> int, es: seq<Entry<C>>, at: int, e: Entry<C>)
    requires TotalComparator(compare) && Sorted(compare, es)
    requires 0 <= at < |es| && compare(es[at].content, Content(e.content)) == 0
    ensures Sorted(compare, es[at := e])
  {
    Narrow(compare, es, Content(e.content), 0, at, |es|);
    assert forall k :: at < k < |es| ==> compare(e.content, Content(es[k].content)) > 0;
  }

  lemma {:induction false} SumSplice<C>(a: seq<Entry<C>>, e: Entry<C>, b: seq<Entry<C>>)
    ensures Sum(a + [e] + b) == Sum(a + b) + e.size
  {
    if a == [] {
      assert a + [e] + b == [e] + b && a + b == b;
    } else {
      SumSplice(a[1..], e, b);
      assert (a + [e] + b)[1..] == a[1..] + [e] + b && (a + b)[1..] == a[1..] + b;
    }
  }

  lemma SumSpliced<C>(es: seq<Entry<C>>, at: int, e: Entry<C>)
    requires 0 <= at <= |es|
    ensures Sum(Spliced(es, at, e)) == Sum(es) + e.size
  {
    hide Sum;
    SumSplice(es[..at], e, es[at..]);
    assert es[..at] + es[at..] == es;
  }

  lemma SumWithout<C>(es: seq<Entry<C>>, at: int)
    requires 0 <= at < |es|
    ensures Sum(Without(es, at)) == Sum(es) - es[at].size
  {
    hide Sum;
    SumSplice(es[..at], es[at], es[at + 1..]);
    assert es == es[..at] + [es[at]] + es[at + 1..];
  }

  lemma SumReplaced<C>(es: seq<Entry<C>>, at: int, e: Entry<C>)
    requires 0 <= at < |es|
    ensures Sum(es[at := e]) == Sum(es) + e.size - es[at].size
  {
    SumWithout(es, at);
    SumWithout(es[at := e], at);
    assert Without(es, at) == Without(es[at := e], at);
  }

  // ---------------- the reference: a finite map kept as a sorted list ----------------

  ghost function Inserted<C, K>(compare: (C, Probe<C, K>) -> int, es: seq<Entry<C>>, e: Entry<C>): seq<Entry<C>> {
    if es == [] then [e]
    else if compare(es[0].content, Content(e.content)) > 0 then [es[0]] + Inserted(compare, es[1..], e)
    else if compare(es[0].content, Content(e.content)) == 0 then [e] + es[1..]
    else [e] + es
  }

  ghost function Deleted<C, K>(compare: (C, Probe<C, K>) -> int, es: seq<Entry<C>>, q: Probe<C, K>): seq<Entry<C>> {
    if es == [] then []
    else if compare(es[0].content, q) == 0 then es[1..]
    else [es[0]] + Deleted(compare, es[1..], q)
  }

  ghost predicate Has<C, K>(compare: (C, Probe<C, K>) -> int, es: seq<Entry<C>>, q: Probe<C, K>) {
    exists i :: 0 <= i < |es| && compare(es[i].content, q) == 0
  }

  datatype Option<+T> = None | Some(value: T)

  ghost function Lookup<C, K>(compare: (C, Probe<C, K>) -> int, es: seq<Entry<C>>, q: Probe<C, K>): Option<Entry<C>> {
    if es == [] then None
    else if compare(es[0].content, q) == 0 then Some(es[0])
    else Lookup(compare, es[1..], q)
  }

  lemma {:induction false} SplicedIsInserted<C,
      K>(compare: (C, Probe<C, K>) -> int, es: seq<Entry<C>>, at: int, e: Entry<C>)
    requires Narrowed(compare, es, Content(e.content), at, at)
    ensures Inserted(compare, es, e) == Spliced(es, at, e)
  {
    if at > 0 {
      SplicedIsInserted(compare, es[1..], at - 1, e);
      assert [es[0]] + Spliced(es[1..], at - 1, e) == Spliced(es, at, e);
    } else {
      assert Spliced(es, at, e) == [e] + es;
    }
  }

  lemma {:induction false} ReplacedIsInserted<C,
      K>(compare: (C, Probe<C, K>) -> int, es: seq<Entry<C>>, at: int, e: Entry<C>)
    requires Narrowed(compare, es, Content(e.content), at, at + 1) && compare(es[at].content, Content(e.content)) == 0
    ensures Inserted(compare, es, e) == es[at := e]
  {
    if at > 0 {
      ReplacedIsInserted(compare, es[1..], at - 1, e);
      assert [es[0]] + es[1..][at - 1 := e] == es[at := e];
    }
  }

  lemma {:induction false} WithoutIsDeleted<C,
      K>(compare: (C, Probe<C, K>) -> int, es: seq<Entry<C>>, at: int, q: Probe<C, K>)
    requires Narrowed(compare, es, q, at, at + 1) && compare(es[at].content, q) == 0
    ensures Deleted(compare, es, q) == Without(es, at)
  {
    if at > 0 {
      WithoutIsDeleted(compare, es[1..], at - 1, q);
      assert [es[0]] + Without(es[1..], at - 1) == Without(es, at);
    }
  }

  lemma {:induction false} LookupHas<C, K>(compare: (C, Probe<C, K>) -> int, es: seq<Entry<C>>, q: Probe<C, K>)
    ensures Lookup(compare, es, q).Some? <==> Has(compare, es, q)
    ensures !Has(compare, es, q) ==> Deleted(compare, es, q) == es
  {
    if es != [] {
      LookupHas(compare, es[1..], q);
      if Has(compare, es[1..], q) {
        var i :| 0 <= i < |es[1..]| && compare(es[1..][i].content, q) == 0;
        assert compare(es[i + 1].content, q) == 0;
      }
      if Has(compare, es, q) && compare(es[0].content, q) != 0 {
        var i :| 0 <= i < |es| && compare(es[i].content, q) == 0;
        assert compare(es[1..][i - 1].content, q) == 0;
      }
    }
  }

  // Adding is map update: only probes that meet the new content see a change
  lemma {:induction false} LookupInserted<C(!new),
      K(!new)>(compare: (C, Probe<C, K>) -> int, es: seq<Entry<C>>, e: Entry<C>, q: Probe<C, K>)
    requires TotalComparator(compare) && Sorted(compare, es)
    ensures Lookup(compare, Inserted(compare, es, e), q) == if compare(e.content, q) == 0 then Some(e)
      else Lookup(compare, es, q)
  {
    if es != [] && compare(es[0].content, Content(e.content)) > 0 {
      LookupInserted(compare, es[1..], e, q);
    }
  }

  // Removing is map deletion: exactly the entry that the probe met is gone
  lemma {:induction false} LookupDeleted<C(!new),
      K(!new)>(compare: (C, Probe<C, K>) -> int, es: seq<Entry<C>>, q: Probe<C, K>, r: Probe<C, K>)
    requires TotalComparator(compare) && Sorted(compare, es)
    ensures Lookup(compare, Deleted(compare, es, q), r) ==
      var hit := Lookup(compare, es, q);
      if hit.Some? && compare(hit.value.content, r) == 0 then None else Lookup(compare, es, r)
  {
    hide TotalComparator;
    if es != [] {
      if compare(es[0].content, q) == 0 {
        if compare(es[0].content, r) == 0 {
          forall i | 0 <= i < |es[1..]| ensures compare(es[1..][i].content, r) != 0 {
            Before(compare, es[0].content, es[i + 1].content, r);
          }
          LookupHas(compare, es[1..], r);
        }
      } else {
        LookupDeleted(compare, es[1..], q, r);
        LookupAmong(compare, es[1..], q);
        var hit := Lookup(compare, es[1..], q);
        if hit.Some? {
          var i :| 0 <= i < |es[1..]| && es[1..][i] == hit.value;
          Before(compare, es[0].content, es[i + 1].content, r);
        }
      }
    }
  }

  lemma {:induction false} LookupAmong<C, K>(compare: (C, Probe<C, K>) -> int, es: seq<Entry<C>>, q: Probe<C, K>)
    ensures var hit := Lookup(compare, es, q); hit.Some? ==> exists i :: 0 <= i < |es| && es[i] == hit.value
  {
    if es != [] && compare(es[0].content, q) != 0 {
      LookupAmong(compare, es[1..], q);
      var hit := Lookup(compare, es[1..], q);
      if hit.Some? { var i :| 0 <= i < |es[1..]| && es[1..][i] == hit.value; assert es[i + 1] == hit.value; }
    }
  }

  lemma {:induction false} LookupIsAt<C,
      K>(compare: (C, Probe<C, K>) -> int, es: seq<Entry<C>>, at: int, q: Probe<C, K>)
    requires Narrowed(compare, es, q, at, at + 1) && compare(es[at].content, q) == 0
    ensures Lookup(compare, es, q) == Some(es[at])
  {
    if at > 0 { LookupIsAt(compare, es[1..], at - 1, q); }
  }
}
