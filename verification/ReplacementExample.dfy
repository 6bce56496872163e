/** A red-black tree that the replacement of a content leaves unbalanced. */
module ReplacementExample {
  import opened SortedEntries
  import opened RedBlackTree

  function IntCompare(a: int, q: Probe<int, int>): int {
    var b := if q.Content? then q.c else q.k;
    if a > b then -1 else if a == b then 0 else 1
  }

  lemma Compared(a: int, b: int, q: Probe<int, int>)
    ensures IntCompare(a, Content(b)) > 0 <==> IntCompare(b, Content(a)) < 0
    ensures IntCompare(a, Content(b)) > 0 && IntCompare(b, q) >= 0 ==> IntCompare(a, q) > 0
    ensures IntCompare(a, Content(b)) > 0 && IntCompare(a, q) <= 0 ==> IntCompare(b, q) < 0
    ensures IntCompare(a, Content(b)) == 0 ==> (IntCompare(a, q) == 0 <==> IntCompare(b, q) == 0)
  { }

  lemma IntCompareIsTotal()
    ensures TotalComparator(IntCompare)
  {
    hide IntCompare;
    forall a, b ensures IntCompare(a, Content(b)) > 0 <==> IntCompare(b, Content(a)) < 0 { Compared(a, b, Key(0)); }
    forall a, b, q ensures IntCompare(a, Content(b)) > 0 && IntCompare(b, q) >= 0 ==>
        IntCompare(a, q) > 0 { Compared(a, b, q); }
    forall a, b, q ensures IntCompare(a, Content(b)) > 0 && IntCompare(a, q) <= 0 ==>
        IntCompare(b, q) < 0 { Compared(a, b, q); }
    forall a, b, q ensures IntCompare(a, Content(b)) == 0 ==>
        (IntCompare(a, q) == 0 <==> IntCompare(b, q) == 0) { Compared(a, b, q); }
  }

  lemma SortedUpto(a: int, b: int)
    requires a <= b
    ensures Sorted(IntCompare, Upto(a, b))
  { }

  function Upto(a: int, b: int): (es: seq<Entry<int>>)
    requires a <= b
    ensures |es| == b - a && forall i :: 0 <= i < |es| ==> es[i] == Entry(a + i, 1)
    decreases b - a
  {
    if a == b then [] else [Entry(a, 1)] + Upto(a + 1, b)
  }

  lemma {:induction false} SumUpto(a: int, b: int)
    requires a <= b
    ensures Sum(Upto(a, b)) == b - a
    decreases b - a
  {
    if a < b {
      SumUpto(a + 1, b);
      assert Upto(a, b)[1..] == Upto(a + 1, b);
    }
  }

  lemma {:induction false} AddedAgain(a: int, b: int, x: int)
    requires a <= x < b
    ensures Inserted(IntCompare, Upto(a, b), Entry(x, 1)) == Upto(a, b)
    ensures Lookup(IntCompare, Upto(a, b), Content(x)) == Some(Entry(x, 1))
    decreases b - a
  {
    assert Upto(a, b)[1..] == Upto(a + 1, b);
    if a < x { AddedAgain(a + 1, b, x); }
  }

  // What one node of the example holds
  ghost predicate Is(n: Node<int>, key: int, red: bool, parent: Node?<int>, left: Node?<int>, right: Node?<int>,
      lo: int, hi: int, bh: int)
    reads n
  {
    && n.content == To(key) && n.size == 1 && n.red == red && n.parent == parent && n.left == left && n.right == right
    && n.pos == key - 1 && n.lo == lo && n.hi == hi && n.bh == bh
  }

  method Fill(n: Node<int>, key: int, red: bool, parent: Node?<int>, left: Node?<int>, right: Node?<int>,
      ghost lo: int, ghost hi: int, ghost bh: int)
    modifies n
    ensures Is(n, key, red, parent, left, right, lo, hi, bh)
  {
    n.content, n.size, n.red, n.parent, n.left, n.right := To(key), 1, red, parent, left, right;
    n.pos, n.lo, n.hi, n.bh := key - 1, lo, hi, bh;
  }

  // A black 4 above a red 2 and a black 5, the red 2 above a black 1 and a black 3
  ghost predicate Picture(ns: seq<Node<int>>)
    reads ns
  {
    && |ns| == 5 && (forall i, j :: 0 <= i < j < 5 ==> ns[i] != ns[j])
    && Is(ns[0], 1, false, ns[1], null, null, 0, 1, 0)
    && Is(ns[1], 2, true, ns[3], ns[0], ns[2], 0, 3, 1)
    && Is(ns[2], 3, false, ns[1], null, null, 2, 3, 0)
    && Is(ns[3], 4, false, null, ns[1], ns[4], 0, 5, 1)
    && Is(ns[4], 5, false, ns[3], null, null, 4, 5, 0)
  }

  method Blank() returns (a: Node<int>, b: Node<int>, c: Node<int>, d: Node<int>, e: Node<int>)
    ensures fresh({a, b, c, d, e}) && a != b && a != c && a != d && a != e && b != c && b != d && b != e && c != d &&
      c != e && d != e
  {
    a := new Node(Null, 0, null, false);
    b := new Node(Null, 0, null, false);
    c := new Node(Null, 0, null, false);
    d := new Node(Null, 0, null, false);
    e := new Node(Null, 0, null, false);
  }

  method Nodes() returns (ns: seq<Node<int>>)
    ensures Picture(ns) && forall i :: 0 <= i < 5 ==> fresh(ns[i])
  {
    hide Is;
    var a, b, c, d, e := Blank();
    Fill(a, 1, false, b, null, null, 0, 1, 0);
    Fill(b, 2, true, d, a, c, 0, 3, 1);
    Fill(c, 3, false, b, null, null, 2, 3, 0);
    Fill(d, 4, false, null, b, e, 0, 5, 1);
    Fill(e, 5, false, d, null, null, 4, 5, 0);
    ns := [a, b, c, d, e];
  }

  ghost predicate Drawn(t: Tree<int, int>, ns: seq<Node<int>>)
    reads t, ns
  {
    && Picture(ns) && t.root == ns[3] && t.order == ns && t.nodes == (set i | 0 <= i < 5 :: ns[i]) &&
      t.entries == Upto(1, 6)
  }

  lemma DrawnShape(t: Tree<int, int>, ns: seq<Node<int>>)
    requires Drawn(t, ns)
    ensures t.Shape()
  {
    assert forall i :: 0 <= i < 5 ==> ns[i] in t.nodes;
    forall n | n in t.nodes
      ensures t.RangeOk(n) && t.DownOk(n, Left) && t.DownOk(n, Right) && t.UpOk(n)
    {
      var i :| 0 <= i < 5 && n == ns[i];
      assert i == 0 || i == 1 || i == 2 || i == 3 || i == 4;
    }
    forall n, d: Direction | n in t.nodes ensures t.DownOk(n, d) { }
    forall i | 0 <= i < 5 ensures ns[i].pos == i { assert i == 0 || i == 1 || i == 2 || i == 3 || i == 4; }
  }

  lemma DrawnHolds(t: Tree<int, int>, ns: seq<Node<int>>)
    requires Drawn(t, ns)
    ensures t.Holds()
  {
    assert forall i :: 0 <= i < 5 ==> ns[i] in t.nodes;
    forall i | 0 <= i < 5 ensures ns[i].content == To(t.entries[i].content) && ns[i].size == t.entries[i].size {
      assert i == 0 || i == 1 || i == 2 || i == 3 || i == 4;
    }
  }

  lemma DrawnRedBlack(t: Tree<int, int>, ns: seq<Node<int>>)
    requires Drawn(t, ns)
    ensures t.RedBlack()
  {
    assert forall i :: 0 <= i < 5 ==> ns[i] in t.nodes;
    forall n, d: Direction | n in t.nodes ensures t.EvenAt(n, d) && t.CalmAt(n, d, null) {
      var i :| 0 <= i < 5 && n == ns[i];
      assert i == 0 || i == 1 || i == 2 || i == 3 || i == 4;
    }
  }

  lemma NotFixable(t: Tree<int, int>, ns: seq<Node<int>>, n: Node<int>)
    requires Drawn(t, ns) && n in t.nodes && n.content.To? && n.content.value == 3
    ensures !t.Fixable(n)
  {
    var i :| 0 <= i < 5 && n == ns[i];
    assert i == 2;
  }

  lemma DrawnValid(t: Tree<int, int>, ns: seq<Node<int>>)
    requires Drawn(t, ns) && t.compare == IntCompare && t.count == 5 && t.size == 5
    ensures t.Valid()
  {
    IntCompareIsTotal();
    SumUpto(1, 6);
    SortedUpto(1, 6);
    DrawnShape(t, ns);
    DrawnHolds(t, ns);
    hide TotalComparator, Sorted, Picture, Sum;
  }

  method Build() returns (t: Tree<int, int>, ghost ns: seq<Node<int>>)
    ensures fresh(t) && fresh(t.nodes) && t.compare == IntCompare && t.Valid() && t.RedBlack() && Drawn(t, ns)
  {
    IntCompareIsTotal();
    hide Is, TotalComparator, Upto, Sorted, Sum;
    t := new Tree(IntCompare);
    var nodes := Nodes();
    ns := nodes;
    t.root := nodes[3];
    t.nodes := set i | 0 <= i < 5 :: nodes[i];
    t.order := nodes;
    t.entries := Upto(1, 6);
    t.count, t.size := 5, 5;
    hide Picture;
    DrawnValid(t, ns);
    DrawnRedBlack(t, ns);
  }

  // What the addition of 3 meets
  lemma Prepared(t: Tree<int, int>, ns: seq<Node<int>>)
    requires Drawn(t, ns) && t.compare == IntCompare
    ensures t.entries == Upto(1, 6) && Inserted(t.compare, t.entries, Entry(3, 1)) == Upto(1, 6)
    ensures t.Replaced(t.entries, 3).Some?
    ensures forall n :: n in t.nodes && n.content.To? && t.compare(n.content.value, Content(3)) == 0 ==> !t.Fixable(n)
  {
    AddedAgain(1, 6, 3);
    hide Inserted, Lookup, Upto;
    forall n | n in t.nodes && n.content.To? && t.compare(n.content.value, Content(3)) == 0 ensures !t.Fixable(n) {
      NotFixable(t, ns, n);
    }
  }

  // Adding 3 again changes no entry, and leaves paths of different black height
  method AddThreeAgain(t: Tree<int, int>, ghost ns: seq<Node<int>>)
    requires Drawn(t, ns) && t.compare == IntCompare && t.Valid() && t.RedBlack()
    modifies t, t.nodes
    ensures t.Valid() && t.entries == old(t.entries) && t.Lopsided()
  {
    hide *;
    Prepared(t, ns);
    var rc;
    ghost var node;
    rc, node := t.Add(3, 1);
    assert old(node in t.nodes && node.content.To?);
    assert !old(t.Fixable(node));
  }

  // There is a red-black tree that a replacement unbalances
  method ReplacementUnbalances() returns (t: Tree<int, int>)
    ensures t.Valid() && t.Lopsided() && t.entries == Upto(1, 6)
  {
    hide *;
    ghost var ns;
    t, ns := Build();
    Prepared(t, ns);
    AddThreeAgain(t, ns);
  }
}
