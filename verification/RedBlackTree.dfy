/** The red-black tree: nodes with parent links, rotations, the fix-ups after an addition and a removal, and the walk
    from each entry to the next. Each node knows, as ghost fields, its place in the order of the entries, the interval
    of the entries below it, and its black height. */
module RedBlackTree {
  import opened Sequences
  import opened SortedEntries

  datatype Pointer<+C> = Null | To(value: C)

  datatype Direction = Left | Right {
    function Opposite(): Direction { if Left? then Right else Left }
  }

  function Pow2(n: int): nat {
    if n <= 0 then 1 else 2 * Pow2(n - 1)
  }

  lemma {:induction false} Pow2Grows(a: int, b: int)
    requires a <= b
    ensures Pow2(a) <= Pow2(b)
    decreases b - a
  {
    if a < b { Pow2Grows(a, b - 1); }
  }

  datatype Operation<+C, +K> = Adding(c: C, sz: int) | Removing(q: Probe<C, K>)

  ghost function Stepped<C, K>(compare: (C, Probe<C, K>) -> int, es: seq<Entry<C>>, op: Operation<C, K>)
    : seq<Entry<C>> {
    match op
    case Adding(c, sz) => Inserted(compare, es, Entry(c, sz))
    case Removing(q) => Deleted(compare, es, q)
  }

  ghost predicate Replaces<C, K>(compare: (C, Probe<C, K>) -> int, es: seq<Entry<C>>, op: Operation<C, K>) {
    op.Adding? && Has(compare, es, Content(op.c))
  }

  ghost function Applied<C, K>(compare: (C, Probe<C, K>) -> int, es: seq<Entry<C>>, ops: seq<Operation<C, K>>)
    : seq<Entry<C>> {
    if ops == [] then es
    else Stepped(compare, Applied(compare, es, ops[..|ops| - 1]), ops[|ops| - 1])
  }

  ghost predicate NoReplacement<C, K>(compare: (C, Probe<C, K>) -> int, es: seq<Entry<C>>, ops: seq<Operation<C, K>>) {
    ops == [] ||
    (NoReplacement(compare, es, ops[..|ops| - 1]) &&
     !Replaces(compare, Applied(compare, es, ops[..|ops| - 1]), ops[|ops| - 1]))
  }

  lemma AppliedNext<C, K>(compare: (C, Probe<C, K>) -> int, es: seq<Entry<C>>, ops: seq<Operation<C, K>>, i: nat)
    requires i < |ops|
    ensures Applied(compare, es, ops[..i + 1]) == Stepped(compare, Applied(compare, es, ops[..i]), ops[i])
    ensures NoReplacement(compare, es, ops[..i + 1]) <==>
      NoReplacement(compare, es, ops[..i]) && !Replaces(compare, Applied(compare, es, ops[..i]), ops[i])
  {
    assert ops[..i + 1][..i] == ops[..i];
  }

  class Node<C> {
    var parent: Node?<C>
    var left: Node?<C>
    var right: Node?<C>
    var content: Pointer<C>
    var size: int
    var red: bool
    ghost var pos: int
    ghost var lo: int
    ghost var hi: int
    ghost var bh: int

    constructor (content: Pointer<C>, size: int, parent: Node?<C>, red: bool)
      ensures this.content == content && this.size == size && this.parent == parent && this.red == red
      ensures left == null && right == null
    {
      this.content, this.size, this.parent, this.red := content, size, parent, red;
      left, right := null, null;
    }

    function Child(d: Direction): Node?<C>
      reads this`left, this`right
    {
      if d.Left? then left else right
    }

    method SetChild(d: Direction, c: Node?<C>)
      modifies this`left, this`right
      ensures forall e: Direction :: Child(e) == if e == d then c else old(Child(e))
    {
      if d.Left? { left := c; } else { right := c; }
    }

    ghost function SlotLo(d: Direction): int reads this`lo, this`pos { if d.Left? then lo else pos + 1 }
    ghost function SlotHi(d: Direction): int reads this`pos, this`hi { if d.Left? then pos else hi }
    ghost function Side(p: Node<C>): Direction reads this`pos, p`pos { if pos < p.pos then Left else Right }
  }

  datatype Turn<C> = Turn(cur: Node<C>, d: Direction, other: Node<C>)

  class Tree<C(!new), K(!new)> {
    var root: Node?<C>
    var count: int
    var size: int
    ghost var nodes: set<Node<C>>
    ghost var order: seq<Node<C>>
    ghost var entries: seq<Entry<C>>
    const compare: (C, Probe<C, K>) -> int

    ghost predicate RangeOk(n: Node<C>)
      reads this`order, n`lo, n`pos, n`hi
    {
      0 <= n.lo <= n.pos < n.hi <= |order| && order[n.pos] == n
    }

    ghost predicate DownOk(n: Node<C>, d: Direction)
      requires n in nodes
      reads this`nodes, nodes`parent, nodes`left, nodes`right, nodes`pos, nodes`lo, nodes`hi
    {
      var c := n.Child(d);
      if c == null then n.SlotLo(d) == n.SlotHi(d)
      else c in nodes && c.parent == n && c.lo == n.SlotLo(d) && c.hi == n.SlotHi(d)
    }

    ghost predicate UpOk(n: Node<C>)
      requires n in nodes
      reads this`root, this`nodes, nodes`parent, nodes`left, nodes`right, nodes`pos
    {
      if n.parent == null then n == root
      else n.parent in nodes && n.parent.Child(n.Side(n.parent)) == n
    }

    ghost predicate Shape()
      reads this`root, this`nodes, this`order, nodes`parent, nodes`left, nodes`right, nodes`pos, nodes`lo, nodes`hi
    {
      && (forall i {:trigger order[i]} :: 0 <= i < |order| ==> order[i] in nodes && order[i].pos == i)
      && (forall n {:trigger RangeOk(n)} :: n in nodes ==> RangeOk(n))
      && (forall n, d {:trigger DownOk(n, d)} :: n in nodes ==> DownOk(n, d))
      && (forall n {:trigger UpOk(n)} :: n in nodes ==> UpOk(n))
      && (root == null <==> order == [])
      && (root != null ==> root in nodes && root.parent == null && root.lo == 0 && root.hi == |order|)
    }

    twostate predicate Relinked(t: Turn<C>)
      reads this, nodes
    {
      var Turn(cur, d, other) := t;
      var inner := old(other.Child(d));
      var p := old(cur.parent);
      && nodes == old(nodes) && order == old(order)
      && cur in nodes && other in nodes && (p != null ==> p in nodes) && (inner != null ==> inner in nodes)
      && (if p == null then root == other else root == old(root))
      && (forall n {:trigger n.parent} :: n in nodes ==>
          n.parent == if n == cur then other else if n == other then p else if n == inner then cur else old(n.parent))
      && (forall n, e {:trigger n.Child(e)} :: n in nodes ==>
          n.Child(e) == if n == cur && e == d.Opposite() then inner else if n == other && e == d then cur
                        else if n == p && e == old(cur.Side(p)) then other else old(n.Child(e)))
    }

    twostate predicate Rotated(t: Turn<C>)
      reads this, nodes
    {
      var Turn(cur, d, other) := t;
      && Relinked(t)
      && (forall n {:trigger n.pos} :: n in nodes ==> n.pos == old(n.pos))
      && (forall n {:trigger n.lo} :: n in nodes ==> n.lo == if n == other then old(cur.lo) else if n == cur &&
        d.Right? then other.pos + 1 else old(n.lo))
      && (forall n {:trigger n.hi} :: n in nodes ==> n.hi == if n == other then old(cur.hi) else if n == cur &&
        d.Left? then other.pos else old(n.hi))
    }

    twostate lemma RotatedUp(t: Turn<C>)
      requires old(Shape()) && old(t.cur in nodes && t.cur.Child(t.d.Opposite()) == t.other)
      requires Rotated(t)
      ensures forall n {:trigger UpOk(n)} :: n in nodes ==> UpOk(n)
      ensures forall n {:trigger RangeOk(n)} :: n in nodes ==> RangeOk(n)
    {
      var Turn(cur, d, other) := t;
      assert old(RangeOk(cur) && DownOk(cur, d.Opposite()) && UpOk(cur));
      assert old(RangeOk(other) && DownOk(other, d));
      var inner := old(other.Child(d));
      if inner != null { assert old(RangeOk(inner)); }
      forall n | n in nodes ensures UpOk(n) && RangeOk(n) {
        assert old(UpOk(n) && RangeOk(n));
        var q, q0 := old(n.parent), old(cur.parent);
        if n == cur {
          assert n.Side(other) == d; assert other.Child(d) == cur;
        } else if n == other {
          if q0 != null {
            assert old(DownOk(q0, cur.Side(q0)));
            assert n.Side(q0) == old(cur.Side(q0)) && q0.Child(n.Side(q0)) == n;
          }
        } else if n == inner {
          assert n.Side(cur) == d.Opposite(); assert cur.Child(d.Opposite()) == inner;
        } else if q != null {
          assert old(RangeOk(q));
          assert n.Side(q) == old(n.Side(q)) && q.Child(n.Side(q)) == n;
        }
      }
    }

    twostate lemma RotatedDown(t: Turn<C>)
      requires old(Shape()) && old(t.cur in nodes && t.cur.Child(t.d.Opposite()) == t.other)
      requires Rotated(t)
      ensures forall n, e {:trigger DownOk(n, e)} :: n in nodes ==> DownOk(n, e)
    {
      var Turn(cur, d, other) := t;
      assert old(RangeOk(cur) && DownOk(cur, d.Opposite()) && UpOk(cur));
      assert old(RangeOk(other) && DownOk(other, d));
      forall n, e | n in nodes ensures DownOk(n, e) {
        assert old(DownOk(n, e) && RangeOk(n));
        var c := old(n.Child(e));
        if c != null { assert old(RangeOk(c)); }
      }
    }

    twostate lemma RotatedShape(t: Turn<C>)
      requires old(Shape()) && old(t.cur in nodes && t.cur.Child(t.d.Opposite()) == t.other)
      requires Rotated(t)
      ensures Shape()
    {
      RotatedUp(t);
      RotatedDown(t);
      assert old(RangeOk(t.cur) && UpOk(t.cur) && DownOk(t.cur, t.d.Opposite()) && DownOk(t.other, t.d));
      assert root.parent == null;
    }

    ghost predicate CanTurn(cur: Node<C>, d: Direction)
      reads this`nodes, nodes`parent, nodes`left, nodes`right, nodes`pos
    {
      && cur in nodes && cur.Child(d.Opposite()) != null
      && var other, p := cur.Child(d.Opposite()), cur.parent;
      && other in nodes && other != cur
      && (p != null ==> p in nodes && p != cur && p != other && (cur == p.Child(d) <==> cur.Side(p) == d))
      && var inner := other.Child(d);
      && (inner != null ==> inner in nodes && inner != cur && inner != other && inner != p)
    }

    // `other` takes the place of cur below the parent of cur
    method PutBelowParent(cur: Node<C>, d: Direction, other: Node<C>)
      requires cur in nodes && (cur.parent != null ==> cur.parent in nodes)
      modifies this`root, nodes`left, nodes`right
      ensures root == if cur.parent == null then other else old(root)
      ensures forall n, e {:trigger n.Child(e)} :: n in nodes ==>
        n.Child(e) ==
        if n == cur.parent && e == (if cur == old(n.Child(d)) then d else d.Opposite()) then other else old(n.Child(e))
    {
      if cur.parent == null {
        root := other;
      } else if cur == cur.parent.Child(d) {
        cur.parent.SetChild(d, other);
      } else {
        cur.parent.SetChild(d.Opposite(), other);
      }
    }

    method Relink(cur: Node<C>, d: Direction)
      requires CanTurn(cur, d)
      modifies this`root, nodes`parent, nodes`left, nodes`right
      ensures Relinked(Turn(cur, d, old(cur.Child(d.Opposite()))))
    {
      var other := cur.Child(d.Opposite());
      cur.SetChild(d.Opposite(), other.Child(d));
      if other.Child(d) != null {
        other.Child(d).parent := cur;
      }
      other.parent := cur.parent;
      PutBelowParent(cur, d, other);
      other.SetChild(d, cur);
      cur.parent := other;
    }

    method Rotate(cur: Node<C>, d: Direction)
      requires Shape() && cur in nodes && cur.Child(d.Opposite()) != null
      modifies this`root, nodes`parent, nodes`left, nodes`right, nodes`lo, nodes`hi
      ensures Shape() && Rotated(Turn(cur, d, old(cur.Child(d.Opposite()))))
    {
      ghost var other := cur.Child(d.Opposite());
      CanTurnIn(cur, d);
      Relink(cur, d);
      label L:
      other.lo := cur.lo;
      other.hi := cur.hi;
      if d.Left? { cur.hi := other.pos; } else { cur.lo := other.pos + 1; }
      assert forall n, e: Direction :: n in nodes ==> n.Child(e) == old@L(n.Child(e));
      RotatedShape(Turn(cur, d, other));
    }

    lemma CanTurnIn(cur: Node<C>, d: Direction)
      requires Shape() && cur in nodes && cur.Child(d.Opposite()) != null
      ensures CanTurn(cur, d)
    {
      assert RangeOk(cur) && DownOk(cur, d.Opposite()) && UpOk(cur);
      var other := cur.Child(d.Opposite());
      assert RangeOk(other) && DownOk(other, d);
      if other.Child(d) != null { assert RangeOk(other.Child(d)); }
      if cur.parent != null {
        var p := cur.parent;
        assert RangeOk(p) && DownOk(p, Left) && DownOk(p, Right);
      }
    }

    // ---------------- colours ----------------

    static ghost function Weight(c: Node?<C>): int
      reads (if c == null then {} else {c})`red, (if c == null then {} else {c})`bh
    {
      if c == null then 0 else c.bh + if c.red then 0 else 1
    }

    static predicate IsRed(c: Node?<C>)
      reads (if c == null then {} else {c})`red
    {
      c != null && c.red
    }

    ghost predicate EvenAt(n: Node<C>, e: Direction)
      requires n in nodes
      reads this`nodes, nodes`left, nodes`right, nodes`red, nodes`bh
    {
      var c := n.Child(e);
      0 <= n.bh && if c == null then n.bh == 0 else c in nodes && Weight(c) == n.bh
    }

    ghost predicate CalmAt(n: Node<C>, e: Direction, but: Node?<C>)
      requires n in nodes
      reads this`nodes, nodes`left, nodes`right, nodes`red
    {
      var c := n.Child(e);
      n.red && c != null ==> c in nodes && (c.red ==> c == but)
    }

    ghost predicate Even()
      reads this`nodes, nodes`left, nodes`right, nodes`red, nodes`bh
    {
      forall n, e {:trigger EvenAt(n, e)} :: n in nodes ==> EvenAt(n, e)
    }

    ghost predicate Calm(but: Node?<C>)
      reads this`nodes, nodes`left, nodes`right, nodes`red
    {
      forall n, e {:trigger CalmAt(n, e, but)} :: n in nodes ==> CalmAt(n, e, but)
    }

    // Only `cur` may be red below a red node, and only if it is the root may the root be red
    ghost predicate AddInv(cur: Node<C>)
      reads this`root, this`nodes, nodes`left, nodes`right, nodes`red, nodes`bh
    {
      cur in nodes && Even() && Calm(cur) && (root != null && root in nodes && root.red ==> root == cur)
    }

    twostate lemma InnerTurned(t: Turn<C>)
      requires old(Shape()) && old(t.cur in nodes && t.cur.Child(t.d.Opposite()) == t.other)
      requires Relinked(t)
      requires forall n {:trigger n.red} :: n in nodes ==> n.red == old(n.red)
      requires forall n {:trigger n.bh} :: n in nodes ==> n.bh == old(n.bh)
      requires old(AddInv(t.other)) && old(t.cur.red && t.other.red) && old(t.cur.parent) != null
      ensures AddInv(t.cur)
    {
      var Turn(cur, d, other) := t;
      var p := old(cur.parent);
      assert old(RangeOk(cur) && UpOk(cur) && DownOk(cur, d.Opposite()) && DownOk(cur, d) && RangeOk(other) &&
          DownOk(other, d) && DownOk(other, d.Opposite()));
      assert old(EvenAt(cur, d.Opposite()) && EvenAt(other, d) && CalmAt(other, d, other) && EvenAt(p, cur.Side(p)) &&
          CalmAt(p, cur.Side(p), other));
      forall n, e | n in nodes ensures EvenAt(n, e) {
        assert old(EvenAt(n, e));
      }
      forall n, e | n in nodes ensures CalmAt(n, e, cur) {
        assert old(CalmAt(n, e, other) && DownOk(n, e));
      }
    }

    twostate lemma OuterTurned(t: Turn<C>)
      requires old(Shape()) && old(t.cur in nodes && t.cur.Child(t.d.Opposite()) == t.other)
      requires Relinked(t)
      requires forall n {:trigger n.red} :: n in nodes ==>
        n.red == if n == t.cur then true else if n == t.other then false else old(n.red)
      requires forall n {:trigger n.bh} :: n in nodes ==> n.bh == old(n.bh)
      requires old(t.other.Child(t.d.Opposite())) != null && old(AddInv(t.other.Child(t.d.Opposite())))
      requires old(t.other.red && !IsRed(t.cur.Child(t.d)))
      ensures AddInv(old(t.other.Child(t.d.Opposite())))
    {
      var Turn(g, d, par) := t;
      var cur := old(par.Child(d.Opposite()));
      var p := old(g.parent);
      assert old(RangeOk(g) && UpOk(g) && DownOk(g, d.Opposite()) && DownOk(g, d) && RangeOk(par) &&
          DownOk(par, d.Opposite()) && DownOk(par, d) && RangeOk(cur));
      assert old(EvenAt(g, d.Opposite()) && EvenAt(g, d) && EvenAt(par, d) && EvenAt(par, d.Opposite()));
      assert old(CalmAt(g, d.Opposite(), cur) && CalmAt(par, d, cur));
      if p != null {
        assert old(EvenAt(p, g.Side(p)) && CalmAt(p, g.Side(p), cur) && RangeOk(p) && DownOk(p, g.Side(p)));
      }
      forall n, e | n in nodes ensures EvenAt(n, e) {
        assert old(EvenAt(n, e) && DownOk(n, e));
      }
      forall n, e | n in nodes ensures CalmAt(n, e, cur) {
        assert old(CalmAt(n, e, cur) && DownOk(n, e));
      }
    }

    twostate lemma Recoloured(cw: (Node<C>, Direction))
      requires old(Shape()) && nodes == old(nodes) && order == old(order) && root == old(root)
      requires cw.0 in nodes && old(cw.0.parent) != null && old(cw.0.parent.parent) != null
      requires old(cw.0.parent) == old(cw.0.parent.parent.Child(cw.1.Opposite()))
      requires forall n {:trigger n.parent} :: n in nodes ==> n.parent == old(n.parent)
      requires forall n, e {:trigger n.Child(e)} :: n in nodes ==> n.Child(e) == old(n.Child(e))
      requires old(IsRed(cw.0.parent.parent.Child(cw.1))) && old(cw.0.parent.red)
      requires forall n {:trigger n.red} :: n in nodes ==>
        n.red == if n == old(cw.0.parent.parent) then true else if n == old(cw.0.parent) ||
            n == old(cw.0.parent.parent.Child(cw.1)) then false else old(n.red)
      requires forall n {:trigger n.bh} :: n in nodes ==>
        n.bh == old(n.bh) + if n == old(cw.0.parent.parent) then 1 else 0
      requires old(AddInv(cw.0))
      ensures AddInv(old(cw.0.parent.parent))
    {
      var (cur, which) := cw;
      var p := old(cur.parent);
      var g := old(p.parent);
      var q := old(g.parent);
      assert old(RangeOk(cur) && UpOk(cur) && UpOk(p) && UpOk(g) && RangeOk(p) && RangeOk(g));
      assert old(DownOk(g, which) && DownOk(g, which.Opposite()));
      assert old(EvenAt(g, which) && EvenAt(g, which.Opposite()) && CalmAt(g, which.Opposite(), cur));
      if q != null {
        assert old(EvenAt(q, g.Side(q)) && DownOk(q, g.Side(q)));
      }
      forall n, e | n in nodes ensures EvenAt(n, e) {
        assert old(EvenAt(n, e) && DownOk(n, e));
      }
      forall n, e | n in nodes ensures CalmAt(n, e, g) {
        assert old(CalmAt(n, e, cur) && DownOk(n, e));
      }
    }

    // When TreeBAASub leaves a sound tree: the start node is red, or its uncle is red, or it is an outer child
    ghost predicate Fixable(cur: Node<C>)
      reads this`nodes, nodes`parent, nodes`left, nodes`right, nodes`red
    {
      cur in nodes &&
        (cur.parent != null ==> cur.parent in nodes && (cur.parent.red && cur.parent.parent != null && !cur.red ==>
        var g := cur.parent.parent;
        g in nodes &&
        var which := if cur.parent == g.left then Right else Left;
        (g.Child(which) != null ==> g.Child(which) in nodes) &&
        (IsRed(g.Child(which)) || cur != cur.parent.Child(which))))
    }

    ghost predicate HeightAt(h: seq<int>, n: Node<C>, e: Direction)
      requires n in nodes
      reads this`nodes, nodes`left, nodes`right, nodes`pos, nodes`red
    {
      var c := n.Child(e);
      && 0 <= n.pos < |h|
      && if c == null then h[n.pos] == 0
         else c in nodes && 0 <= c.pos < |h| && h[n.pos] == h[c.pos] + if c.red then 0 else 1
    }

    // h[i] is, for the i-th node in order, the number of black nodes on each of its downward paths
    ghost predicate HeightsOf(h: seq<int>)
      reads this`nodes, nodes`left, nodes`right, nodes`pos, nodes`red
    {
      forall n, e {:trigger HeightAt(h, n, e)} :: n in nodes ==> HeightAt(h, n, e)
    }

    // No assignment of black heights fits: the tree is not balanced, whatever the ghost fields say
    ghost predicate Lopsided()
      reads this`nodes, nodes`left, nodes`right, nodes`pos, nodes`red
    {
      forall h: seq<int> :: !HeightsOf(h)
    }

    ghost predicate EvenWithin(a: Node?<C>)
      requires a == null || a in nodes
      reads this`nodes, nodes`left, nodes`right, nodes`pos, nodes`lo, nodes`hi, nodes`red, nodes`bh
    {
      a == null || forall n, e {:trigger EvenAt(n, e)} :: n in nodes && a.lo <= n.pos < a.hi ==> EvenAt(n, e)
    }

    lemma {:induction false} HeightUnique(a: Node<C>, h: seq<int>)
      requires Shape() && HeightsOf(h) && a in nodes && EvenWithin(a)
      ensures 0 <= a.pos < |h| && h[a.pos] == a.bh
      decreases a.hi - a.lo
    {
      assert RangeOk(a) && DownOk(a, Left) && EvenAt(a, Left) && HeightAt(h, a, Left);
      if a.Child(Left) != null {
        assert RangeOk(a.Child(Left));
        HeightUnique(a.Child(Left), h);
      }
    }

    lemma Skewed(n: Node<C>)
      requires Shape() && n in nodes && (n.left == null || n.left in nodes) && (n.right == null || n.right in nodes)
      requires EvenWithin(n.left) && EvenWithin(n.right) && Weight(n.left) != Weight(n.right)
      ensures Lopsided()
    {
      forall h ensures !HeightsOf(h) {
        if HeightsOf(h) {
          assert HeightAt(h, n, Left) && HeightAt(h, n, Right);
          if n.left != null { HeightUnique(n.left, h); }
          if n.right != null { HeightUnique(n.right, h); }
        }
      }
    }

    lemma RedBlackHasHeights()
      requires Shape() && RedBlack()
      ensures !Lopsided()
    {
      var h: seq<int> := seq(|order|, (i: int) requires 0 <= i < |order| reads this, order => order[i].bh);
      forall n, e: Direction | n in nodes ensures HeightAt(h, n, e) {
        assert EvenAt(n, e) && RangeOk(n);
        if n.Child(e) != null { assert RangeOk(n.Child(e)); }
      }
      assert HeightsOf(h);
    }

    ghost predicate Apart(a: Node<C>, n: Node?<C>)
      reads a`lo, a`hi
      reads (if n == null then {} else {n})`pos
    {
      n == null || n.pos < a.lo || a.hi <= n.pos
    }

    // A rotation, whatever it recolours at its two nodes, leaves alone the subtrees that do not meet it
    twostate lemma Spared(ta: (Turn<C>, Node<C>))
      requires old(Shape()) && Shape() &&
        old(ta.1 in nodes && ta.0.cur in nodes && ta.0.cur.Child(ta.0.d.Opposite()) == ta.0.other)
      requires Rotated(ta.0)
      requires old(Apart(ta.1, ta.0.cur) && Apart(ta.1, ta.0.other) && Apart(ta.1, ta.0.cur.parent))
      requires forall n {:trigger n.red} :: n in nodes && n != ta.0.cur && n != ta.0.other ==> n.red == old(n.red)
      requires forall n {:trigger n.bh} :: n in nodes ==> n.bh == old(n.bh)
      requires old(EvenWithin(ta.1))
      ensures EvenWithin(ta.1) && ta.1.lo == old(ta.1.lo) && ta.1.hi == old(ta.1.hi) &&
        Weight(ta.1) == old(Weight(ta.1))
    {
      var (t, a) := ta;
      assert old(RangeOk(a) && RangeOk(t.cur) && DownOk(t.cur, t.d.Opposite()));
      forall n, e | n in nodes && a.lo <= n.pos < a.hi ensures EvenAt(n, e) {
        assert old(EvenAt(n, e) && DownOk(n, e));
      }
    }

    ghost predicate Grand(cur: Node<C>, which: Direction)
      reads this`nodes, nodes`parent, nodes`left, nodes`right
    {
      && cur in nodes && cur.parent != null && cur.parent in nodes
      && cur.parent.parent != null && cur.parent.parent in nodes
      && cur.parent == cur.parent.parent.Child(which.Opposite())
      && (cur.parent.parent.Child(which) != null ==> cur.parent.parent.Child(which) in nodes)
    }

    lemma GrandIn(cur: Node<C>, which: Direction)
      requires Shape() && Grand(cur, which)
      ensures var g := cur.parent.parent; var p := cur.parent;
        cur != p && cur != g && p != g && p != g.Child(which) && g != g.Child(which) && cur != g.Child(which)
      ensures var p := cur.parent; p.parent.parent == null <==> p.parent == root
    {
      var p, g := cur.parent, cur.parent.parent;
      assert RangeOk(cur) && UpOk(cur) && RangeOk(p) && UpOk(p) && RangeOk(g) && UpOk(g);
      assert DownOk(g, which) && DownOk(g, which.Opposite()) && DownOk(p, cur.Side(p));
    }

    method PushBlackDown(start: Node<C>, which: Direction) returns (cur: Node<C>)
      requires Shape() && Grand(start, which) && IsRed(start.parent.parent.Child(which))
      modifies nodes`red, nodes`bh
      ensures Shape() && cur == start.parent.parent && cur in nodes && cur.red
      ensures old(AddInv(start) && start.parent.red) ==> AddInv(cur)
    {
      cur := start;
      GrandIn(start, which);
      var uncle := cur.parent.parent.Child(which);
      cur.parent.red := false;
      uncle.red := false;
      cur := cur.parent.parent;
      cur.red := true;
      cur.bh := cur.bh + 1;
      assert forall n, e: Direction :: n in nodes ==> n.Child(e) == old(n.Child(e));
      if old(AddInv(start) && start.parent.red) { Recoloured((start, which)); }
    }

    ghost predicate Uneven(n: Node<C>)
      requires n in nodes
      reads this`nodes, nodes`left, nodes`right, nodes`pos, nodes`lo, nodes`hi, nodes`red, nodes`bh
    {
      && (n.left == null || n.left in nodes) && (n.right == null || n.right in nodes)
      && EvenWithin(n.left) && EvenWithin(n.right) && Weight(n.left) != Weight(n.right)
    }

    // A black inner child below a red parent: rotating it up leaves its old parent with uneven subtrees
    twostate lemma BlackInnerTurned(t: Turn<C>)
      requires old(Shape()) && Shape() &&
        old(t.cur in nodes && t.cur.Child(t.d.Opposite()) == t.other && t.cur.parent != null)
      requires Rotated(t)
      requires forall n {:trigger n.red} :: n in nodes ==> n.red == old(n.red)
      requires forall n {:trigger n.bh} :: n in nodes ==> n.bh == old(n.bh)
      requires old(AddInv(t.other) && !t.other.red)
      ensures Uneven(t.cur)
    {
      var Turn(p, e, start) := t;
      var g := old(p.parent);
      var a, x := old(p.Child(e)), old(start.Child(e));
      assert old(RangeOk(p) && RangeOk(g) && RangeOk(start) && UpOk(p) && DownOk(g, p.Side(g)) && DownOk(p, e) &&
          DownOk(p, e.Opposite()) && DownOk(start, e));
      assert old(EvenAt(p, e) && EvenAt(p, e.Opposite()) && EvenAt(start, e));
      if a != null { assert old(RangeOk(a)); Spared((t, a)); }
      if x != null { assert old(RangeOk(x)); Spared((t, x)); }
      assert p.Child(e) == a && p.Child(e.Opposite()) == x;
    }

    // The outer grandchild takes no part in a turn
    twostate lemma OuterKeeps(tc: (Turn<C>, Node<C>))
      requires old(Shape()) && Rotated(tc.0)
      requires old(tc.0.cur in nodes && tc.0.cur.Child(tc.0.d.Opposite()) == tc.0.other && tc.1 in nodes &&
        tc.1 == tc.0.other.Child(tc.0.d.Opposite()))
      ensures forall e: Direction :: tc.1.Child(e) == old(tc.1.Child(e))
    {
      var (t, cur) := tc;
      var Turn(g, d, q) := t;
      assert old(RangeOk(cur) && RangeOk(q) && RangeOk(g) && UpOk(g));
      assert old(DownOk(g, d.Opposite()) && DownOk(q, d.Opposite()));
      var gg := old(g.parent);
      if gg != null { assert old(RangeOk(gg) && DownOk(gg, g.Side(gg))); }
    }

    // Nor do the subtrees of the outer grandchild
    twostate lemma OuterChildKeeps(tce: (Turn<C>, Node<C>, Direction))
      requires old(Shape()) && Shape() && Rotated(tce.0)
      requires old(tce.0.cur in nodes && tce.0.cur.Child(tce.0.d.Opposite()) == tce.0.other && tce.1 in nodes &&
        tce.1 == tce.0.other.Child(tce.0.d.Opposite()))
      requires forall n {:trigger n.red} :: n in nodes && n != tce.0.cur && n != tce.0.other ==> n.red == old(n.red)
      requires forall n {:trigger n.bh} :: n in nodes ==> n.bh == old(n.bh)
      requires old((tce.1.Child(tce.2) == null || tce.1.Child(tce.2) in nodes) && EvenWithin(tce.1.Child(tce.2)))
      ensures var c := tce.1.Child(tce.2);
        c == old(tce.1.Child(tce.2)) && (c == null || c in nodes) && EvenWithin(c) && Weight(c) == old(Weight(c))
    {
      var (t, cur, e) := tce;
      OuterKeeps((t, cur));
      var Turn(g, d, q) := t;
      var a := old(cur.Child(e));
      if a != null {
        assert old(RangeOk(cur) && RangeOk(q) && RangeOk(g) && UpOk(g));
        assert old(DownOk(g, d.Opposite()) && DownOk(q, d.Opposite()) && DownOk(cur, e) && RangeOk(a));
        var gg := old(g.parent);
        if gg != null { assert old(RangeOk(gg) && DownOk(gg, g.Side(gg))); }
        Spared((t, a));
      }
    }

    twostate lemma UnevenTurned(tc: (Turn<C>, Node<C>))
      requires old(Shape()) && Shape() && Rotated(tc.0)
      requires old(tc.0.cur in nodes && tc.0.cur.Child(tc.0.d.Opposite()) == tc.0.other && tc.1 in nodes &&
        tc.1 == tc.0.other.Child(tc.0.d.Opposite()))
      requires forall n {:trigger n.red} :: n in nodes && n != tc.0.cur && n != tc.0.other ==> n.red == old(n.red)
      requires forall n {:trigger n.bh} :: n in nodes ==> n.bh == old(n.bh)
      requires old(Uneven(tc.1))
      ensures Lopsided()
    {
      var (t, cur) := tc;
      assert old(cur.Child(Left)) == old(cur.left) && old(cur.Child(Right)) == old(cur.right);
      OuterChildKeeps((t, cur, Left));
      OuterChildKeeps((t, cur, Right));
      assert cur.Child(Left) == cur.left && cur.Child(Right) == cur.right;
      Skewed(cur);
    }

    method Recolour(p: Node<C>, g: Node<C>)
      requires p in nodes && g in nodes
      modifies nodes`red
      ensures forall n {:trigger n.red} :: n in nodes ==>
        n.red == if n == g then true else if n == p then false else old(n.red)
      ensures forall n, e {:trigger n.Child(e)} :: n in nodes ==> n.Child(e) == old(n.Child(e))
    {
      p.red := false;
      g.red := true;
    }

    // The parent of cur, to be black, is turned above the grandparent, to be red
    method TurnTop(cur: Node<C>, which: Direction)
      requires Shape() && Grand(cur, which) && cur == cur.parent.Child(which.Opposite())
      modifies this`root, nodes`parent, nodes`left, nodes`right, nodes`lo, nodes`hi, nodes`red
      ensures Shape() && cur.parent == old(cur.parent) && !cur.parent.red
      ensures Rotated(Turn(old(cur.parent.parent), which, old(cur.parent)))
      ensures forall n {:trigger n.red} :: n in nodes ==>
        n.red == if n == old(cur.parent.parent) then true else if n == old(cur.parent) then false else old(n.red)
      ensures forall n {:trigger n.bh} :: n in nodes ==> n.bh == old(n.bh)
    {
      GrandIn(cur, which);
      ghost var p, g := cur.parent, cur.parent.parent;
      assert p.Child(which) != cur by {
        assert RangeOk(p) && DownOk(p, which) && DownOk(p, which.Opposite()) && RangeOk(cur);
      }
      Recolour(cur.parent, cur.parent.parent);
      label M:
      Rotate(cur.parent.parent, which);
      assert forall n, e: Direction :: n in nodes ==> old@M(n.Child(e)) == old(n.Child(e));
      assert cur.parent == p && !p.red;
    }

    method TurnOuter(cur: Node<C>, which: Direction)
      requires Shape() && Grand(cur, which) && cur == cur.parent.Child(which.Opposite())
      modifies this`root, nodes`parent, nodes`left, nodes`right, nodes`lo, nodes`hi, nodes`red
      ensures Shape() && cur.parent == old(cur.parent) && !cur.parent.red
      ensures old(AddInv(cur) && cur.parent.red && !IsRed(cur.parent.parent.Child(which))) ==> AddInv(cur)
      ensures old(Uneven(cur)) ==> Lopsided()
    {
      GrandIn(cur, which);
      ghost var t := Turn(cur.parent.parent, which, cur.parent);
      TurnTop(cur, which);
      if old(AddInv(cur) && cur.parent.red && !IsRed(cur.parent.parent.Child(which))) { OuterTurned(t); }
      if old(Uneven(cur)) { UnevenTurned((t, cur)); }
    }

    // The first rotation of an inner child, before its parent becomes the outer one
    method TurnInner(start: Node<C>, which: Direction) returns (cur: Node<C>)
      requires Shape() && Grand(start, which) && start == start.parent.Child(which)
      modifies this`root, nodes`parent, nodes`left, nodes`right, nodes`lo, nodes`hi
      ensures Shape() && cur == old(start.parent) && Grand(cur, which) && cur == cur.parent.Child(which.Opposite())
      ensures cur.parent == start && start.parent == old(start.parent.parent)
      ensures start.parent.Child(which) == old(start.parent.parent.Child(which))
      ensures old(AddInv(start) && start.red && start.parent.red) ==> AddInv(cur)
      ensures old(AddInv(start) && !start.red) ==> Uneven(cur)
    {
      cur := start.parent;
      assert UpOk(cur) && RangeOk(cur) && RangeOk(cur.parent) && DownOk(cur.parent, which.Opposite());
      assert DownOk(cur, which) && RangeOk(start) && cur.Side(cur.parent) == which.Opposite();
      ghost var g := cur.parent;
      Rotate(cur, which.Opposite());
      assert start.parent == g && g.Child(which.Opposite()) == start && g.Child(which) == old(g.Child(which));
      assert DownOk(g, which);
      if old(AddInv(start) && start.red && start.parent.red) { InnerTurned(Turn(cur, which.Opposite(), start)); }
      if old(AddInv(start) && !start.red) { BlackInnerTurned(Turn(cur, which.Opposite(), start)); }
    }

    method BalanceAfterAddStep(start: Node<C>, which: Direction) returns (cur: Node<C>)
      requires Shape() && Grand(start, which) && start.parent.red
      modifies this`root, nodes`parent, nodes`left, nodes`right, nodes`lo, nodes`hi, nodes`red, nodes`bh
      ensures Shape() && cur in nodes
      ensures IsRed(cur.parent) ==> cur.hi - cur.lo > old(start.hi - start.lo)
      ensures old(AddInv(start) && Fixable(start)) ==> AddInv(cur) && Fixable(cur)
      ensures old(AddInv(start) && !Fixable(start)) ==> Lopsided() && !IsRed(cur.parent)
    {
      cur := start;
      GrandIn(cur, which);
      var uncle := cur.parent.parent.Child(which);
      if IsRed(uncle) {
        assert DownOk(cur.parent.parent, which.Opposite()) && DownOk(cur.parent, start.Side(start.parent)) &&
            UpOk(start) && RangeOk(start.parent) && RangeOk(start.parent.parent);
        cur := PushBlackDown(cur, which);
      } else {
        if cur == cur.parent.Child(which) {
          cur := TurnInner(cur, which);
        } else {
          assert UpOk(cur) && DownOk(cur.parent, which) && RangeOk(cur);
        }
        TurnOuter(cur, which);
      }
      assert UpOk(cur);
    }

    ghost predicate RedBlack()
      reads this`root, this`nodes, nodes`left, nodes`right, nodes`red, nodes`bh
    {
      Even() && Calm(null) && (root != null ==> root in nodes && !root.red)
    }

    twostate lemma RootBlackened(cur: Node<C>)
      requires old(Shape()) && nodes == old(nodes) && order == old(order) && root == old(root)
      requires forall n, e {:trigger n.Child(e)} :: n in nodes ==> n.Child(e) == old(n.Child(e))
      requires forall n {:trigger n.red} :: n in nodes ==> n.red == if n == root then false else old(n.red)
      requires forall n {:trigger n.bh} :: n in nodes ==> n.bh == old(n.bh)
      requires old(AddInv(cur)) && (old(!IsRed(cur.parent)) || old(cur.parent) == root)
      ensures RedBlack()
    {
      assert old(RangeOk(cur) && UpOk(cur));
      forall n, e | n in nodes ensures EvenAt(n, e) {
        assert old(EvenAt(n, e) && DownOk(n, e));
      }
      forall n, e | n in nodes ensures CalmAt(n, e, null) {
        assert old(CalmAt(n, e, cur) && DownOk(n, e));
      }
    }

    lemma GrandOf(cur: Node<C>)
      requires Shape() && cur in nodes && cur.parent != null && cur.parent.parent != null
      ensures Grand(cur, if cur.parent == cur.parent.parent.left then Right else Left)
    {
      assert UpOk(cur) && UpOk(cur.parent);
      var g := cur.parent.parent;
      assert DownOk(g, Left) && DownOk(g, Right);
    }

    twostate lemma RootColourFree()
      requires old(Shape()) && Shape() && nodes == old(nodes) && root == old(root)
      requires forall n, e {:trigger n.Child(e)} :: n in nodes ==> n.Child(e) == old(n.Child(e))
      requires forall n {:trigger n.pos} :: n in nodes ==> n.pos == old(n.pos)
      requires forall n {:trigger n.red} :: n in nodes && n != root ==> n.red == old(n.red)
      requires old(Lopsided())
      ensures Lopsided()
    {
      forall h: seq<int> ensures !HeightsOf(h) {
        if HeightsOf(h) {
          forall n, e | n in nodes ensures old(HeightAt(h, n, e)) {
            assert HeightAt(h, n, e) && DownOk(n, e);
          }
          assert old(HeightsOf(h));
        }
      }
    }

    method BalanceAfterAdd(start: Node<C>)
      requires Shape() && start in nodes
      modifies this`root, nodes`parent, nodes`left, nodes`right, nodes`lo, nodes`hi, nodes`red, nodes`bh
      ensures Shape()
      ensures old(AddInv(start) && Fixable(start)) ==> RedBlack()
      ensures old(AddInv(start) && !Fixable(start)) ==> Lopsided()
    {
      var cur := start;
      while IsRed(cur.parent) && cur.parent.parent != null
        invariant Shape() && cur in nodes
        invariant old(AddInv(start) && Fixable(start)) ==> AddInv(cur) && Fixable(cur)
        invariant old(AddInv(start) && !Fixable(start)) ==>
          (AddInv(cur) && !Fixable(cur)) || (Lopsided() && !IsRed(cur.parent))
        decreases if IsRed(cur.parent) then 1 + |order| - (cur.hi - cur.lo) else 0
      {
        assert UpOk(cur) && UpOk(cur.parent) && RangeOk(cur);
        GrandOf(cur);
        if cur.parent == cur.parent.parent.left {
          cur := BalanceAfterAddStep(cur, Right);
        } else {
          cur := BalanceAfterAddStep(cur, Left);
        }
        assert RangeOk(cur);
      }
      assert UpOk(cur) && RangeOk(cur);
      assert cur.parent != null ==> UpOk(cur.parent);
      label L:
      root.red := false;
      assert forall n, e: Direction :: n in nodes ==> n.Child(e) == old@L(n.Child(e));
      if old(AddInv(start) && Fixable(start)) {
        RootBlackened@L(cur);
      } else if old(AddInv(start)) {
        RootColourFree@L();
      }
    }

    ghost predicate Holds()
      reads this`entries, this`order, this`nodes, nodes`content, nodes`size
    {
      && |entries| == |order|
      && (forall i {:trigger order[i]} {:trigger entries[i]} :: 0 <= i < |order| ==> 
           order[i] in nodes && order[i].content == To(entries[i].content) && order[i].size == entries[i].size)
    }

    ghost predicate Valid()
      reads this, nodes
    {
      && Shape() && Holds()
      && TotalComparator(compare) && Sorted(compare, entries)
      && count == |entries| && size == Sum(entries)
    }

    // A subtree with black height bh holds at least 2^bh - 1 nodes
    lemma {:induction false} ManyNodes(c: Node<C>)
      requires Shape() && Even() && c in nodes
      ensures c.hi - c.lo + 1 >= Pow2(c.bh + 1)
      decreases c.hi - c.lo
    {
      assert RangeOk(c) && DownOk(c, Left) && DownOk(c, Right) && EvenAt(c, Left) && EvenAt(c, Right);
      if c.left != null { assert RangeOk(c.left); ManyNodes(c.left); Pow2Grows(c.bh, c.left.bh + 1); }
      if c.right != null { assert RangeOk(c.right); ManyNodes(c.right); Pow2Grows(c.bh, c.right.bh + 1); }
    }

    lemma ShortSearch(steps: nat)
      requires Shape() && RedBlack() && 0 < steps <= 2 * Weight(root)
      ensures Pow2((steps + 1) / 2) <= |order| + 1
    {
      ManyNodes(root);
      Pow2Grows((steps + 1) / 2, root.bh + 1);
    }

    // The nodes that a search has passed over before it comes to cur, by the comparisons with the probe
    ghost predicate Passed(path: seq<Node<C>>, q: Probe<C, K>, cur: Node?<C>)
      reads this, nodes
    {
      && (path == [] ==> cur == root) && (path != [] ==> path[0] == root)
      && forall i :: 0 <= i < |path| ==> PassedAt(path, q, cur, i)
    }

    ghost predicate PassedAt(path: seq<Node<C>>, q: Probe<C, K>, cur: Node?<C>, i: nat)
      requires i < |path|
      reads this, nodes
    {
      && path[i] in nodes && path[i].content.To?
      && var result := compare(path[i].content.value, q);
      && result != 0
      && path[i].Child(if result > 0 then Right else Left) == if i + 1 < |path| then path[i + 1] else cur
    }

    lemma PassedMore(path: seq<Node<C>>, q: Probe<C, K>, cur: Node<C>)
      requires Passed(path, q, cur) && cur in nodes && cur.content.To? && compare(cur.content.value, q) != 0
      ensures Passed(path + [cur], q, cur.Child(if compare(cur.content.value, q) > 0 then Right else Left))
    {
      var longer, next := path + [cur], cur.Child(if compare(cur.content.value, q) > 0 then Right else Left);
      forall i | 0 <= i < |longer| ensures PassedAt(longer, q, next, i) {
        if i < |path| { assert PassedAt(path, q, cur, i); }
      }
    }

    // The comparisons that are made are those with the nodes of the path and with the one that is found
    method FindIndex(q: Probe<C, K>) returns (cur: Node?<C>, ghost path: seq<Node<C>>)
      requires Valid()
      ensures Passed(path, q, cur)
      ensures cur != null ==>
        cur in nodes && 0 <= cur.pos < |order| && cur == order[cur.pos] && cur.content.To? &&
          compare(cur.content.value, q) == 0
      ensures cur == null ==> !Has(compare, entries, q)
      ensures RedBlack() ==> Pow2((|path| + (if cur == null then 0 else 1) + 1) / 2) <= |order| + 1
    {
      hide TotalComparator, Sorted;
      cur, path := root, [];
      assert Passed(path, q, cur);
      hide Passed;
      ghost var lo, hi := 0, |order|;
      while cur != null
        invariant cur == null ==> lo == hi
        invariant cur != null ==> cur in nodes && cur.lo == lo && cur.hi == hi
        invariant Narrowed(compare, entries, q, lo, hi)
        invariant Passed(path, q, cur)
        invariant RedBlack() ==> |path| + (if IsRed(cur) then 1 else 0) <= 2 * (Weight(root) - Weight(cur))
        decreases hi - lo
      {
        assert RangeOk(cur) && DownOk(cur, Left) && DownOk(cur, Right);
        assert RedBlack() ==>
          EvenAt(cur, Left) && EvenAt(cur, Right) && CalmAt(cur, Left, null) && CalmAt(cur, Right, null);
        assert cur == order[cur.pos] && cur.content == To(entries[cur.pos].content);
        var result := compare(cur.content.value, q);
        if result == 0 {
          break;
        }
        Narrow(compare, entries, q, lo, cur.pos, hi);
        PassedMore(path, q, cur);
        path := path + [cur];
        if result > 0 { lo := cur.pos + 1; } else { hi := cur.pos; }
        cur := cur.Child(if result > 0 then Right else Left);
      }
      ghost var steps := |path| + if cur == null then 0 else 1;
      if RedBlack() && steps > 0 { ShortSearch(steps); }
    }

    method Minimum(start: Node?<C>) returns (cur: Node?<C>)
      requires Shape() && (start != null ==> start in nodes)
      ensures start == null ==> cur == null
      ensures start != null ==>
        cur != null && cur in nodes && cur.pos == start.lo && cur.lo == start.lo && cur.left == null
    {
      cur := start;
      if cur != null {
        while cur.left != null
          invariant cur != null && cur in nodes && cur.lo == start.lo
          decreases cur.hi - cur.lo
        {
          assert RangeOk(cur) && DownOk(cur, Left);
          cur := cur.left;
        }
        assert DownOk(cur, Left);
      }
    }

    method Successor(start: Node<C>) returns (cur: Node?<C>)
      requires Shape() && start in nodes
      ensures 0 <= start.pos < |order|
      ensures cur == if start.pos + 1 < |order| then order[start.pos + 1] else null
      ensures start.right != null ==> cur != null && cur in nodes && cur.left == null
    {
      assert RangeOk(start) && DownOk(start, Right);
      if start.right != null {
        cur := Minimum(start.right);
        assert RangeOk(cur);
      } else {
        var curnode: Node<C> := start;
        var curparent := curnode.parent;
        assert UpOk(curnode);
        while curparent != null && curnode == curparent.right
          invariant curnode in nodes && curparent == curnode.parent && (curparent != null ==> curparent in nodes)
          invariant curnode.hi == start.pos + 1
          decreases |order| - (curnode.hi - curnode.lo)
        {
          assert RangeOk(curparent) && DownOk(curparent, Right) && RangeOk(curnode);
          curnode := curparent;
          curparent := curparent.parent;
          assert UpOk(curnode) && RangeOk(curnode);
        }
        assert UpOk(curnode);
        if curparent != null { assert DownOk(curparent, Left) && RangeOk(curparent); }
        cur := curparent;
      }
    }

    method NextElement(start: Node?<C>) returns (cur: Node?<C>)
      requires Shape() && (start != null ==> start in nodes)
      ensures var i := if start == null then 0 else start.pos + 1;
        0 <= i <= |order| && cur == if i < |order| then order[i] else null
    {
      if start == null {
        cur := Minimum(root);
        if cur != null { assert RangeOk(cur); }
      } else {
        cur := Successor(start);
      }
    }

    // Repeated NextElement from NULL meets every entry once, in order
    method Walk() returns (visited: seq<Pointer<C>>)
      requires Valid()
      ensures |visited| == |entries| && forall i :: 0 <= i < |entries| ==> visited[i] == To(entries[i].content)
    {
      hide TotalComparator, Sorted, Sum;
      visited := [];
      var cur := NextElement(null);
      while cur != null
        invariant |visited| <= |entries|
        invariant forall i :: 0 <= i < |visited| ==> visited[i] == To(entries[i].content)
        invariant cur == if |visited| < |order| then order[|visited|] else null
        decreases |entries| - |visited|
      {
        visited := visited + [cur.content];
        cur := NextElement(cur);
      }
    }

    // Between two neighbours in order there is exactly one empty slot
    lemma OneSlot(n: Node<C>, i: int)
      requires Shape() && n in nodes && n.lo < i < n.hi && 0 < i < |order|
      ensures order[i] in nodes && order[i - 1] in nodes && (order[i].left != null || order[i - 1].right != null)
      decreases n.hi - n.lo
    {
      assert RangeOk(n) && DownOk(n, Left) && DownOk(n, Right);
      if i < n.pos { OneSlot(n.left, i); } else if i > n.pos + 1 { OneSlot(n.right, i); }
    }

    ghost predicate OnlySlot(q: Node<C>, d: Direction, at: int)
      reads this, nodes
    {
      forall n, e {:trigger n.Child(e)} :: n in nodes && n.Child(e) == null && n.SlotLo(e) == at ==> n == q && e == d
    }

    lemma SlotIsOnly(q: Node<C>, d: Direction)
      requires Shape() && q in nodes && q.Child(d) == null
      ensures OnlySlot(q, d, q.SlotLo(d))
    {
      var at := q.SlotLo(d);
      assert RangeOk(q) && DownOk(q, d);
      assert RangeOk(root);
      if 0 < at < |order| { OneSlot(root, at); }
      forall n, e | n in nodes && n.Child(e) == null && n.SlotLo(e) == at ensures n == q && e == d {
        assert RangeOk(n) && DownOk(n, e);
      }
    }

    static function Opened(x: int, at: int): int { if x > at then x + 1 else x }
    static function Pushed(x: int, at: int): int { if x >= at then x + 1 else x }

    twostate predicate Grafted(new leaf: Node<C>, at: int)
      reads this, nodes
    {
      && old(nodes) == nodes - {leaf} && leaf in nodes && leaf !in old(nodes)
      && 0 <= at <= |old(order)| && order == old(order)[..at] + [leaf] + old(order)[at..]
      && leaf.pos == at && leaf.lo == at && leaf.hi == at + 1 && leaf.left == null && leaf.right == null
      && (leaf.parent == null ==> old(root) == null && root == leaf)
      && var q := leaf.parent;
      && (q != null ==> q in old(nodes) && root == old(root))
      && (q != null ==> var d := leaf.Side(q); old(q.Child(d)) == null && old(q.SlotLo(d)) == at)
      && (forall n {:trigger n.parent} :: n in old(nodes) ==> n.parent == old(n.parent))
      && (forall n, e {:trigger n.Child(e)} :: n in old(nodes) ==>
          n.Child(e) == if n == leaf.parent && e == leaf.Side(n) then leaf else old(n.Child(e)))
      && (forall n {:trigger n.pos} :: n in old(nodes) ==> n.pos == Pushed(old(n.pos), at))
      && (forall n {:trigger n.lo} :: n in old(nodes) ==> n.lo == Opened(old(n.lo), at))
      && (forall n {:trigger n.hi} :: n in old(nodes) ==> n.hi == Pushed(old(n.hi), at))
    }

    twostate lemma GraftedUp(new t: (Node<C>, int))
      requires old(Shape()) && Grafted(t.0, t.1)
      ensures forall n {:trigger UpOk(n)} :: n in nodes ==> UpOk(n)
      ensures forall n {:trigger RangeOk(n)} :: n in nodes ==> RangeOk(n)
    {
      var (leaf, at) := t;
      forall n | n in nodes ensures UpOk(n) && RangeOk(n) {
        if n != leaf {
          assert n in old(nodes);
          assert old(UpOk(n) && RangeOk(n));
          var q := old(n.parent);
          if q != null {
            assert old(RangeOk(q));
            assert n.Side(q) == old(n.Side(q));
            assert q.Child(n.Side(q)) == n;
          }
        }
      }
    }

    twostate lemma GraftedDown(new t: (Node<C>, int))
      requires old(Shape()) && Grafted(t.0, t.1)
      requires var (leaf, at) := t; var q := leaf.parent; q != null ==>
        q in old(nodes) && var d := leaf.Side(q); old(OnlySlot(q, d, at))
      requires t.0.parent == null ==> old(nodes) == {}
      ensures forall n, e {:trigger DownOk(n, e)} :: n in nodes ==> DownOk(n, e)
    {
      var (leaf, at) := t;
      var q := leaf.parent;
      if q != null {
        var d := leaf.Side(q);
        assert old(RangeOk(q) && DownOk(q, d));
      }
      forall n, e | n in nodes ensures DownOk(n, e) {
        if n != leaf {
          assert n in old(nodes);
          assert old(RangeOk(n) && DownOk(n, e));
        }
      }
    }

    twostate lemma GraftedShape(new t: (Node<C>, int))
      requires old(Shape()) && Grafted(t.0, t.1)
      requires var (leaf, at) := t; var q := leaf.parent; q != null ==>
        q in old(nodes) && var d := leaf.Side(q); old(OnlySlot(q, d, at))
      requires t.0.parent == null ==> old(nodes) == {}
      ensures Shape()
    {
      GraftedUp(t);
      GraftedDown(t);
      var (leaf, at) := t;
      forall i | 0 <= i < |order| ensures order[i] in nodes && order[i].pos == i {
        if i < at { assert order[i] == old(order)[i]; } else if i > at { assert order[i] == old(order)[i - 1]; }
      }
      if root != leaf { var q := leaf.parent; assert old(RangeOk(q)); var r: Node<C> := root; assert r == old(root) &&
          r in old(nodes) && old(RangeOk(r) && UpOk(r)); }
    }

    twostate lemma GraftedColours(new t: (Node<C>, int))
      requires old(Shape()) && Grafted(t.0, t.1) && t.0.red && t.0.bh == 0
      requires t.0.parent == null ==> old(nodes) == {}
      requires forall n {:trigger n.red} :: n in old(nodes) ==> n.red == old(n.red)
      requires forall n {:trigger n.bh} :: n in old(nodes) ==> n.bh == old(n.bh)
      requires old(RedBlack())
      ensures AddInv(t.0) && Fixable(t.0)
    {
      var (leaf, at) := t;
      var q := leaf.parent;
      if q != null { var d := leaf.Side(q); assert old(EvenAt(q, d) && UpOk(q)); }
      forall n, e | n in nodes ensures EvenAt(n, e) && CalmAt(n, e, leaf) {
        if n != leaf {
          assert n in old(nodes);
          assert old(EvenAt(n, e) && CalmAt(n, e, null) && DownOk(n, e));
        }
      }
    }

    ghost method MakeRoom(at: int)
      modifies nodes`pos, nodes`lo, nodes`hi
      ensures forall n {:trigger n.pos} :: n in nodes ==> n.pos == Pushed(old(n.pos), at)
      ensures forall n {:trigger n.lo} :: n in nodes ==> n.lo == Opened(old(n.lo), at)
      ensures forall n {:trigger n.hi} :: n in nodes ==> n.hi == Pushed(old(n.hi), at)
      ensures forall n, e {:trigger n.Child(e)} :: n in nodes ==> n.Child(e) == old(n.Child(e))
    {
      forall n | n in nodes { n.pos := Pushed(n.pos, at); }
      forall n | n in nodes { n.lo := Opened(n.lo, at); }
      forall n | n in nodes { n.hi := Pushed(n.hi, at); }
    }

    // The new node has its place in the order
    ghost method Seat(leaf: Node<C>, at: int)
      requires 0 <= at <= |order| && leaf !in nodes
      modifies this`nodes, this`order, nodes`pos, nodes`lo, nodes`hi, leaf`pos, leaf`lo, leaf`hi, leaf`bh
      ensures nodes == old(nodes) + {leaf} && order == old(order)[..at] + [leaf] + old(order)[at..]
      ensures leaf.pos == at && leaf.lo == at && leaf.hi == at + 1 && leaf.bh == 0
      ensures forall n {:trigger n.pos} :: n in old(nodes) ==> n.pos == Pushed(old(n.pos), at)
      ensures forall n {:trigger n.lo} :: n in old(nodes) ==> n.lo == Opened(old(n.lo), at)
      ensures forall n {:trigger n.hi} :: n in old(nodes) ==> n.hi == Pushed(old(n.hi), at)
    {
      MakeRoom(at);
      leaf.pos := at; leaf.lo := at; leaf.hi := at + 1; leaf.bh := 0;
      order := order[..at] + [leaf] + order[at..];
      nodes := nodes + {leaf};
    }

    method Hang(leaf: Node<C>, d: Direction)
      requires leaf !in nodes && (leaf.parent != null ==> leaf.parent in nodes)
      modifies this`root, nodes`left, nodes`right
      ensures root == if leaf.parent == null then leaf else old(root)
      ensures forall n, e {:trigger n.Child(e)} :: n in nodes ==>
        n.Child(e) == if n == leaf.parent && e == d then leaf else old(n.Child(e))
    {
      if leaf.parent != null {
        leaf.parent.SetChild(d, leaf);
      } else {
        root := leaf;
      }
    }

    method LinkLeaf(content: C, sz: int, parent: Node?<C>, d: Direction, ghost at: int) returns (leaf: Node<C>)
      requires 0 <= at <= |order|
      requires parent == null ==> root == null
      requires parent != null ==>
        parent in nodes && parent.Child(d) == null && parent.SlotLo(d) == at == parent.SlotHi(d)
      modifies this`root, this`nodes, this`order, nodes`left, nodes`right, nodes`pos, nodes`lo, nodes`hi
      ensures fresh(leaf) && Grafted(leaf, at) && leaf.parent == parent && (parent != null ==> leaf.Side(parent) == d)
      ensures leaf.content == To(content) && leaf.size == sz && leaf.red && leaf.bh == 0
    {
      leaf := new Node(To(content), sz, parent, true);
      Hang(leaf, d);
      label L:
      Seat(leaf, at);
      assert forall n, e {:trigger n.Child(e)} :: n in old(nodes) ==> n.Child(e) == old@L(n.Child(e));
    }

    method InsertLeaf(content: C, sz: int, parent: Node?<C>, d: Direction, ghost at: int) returns (leaf: Node<C>)
      requires Shape()
      requires parent == null ==> root == null && at == 0
      requires parent != null ==> parent in nodes && parent.Child(d) == null && parent.SlotLo(d) == at
      modifies this`root, this`nodes, this`order, nodes`left, nodes`right, nodes`pos, nodes`lo, nodes`hi
      ensures Shape() && fresh(leaf) && nodes == old(nodes) + {leaf}
      ensures 0 <= at <= |old(order)| && order == old(order)[..at] + [leaf] + old(order)[at..]
      ensures leaf.content == To(content) && leaf.size == sz
      ensures old(RedBlack()) ==> AddInv(leaf) && Fixable(leaf)
    {
      if parent != null {
        assert RangeOk(parent) && DownOk(parent, d);
        SlotIsOnly(parent, d);
      } else {
        assert forall n :: n in nodes ==> RangeOk(n);
      }
      leaf := LinkLeaf(content, sz, parent, d, at);
      GraftedShape((leaf, at));
      if old(RedBlack()) { GraftedColours((leaf, at)); }
    }

    // The search of TreeAddByIndex: the node that holds an equal content, or the empty slot (parent, d) where it
    // belongs
    method Descend(q: Probe<C, K>) returns (cur: Node?<C>, parent: Node?<C>, d: Direction, ghost at: int)
      requires Valid()
      ensures cur != null ==> cur in nodes && cur.content.To? && compare(cur.content.value, q) == 0 && cur.pos == at
      ensures cur == null ==> Narrowed(compare, entries, q, at, at)
      ensures cur == null && parent == null ==> root == null && at == 0
      ensures cur == null && parent != null ==> parent in nodes && parent.Child(d) == null && parent.SlotLo(d) == at
    {
      hide TotalComparator, Sorted;
      parent := null;
      cur := root;
      d := Left;
      at := 0;
      ghost var hi := |order|;
      var result := 1;
      while cur != null
        invariant cur == null ==> at == hi
        invariant cur != null ==> cur in nodes && cur.lo == at && cur.hi == hi
        invariant parent == null ==> cur == root && at == 0
        invariant parent != null ==> parent in nodes && parent.Child(d) == cur && parent.SlotLo(d) == at
        invariant Narrowed(compare, entries, q, at, hi)
        decreases hi - at
      {
        assert RangeOk(cur) && DownOk(cur, Left) && DownOk(cur, Right);
        assert cur == order[cur.pos] && cur.content == To(entries[cur.pos].content);
        result := compare(cur.content.value, q);
        if result == 0 {
          at := cur.pos;
          break;
        }
        Narrow(compare, entries, q, at, cur.pos, hi);
        if result > 0 { at := cur.pos + 1; } else { hi := cur.pos; }
        d := if result > 0 then Right else Left;
        parent := cur;
        cur := cur.Child(d);
      }
    }

    method Overwrite(cur: Node<C>, content: C, sz: int, ghost at: int)
      requires Holds() && 0 <= at < |order| && order[at] == cur
      requires forall i :: 0 <= i < |order| && i != at ==> order[i] != cur
      modifies this`entries, cur`content, cur`size
      ensures Holds() && entries == old(entries)[at := Entry(content, sz)]
      ensures cur.content == To(content)
    {
      cur.content := To(content);
      cur.size := sz;
      entries := entries[at := Entry(content, sz)];
    }

    lemma HeldAt(cur: Node<C>)
      requires Shape() && Holds() && cur in nodes
      ensures 0 <= cur.pos < |order| == |entries| && order[cur.pos] == cur
      ensures cur.content == To(entries[cur.pos].content) && cur.size == entries[cur.pos].size
      ensures forall i :: 0 <= i < |order| && i != cur.pos ==> order[i] != cur
    {
      assert RangeOk(cur);
    }

    method Replace(cur: Node<C>, content: C, sz: int, ghost at: int) returns (rc: Pointer<C>)
      requires Valid() && cur in nodes && cur.pos == at
      requires 0 <= at < |entries| && compare(entries[at].content, Content(content)) == 0
      modifies this`size, this`entries, cur`content, cur`size
      ensures Valid() && rc == To(old(entries)[at].content) && entries == old(entries)[at := Entry(content, sz)]
      ensures cur.content == To(content)
    {
      HeldAt(cur);
      hide TotalComparator, Sorted, Sum, Shape, Holds;
      ReplacedSorted(compare, entries, at, Entry(content, sz));
      SumReplaced(entries, at, Entry(content, sz));
      rc := cur.content;
      size := size + (sz - cur.size);
      Overwrite(cur, content, sz, at);
    }

    // Enters the content of a leaf that is already linked in
    ghost method Enter(leaf: Node<C>, was: seq<Node<C>>, at: int, e: Entry<C>)
      requires 0 <= at <= |was| == |entries| && order == Spliced(was, at, leaf)
      requires leaf in nodes && leaf.content == To(e.content) && leaf.size == e.size
      requires forall i {:trigger was[i]} :: 0 <= i < |was| ==>
        was[i] in nodes && was[i].content == To(entries[i].content) && was[i].size == entries[i].size
      modifies this`entries
      ensures Holds() && entries == Spliced(old(entries), at, e)
    {
      entries := Spliced(entries, at, e);
      forall i | 0 <= i < |order|
        ensures order[i] in nodes && order[i].content == To(entries[i].content) && order[i].size == entries[i].size
      {
        if i != at { assert order[i] == was[if i < at then i else i - 1]; }
      }
    }

    lemma CalmForAny(but: Node<C>)
      requires Calm(null)
      ensures Calm(but)
    {
      forall n, e | n in nodes ensures CalmAt(n, e, but) { assert CalmAt(n, e, null); }
    }

    method AddLeaf(content: C, sz: int, parent: Node?<C>, d: Direction, ghost at: int) returns (leaf: Node<C>)
      requires Shape() && Holds()
      requires parent == null ==> root == null && at == 0
      requires parent != null ==> parent in nodes && parent.Child(d) == null && parent.SlotLo(d) == at
      modifies this`root, this`nodes, this`order, this`entries, this`count, this`size, nodes`left, nodes`right,
        nodes`pos, nodes`lo, nodes`hi
      ensures Shape() && Holds() && fresh(leaf) && nodes == old(nodes) + {leaf} && leaf.content == To(content)
      ensures 0 <= at <= |old(entries)| && entries == Spliced(old(entries), at, Entry(content, sz))
      ensures count == old(count) + 1 && size == old(size) + sz
      ensures old(RedBlack()) ==> AddInv(leaf) && Fixable(leaf)
    {
      leaf := InsertLeaf(content, sz, parent, d, at);
      count := count + 1;
      size := size + sz;
      Enter(leaf, old(order), at, Entry(content, sz));
    }

    // All of TreeAddByIndex but the final rebalancing
    method Place(content: C, sz: int) returns (newel: Node<C>, rc: Option<C>)
      requires Valid()
      modifies this`root, this`nodes, this`order, this`entries, this`count, this`size
      modifies nodes`left, nodes`right, nodes`pos, nodes`lo, nodes`hi, nodes`content, nodes`size
      ensures Valid() && fresh(nodes - old(nodes)) && newel in nodes && newel.content == To(content)
      ensures entries == Inserted(compare, old(entries), Entry(content, sz))
      ensures rc == Replaced(old(entries), content)
      ensures rc.None? && old(RedBlack()) ==> AddInv(newel) && Fixable(newel)
      ensures rc.Some? ==>
        nodes == old(nodes) && (Fixable(newel) <==> old(Fixable(newel))) && (old(RedBlack()) ==> AddInv(newel))
      ensures rc.Some? ==> old(newel.content.To? && compare(newel.content.value, Content(content)) == 0)
    {
      hide TotalComparator, Sorted, Sum, Narrowed, Lookup, Inserted;
      var cur, parent, d;
      ghost var at;
      cur, parent, d, at := Descend(Content(content));
      if cur != null {
        assert RangeOk(cur);
        if RedBlack() { CalmForAny(cur); }
        OldPlace(at, Entry(content, sz));
        newel := cur;
        var was := Replace(newel, content, sz, at);
        rc := Some(was.value);
      } else {
        NewPlace(at, Entry(content, sz));
        newel := AddLeaf(content, sz, parent, d, at);
        rc := None;
      }
    }

    lemma OldPlace(at: int, e: Entry<C>)
      requires TotalComparator(compare) && Sorted(compare, entries)
      requires 0 <= at < |entries| && compare(entries[at].content, Content(e.content)) == 0
      ensures Inserted(compare, entries, e) == entries[at := e]
      ensures Replaced(entries, e.content) == Some(entries[at].content)
    {
      FoundAt(at, Content(e.content));
      ReplacedIsInserted(compare, entries, at, e);
    }

    lemma NewPlace(at: int, e: Entry<C>)
      requires TotalComparator(compare) && Sorted(compare, entries) &&
        Narrowed(compare, entries, Content(e.content), at, at)
      ensures Inserted(compare, entries, e) == Spliced(entries, at, e)
      ensures Sorted(compare, Spliced(entries, at, e)) && Sum(Spliced(entries, at, e)) == Sum(entries) + e.size
      ensures Replaced(entries, e.content) == None
    {
      hide TotalComparator;
      LookupHas(compare, entries, Content(e.content));
      SplicedSorted(compare, entries, at, e);
      SplicedIsInserted(compare, entries, at, e);
      SumSpliced(entries, at, e);
    }

    ghost function Replaced(es: seq<Entry<C>>, content: C): Option<C> {
      match Lookup(compare, es, Content(content))
      case None => None
      case Some(e) => Some(e.content)
    }

    lemma FoundAt(at: int, q: Probe<C, K>)
      requires TotalComparator(compare) && Sorted(compare, entries)
      requires 0 <= at < |entries| && compare(entries[at].content, q) == 0
      ensures Narrowed(compare, entries, q, at, at + 1)
      ensures Lookup(compare, entries, q) == Some(entries[at])
      ensures Deleted(compare, entries, q) == Without(entries, at)
    {
      Narrow(compare, entries, q, 0, at, |entries|);
      WithoutIsDeleted(compare, entries, at, q);
      LookupIsAt(compare, entries, at, q);
    }

    // Adds `content`, or replaces the equal content that is already there and returns that one
    method Add(content: C, sz: int) returns (rc: Option<C>, ghost node: Node<C>)
      requires Valid()
      modifies this, nodes
      ensures Valid() && fresh(nodes - old(nodes)) && node in nodes && node.content == To(content)
      ensures entries == Inserted(compare, old(entries), Entry(content, sz))
      ensures rc == Replaced(old(entries), content)
      ensures rc.None? && old(RedBlack()) ==> RedBlack()
      ensures rc.Some? ==>
        nodes == old(nodes) && (old(RedBlack()) ==> if old(Fixable(node)) then RedBlack() else Lopsided())
      ensures rc.Some? ==> old(node.content.To? && compare(node.content.value, Content(content)) == 0)
    {
      hide TotalComparator, Sorted, Sum;
      var newel;
      newel, rc := Place(content, sz);
      BalanceAfterAdd(newel);
      node := newel;
    }

    // ---------------- removal ----------------

    // Every slot but (q, e) is balanced
    ghost predicate EvenBut(q: Node<C>, e: Direction)
      reads this`nodes, nodes`left, nodes`right, nodes`red, nodes`bh
    {
      forall n, f {:trigger EvenAt(n, f)} :: n in nodes && !(n == q && f == e) ==> EvenAt(n, f)
    }

    // The paths through the slot (q, e) are one black node short
    ghost predicate ShortAt(q: Node<C>, e: Direction)
      requires q in nodes
      reads this`nodes, nodes`left, nodes`right, nodes`red, nodes`bh
    {
      var c := q.Child(e);
      && (c != null ==> c in nodes && 0 <= c.bh)
      && q.bh == Weight(c) + 1
      && EvenBut(q, e)
    }

    // A red node may have a red child only if one of the two is `but`
    ghost predicate CalmAround(but: Node<C>)
      reads this`nodes, nodes`left, nodes`right, nodes`red
    {
      forall n, e {:trigger CalmAt(n, e, but)} :: n in nodes && n != but ==> CalmAt(n, e, but)
    }

    twostate lemma RedSiblingTurned(t: Turn<C>)
      requires old(Shape()) && old(t.cur in nodes && t.cur.Child(t.d.Opposite()) == t.other)
      requires Relinked(t)
      requires forall n {:trigger n.red} :: n in nodes ==>
        n.red == if n == t.cur then true else if n == t.other then false else old(n.red)
      requires forall n {:trigger n.bh} :: n in nodes ==> n.bh == old(n.bh)
      requires old(ShortAt(t.cur, t.d) && Calm(null) && t.other.red && !IsRed(t.cur.Child(t.d)))
      ensures ShortAt(t.cur, t.d) && Calm(null)
      ensures var s := t.cur.Child(t.d.Opposite()); s != null && s in nodes && !s.red
    {
      var Turn(q, d, sib) := t;
      var p := old(q.parent);
      assert old(RangeOk(q) && UpOk(q) && DownOk(q, d.Opposite()) && DownOk(q, d) && RangeOk(sib) &&
          DownOk(sib, d.Opposite()) && DownOk(sib, d));
      assert old(EvenAt(q, d.Opposite()) && EvenAt(sib, d) && EvenAt(sib, d.Opposite()));
      assert old(CalmAt(q, d.Opposite(), null) && CalmAt(sib, d, null));
      if p != null {
        assert old(EvenAt(p, q.Side(p)) && CalmAt(p, q.Side(p), null) && RangeOk(p) && DownOk(p, q.Side(p)));
      }
      forall n, e | n in nodes && !(n == q && e == d) ensures EvenAt(n, e) {
        if !(n == q && e == d) { assert old(EvenAt(n, e) && DownOk(n, e)); }
      }
      forall n, e | n in nodes ensures CalmAt(n, e, null) {
        assert old(CalmAt(n, e, null) && DownOk(n, e));
      }
    }

    twostate lemma NearChildTurned(tq: (Turn<C>, Node<C>))
      requires old(Shape()) && old(tq.0.cur in nodes && tq.0.cur.Child(tq.0.d.Opposite()) == tq.0.other)
      requires Relinked(tq.0) && old(tq.0.cur.parent) == tq.1 && old(tq.1 in nodes && tq.1.Child(tq.0.d) == tq.0.cur)
      requires forall n {:trigger n.red} :: n in nodes ==>
        n.red == if n == tq.0.cur then true else if n == tq.0.other then false else old(n.red)
      requires forall n {:trigger n.bh} :: n in nodes ==> n.bh == old(n.bh)
      requires old(ShortAt(tq.1, tq.0.d.Opposite()) && Calm(null) && tq.0.other.red && !tq.0.cur.red &&
        !IsRed(tq.0.cur.Child(tq.0.d)))
      ensures ShortAt(tq.1, tq.0.d.Opposite()) && Calm(null)
    {
      var (t, q) := tq;
      var Turn(sib, d, c) := t;
      assert old(RangeOk(q) && UpOk(sib) && RangeOk(sib) && RangeOk(c) && DownOk(sib, d.Opposite()) &&
          DownOk(sib, d) && DownOk(c, d) && DownOk(c, d.Opposite()) && DownOk(q, d) && DownOk(q, d.Opposite()));
      assert old(EvenAt(sib, d.Opposite()) && EvenAt(sib, d) && EvenAt(c, d) && EvenAt(c, d.Opposite()) &&
          EvenAt(q, d));
      assert old(CalmAt(sib, d.Opposite(), null) && CalmAt(c, d, null));
      forall n, e | n in nodes && !(n == q && e == d.Opposite()) ensures EvenAt(n, e) {
        assert old(EvenAt(n, e) && DownOk(n, e));
      }
      forall n, e | n in nodes ensures CalmAt(n, e, null) {
        assert old(CalmAt(n, e, null) && DownOk(n, e));
      }
    }

    twostate lemma FarChildTurned(t: Turn<C>)
      requires old(Shape()) && old(t.cur in nodes && t.cur.Child(t.d.Opposite()) == t.other)
      requires Relinked(t)
      requires old(IsRed(t.other.Child(t.d.Opposite())))
      requires forall n {:trigger n.red} :: n in nodes ==>
        n.red == if n == t.cur || n == old(t.other.Child(t.d.Opposite())) then false
                 else if n == t.other then old(t.cur.red) else old(n.red)
      requires forall n {:trigger n.bh} :: n in nodes ==>
        n.bh == old(n.bh) + if n == t.cur then -1 else if n == t.other then 1 else 0
      requires old(ShortAt(t.cur, t.d) && Calm(null) && !t.other.red && root != null && !root.red)
      ensures RedBlack()
    {
      var Turn(q, d, sib) := t;
      var p := old(q.parent);
      var far := old(sib.Child(d.Opposite()));
      assert old(RangeOk(q) && UpOk(q) && DownOk(q, d.Opposite()) && DownOk(q, d) && RangeOk(sib) &&
          DownOk(sib, d.Opposite()) && DownOk(sib, d));
      assert old(EvenAt(q, d.Opposite()) && EvenAt(sib, d) && EvenAt(sib, d.Opposite()));
      if p != null {
        assert old(EvenAt(p, q.Side(p)) && CalmAt(p, q.Side(p), null) && RangeOk(p) && DownOk(p, q.Side(p)));
      }
      forall n, e | n in nodes ensures EvenAt(n, e) {
        if !(n == q && e == d) { assert old(EvenAt(n, e)); }
        assert old(DownOk(n, e));
      }
      forall n, e | n in nodes ensures CalmAt(n, e, null) {
        assert old(CalmAt(n, e, null) && DownOk(n, e));
      }
    }

    ghost predicate Full()
      reads this`nodes, nodes`content
    {
      forall n {:trigger n.content} :: n in nodes ==> n.content.To?
    }

    // The side of its parent where the fix-up of a removal stands; the sentinel for a removed leaf has no content
    static function HoleSide(cur: Node<C>): Direction
      requires cur.parent != null
      reads cur`parent, cur`content, cur.parent`left
    {
      if (if cur.content.To? then cur else null) == cur.parent.left then Left else Right
    }

    // The fix-up stands at a node of the tree, or at the sentinel
    ghost predicate Stands(cur: Node<C>)
      reads this`nodes, nodes`left, nodes`right, cur`parent, cur`content
    {
      && cur.parent != null && cur.parent in nodes
      && cur.parent.Child(HoleSide(cur)) == (if cur.content.To? then cur else null)
      && (cur in nodes <==> cur.content.To?)
    }

    ghost predicate Deficit(cur: Node<C>)
      reads this`root, this`nodes, nodes`left, nodes`right, nodes`red, nodes`bh, cur`parent, cur`content
    {
      && root != null && root in nodes && (root.red ==> root == cur)
      && CalmAround(cur)
      && if cur == root then Even() else Stands(cur) && ShortAt(cur.parent, HoleSide(cur))
    }

    lemma CalmOnceBlack(cur: Node<C>)
      requires CalmAround(cur) && (cur in nodes ==> !cur.red)
      ensures Calm(null)
    {
      forall n, e | n in nodes ensures CalmAt(n, e, null) {
        if n != cur { assert CalmAt(n, e, cur); }
      }
    }

    twostate lemma SiblingReddened(qw: (Node<C>, Direction))
      requires old(Shape()) && nodes == old(nodes) && root == old(root)
      requires old(qw.0 in nodes && ShortAt(qw.0, qw.1.Opposite()) && Calm(null) && qw.0.Child(qw.1) != null &&
        !qw.0.Child(qw.1).red)
      requires var sib := old(qw.0.Child(qw.1)); old(!IsRed(sib.Child(Left)) && !IsRed(sib.Child(Right)))
      requires forall n {:trigger n.parent} :: n in nodes ==> n.parent == old(n.parent)
      requires forall n, e {:trigger n.Child(e)} :: n in nodes ==> n.Child(e) == old(n.Child(e))
      requires forall n {:trigger n.content} :: n in nodes ==> n.content == old(n.content)
      requires old(Full())
      requires forall n {:trigger n.red} :: n in nodes ==>
        n.red == if n == old(qw.0.Child(qw.1)) then true else old(n.red)
      requires forall n {:trigger n.bh} :: n in nodes ==> n.bh == old(n.bh) + if n == qw.0 then -1 else 0
      requires old(root != null && root in nodes && !root.red)
      ensures Deficit(qw.0)
    {
      var (q, which) := qw;
      var sib := old(q.Child(which));
      var p := old(q.parent);
      assert old(RangeOk(q) && UpOk(q) && DownOk(q, which) && DownOk(q, which.Opposite()) && RangeOk(sib) &&
          EvenAt(q, which));
      assert old(UpOk(root));
      if p != null {
        assert old(DownOk(p, q.Side(p)) && EvenAt(p, q.Side(p)) && RangeOk(p) && DownOk(p, Left) && DownOk(p, Right));
        assert q.content.To? && p.Child(Left) == p.left && p.left == old(p.left);
        assert HoleSide(q) == old(q.Side(p));
      }
      forall n, e | n in nodes && !(n == p && e == old(q.Side(p))) ensures EvenAt(n, e) {
        assert old(DownOk(n, e));
        if !(n == q && e == which.Opposite()) { assert old(EvenAt(n, e)); }
      }
      forall n, e | n in nodes && n != q ensures CalmAt(n, e, q) {
        assert old(CalmAt(n, e, null) && DownOk(n, e));
      }
    }

    // The state inside one step: the slot (q, e) is short, no red node has a red child, the root is black
    ghost predicate Owing(q: Node<C>, e: Direction)
      reads this`root, this`nodes, nodes`left, nodes`right, nodes`red, nodes`bh
    {
      q in nodes && ShortAt(q, e) && Calm(null) && root != null && root in nodes && !root.red
    }

    // The red sibling, to be black, is turned above q, to be red
    method TurnSibling(q: Node<C>, which: Direction)
      requires Shape() && q in nodes && IsRed(q.Child(which))
      modifies this`root, nodes`parent, nodes`left, nodes`right, nodes`lo, nodes`hi, nodes`red
      ensures Shape() && Rotated(Turn(q, which.Opposite(), old(q.Child(which))))
      ensures forall n {:trigger n.red} :: n in nodes ==>
        n.red == if n == q then true else if n == old(q.Child(which)) then false else old(n.red)
      ensures forall n {:trigger n.bh} :: n in nodes ==> n.bh == old(n.bh)
    {
      assert DownOk(q, which);
      Recolour(q.Child(which), q);
      label M:
      Rotate(q, which.Opposite());
      assert forall n, f: Direction :: n in nodes ==> old@M(n.Child(f)) == old(n.Child(f));
    }

    method BarRedSibling(q: Node<C>, which: Direction)
      requires Shape() && q in nodes && IsRed(q.Child(which))
      modifies this`root, nodes`parent, nodes`left, nodes`right, nodes`lo, nodes`hi, nodes`red
      ensures Shape() && q.red
      ensures q.Child(which) != null ==> q.Child(which) in nodes
      ensures q.Child(which.Opposite()) == old(q.Child(which.Opposite()))
      ensures old(Owing(q, which.Opposite()) && !IsRed(q.Child(which.Opposite()))) ==>
        Owing(q, which.Opposite()) && q.Child(which) != null && !q.Child(which).red
    {
      ghost var sib := q.Child(which);
      assert DownOk(q, which) && RangeOk(q) && RangeOk(sib) && UpOk(q);
      if q.parent != null { assert RangeOk(q.parent) && DownOk(q.parent, q.Side(q.parent)); }
      assert which.Opposite().Opposite() == which && q != sib && q.parent != q;
      TurnSibling(q, which);
      assert DownOk(q, which);
      if old(Owing(q, which.Opposite()) && !IsRed(q.Child(which.Opposite()))) {
        RedSiblingTurned(Turn(q, which.Opposite(), sib));
      }
    }

    method BarNearChild(q: Node<C>, which: Direction)
      requires Shape() && q in nodes && q.Child(which) != null && q.Child(which) in nodes &&
        IsRed(q.Child(which).Child(which.Opposite()))
      modifies this`root, nodes`parent, nodes`left, nodes`right, nodes`lo, nodes`hi, nodes`red
      ensures Shape()
      ensures var s := q.Child(which);
        s != null && s in nodes && !s.red && IsRed(s.Child(which)) && s.Child(which) in nodes
      ensures q.Child(which.Opposite()) == old(q.Child(which.Opposite()))
      ensures old(Owing(q, which.Opposite()) && !q.Child(which).red && !IsRed(q.Child(which).Child(which))) ==>
        Owing(q, which.Opposite())
    {
      var sib := q.Child(which);
      ghost var c := sib.Child(which.Opposite());
      assert DownOk(q, which) && RangeOk(q) && RangeOk(sib) && UpOk(sib) && DownOk(sib, which.Opposite()) && RangeOk(c);
      assert sib.Side(q) == which;
      sib.Child(which.Opposite()).red := false;
      sib.red := true;
      label M:
      Rotate(sib, which);
      assert forall n, f: Direction :: n in nodes ==> old@M(n.Child(f)) == old(n.Child(f));
      assert q != sib && q != c;
      assert q.Child(which) == c && c.Child(which) == sib &&
          q.Child(which.Opposite()) == old(q.Child(which.Opposite()));
      if old(Owing(q, which.Opposite()) && !q.Child(which).red && !IsRed(q.Child(which).Child(which))) {
        NearChildTurned((Turn(sib, which, c), q));
      }
    }

    method RecolourFar(q: Node<C>, sib: Node<C>, which: Direction)
      requires q in nodes && sib in nodes && q != sib && sib != sib.Child(which) && sib.Child(which) != null &&
        sib.Child(which) in nodes && sib.Child(which) != q
      modifies nodes`red, nodes`bh
      ensures forall n {:trigger n.red} :: n in nodes ==>
        n.red == if n == q || n == sib.Child(which) then false else if n == sib then old(q.red) else old(n.red)
      ensures forall n {:trigger n.bh} :: n in nodes ==>
        n.bh == old(n.bh) + if n == q then -1 else if n == sib then 1 else 0
    {
      sib.red := q.red;
      q.red := false;
      sib.Child(which).red := false;
      q.bh := q.bh - 1;
      sib.bh := sib.bh + 1;
    }

    method BarFarChild(q: Node<C>, which: Direction)
      requires Shape() && q in nodes && q.Child(which) != null && q.Child(which) in nodes &&
        IsRed(q.Child(which).Child(which))
      modifies this`root, nodes`parent, nodes`left, nodes`right, nodes`lo, nodes`hi, nodes`red, nodes`bh
      ensures Shape() && root != null
      ensures old(Owing(q, which.Opposite()) && !q.Child(which).red) ==> RedBlack()
    {
      var sib := q.Child(which);
      ghost var far := sib.Child(which);
      assert DownOk(q, which) && RangeOk(q) && RangeOk(sib) && DownOk(sib, which) && RangeOk(far);
      RecolourFar(q, sib, which);
      label M:
      Rotate(q, which.Opposite());
      assert forall n, f: Direction :: n in nodes ==> old@M(n.Child(f)) == old(n.Child(f));
      if old(Owing(q, which.Opposite()) && !q.Child(which).red) {
        FarChildTurned(Turn(q, which.Opposite(), sib));
      }
    }

    method ReddenSibling(q: Node<C>, which: Direction)
      requires Shape() && Full() && q in nodes && q.Child(which) != null && q.Child(which) in nodes
      modifies nodes`red, nodes`bh
      ensures Shape() && (q.Child(which) != q ==> q.red == old(q.red))
      ensures old(Owing(q, which.Opposite()) && !q.Child(which).red &&
                  !IsRed(q.Child(which).left) && !IsRed(q.Child(which).right)) ==>
        Deficit(q)
    {
      q.Child(which).red := true;
      q.bh := q.bh - 1;
      assert forall n, f: Direction :: n in nodes ==> n.Child(f) == old(n.Child(f));
      if old(Owing(q, which.Opposite()) && !q.Child(which).red && !IsRed(q.Child(which).left) &&
          !IsRed(q.Child(which).right)) {
        SiblingReddened((q, which));
      }
    }

    method BalanceAfterRemoveStep(start: Node<C>, which: Direction) returns (cur: Node<C>)
      requires Shape() && Full() && Stands(start) && which == HoleSide(start).Opposite()
      requires start in nodes ==> !start.red
      modifies this`root, nodes`parent, nodes`left, nodes`right, nodes`lo, nodes`hi, nodes`red, nodes`bh
      ensures Shape() && cur in nodes
      ensures cur == root || cur.red ||
        (cur == old(start.parent) && cur.lo == old(start.parent.lo) && cur.hi == old(start.parent.hi))
      ensures start != old(root) && old(Deficit(start)) ==> Deficit(cur)
    {
      var q: Node<C> := start.parent;
      var sibling := q.Child(which);
      ghost var owed := start != root && Deficit(start);
      if owed { CalmOnceBlack(start); assert UpOk(root); assert Owing(q, which.Opposite()); }
      assert DownOk(q, which);
      if IsRed(sibling) {
        BarRedSibling(q, which);
        assert DownOk(q, which);
        sibling := q.Child(which);
      }
      assert owed ==> EvenAt(q, which);
      if sibling == null {
        cur := q;
      } else if !IsRed(sibling.Child(which.Opposite())) && !IsRed(sibling.Child(which)) {
        ReddenSibling(q, which);
        cur := q;
      } else {
        if !IsRed(sibling.Child(which)) {
          BarNearChild(q, which);
          sibling := q.Child(which);
        }
        BarFarChild(q, which);
        cur := root;
        if owed { CalmForAny(cur); }
      }
    }

    lemma StandsIn(cur: Node<C>)
      requires Shape() && Full() && cur in nodes && cur != root
      ensures Stands(cur) && HoleSide(cur) == cur.Side(cur.parent) && cur.hi - cur.lo < cur.parent.hi - cur.parent.lo
    {
      var p := cur.parent;
      assert UpOk(cur) && RangeOk(cur);
      assert RangeOk(p) && DownOk(p, Left) && DownOk(p, Right);
    }

    twostate lemma Blackened(cur: Node<C>)
      requires old(Shape()) && nodes == old(nodes) && root == old(root) && cur in nodes
      requires forall n, e {:trigger n.Child(e)} :: n in nodes ==> n.Child(e) == old(n.Child(e))
      requires forall n {:trigger n.red} :: n in nodes ==> n.red == if n == cur then false else old(n.red)
      requires forall n {:trigger n.bh} :: n in nodes ==> n.bh == old(n.bh)
      requires old(Deficit(cur) && (cur == root || (cur.content.To? && cur.red)))
      ensures RedBlack()
    {
      var p := old(cur.parent);
      assert old(UpOk(cur) && RangeOk(cur));
      forall n, e | n in nodes ensures EvenAt(n, e) {
        assert old(DownOk(n, e));
        if cur == root { assert old(EvenAt(n, e)); }
        if cur != root && !(n == p && e == old(HoleSide(cur))) { assert old(EvenAt(n, e)); }
      }
      forall n, e | n in nodes ensures CalmAt(n, e, null) {
        if n != cur { assert old(CalmAt(n, e, cur)); }
        assert old(DownOk(n, e));
      }
    }

    method BalanceAfterRemove(start: Node<C>)
      requires Shape() && Full() && root != null
      requires start !in nodes ==> Stands(start) && !start.red
      modifies this`root, nodes`parent, nodes`left, nodes`right, nodes`lo, nodes`hi, nodes`red, nodes`bh
      ensures Shape()
      ensures old(Deficit(start)) ==> RedBlack()
    {
      var cur := start;
      assert UpOk(root);
      while cur != root && !cur.red
        invariant Shape() && Full() && root != null && (cur !in nodes ==> cur == start && Stands(cur) && !cur.red)
        invariant old(Deficit(start)) ==> Deficit(cur)
        decreases if cur == root || cur.red then 0 else 1 + |order| - (if cur in nodes then cur.hi - cur.lo else 0)
      {
        if cur in nodes { StandsIn(cur); }
        ghost var p := cur.parent;
        assert RangeOk(p);
        if HoleSide(cur) == Left {
          cur := BalanceAfterRemoveStep(cur, Right);
        } else {
          cur := BalanceAfterRemoveStep(cur, Left);
        }
        assert RangeOk(cur);
      }
      label L:
      cur.red := false;
      assert forall n, f: Direction :: n in nodes ==> n.Child(f) == old@L(n.Child(f));
      if old(Deficit(start)) { Blackened@L(cur); }
    }

    static function Closed(x: int, at: int): int { if x > at then x - 1 else x }

    // The node x is taken out, and its only child (or none) put in its place
    twostate predicate Removed(x: Node<C>)
      reads this, nodes, x
    {
      && x in old(nodes) && nodes == old(nodes) - {x}
      && 0 <= old(x.pos) < |old(order)| && order == Without(old(order), old(x.pos))
      && var c := if old(x.left) != null then old(x.left) else old(x.right);
      && var p := old(x.parent);
      && (c != null ==> c in nodes) && (p != null ==> p in nodes)
      && root == (if p == null then c else old(root))
      && (forall n {:trigger n.parent} :: n in nodes ==> n.parent == if n == c then p else old(n.parent))
      && (forall n, e {:trigger n.Child(e)} :: n in nodes ==>
           n.Child(e) == if n == p && e == old(x.Side(p)) then c else old(n.Child(e)))
      && (forall n {:trigger n.pos} :: n in nodes ==> n.pos == Closed(old(n.pos), old(x.pos)))
      && (forall n {:trigger n.lo} :: n in nodes ==> n.lo == Closed(old(n.lo), old(x.pos)))
      && (forall n {:trigger n.hi} :: n in nodes ==> n.hi == Closed(old(n.hi), old(x.pos)))
    }

    twostate lemma RemovedUp(x: Node<C>)
      requires old(Shape()) && Removed(x) && old(x.left == null || x.right == null)
      ensures forall n {:trigger UpOk(n)} :: n in nodes ==> UpOk(n)
      ensures forall n {:trigger RangeOk(n)} :: n in nodes ==> RangeOk(n)
    {
      var c := if old(x.left) != null then old(x.left) else old(x.right);
      var p := old(x.parent);
      assert old(RangeOk(x) && UpOk(x) && DownOk(x, Left) && DownOk(x, Right));
      if p != null { assert old(RangeOk(p) && DownOk(p, x.Side(p))); }
      forall n | n in nodes ensures UpOk(n) && RangeOk(n) {
        assert old(UpOk(n) && RangeOk(n));
        if n == c {
          if p != null { assert n.Side(p) == old(x.Side(p)); assert p.Child(n.Side(p)) == n; }
        } else {
          var q := old(n.parent);
          if q != null {
            assert old(RangeOk(q));
            assert q != x ==> n.Side(q) == old(n.Side(q));
            assert q != x ==> q.Child(n.Side(q)) == n;
          }
        }
      }
    }

    twostate lemma RemovedDown(x: Node<C>)
      requires old(Shape()) && Removed(x) && old(x.left == null || x.right == null)
      ensures forall n, e {:trigger DownOk(n, e)} :: n in nodes ==> DownOk(n, e)
    {
      var c := if old(x.left) != null then old(x.left) else old(x.right);
      var p := old(x.parent);
      assert old(RangeOk(x) && UpOk(x) && DownOk(x, Left) && DownOk(x, Right));
      if p != null { assert old(RangeOk(p) && DownOk(p, x.Side(p))); }
      forall n, e | n in nodes ensures DownOk(n, e) {
        assert old(RangeOk(n) && DownOk(n, e));
        var d := old(n.Child(e));
        if d != null { assert old(RangeOk(d) && UpOk(d)); }
      }
    }

    twostate lemma RemovedShape(x: Node<C>)
      requires old(Shape()) && Removed(x) && old(x.left == null || x.right == null)
      ensures Shape()
    {
      RemovedUp(x);
      RemovedDown(x);
      var c := if old(x.left) != null then old(x.left) else old(x.right);
      assert old(RangeOk(x) && UpOk(x) && DownOk(x, Left) && DownOk(x, Right));
      forall i | 0 <= i < |order| ensures order[i] in nodes && order[i].pos == i {
        var j := if i < old(x.pos) then i else i + 1;
        assert order[i] == old(order)[j] && old(order)[j] != x;
      }
      assert c != null ==> old(RangeOk(c));
      assert old(UpOk(root) && RangeOk(root));
    }

    twostate lemma RemovedColours(x: Node<C>)
      requires old(Shape()) && Shape() && Removed(x) && old(x.left == null || x.right == null)
      requires forall n {:trigger n.red} :: n in nodes ==> n.red == old(n.red)
      requires forall n {:trigger n.bh} :: n in nodes ==> n.bh == old(n.bh)
      requires Full() && old(RedBlack())
      ensures old(x.red) || root == null ==> RedBlack()
      ensures var c := if old(x.left) != null then old(x.left) else old(x.right); c != null && !old(x.red) ==>
        Deficit(c)
      ensures var p := old(x.parent); old(x.left == null && x.right == null && !x.red) && p != null ==>
        Calm(null) && ShortAt(p, old(x.Side(p))) && p.Child(old(x.Side(p)).Opposite()) != null && root != null &&
            root in nodes && !root.red
    {
      var c := if old(x.left) != null then old(x.left) else old(x.right);
      var p := old(x.parent);
      assert old(RangeOk(x) && UpOk(x) && DownOk(x, Left) && DownOk(x, Right) && EvenAt(x, Left) && EvenAt(x, Right) &&
          CalmAt(x, Left, null) && CalmAt(x, Right, null));
      assert c != null ==> old(EvenAt(c, Left)) && c.red && !old(x.red);
      if p != null {
        var e := old(x.Side(p));
        assert old(RangeOk(p) && DownOk(p, e) && EvenAt(p, e) && CalmAt(p, e, null) && EvenAt(p, e.Opposite()));
      }
      if c != null && root != c { StandsIn(c); assert old(RangeOk(c)); assert UpOk(c) && c.Side(p) == old(x.Side(p)); }
      forall n, e | n in nodes && !(n == p && e == old(x.Side(p))) ensures EvenAt(n, e) {
        assert old(EvenAt(n, e) && DownOk(n, e));
      }
      forall n, e | n in nodes && (!(n == p && e == old(x.Side(p))) || c == null) ensures CalmAt(n, e, null) {
        assert old(CalmAt(n, e, null) && DownOk(n, e));
      }
      if c != null {
        forall n, e | n in nodes && n != c ensures CalmAt(n, e, c) {
          if !(n == p && e == old(x.Side(p))) { assert CalmAt(n, e, null); }
        }
      }
    }

    ghost method CloseGap(at: int)
      modifies nodes`pos, nodes`lo, nodes`hi
      ensures forall n {:trigger n.pos} :: n in nodes ==> n.pos == Closed(old(n.pos), at)
      ensures forall n {:trigger n.lo} :: n in nodes ==> n.lo == Closed(old(n.lo), at)
      ensures forall n {:trigger n.hi} :: n in nodes ==> n.hi == Closed(old(n.hi), at)
      ensures forall n, e {:trigger n.Child(e)} :: n in nodes ==> n.Child(e) == old(n.Child(e))
    {
      forall n | n in nodes { n.pos := Closed(n.pos, at); }
      forall n | n in nodes { n.lo := Closed(n.lo, at); }
      forall n | n in nodes { n.hi := Closed(n.hi, at); }
    }

    ghost predicate CanUnlink(x: Node<C>)
      reads this`root, this`nodes, this`order, nodes`parent, nodes`left, nodes`right, nodes`pos
    {
      && x in nodes && 0 <= x.pos < |order|
      && var c := if x.left != null then x.left else x.right;
      && (c != null ==> c in nodes && c != x && c != x.parent)
      && (x.parent != null ==>
        x.parent in nodes && x.parent != x && root != x && (x.parent.left == x <==> x.Side(x.parent) == Left))
      && (x.parent == null ==> root == x)
      && (x.parent != null ==> x.parent.Child(x.Side(x.parent)) == x)
    }

    // The child of x, if there is one, takes the place of x
    method Bypass(x: Node<C>) returns (curchild: Node?<C>)
      requires CanUnlink(x)
      modifies this`root, nodes`parent, nodes`left, nodes`right
      ensures curchild == (if old(x.left) != null then old(x.left) else old(x.right)) && x.parent == old(x.parent)
      ensures root == if x.parent == null then curchild else old(root)
      ensures forall n {:trigger n.parent} :: n in nodes ==>
        n.parent == if n == curchild then old(x.parent) else old(n.parent)
      ensures forall n, e {:trigger n.Child(e)} :: n in nodes ==>
        n.Child(e) == if n == old(x.parent) && e == old(x.Side(x.parent)) then curchild else old(n.Child(e))
    {
      curchild := if x.left != null then x.left else x.right;
      if curchild != null {
        curchild.parent := x.parent;
      }
      if x.parent == null {
        root := curchild;
      } else if x == x.parent.left {
        x.parent.SetChild(Left, curchild);
      } else {
        x.parent.SetChild(Right, curchild);
      }
    }

    method Unlink(x: Node<C>) returns (curchild: Node?<C>)
      requires CanUnlink(x)
      modifies this`root, this`nodes, this`order, nodes`parent, nodes`left, nodes`right, nodes`pos, nodes`lo, nodes`hi
      ensures Removed(x) && curchild == (if old(x.left) != null then old(x.left) else old(x.right))
      ensures x.parent == old(x.parent)
    {
      curchild := Bypass(x);
      label L:
      ghost var at := x.pos;
      CloseGap(at);
      order := Without(order, at);
      nodes := nodes - {x};
      assert forall n, e {:trigger n.Child(e)} :: n in old(nodes) ==> n.Child(e) == old@L(n.Child(e));
    }

    lemma CanUnlinkIn(x: Node<C>)
      requires Shape() && x in nodes
      ensures CanUnlink(x)
    {
      assert RangeOk(x) && UpOk(x) && DownOk(x, Left) && DownOk(x, Right) && UpOk(root);
      var p := x.parent;
      if p != null { assert RangeOk(p) && DownOk(p, Left) && DownOk(p, Right); }
      if x.left != null { assert RangeOk(x.left); }
      if x.right != null { assert RangeOk(x.right); }
    }

    // Takes the contents of node x over into `cur` when they are different nodes, and drops the entry that `cur` had
    method TakeOver(cur: Node<C>, x: Node<C>, ghost was: seq<Node<C>>, ghost at: int, ghost r: int)
      requires |was| == |entries| && 0 <= at < |was| && 0 <= r < |was| && was[at] == cur && was[r] == x &&
        (r == at || r == at + 1)
      requires order == Without(was, r) &&
        (forall i, j {:trigger was[i], was[j]} :: 0 <= i < j < |was| ==> was[i] != was[j])
      requires forall i {:trigger was[i]} :: 0 <= i < |was| ==>
        was[i].content == To(entries[i].content) && was[i].size == entries[i].size
      requires forall i {:trigger order[i]} :: 0 <= i < |order| ==> order[i] in nodes
      modifies this`entries, cur`content, cur`size
      ensures Holds() && entries == Without(old(entries), at)
    {
      if x != cur {
        cur.content := x.content;
        cur.size := x.size;
      }
      entries := Without(entries, at);
      forall i | 0 <= i < |order| ensures order[i].content == To(entries[i].content) &&
          order[i].size == entries[i].size {
        assert order[i] == was[if i < r then i else i + 1];
      }
    }

    // Unlinks x, which has at most one child, and re-establishes the shape
    method Splice(x: Node<C>) returns (curchild: Node?<C>)
      requires Shape() && Full() && x in nodes && (x.left == null || x.right == null)
      modifies this`root, this`nodes, this`order, nodes`parent, nodes`left, nodes`right, nodes`pos, nodes`lo, nodes`hi
      ensures Shape() && Full() && nodes == old(nodes) - {x} && x.parent == old(x.parent) &&
        (curchild != null ==> curchild in nodes)
      ensures 0 <= old(x.pos) < |old(order)| && order == Without(old(order), old(x.pos))
      ensures x.parent != null ==>
        x.parent in nodes && root != null && (curchild == null ==> x.parent.left == null || x.parent.right == null)
      ensures curchild != null ==> root != null
      ensures x.parent == null && curchild == null ==> root == null
      ensures x.red == old(x.red) && (old(RedBlack()) ==> Unlinked(x, curchild))
    {
      CanUnlinkIn(x);
      assert UpOk(x) && UpOk(root);
      ghost var p := x.parent;
      ghost var e := if p == null then Left else x.Side(p);
      if p != null { assert RangeOk(p) && DownOk(p, Left) && DownOk(p, Right); }
      curchild := Unlink(x);
      RemovedShape(x);
      assert p != null ==> p.Child(e) == curchild;
      assert curchild != null ==> RangeOk(curchild);
      assert p != null ==> RangeOk(p);
      if old(RedBlack()) { RemovedColours(x); }
    }

    lemma FullIn()
      requires Shape() && Holds()
      ensures Full()
    {
      forall n | n in nodes ensures n.content.To? { assert RangeOk(n); }
    }

    // The deficit that unlinking x leaves behind, at its only child or at its parent
    ghost predicate Unlinked(x: Node<C>, curchild: Node?<C>)
      reads this`root, this`nodes, nodes`left, nodes`right, nodes`parent, nodes`content, nodes`red, nodes`bh,
        x`parent, x`red
    {
      && (x.red || root == null ==> RedBlack())
      && (curchild != null && !x.red ==> curchild in nodes && Deficit(curchild))
      && (curchild == null && !x.red && x.parent != null ==>
           && x.parent in nodes && Calm(null) && root != null && root in nodes && !root.red
           && (x.parent.left == null || x.parent.right == null) &&
             ShortAt(x.parent, if x.parent.left == null then Left else Right))
    }

    twostate lemma UnlinkedStill(xc: (Node<C>, Node?<C>))
      requires nodes == old(nodes) && root == old(root) && Full() && old(Full())
      requires unchanged(nodes`parent, nodes`left, nodes`right, nodes`red, nodes`bh) && unchanged(xc.0`parent, xc.0`red)
      requires old(Unlinked(xc.0, xc.1))
      ensures Unlinked(xc.0, xc.1)
    {
      var (x, c) := xc;
      if c != null && !x.red {
        assert old(Deficit(c)) && c.content.To? && old(c.content.To?);
        assert c != root ==> HoleSide(c) == old(HoleSide(c));
      }
    }

    // The fix-up of TreeRemoveNodeIndex, with the sentinel when a black leaf has gone
    method Rebalance(x: Node<C>, curchild: Node?<C>)
      requires Shape() && Full() && x !in nodes && (curchild != null ==> curchild in nodes && root != null)
      requires x.parent != null ==>
        x.parent in nodes && root != null && (curchild == null ==> x.parent.left == null || x.parent.right == null)
      requires x.parent == null && curchild == null ==> root == null
      modifies this`root, nodes`parent, nodes`left, nodes`right, nodes`lo, nodes`hi, nodes`red, nodes`bh
      ensures Shape()
      ensures old(Unlinked(x, curchild)) ==> RedBlack()
    {
      if !x.red {
        if curchild == null {
          if x.parent != null {
            var temp := new Node(Null, 0, x.parent, false);
            assert old(Unlinked(x, curchild)) ==> Deficit(temp) by {
              if old(Unlinked(x, curchild)) {
                forall n, e | n in nodes && n != temp ensures CalmAt(n, e, temp) { assert CalmAt(n, e, null); }
              }
            }
            BalanceAfterRemove(temp);
          }
        } else {
          BalanceAfterRemove(curchild);
        }
      }
    }

    // The node that is really taken out: with two children, the successor, which has no left child
    method Redundant(cur: Node<C>) returns (x: Node<C>)
      requires Shape() && cur in nodes
      ensures x in nodes && (x.left == null || x.right == null)
      ensures 0 <= cur.pos < |order| && order[cur.pos] == cur && 0 <= x.pos < |order| && order[x.pos] == x
      ensures x.pos == if cur.left != null && cur.right != null then cur.pos + 1 else cur.pos
      ensures forall i, j {:trigger order[i], order[j]} :: 0 <= i < j < |order| ==> order[i] != order[j]
    {
      assert RangeOk(cur);
      x := cur;
      if cur.left != null && cur.right != null {
        assert DownOk(cur, Right) && RangeOk(cur.right);
        x := Successor(cur);
      }
    }

    // Lines 415-441: unlink, and move the contents over
    method TakeOut(cur: Node<C>, ghost at: int) returns (content: Pointer<C>, redundant: Node<C>, curchild: Node?<C>)
      requires Shape() && Holds() && cur in nodes && at == cur.pos && 0 <= at < |entries|
      modifies this`root, this`nodes, this`order, this`entries
      modifies nodes`parent, nodes`left, nodes`right, nodes`pos, nodes`lo, nodes`hi, nodes`content, nodes`size
      ensures Shape() && Holds() && Full() && nodes == old(nodes) - {redundant} &&
        (curchild != null ==> curchild in nodes && root != null)
      ensures content == To(old(entries)[at].content) && entries == Without(old(entries), at)
      ensures var p := redundant.parent;
        && (p != null ==> p in nodes && root != null && (curchild == null ==> p.left == null || p.right == null))
        && (p == null && curchild == null ==> root == null)
      ensures old(RedBlack()) ==> Unlinked(redundant, curchild)
    {
      FullIn();
      assert RangeOk(cur);
      ghost var sound := RedBlack();
      content := cur.content;
      redundant := Redundant(cur);
      ghost var r := redundant.pos;
      ghost var was := order;
      curchild := Splice(redundant);
      label L:
      TakeOver(cur, redundant, was, at, r);
      FullIn();
      if sound { UnlinkedStill@L((redundant, curchild)); }
    }

    // TreeRemoveNodeIndex without the counters
    method Extract(cur: Node<C>, ghost at: int) returns (content: Pointer<C>)
      requires Shape() && Holds() && cur in nodes && at == cur.pos && 0 <= at < |entries|
      modifies this`root, this`nodes, this`order, this`entries
      modifies nodes`parent, nodes`left, nodes`right, nodes`pos, nodes`lo, nodes`hi, nodes`red, nodes`bh,
        nodes`content, nodes`size
      ensures Shape() && Holds() && nodes <= old(nodes)
      ensures content == To(old(entries)[at].content) && entries == Without(old(entries), at)
      ensures old(RedBlack()) ==> RedBlack()
    {
      var redundant, curchild;
      content, redundant, curchild := TakeOut(cur, at);
      Rebalance(redundant, curchild);
    }

    method RemoveNode(cur: Node<C>) returns (content: Pointer<C>, ghost at: int)
      requires Valid() && cur in nodes
      modifies this, nodes
      ensures Valid() && nodes <= old(nodes)
      ensures 0 <= at < |old(entries)| && at == old(cur.pos) && content == To(old(entries)[at].content)
      ensures entries == Without(old(entries), at)
      ensures old(RedBlack()) ==> RedBlack()
    {
      hide TotalComparator, Sum;
      assert RangeOk(cur);
      at := cur.pos;
      SumWithout(entries, at);
      var sz := cur.size;
      content := Extract(cur, at);
      size := size - sz;
      count := count - 1;
    }

    // TreeRemoveIndex and TreeRemoveKeyIndex, for a tree with one index
    method Remove(q: Probe<C, K>) returns (rc: Option<C>)
      requires Valid()
      modifies this, nodes
      ensures Valid() && nodes <= old(nodes)
      ensures entries == Deleted(compare, old(entries), q)
      ensures rc == match Lookup(compare, old(entries), q) { case None => None case Some(e) => Some(e.content) }
      ensures old(RedBlack()) ==> RedBlack()
    {
      var cur, path := FindIndex(q);
      LookupHas(compare, entries, q);
      if cur == null {
        return None;
      }
      FoundAt(cur.pos, q);
      hide TotalComparator, Sorted, Sum;
      ghost var at;
      var content;
      content, at := RemoveNode(cur);
      rc := Some(content.value);
    }

    constructor (compare: (C, Probe<C, K>) -> int)
      requires TotalComparator(compare)
      ensures Valid() && RedBlack() && entries == [] && nodes == {} && this.compare == compare
    {
      this.compare := compare;
      root := null;
      count, size := 0, 0;
      nodes, order, entries := {}, [], [];
    }

    method Perform(op: Operation<C, K>)
      requires Valid()
      modifies this, nodes
      ensures Valid() && fresh(nodes - old(nodes)) && entries == Stepped(compare, old(entries), op)
      ensures old(RedBlack()) && !Replaces(compare, old(entries), op) ==> RedBlack()
    {
      hide TotalComparator, Sorted, Sum;
      match op {
        case Adding(c, sz) =>
          LookupHas(compare, entries, Content(c));
          var rc;
          ghost var node;
          rc, node := Add(c, sz);
        case Removing(q) =>
          var rc := Remove(q);
      }
    }

    // Over every run of additions and removals the tree is the reference map, and
    // it stays red-black as long as no addition replaces an equal content
    method Run(ops: seq<Operation<C, K>>)
      requires Valid()
      modifies this, nodes
      ensures Valid() && fresh(nodes - old(nodes))
      ensures entries == Applied(compare, old(entries), ops)
      ensures old(RedBlack()) && NoReplacement(compare, old(entries), ops) ==> RedBlack()
    {
      assert ops[..|ops|] == ops;
      assert Applied(compare, entries, ops[..0]) == entries;
      hide Valid, Stepped, Replaces, Applied, NoReplacement, RedBlack;
      for i := 0 to |ops|
        invariant Valid() && fresh(nodes - old(nodes))
        invariant entries == Applied(compare, old(entries), ops[..i])
        invariant old(RedBlack()) && NoReplacement(compare, old(entries), ops[..i]) ==> RedBlack()
      {
        AppliedNext(compare, old(entries), ops, i);
        Perform(ops[i]);
      }
    }
  }
}
