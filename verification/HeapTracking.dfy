/** Heap tracking: the live blocks are kept in a tree by address, and their sizes are summed. */
module HeapTracking {
  import opened SortedEntries
  import opened RedBlackTree

  const INT_SIZE := 4

  datatype StorageElement = StorageElement(file: string, line: int, ptr: int, size: int)

  // ptrCompare: with `value` the second argument is a record, without it an address
  function PtrCompare(a: StorageElement, q: Probe<StorageElement, int>): int {
    var b := match q case Content(s) => s.ptr case Key(k) => k;
    if a.ptr > b then -1 else if a.ptr == b then 0 else 1
  }

  lemma PtrCompareIsTotal()
    ensures TotalComparator(PtrCompare)
  { }

  // In the order of the tree the addresses ascend
  lemma AddressesAscend(es: Entries)
    requires Sorted(PtrCompare, es)
    ensures forall i, j :: 0 <= i < j < |es| ==> es[i].content.ptr < es[j].content.ptr
  {
  }

  function Roundup(size: int): (r: int)
    requires size >= 0
    ensures r >= size && r % 16 == 0 && r < size + 16
  {
    var multsize := 4 * INT_SIZE;
    if size % multsize != 0 then size + multsize - size % multsize else size
  }

  type Entries = seq<Entry<StorageElement>>

  ghost function Used(es: Entries): int {
    if es == [] then 0 else es[0].content.size + Used(es[1..])
  }

  ghost function BlockAt(es: Entries, ptr: int): Option<StorageElement> {
    match Lookup(PtrCompare, es, Key(ptr))
    case None => None
    case Some(e) => Some(e.content)
  }

  // The size under which the tree has the record of a block
  ghost function SpaceAt(es: Entries, ptr: int): int {
    match Lookup(PtrCompare, es, Key(ptr))
    case None => 0
    case Some(e) => e.size
  }

  ghost predicate Sized(es: Entries) {
    forall k :: BlockAt(es, k).Some? ==> BlockAt(es, k).value.size >= 0
  }

  lemma {:induction false} SameProbe(es: Entries, s: StorageElement)
    ensures Lookup(PtrCompare, es, Content(s)) == Lookup(PtrCompare, es, Key(s.ptr))
  {
    if es != [] { SameProbe(es[1..], s); }
  }

  lemma {:induction false} UsedInserted(es: Entries, e: Entry<StorageElement>)
    requires Lookup(PtrCompare, es, Key(e.content.ptr)).None?
    ensures Used(Inserted(PtrCompare, es, e)) == Used(es) + e.content.size
  {
    if es != [] && PtrCompare(es[0].content, Content(e.content)) > 0 {
      UsedInserted(es[1..], e);
    }
  }

  lemma {:induction false} UsedDeleted(es: Entries, q: Probe<StorageElement, int>)
    ensures var hit := Lookup(PtrCompare, es, q);
      Used(Deleted(PtrCompare, es, q)) == Used(es) - if hit.Some? then hit.value.content.size else 0
  {
    if es != [] && PtrCompare(es[0].content, q) != 0 {
      UsedDeleted(es[1..], q);
    }
  }

  lemma {:induction false} SumInserted(es: Entries, e: Entry<StorageElement>)
    requires Lookup(PtrCompare, es, Key(e.content.ptr)).None?
    ensures Sum(Inserted(PtrCompare, es, e)) == Sum(es) + e.size
  {
    if es != [] && PtrCompare(es[0].content, Content(e.content)) > 0 {
      SumInserted(es[1..], e);
    }
  }

  lemma {:induction false} SumDeleted(es: Entries, ptr: int)
    ensures Sum(Deleted(PtrCompare, es, Key(ptr))) == Sum(es) - SpaceAt(es, ptr)
  {
    if es != [] && PtrCompare(es[0].content, Key(ptr)) != 0 {
      SumDeleted(es[1..], ptr);
    }
  }

  lemma {:induction false} FoundHasKey(es: Entries, ptr: int)
    ensures BlockAt(es, ptr).Some? ==> BlockAt(es, ptr).value.ptr == ptr
  {
    if es != [] { FoundHasKey(es[1..], ptr); }
  }

  // Adding a block whose address is not live changes the record of that address only
  lemma BlockAdded(es: Entries, e: Entry<StorageElement>)
    requires Sorted(PtrCompare, es) && BlockAt(es, e.content.ptr).None?
    ensures Used(Inserted(PtrCompare, es, e)) == Used(es) + e.content.size
    ensures forall k ::
      BlockAt(Inserted(PtrCompare, es, e), k) == if k == e.content.ptr then Some(e.content) else BlockAt(es, k)
    ensures Sum(Inserted(PtrCompare, es, e)) == Sum(es) + e.size
    ensures forall k :: SpaceAt(Inserted(PtrCompare, es, e), k) == if k == e.content.ptr then e.size else SpaceAt(es, k)
  {
    PtrCompareIsTotal();
    UsedInserted(es, e);
    SumInserted(es, e);
    forall k
      ensures Lookup(PtrCompare, Inserted(PtrCompare, es, e), Key(k)) ==
        if k == e.content.ptr then Some(e) else Lookup(PtrCompare, es, Key(k))
    {
      LookupInserted(PtrCompare, es, e, Key(k));
    }
  }

  lemma BlockRemoved(es: Entries, ptr: int)
    requires Sorted(PtrCompare, es)
    ensures var hit := BlockAt(es, ptr);
      Used(Deleted(PtrCompare, es, Key(ptr))) == Used(es) - if hit.Some? then hit.value.size else 0
    ensures forall k :: BlockAt(Deleted(PtrCompare, es, Key(ptr)), k) == if k == ptr then None else BlockAt(es, k)
    ensures Sum(Deleted(PtrCompare, es, Key(ptr))) == Sum(es) - SpaceAt(es, ptr)
    ensures forall k :: SpaceAt(Deleted(PtrCompare, es, Key(ptr)), k) == if k == ptr then 0 else SpaceAt(es, k)
  {
    PtrCompareIsTotal();
    UsedDeleted(es, Key(ptr));
    SumDeleted(es, ptr);
    FoundHasKey(es, ptr);
    forall k
      ensures BlockAt(Deleted(PtrCompare, es, Key(ptr)), k) == if k == ptr then None else BlockAt(es, k)
      ensures SpaceAt(Deleted(PtrCompare, es, Key(ptr)), k) == if k == ptr then 0 else SpaceAt(es, k)
    {
      LookupDeleted(PtrCompare, es, Key(ptr), Key(k));
      FoundHasKey(es, k);
    }
  }

  class Heap {
    const tree: Tree<StorageElement, int>
    const elementSize: nat         // the size of a storageElement
    var currentSize: int
    var maxSize: int
    ghost var sizes: set<int>      // every value that currentSize has had

    ghost predicate TreeOk()
      reads tree, tree.nodes
    {
      tree.Valid() && tree.RedBlack() && tree.compare == PtrCompare && Sized(tree.entries)
    }

    ghost predicate Peak()
      reads `currentSize, `maxSize, `sizes
    {
      currentSize in sizes && maxSize in sizes && forall x :: x in sizes ==> x <= maxSize
    }

    ghost predicate Valid()
      reads this, tree, tree.nodes
    {
      TreeOk() && currentSize == Used(tree.entries) && Peak()
    }

    // The record of a live block, by the address that the system has given
    ghost function Block(ptr: int): Option<StorageElement>
      reads tree
    {
      BlockAt(tree.entries, ptr)
    }

    ghost function Space(ptr: int): int
      reads tree
    {
      SpaceAt(tree.entries, ptr)
    }

    // All that is allocated for a block: record, file name, and the data between its two eyecatchers
    function Footprint(s: StorageElement): int {
      elementSize + |s.file| + 1 + s.size + 2 * INT_SIZE
    }

    // The tree has every block under the size of all that is allocated for it
    ghost predicate Exact()
      reads tree
    {
      forall ptr :: Block(ptr).Some? ==> Space(ptr) == Footprint(Block(ptr).value)
    }

    constructor (elementSize: nat)
      ensures Valid() && fresh(tree) && tree.nodes == {} && currentSize == 0 && maxSize == 0
      ensures this.elementSize == elementSize && tree.size == 0 && Exact()
      ensures forall ptr :: Block(ptr).None?
    {
      PtrCompareIsTotal();
      this.elementSize := elementSize;
      tree := new Tree(PtrCompare);
      currentSize, maxSize, sizes := 0, 0, {0};
    }

    method Count(change: int)
      requires Peak()
      modifies `currentSize, `maxSize, `sizes
      ensures Peak() && currentSize == old(currentSize) + change && sizes == old(sizes) + {currentSize}
    {
      currentSize := currentSize + change;
      if currentSize > maxSize {
        maxSize := currentSize;
      }
      sizes := sizes + {currentSize};
    }

    // TreeAdd of a record under an address that is not live
    method Record(s: StorageElement, space: int)
      requires TreeOk() && Block(s.ptr).None? && s.size >= 0
      modifies tree, tree.nodes
      ensures TreeOk() && fresh(tree.nodes - old(tree.nodes)) && Used(tree.entries) == old(Used(tree.entries)) + s.size
      ensures forall k :: Block(k) == if k == s.ptr then Some(s) else old(Block(k))
      ensures tree.size == old(tree.size) + space
      ensures forall k :: Space(k) == if k == s.ptr then space else old(Space(k))
    {
      BlockAdded(tree.entries, Entry(s, space));
      SameProbe(tree.entries, s);
      ghost var node;
      var rc;
      rc, node := tree.Add(s, space);
    }

    // TreeRemoveKey
    method Forget(ptr: int) returns (s: Option<StorageElement>)
      requires TreeOk()
      modifies tree, tree.nodes
      ensures TreeOk() && tree.nodes <= old(tree.nodes) && s == old(Block(ptr))
      ensures Used(tree.entries) == old(Used(tree.entries)) - (if s.Some? then s.value.size else 0)
      ensures s.Some? ==> s.value.size >= 0 && s.value.ptr == ptr
      ensures forall k :: Block(k) == if k == ptr then None else old(Block(k))
      ensures tree.size == old(tree.size) - old(Space(ptr))
      ensures forall k :: Space(k) == if k == ptr then 0 else old(Space(k))
    {
      BlockRemoved(tree.entries, ptr);
      FoundHasKey(tree.entries, ptr);
      s := tree.Remove(Key(ptr));
    }

    // TreeFind and TreeRemoveNodeIndex
    method FindAndForget(ptr: int) returns (s: Option<StorageElement>)
      requires TreeOk()
      modifies tree, tree.nodes
      ensures TreeOk() && tree.nodes <= old(tree.nodes) && s == old(Block(ptr))
      ensures Used(tree.entries) == old(Used(tree.entries)) - (if s.Some? then s.value.size else 0)
      ensures s.Some? ==> s.value.size >= 0 && s.value.ptr == ptr
      ensures forall k :: Block(k) == if k == ptr then None else old(Block(k))
      ensures tree.size == old(tree.size) - old(Space(ptr))
      ensures forall k :: Space(k) == if k == ptr then 0 else old(Space(k))
    {
      BlockRemoved(tree.entries, ptr);
      FoundHasKey(tree.entries, ptr);
      LookupHas(PtrCompare, tree.entries, Key(ptr));
      var e, path := tree.FindIndex(Key(ptr));
      hide Used;
      s := None;
      if e != null {
        s := RemoveFound(e, ptr);
      }
    }

    method RemoveFound(e: Node<StorageElement>, ghost ptr: int) returns (s: Option<StorageElement>)
      requires tree.Valid() && tree.RedBlack() && tree.compare == PtrCompare
      requires e in tree.nodes && 0 <= e.pos < |tree.order| && e == tree.order[e.pos] && e.content.To? &&
        PtrCompare(e.content.value, Key(ptr)) == 0
      modifies tree, tree.nodes
      ensures tree.Valid() && tree.RedBlack() && tree.nodes <= old(tree.nodes)
      ensures tree.entries == Deleted(PtrCompare, old(tree.entries), Key(ptr))
      ensures s.Some? && s == old(Block(ptr))
    {
      assert e.content.value == tree.entries[e.pos].content;
      tree.FoundAt(e.pos, Key(ptr));
      s := Some(e.content.value);
      hide TotalComparator, Sorted, Sum, Lookup, Deleted;
      ghost var at;
      var content;
      content, at := tree.RemoveNode(e);
    }

    // mymalloc; `ptr` is what the system's malloc has returned, an address that is not live
    method Malloc(file: string, line: int, size: int, ptr: int) returns (p: int)
      requires Valid() && size >= 0 && Block(ptr).None?
      modifies this, tree, tree.nodes
      ensures Valid() && fresh(tree.nodes - old(tree.nodes)) && p == ptr + 4
      ensures forall k ::
        Block(k) == if k == ptr then Some(StorageElement(file, line, ptr, Roundup(size))) else old(Block(k))
      ensures currentSize == old(currentSize) + Roundup(size) && sizes == old(sizes) + {currentSize}
      ensures tree.size == old(tree.size) + Footprint(Block(ptr).value) && (Exact() <==> old(Exact()))
    {
      var rounded := Roundup(size);
      var space := elementSize + |file| + 1;
      space := space + rounded + 2 * INT_SIZE;
      hide TreeOk, Used, BlockAt, SpaceAt;
      Record(StorageElement(file, line, ptr, rounded), space);
      Count(rounded);
      p := ptr + INT_SIZE;
    }

    // Internal_heap_unlink: the record goes, whatever becomes of the block
    method Unlink(p: int) returns (rc: bool)
      requires Valid()
      modifies this, tree, tree.nodes
      ensures Valid() && tree.nodes <= old(tree.nodes)
      ensures rc <==> old(Block(p - INT_SIZE)).Some?
      ensures forall k :: Block(k) == if k == p - INT_SIZE then None else old(Block(k))
      ensures currentSize == old(currentSize) - (if rc then old(Block(p - INT_SIZE)).value.size else 0)
      ensures sizes == old(sizes) + {currentSize} && maxSize == old(maxSize)
      ensures tree.size == old(tree.size - Space(p - INT_SIZE)) && (old(Exact()) ==> Exact())
    {
      hide TreeOk, Used, BlockAt, SpaceAt;
      var s := FindAndForget(p - INT_SIZE);
      rc := s.Some?;
      if s.Some? {
        currentSize := currentSize - s.value.size;
      }
      sizes := sizes + {currentSize};
    }

    // Heap_findItem
    method FindItem(p: int) returns (s: Option<StorageElement>)
      requires Valid()
      ensures s == Block(p - INT_SIZE)
    {
      var e, path := tree.FindIndex(Key(p - INT_SIZE));
      LookupHas(PtrCompare, tree.entries, Key(p - INT_SIZE));
      if e == null {
        s := None;
      } else {
        tree.FoundAt(e.pos, Key(p - INT_SIZE));
        s := Some(e.content.value);
      }
    }

    // myrealloc; `ptr` is what the system's realloc has returned: the old address, or one that is not live. The record
    // is out of the tree while its address changes.
    method Realloc(file: string, line: int, p: int, size: int, ptr: int) returns (q: Option<int>)
      requires Valid() && size >= 0 && (ptr == p - INT_SIZE || Block(ptr).None?)
      modifies this, tree, tree.nodes
      ensures Valid() && fresh(tree.nodes - old(tree.nodes))
      ensures q == if old(Block(p - INT_SIZE)).None? then None else Some(ptr + INT_SIZE)
      ensures q.Some? ==> sizes == old(sizes) + {currentSize}
      ensures q.None? ==>
        currentSize == old(currentSize) && sizes == old(sizes) && forall k :: Block(k) == old(Block(k))
      ensures q.Some? ==> currentSize == old(currentSize) + Roundup(size) - old(Block(p - INT_SIZE)).value.size
      ensures q.Some? ==> forall k :: Block(k) == if k == ptr then Some(StorageElement(file, line, ptr, Roundup(size)))
                                                  else if k == p - INT_SIZE then None else old(Block(k))
      ensures q.Some? ==> tree.size == old(tree.size - Space(p - INT_SIZE)) + Space(ptr)
      ensures q.Some? ==> forall k :: k != ptr && k != p - INT_SIZE ==> Space(k) == old(Space(k))
      ensures q.Some? ==> var was := old(Block(p - INT_SIZE)).value;
        Space(ptr) == Footprint(StorageElement(file, line, ptr, Roundup(size))) - was.size - |was.file|
      ensures q.Some? && old(Exact()) ==>
        var was := old(Block(p - INT_SIZE)).value; Exact() <==> was.size == 0 && was.file == ""
    {
      hide TreeOk, Used, BlockAt, SpaceAt;
      var s := Forget(p - INT_SIZE);
      q := None;
      if s.Some? {
        var rounded := Roundup(size);
        var space := elementSize + rounded + 2 * INT_SIZE - s.value.size;
        space := space - |s.value.file| + |file| + 1;
        Count(rounded - s.value.size);
        Record(StorageElement(file, line, ptr, rounded), space);
        q := Some(ptr + INT_SIZE);
      }
    }
  }
}
