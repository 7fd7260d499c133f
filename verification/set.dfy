/**
 `custom::set<T>` for integer keys: an ordered container without duplicates
 that owns one binary search tree and holds no other state. Every operation
 hands storage, ordering and traversal to the tree (module `Bst`); this
 module states what the adapter built on top of it promises.

 Sets are values: copy and move construction, destruction and ownership of
 nodes all collapse to passing a `Set` around. Operations that mutate the
 C++ object return the new value instead.
 */
module CustomSet {
  import opened Bst
  import opened SetIterator

  /** `custom::set<int>`: the in-order key sequence of its one tree. */
  datatype Set = Set(tree: seq<int>) {
    /** The tree's invariant: keys sorted and unique. */
    predicate Valid() {
      Ordered(tree)
    }
  }

  /** The keys held by a set. */
  function Contents(s: Set): set<int> {
    Keys(s.tree)
  }

  /** The two sets involved in `swap` and in move assignment, after the call. */
  datatype Pair = Pair(lhs: Set, rhs: Set)

  /** What `insert(t)` returns, together with the set after the call. */
  datatype InsertResult = InsertResult(after: Set, it: Iterator, inserted: bool)

  /** What `erase(iterator)` returns, together with the set after the call. */
  datatype EraseResult = EraseResult(after: Set, next: Iterator)

  /** What `erase(key)` returns, together with the set after the call. */
  datatype CountResult = CountResult(after: Set, count: nat)

  // Construct and assign

  /** `set()`: an empty set over an empty tree. */
  function Default(): (r: Set)
    ensures r.Valid() && Contents(r) == {}
  {
    Set([])
  }

  /** `clear()`: every key goes. */
  function Clear(s: Set): (r: Set)
    ensures r.Valid() && Contents(r) == {}
  {
    Set([])
  }

  /** Copy assignment: the tree is copied and, when the copied root is null,
      cleared once more. That extra clear never changes anything, so the
      result is the right-hand side. */
  function CopyAssign(lhs: Set, rhs: Set): (r: Set)
    ensures r == rhs
  {
    var copied := Set(rhs.tree);
    if |copied.tree| == 0 then Clear(copied) else copied
  }

  /** `swap`: the two sets exchange their trees. */
  function Swap(lhs: Set, rhs: Set): (r: Pair)
    ensures r.lhs == rhs && r.rhs == lhs
    ensures Contents(r.lhs) == Contents(rhs) && Contents(r.rhs) == Contents(lhs)
  {
    var temp := rhs.tree;
    var rhsTree := lhs.tree;
    var lhsTree := temp;
    Pair(Set(lhsTree), Set(rhsTree))
  }

  /** Move assignment: clear the left-hand side, then swap. The left-hand
      side ends with the right-hand side's former contents, whatever it held
      before, and the right-hand side ends empty. */
  function MoveAssign(lhs: Set, rhs: Set): (r: Pair)
    ensures r.lhs == rhs
    ensures r.rhs.Valid() && Contents(r.rhs) == {}
  {
    Swap(Clear(lhs), rhs)
  }

  // Iterators and access

  /** `begin()`: the least key, or `end()` when the set is empty. */
  function Begin(s: Set): (r: Iterator)
    requires s.Valid()
    ensures r.it == End <==> Contents(s) == {}
    ensures r.it.Elem? ==> r.it.value in Contents(s) && forall x :: x in Contents(s) ==> r.it.value <= x
  {
    Iterator(First(s.tree))
  }

  /** `end()`: the one-past-last sentinel, never dereferenceable. */
  function EndOf(s: Set): (r: Iterator)
    ensures !Dereferenceable(s.tree, r)
    ensures s.Valid() ==> (Begin(s) == r <==> Contents(s) == {})
  {
    Iterator(End)
  }

  /** `find(t)`: an iterator at `t` when present, `end()` otherwise. */
  function Find(s: Set, t: int): (r: Iterator)
    requires s.Valid()
    ensures t in Contents(s) ==> r.it == Elem(t) && Dereferenceable(s.tree, r)
    ensures t !in Contents(s) ==> r == EndOf(s)
  {
    Iterator(Bst.Find(s.tree, t))
  }

  // Status

  /** `empty()`. */
  function IsEmpty(s: Set): (r: bool)
    requires s.Valid()
    ensures r <==> Contents(s) == {}
  {
    if |s.tree| == 0 then true else assert s.tree[0] in Contents(s); false
  }

  /** `size()`: the number of nodes, which is the number of distinct keys. */
  function Size(s: Set): (r: nat)
    requires s.Valid()
    ensures r == |Contents(s)|
  {
    OrderedLength(s.tree);
    |s.tree|
  }

  // Insert

  /** `insert(t)`, for both the copy and the move overload: the tree's
      insertion with duplicates rejected. An absent key is added and the
      size grows by one; a present key leaves the set as it was. Either way
      the iterator points at the key. */
  function Insert(s: Set, t: int): (r: InsertResult)
    requires s.Valid()
    ensures r.after.Valid()
    ensures r.inserted <==> t !in Contents(s)
    ensures Contents(r.after) == Contents(s) + {t}
    ensures r.it.it == Elem(t) && Dereferenceable(r.after.tree, r.it)
    ensures r.inserted ==> Size(r.after) == Size(s) + 1
    ensures !r.inserted ==> r.after == s
  {
    var pair := InsertUnique(s.tree, t);
    InsertResult(Set(pair.tree), Iterator(pair.at), pair.inserted)
  }

  /** `insert(initializer_list)`: each key in turn, duplicates rejected. The
      result holds the old keys and the listed ones, nothing else. */
  function InsertAll(s: Set, items: seq<int>): (r: Set)
    requires s.Valid()
    ensures r.Valid()
    ensures Contents(r) == Contents(s) + Keys(items)
    decreases |items|
  {
    if |items| == 0 then s
    else
      HeadKeys(items);
      InsertAll(Insert(s, items[0]).after, items[1..])
  }

  /** Initializer-list assignment: clear, then insert each listed key. The
      result holds exactly the listed keys, whatever was there before. */
  function ListAssign(lhs: Set, items: seq<int>): (r: Set)
    ensures r.Valid()
    ensures Contents(r) == Keys(items)
  {
    InsertAll(Clear(lhs), items)
  }

  /** The initializer-list constructor, which assigns the list to a fresh
      set. */
  function ListConstruct(items: seq<int>): (r: Set)
    ensures r.Valid()
    ensures Contents(r) == Keys(items)
  {
    ListAssign(Default(), items)
  }

  /** The iterator-range `insert(first, last)`, over a range of another set:
      `c` runs from `first` to `last` by postfix increment and each key under
      it is inserted. The result holds the old keys and the range's keys. */
  method InsertRange(s: Set, src: Set, first: Iterator, last: Iterator) returns (r: Set)
    requires s.Valid() && src.Valid()
    requires ValidCursor(src.tree, first.it) && ValidCursor(src.tree, last.it)
    requires Reaches(first.it, last.it)
    ensures r.Valid()
    ensures Contents(r) == Contents(s) + Span(src.tree, first.it, last.it)
  {
    r := s;
    var c := first;
    while NotEqual(c, last)
      invariant r.Valid()
      invariant ValidCursor(src.tree, c.it)
      invariant Reaches(c.it, last.it)
      invariant Reaches(first.it, c.it)
      invariant Contents(r) == Contents(s) + Span(src.tree, first.it, c.it)
      decreases Span(src.tree, c.it, End)
    {
      var key := Deref(src.tree, c);
      var step := PostIncrement(src.tree, c);
      CopyStep(s, src, r, first.it, key, step.moved.it);
      r := Insert(r, key).after;
      c := step.moved;
    }
  }

  /** The iterator-range constructor: a fresh set filled by `insert` from
      `first` up to `last`. Copying a whole set this way gives it back. */
  method RangeConstruct(src: Set, first: Iterator, last: Iterator) returns (r: Set)
    requires src.Valid()
    requires ValidCursor(src.tree, first.it) && ValidCursor(src.tree, last.it)
    requires Reaches(first.it, last.it)
    ensures r.Valid()
    ensures Contents(r) == Span(src.tree, first.it, last.it)
    ensures first == Begin(src) && last == EndOf(src) ==> r == src
  {
    r := InsertRange(Default(), src, first, last);
    if first == Begin(src) && last == EndOf(src) {
      assert Contents(r) == Contents(src);
      OrderedDeterminedByKeys(r.tree, src.tree);
    }
  }

  // Remove

  /** `erase(iterator)`: removes the key under the iterator and returns an
      iterator at the key that followed it, or `end()` after the last. All
      other keys stay. */
  function EraseAt(s: Set, i: Iterator): (r: EraseResult)
    requires s.Valid() && Dereferenceable(s.tree, i)
    ensures r.after.Valid()
    ensures Contents(r.after) == Contents(s) - {i.it.value}
    ensures Size(r.after) == Size(s) - 1
    ensures IsSuccessor(s.tree, i.it.value, r.next.it)
    ensures ValidCursor(r.after.tree, r.next.it)
  {
    var erased := EraseNode(s.tree, i.it.value);
    EraseResult(Set(erased.tree), Iterator(erased.next))
  }

  /** `erase(key)`: finds the key; when absent reports 0 and changes
      nothing, otherwise erases it through the iterator form and reports 1. */
  function EraseKey(s: Set, t: int): (r: CountResult)
    requires s.Valid()
    ensures r.after.Valid()
    ensures r.count == (if t in Contents(s) then 1 else 0)
    ensures Contents(r.after) == Contents(s) - {t}
    ensures t !in Contents(s) ==> r.after == s
  {
    var it := Find(s, t);
    if Equal(it, EndOf(s)) then CountResult(s, 0)
    else CountResult(EraseAt(s, it).after, 1)
  }

  /** `erase(itBegin, itEnd)`: erases the key under `itBegin` and moves
      `itBegin` to the iterator the erase returns, until it meets `itEnd`.
      Exactly the keys of `[itBegin, itEnd)` go, and `itEnd` survives the
      earlier erases and is returned. `itBegin` is passed by reference, so
      the caller's copy ends equal to `itEnd`; it is returned as
      `itBeginAfter`. The loop ends because every pass removes one node. */
  method EraseRange(s: Set, itBegin: Iterator, itEnd: Iterator)
    returns (r: Set, last: Iterator, itBeginAfter: Iterator)
    requires s.Valid()
    requires ValidCursor(s.tree, itBegin.it) && ValidCursor(s.tree, itEnd.it)
    requires Reaches(itBegin.it, itEnd.it)
    ensures r.Valid()
    ensures Contents(r) == Contents(s) - Span(s.tree, itBegin.it, itEnd.it)
    ensures last == itEnd && ValidCursor(r.tree, last.it)
    ensures itBeginAfter == itEnd
  {
    r := s;
    var cur := itBegin;
    while NotEqual(cur, itEnd)
      invariant r.Valid()
      invariant ValidCursor(r.tree, cur.it) && ValidCursor(r.tree, itEnd.it)
      invariant Reaches(cur.it, itEnd.it)
      invariant Reaches(itBegin.it, cur.it)
      invariant Contents(r) == Contents(s) - Span(s.tree, itBegin.it, cur.it)
      decreases |r.tree|
    {
      var erased := EraseAt(r, cur);
      EraseStep(s, r, itBegin.it, cur.it.value, erased);
      r, cur := erased.after, erased.next;
    }
    last := itEnd;
    itBeginAfter := cur;
  }

  /** One pass of the range-erase loop: erasing the key `c` under the loop
      iterator and moving to the returned iterator extends the erased span
      of the original set by exactly `c`. */
  lemma EraseStep(s: Set, r: Set, b: Cursor, c: int, e: EraseResult)
    requires s.Valid() && r.Valid()
    requires b.Elem? && b.value <= c && c in r.tree
    requires Contents(r) == Contents(s) - Span(s.tree, b, Elem(c))
    requires e == EraseAt(r, Iterator(Elem(c)))
    ensures Contents(e.after) == Contents(s) - Span(s.tree, b, e.next.it)
  {
  }

  /** One pass of the range-insert loop: inserting the key `c` under the
      loop iterator and stepping past it extends the copied span by exactly
      `c`, and leaves one key fewer ahead of the iterator. */
  lemma CopyStep(s: Set, src: Set, r: Set, b: Cursor, c: int, n: Cursor)
    requires src.Valid()
    requires b.Elem? && b.value <= c && c in src.tree
    requires IsSuccessor(src.tree, c, n)
    requires Contents(r) == Contents(s) + Span(src.tree, b, Elem(c))
    ensures Contents(s) + Span(src.tree, b, n) == Contents(r) + {c}
    ensures Span(src.tree, n, End) < Span(src.tree, Elem(c), End)
  {
    SpanStep(src.tree, src.tree, b, c, n);
    StepAhead(src.tree, c, n);
  }
}
