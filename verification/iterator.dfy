/**
 `set<T>::iterator`: a bidirectional iterator that wraps exactly one tree
 cursor and delegates every step to it. Stepping needs the tree the cursor
 points into, so each step takes that tree's in-order key sequence.

 Every operator forwards to the tree cursor, so what dereferencing or
 stepping the `end()` sentinel does, and what decrementing the first key
 does, is decided by the tree, which is not part of this model. Those
 cases are excluded by preconditions.
 */
module SetIterator {
  import opened Bst

  /** `set<T>::iterator`, holding the tree cursor `it`. */
  datatype Iterator = Iterator(it: Cursor)

  /** The two results of a postfix step: the value of the expression and
      the iterator itself after the step. */
  datatype Postfix = Postfix(yielded: Iterator, moved: Iterator)

  /** The iterator points at a key stored in `tree`. */
  predicate Dereferenceable(tree: seq<int>, i: Iterator) {
    i.it.Elem? && i.it.value in tree
  }

  /** `operator ==`: iterators are equal when their wrapped cursors are. */
  function Equal(a: Iterator, b: Iterator): (r: bool)
    ensures r <==> a.it == b.it
    ensures r <==> a == b
  {
    a.it == b.it
  }

  /** `operator !=`: the negation of `operator ==`. */
  function NotEqual(a: Iterator, b: Iterator): (r: bool)
    ensures r <==> !Equal(a, b)
  {
    a.it != b.it
  }

  /** `operator *`: the key under the iterator. Looking that key up again
      finds the same position. */
  function Deref(tree: seq<int>, i: Iterator): (r: int)
    requires Ordered(tree) && Dereferenceable(tree, i)
    ensures r in tree
    ensures Find(tree, r) == i.it
  {
    i.it.value
  }

  /** Prefix `operator ++`: moves to the in-order successor, or to `end()`
      after the last key, and yields the moved iterator. */
  function PreIncrement(tree: seq<int>, i: Iterator): (r: Iterator)
    requires Ordered(tree) && Dereferenceable(tree, i)
    ensures IsSuccessor(tree, i.it.value, r.it)
    ensures ValidCursor(tree, r.it)
  {
    Iterator(Successor(tree, i.it.value))
  }

  /** Postfix `operator ++`: yields the position held before the step. */
  function PostIncrement(tree: seq<int>, i: Iterator): (r: Postfix)
    requires Ordered(tree) && Dereferenceable(tree, i)
    ensures r.yielded == i
    ensures r.moved == PreIncrement(tree, i)
  {
    Postfix(i, Iterator(Successor(tree, i.it.value)))
  }

  /** Prefix `operator --`: moves to the in-order predecessor. */
  function PreDecrement(tree: seq<int>, i: Iterator): (r: Iterator)
    requires Ordered(tree) && Dereferenceable(tree, i)
    requires tree[0] < i.it.value
    ensures IsPredecessor(tree, i.it.value, r.it)
    ensures Dereferenceable(tree, r)
  {
    Iterator(Predecessor(tree, i.it.value))
  }

  /** Postfix `operator --`: yields the position held before the step. */
  function PostDecrement(tree: seq<int>, i: Iterator): (r: Postfix)
    requires Ordered(tree) && Dereferenceable(tree, i)
    requires tree[0] < i.it.value
    ensures r.yielded == i
    ensures r.moved == PreDecrement(tree, i)
  {
    Postfix(i, Iterator(Predecessor(tree, i.it.value)))
  }

  /** Stepping forward and then back returns to the starting key. */
  lemma IncrementThenDecrement(tree: seq<int>, i: Iterator)
    requires Ordered(tree) && Dereferenceable(tree, i)
    requires PreIncrement(tree, i).it != End
    ensures tree[0] < PreIncrement(tree, i).it.value
    ensures PreDecrement(tree, PreIncrement(tree, i)) == i
  {
  }

  /** Stepping back and then forward returns to the starting key. */
  lemma DecrementThenIncrement(tree: seq<int>, i: Iterator)
    requires Ordered(tree) && Dereferenceable(tree, i)
    requires tree[0] < i.it.value
    ensures PreIncrement(tree, PreDecrement(tree, i)) == i
  {
  }
}
