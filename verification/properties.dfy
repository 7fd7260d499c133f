/**
 Properties of the set that relate several calls: repeated erase and
 insert, find after erase, traversal from `begin()` to `end()`, and the
 independence of list assignment from the order of the list.
 */
module SetProperties {
  import Bst
  import opened SetIterator
  import opened CustomSet

  /** `erase(key)` twice in a row: the first call reports whether the key
      was there, the second always reports 0 and changes nothing. */
  lemma EraseKeyTwice(s: Set, t: int)
    requires s.Valid()
    ensures EraseKey(s, t).count == (if t in Contents(s) then 1 else 0)
    ensures EraseKey(EraseKey(s, t).after, t).count == 0
    ensures EraseKey(EraseKey(s, t).after, t).after == EraseKey(s, t).after
  {
  }

  /** `erase(find(x))` followed by `find(x)` gives `end()`. */
  lemma FindAfterErase(s: Set, x: int)
    requires s.Valid() && x in Contents(s)
    ensures Find(EraseAt(s, Find(s, x)).after, x) == EndOf(EraseAt(s, Find(s, x)).after)
  {
  }

  /** A second `insert` of the same key reports failure, returns an
      iterator at the key and leaves the set as the first insert left it. */
  lemma InsertTwice(s: Set, t: int)
    requires s.Valid()
    ensures !Insert(Insert(s, t).after, t).inserted
    ensures Insert(Insert(s, t).after, t).after == Insert(s, t).after
    ensures Insert(Insert(s, t).after, t).it == Insert(s, t).it
  {
  }

  /** Inserting a key and erasing it again restores a set that lacked it. */
  lemma InsertThenErase(s: Set, t: int)
    requires s.Valid() && t !in Contents(s)
    ensures EraseKey(Insert(s, t).after, t) == CountResult(s, 1)
  {
    var r := EraseKey(Insert(s, t).after, t).after;
    Bst.OrderedDeterminedByKeys(r.tree, s.tree);
  }

  /** Swapping twice restores both sets. */
  lemma SwapTwice(a: Set, b: Set)
    ensures Swap(Swap(a, b).lhs, Swap(a, b).rhs) == Pair(a, b)
  {
  }

  /** Move assignment gives the left-hand side what `swap` would give it,
      but leaves the right-hand side empty instead of holding the old
      left-hand side. */
  lemma MoveAssignVersusSwap(a: Set, b: Set)
    ensures MoveAssign(a, b).lhs == Swap(a, b).lhs
    ensures MoveAssign(a, b).rhs == Default()
  {
  }

  /** Two sets holding the same keys are the same set: the tree shape seen
      through in-order traversal depends on the keys only. */
  lemma SameContentsSameSet(a: Set, b: Set)
    requires a.Valid() && b.Valid()
    requires Contents(a) == Contents(b)
    ensures a == b
  {
    Bst.OrderedDeterminedByKeys(a.tree, b.tree);
  }

  /** Initializer-list assignment depends only on which keys the list
      holds: not on their order, their repetitions or the prior contents. */
  lemma ListAssignKeysOnly(a: Set, b: Set, xs: seq<int>, ys: seq<int>)
    requires Bst.Keys(xs) == Bst.Keys(ys)
    ensures ListAssign(a, xs) == ListAssign(b, ys)
  {
    SameContentsSameSet(ListAssign(a, xs), ListAssign(b, ys));
  }

  /** Inserting a list is the union of the set with the listed keys: the
      order of the list and its duplicates do not matter. */
  lemma InsertAllKeysOnly(s: Set, xs: seq<int>, ys: seq<int>)
    requires s.Valid()
    requires Bst.Keys(xs) == Bst.Keys(ys)
    ensures InsertAll(s, xs) == InsertAll(s, ys)
  {
    SameContentsSameSet(InsertAll(s, xs), InsertAll(s, ys));
  }

  /** Iterating from `begin()` to `end()` by prefix increment visits every
      key exactly once, in strictly ascending order. */
  method Traverse(s: Set) returns (keys: seq<int>)
    requires s.Valid()
    ensures Bst.Ordered(keys)
    ensures Bst.Keys(keys) == Contents(s)
    ensures |keys| == Size(s)
  {
    keys := [];
    var it := Begin(s);
    while NotEqual(it, EndOf(s))
      invariant |keys| <= |s.tree|
      invariant keys == s.tree[..|keys|]
      invariant it.it == if |keys| < |s.tree| then Bst.Elem(s.tree[|keys|]) else Bst.End
      decreases |s.tree| - |keys|
    {
      Bst.SuccessorAt(s.tree, |keys|);
      keys := keys + [Deref(s.tree, it)];
      it := PreIncrement(s.tree, it);
    }
    assert keys == s.tree;
  }

  /** The first insertions of a worked example, on the tree: 5, 3 and 8
      into an empty tree, each placed in order. */
  lemma ScenarioSteps()
    ensures Bst.Insert([], 5) == [5]
    ensures Bst.Insert([5], 3) == [3, 5]
    ensures Bst.Insert([3, 5], 8) == [3, 5, 8]
  {
    assert Bst.Insert([5], 8) == [5, 8];
  }

  /** The last insertions of that worked example: a repeated 3 is rejected
      and changes nothing, then 1 goes in front. */
  lemma ScenarioRepeat()
    ensures !Insert(Set([3, 5, 8]), 3).inserted
    ensures Insert(Set([3, 5, 8]), 3).after == Set([3, 5, 8])
    ensures Insert(Set([3, 5, 8]), 1).after == Set([1, 3, 5, 8])
  {
    assert 3 in [3, 5, 8];
    assert Bst.Insert([3, 5, 8], 1) == [1, 3, 5, 8];
  }

  /** A worked example: inserting 5, 3, 8, 3, 1 gives the four keys
      1, 3, 5, 8 in order, the repeated 3 being rejected. */
  lemma ScenarioInsert()
    ensures ListConstruct([5, 3, 8, 3, 1]) == Set([1, 3, 5, 8])
    ensures Size(ListConstruct([5, 3, 8, 3, 1])) == 4
  {
    ScenarioSteps();
    ScenarioRepeat();
    assert InsertAll(Set([3, 5, 8]), [1]) == Set([1, 3, 5, 8]);
    assert InsertAll(Set([3, 5, 8]), [3, 1]) == Set([1, 3, 5, 8]);
    assert InsertAll(Set([3, 5]), [8, 3, 1]) == Set([1, 3, 5, 8]);
    assert InsertAll(Set([5]), [3, 8, 3, 1]) == Set([1, 3, 5, 8]);
    assert InsertAll(Set([]), [5, 3, 8, 3, 1]) == Set([1, 3, 5, 8]);
  }

  /** Continuing that worked example: erasing 3 reports 1 and leaves 1, 5, 8;
      erasing 3 again reports 0. */
  lemma ScenarioErase()
    ensures EraseKey(Set([1, 3, 5, 8]), 3) == CountResult(Set([1, 5, 8]), 1)
    ensures EraseKey(Set([1, 5, 8]), 3) == CountResult(Set([1, 5, 8]), 0)
  {
    assert Bst.Remove([5, 8], 3) == [5, 8];
    assert Bst.Remove([3, 5, 8], 3) == [5, 8];
    assert Bst.Remove([1, 3, 5, 8], 3) == [1, 5, 8];
    assert 3 !in [1, 5, 8];
  }
}
