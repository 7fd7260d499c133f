/**
 The contract the set adapter relies on from its binary search tree.

 The tree itself (nodes, parent links, rebalancing) is not part of this model.
 A tree is represented by its in-order key sequence, which is strictly
 increasing: sorted and free of duplicates. A tree cursor names the key it
 points at, or is the one-past-last sentinel `End`. Because keys are unique,
 naming a cursor by its key is the same as naming it by its node, and such a
 cursor stays meaningful when other keys are erased.
 */
module Bst {

  /** The in-order key sequence of a tree: strictly increasing. */
  predicate Ordered(s: seq<int>) {
    forall i, j :: 0 <= i < j < |s| ==> s[i] < s[j]
  }

  /** The keys stored in a tree, forgetting their order. */
  function Keys(s: seq<int>): (r: set<int>)
    ensures forall x :: x in r <==> x in s
  {
    set x | x in s
  }

  /** A position in a tree: at a stored key, or one past the last key. */
  datatype Cursor = Elem(value: int) | End

  /** A cursor that refers to a live position of tree `s`. */
  predicate ValidCursor(s: seq<int>, c: Cursor) {
    c == End || c.value in s
  }

  /** `c` is where in-order traversal goes after key `v` of `s`:
      the least key above `v`, or `End` when no key is above `v`. */
  predicate IsSuccessor(s: seq<int>, v: int, c: Cursor) {
    match c
    case End => forall x :: x in s ==> x <= v
    case Elem(w) => w in s && v < w && forall x :: x in s && v < x ==> w <= x
  }

  /** `c` is where in-order traversal goes before key `v` of `s`:
      the greatest key below `v`. */
  predicate IsPredecessor(s: seq<int>, v: int, c: Cursor) {
    c.Elem? && c.value in s && c.value < v &&
    forall x :: x in s && x < v ==> x <= c.value
  }

  /** Removing the head of an ordered sequence removes exactly its least key. */
  lemma TailKeys(s: seq<int>)
    requires Ordered(s) && |s| > 0
    ensures Keys(s[1..]) == Keys(s) - {s[0]}
    ensures forall x :: x in s[1..] ==> s[0] < x
    ensures forall x :: x in s <==> x == s[0] || x in s[1..]
  {
  }

  /** The keys of a non-empty sequence are its head and the keys of its tail. */
  lemma HeadKeys(s: seq<int>)
    requires |s| > 0
    ensures Keys(s) == {s[0]} + Keys(s[1..])
  {
  }

  /** An ordered sequence is determined by its keys: two trees that hold
      the same keys have the same in-order sequence. */
  lemma {:induction false} OrderedDeterminedByKeys(a: seq<int>, b: seq<int>)
    requires Ordered(a) && Ordered(b)
    requires Keys(a) == Keys(b)
    ensures a == b
    decreases |a|
  {
    if |a| == 0 || |b| == 0 {
      OrderedLength(a);
      OrderedLength(b);
    } else {
      assert a[0] in Keys(b);
      assert b[0] in Keys(a);
      var i :| 0 <= i < |b| && b[i] == a[0];
      var j :| 0 <= j < |a| && a[j] == b[0];
      assert b[0] <= b[i];
      assert a[0] <= a[j];
      TailKeys(a);
      TailKeys(b);
      OrderedDeterminedByKeys(a[1..], b[1..]);
      assert a == [a[0]] + a[1..];
      assert b == [b[0]] + b[1..];
    }
  }

  /** A tree holds as many nodes as distinct keys. */
  lemma {:induction false} OrderedLength(s: seq<int>)
    requires Ordered(s)
    ensures |Keys(s)| == |s|
    decreases |s|
  {
    if |s| > 0 {
      TailKeys(s);
      OrderedLength(s[1..]);
      assert Keys(s) == Keys(s[1..]) + {s[0]};
    }
  }

  /** Putting a key below every key of a tree in front keeps it ordered. */
  lemma Cons(h: int, t: seq<int>)
    requires Ordered(t)
    requires forall x :: x in t ==> h < x
    ensures Ordered([h] + t)
    ensures Keys([h] + t) == {h} + Keys(t)
    ensures forall x :: x in [h] + t <==> x == h || x in t
  {
    var r := [h] + t;
    forall i, j | 0 <= i < j < |r|
      ensures r[i] < r[j]
    {
      assert r[j] == t[j - 1] && t[j - 1] in t;
      if i > 0 {
        assert r[i] == t[i - 1];
      }
    }
  }

  /** Insertion with duplicate rejection: the tree's `insert(t, true)`.
      A present key leaves the tree unchanged; an absent key is placed in
      order and adds one node. */
  function Insert(s: seq<int>, x: int): (r: seq<int>)
    requires Ordered(s)
    ensures Ordered(r)
    ensures Keys(r) == Keys(s) + {x}
    decreases |s|
  {
    if |s| == 0 then [x]
    else
      TailKeys(s);
      if x < s[0] then
        Cons(x, s);
        [x] + s
      else if x == s[0] then s
      else
        var rest := Insert(s[1..], x);
        Cons(s[0], rest);
        [s[0]] + rest
  }

  /** Insertion of a present key leaves the tree as it was; insertion of an
      absent key adds exactly one node. */
  lemma InsertSize(s: seq<int>, x: int)
    requires Ordered(s)
    ensures x in s ==> Insert(s, x) == s
    ensures x !in s ==> |Insert(s, x)| == |s| + 1
  {
    var r := Insert(s, x);
    OrderedLength(s);
    OrderedLength(r);
    if x in s {
      OrderedDeterminedByKeys(r, s);
    }
  }

  /** What the tree's `insert(t, true)` hands back: the new tree, a cursor
      and whether a node was added. */
  datatype Inserted = Inserted(tree: seq<int>, at: Cursor, inserted: bool)

  /** The tree's `insert(t, true)`: rejects a duplicate and reports a cursor
      at the node holding `x`, old or new. */
  function InsertUnique(s: seq<int>, x: int): (r: Inserted)
    requires Ordered(s)
    ensures Ordered(r.tree) && Keys(r.tree) == Keys(s) + {x}
    ensures r.at == Elem(x)
    ensures r.inserted <==> x !in s
    ensures !r.inserted ==> r.tree == s
  {
    InsertSize(s, x);
    Inserted(Insert(s, x), Elem(x), x !in s)
  }

  /** Node removal: the tree's `erase`. Exactly key `x` disappears. */
  function Remove(s: seq<int>, x: int): (r: seq<int>)
    requires Ordered(s)
    ensures Ordered(r)
    ensures Keys(r) == Keys(s) - {x}
    ensures x !in s ==> r == s
    ensures x in s ==> |r| == |s| - 1
    decreases |s|
  {
    if |s| == 0 then s
    else if x < s[0] then
      TailKeys(s);
      s
    else if x == s[0] then
      TailKeys(s);
      s[1..]
    else
      TailKeys(s);
      var rest := Remove(s[1..], x);
      Cons(s[0], rest);
      [s[0]] + rest
  }

  /** The tree's `find`: the descent from the root, written as a search of
      the in-order sequence between `lo` and `hi`, outside which no key
      equals `t`. */
  function Search(s: seq<int>, t: int, lo: nat, hi: nat): (r: Cursor)
    requires Ordered(s)
    requires lo <= hi <= |s|
    requires forall i :: 0 <= i < lo ==> s[i] < t
    requires forall i :: hi <= i < |s| ==> t < s[i]
    ensures t in s ==> r == Elem(t)
    ensures t !in s ==> r == End
    decreases hi - lo
  {
    if lo == hi then End
    else
      var mid := (lo + hi) / 2;
      if s[mid] == t then Elem(t)
      else if s[mid] < t then Search(s, t, mid + 1, hi)
      else Search(s, t, lo, mid)
  }

  /** `find(t)`: a cursor at `t` when it is stored, `End` otherwise. */
  function Find(s: seq<int>, t: int): (r: Cursor)
    requires Ordered(s)
    ensures t in s ==> r == Elem(t)
    ensures t !in s ==> r == End
  {
    Search(s, t, 0, |s|)
  }

  /** `begin()`: the least key, or `End` for an empty tree. */
  function First(s: seq<int>): (r: Cursor)
    requires Ordered(s)
    ensures r == End <==> |s| == 0
    ensures r.Elem? ==> r.value in s && forall x :: x in s ==> r.value <= x
  {
    if |s| == 0 then End else Elem(s[0])
  }

  /** In-order successor of stored key `v`. */
  function Successor(s: seq<int>, v: int): (r: Cursor)
    requires Ordered(s) && v in s
    ensures IsSuccessor(s, v, r)
    decreases |s|
  {
    TailKeys(s);
    if s[0] == v then
      if |s| == 1 then End else Elem(s[1])
    else
      Successor(s[1..], v)
  }

  /** What the tree's `erase(cursor)` hands back: the new tree and the cursor
      that followed the erased node. */
  datatype Erased = Erased(tree: seq<int>, next: Cursor)

  /** The tree's `erase(cursor)` on the node holding `v`. */
  function EraseNode(s: seq<int>, v: int): (r: Erased)
    requires Ordered(s) && v in s
    ensures Ordered(r.tree) && Keys(r.tree) == Keys(s) - {v}
    ensures |r.tree| == |s| - 1
    ensures IsSuccessor(s, v, r.next)
    ensures ValidCursor(r.tree, r.next)
  {
    Erased(Remove(s, v), Successor(s, v))
  }

  /** In-order predecessor of stored key `v`, which is not the least key. */
  function Predecessor(s: seq<int>, v: int): (r: Cursor)
    requires Ordered(s) && v in s
    requires s[0] < v
    ensures IsPredecessor(s, v, r)
    decreases |s|
  {
    TailKeys(s);
    if s[1] == v then Elem(s[0])
    else
      Predecessor(s[1..], v)
  }

  /** Key `x` comes before cursor `c` in in-order traversal. */
  predicate Before(x: int, c: Cursor) {
    c == End || x < c.value
  }

  /** The keys of `s` visited from cursor `a` (inclusive) up to cursor `b`
      (exclusive). */
  function Span(s: seq<int>, a: Cursor, b: Cursor): (r: set<int>)
    ensures r <= Keys(s)
  {
    if a == End then {} else set x | x in s && a.value <= x && Before(x, b)
  }

  /** Cursor `b` is reached from cursor `a` by stepping forward. */
  predicate Reaches(a: Cursor, b: Cursor) {
    a == b || (a.Elem? && (b == End || a.value <= b.value))
  }

  /** One forward step from key `c` extends a visited span by exactly `c`,
      provided the step is taken in a tree `r` that still holds every key of
      `s` above `c`. */
  lemma SpanStep(s: seq<int>, r: seq<int>, a: Cursor, c: int, n: Cursor)
    requires a.Elem? && a.value <= c && c in s
    requires forall x :: x in s && c < x ==> x in r
    requires IsSuccessor(r, c, n)
    ensures Span(s, a, n) == Span(s, a, Elem(c)) + {c}
  {
  }

  /** A forward step from key `c` leaves exactly `c` behind: the keys still
      ahead shrink by `c`. */
  lemma StepAhead(s: seq<int>, c: int, n: Cursor)
    requires c in s
    requires IsSuccessor(s, c, n)
    ensures c in Span(s, Elem(c), End)
    ensures Span(s, n, End) == Span(s, Elem(c), End) - {c}
  {
  }

  /** In an ordered sequence the successor of the key at index `k` is the
      key at index `k + 1`, or `End` after the last index. */
  lemma SuccessorAt(s: seq<int>, k: nat)
    requires Ordered(s) && k < |s|
    ensures Successor(s, s[k]) == if k + 1 < |s| then Elem(s[k + 1]) else End
  {
    if k + 1 < |s| {
      assert s[k + 1] in s;
    }
  }
}
