# custom::set — a Dafny model

This project models `custom::set<T>` from `set.h`. It is an ordered container
without duplicates, together with its bidirectional `set<T>::iterator`. The set
is a thin adapter that owns one `custom::BST<T>` and holds no other state. Each
operation forwards to the tree:

- `insert` uses the tree's insert with the "reject duplicates" flag set;
- `erase(key)` finds the key and erases it through the iterator form;
- the range `erase` erases the front key and moves to the iterator returned
  by that erase, until it reaches the end of the range;
- initializer-list assignment clears and then inserts;
- move assignment clears and then swaps.

Keys are `int`. The tree's source (`bst.h`) is not part of this model. Its
contract is given abstractly in module `Bst`, which represents a tree by its
in-order key sequence. That sequence is strictly increasing, so it is sorted
and duplicate-free. A tree cursor is `Elem(v)` for the node holding key `v`,
or `End` for the one-past-last sentinel. Keys are unique, so naming a cursor by
its key is the same as naming it by its node. Erasing *other* keys leaves such
a cursor valid. The range-erase loop depends on this, because `itEnd` must
stay valid while earlier keys are erased.

Files:

- `bst.dfy` — module `Bst`, the tree contract the adapter relies on:
  - ordered insert with duplicate rejection;
  - node removal that returns the next cursor;
  - `find`, `begin`, in-order successor and predecessor;
  - lemmas: an ordered sequence is determined by its keys, node count equals
    key count, and how a forward step extends a visited span.
- `iterator.dfy` — module `SetIterator`, the iterator operators.
- `set.dfy` — module `CustomSet`:
  - construction and the three assignments;
  - `swap`, `begin`/`end`/`find`, `empty`/`size`;
  - every `insert` and `erase` overload.
- `properties.dfy` — module `SetProperties`, properties that relate several
  calls: erase twice, find after erase, insert twice, swap twice, move
  assignment against swap, in-order traversal,
  order-independence of list insertion, and a worked example
  {5, 3, 8, 3, 1}.

Sets are immutable values. A C++ member function that mutates `*this`
returns the new `Set` here, together with its C++ return value (an
`InsertResult`, `EraseResult`, `CountResult` or `Pair`).

## Model

| member | source | states |
|---|---|---|
| `CustomSet.Default` | set.h:43 | the default constructor yields a valid, empty set |
| `CustomSet.ListConstruct` | set.h:49 | the initializer-list constructor holds exactly the keys of the list, sorted and without duplicates |
| `CustomSet.RangeConstruct` | set.h:50-55 | the range constructor over a range of another set holds exactly the keys of that range; constructing from another set's `begin()` to `end()` reproduces that set |
| `CustomSet.CopyAssign` | set.h:62-68 | copy assignment yields the right-hand side; the clear done when the root is null never changes the result |
| `CustomSet.MoveAssign` | set.h:70-75 | after clear-then-swap, the left-hand side holds the right-hand side's former contents, whatever it held before, and the right-hand side is empty |
| `CustomSet.ListAssign` | set.h:76-83 | initializer-list assignment holds exactly the listed keys, whatever the prior contents |
| `CustomSet.Swap` | set.h:84-89 | the two sets exchange their contents |
| `CustomSet.Begin` | set.h:96-99 | `begin()` is `end()` exactly when the set is empty; otherwise it points at the least key |
| `CustomSet.EndOf` | set.h:100-103 | `end()` is never dereferenceable, and `begin()` equals it exactly when the set is empty |
| `CustomSet.Find` | set.h:108-111 | `find(t)` is an iterator at `t` when `t` is present and `end()` otherwise |
| `CustomSet.IsEmpty` | set.h:116-119 | `empty()` holds exactly when the set has no keys |
| `CustomSet.Size` | set.h:120-123 | `size()` is the number of distinct keys |
| `CustomSet.Insert` | set.h:128-137 | an absent key is added and the size grows by one, with result true; for a present key the set is unchanged and the result is false; either way the iterator points at the key |
| `CustomSet.InsertAll` | set.h:138-142 | inserting a list gives the old keys together with the listed keys, still sorted and duplicate-free |
| `CustomSet.InsertRange` | set.h:143-148 | inserting a range of another set gives the old keys together with exactly the keys of the range |
| `CustomSet.CopyStep` | set.h:146-147 | one pass of the range-insert loop adds exactly the key under the iterator and leaves one key fewer ahead of it |
| `CustomSet.Clear` | set.h:154-157 | `clear()` leaves a valid, empty set |
| `CustomSet.EraseAt` | set.h:158-161 | erasing at an iterator removes exactly its key, keeps every other key, shrinks the size by one, and returns the in-order successor, or `end()` after the last key |
| `CustomSet.EraseKey` | set.h:162-170 | `erase(key)` returns 1 and removes only the key when it is present; otherwise it returns 0 and leaves the set unchanged |
| `CustomSet.EraseRange` | set.h:171-176 | when `itEnd` is reachable from `itBegin`, exactly the keys in `[itBegin, itEnd)` are removed, the rest are kept, the loop ends because each pass removes a node, `itEnd` stays valid and is returned, and the caller's by-reference `itBegin` ends equal to `itEnd` |
| `CustomSet.EraseStep` | set.h:173-174 | one pass of the range-erase loop removes exactly the key under `itBegin` and moves `itBegin` to the next surviving key of the original range |
| `SetIterator.NotEqual` | set.h:208-211 | `!=` is the negation of `==` |
| `SetIterator.Equal` | set.h:212-215 | `==` holds exactly when the wrapped cursors are equal |
| `SetIterator.Deref` | set.h:218-221 | dereferencing yields a stored key, and finding that key leads back to the same position |
| `SetIterator.PreIncrement` | set.h:224-228 | prefix `++` moves to the in-order successor, or to `end()` after the last key |
| `SetIterator.PostIncrement` | set.h:231-236 | postfix `++` yields the position it held before the step and moves exactly as prefix `++` does |
| `SetIterator.PreDecrement` | set.h:239-243 | prefix `--` moves to the in-order predecessor |
| `SetIterator.PostDecrement` | set.h:246-251 | postfix `--` yields the position it held before the step and moves exactly as prefix `--` does |
| `SetIterator.IncrementThenDecrement` | set.h:224-243 | `--` undoes `++` when `++` did not reach `end()` |
| `SetIterator.DecrementThenIncrement` | set.h:224-243 | `++` undoes `--` |
| `Bst.InsertUnique` | set.h:130 | the tree's `insert(t, true)` adds `t` only when it is absent, reports whether it did, and returns a cursor at `t` |
| `Bst.Insert` | set.h:130 | ordered insertion keeps the key sequence strictly increasing and adds exactly the new key |
| `Bst.InsertSize` | set.h:130 | inserting a present key leaves the tree as it was; inserting an absent key adds exactly one node |
| `Bst.EraseNode` | set.h:160 | the tree's `erase` removes exactly one node and returns the cursor at the next key |
| `Bst.Remove` | set.h:160 | ordered removal keeps the key sequence strictly increasing and removes exactly the given key |
| `Bst.Find` | set.h:110 | the tree's `find` yields a cursor at the key when it is stored, and `End` otherwise |
| `Bst.Search` | set.h:110 | the search between two bounds finds the key when it is stored, and yields `End` otherwise |
| `Bst.First` | set.h:98 | the tree's `begin()` is the least key, or `End` exactly when the tree is empty |
| `Bst.Successor` | set.h:226 | the cursor's `++` goes to the least key above the current one, or to `End` |
| `Bst.Predecessor` | set.h:241 | the cursor's `--` goes to the greatest key below the current one |
| `Bst.SuccessorAt` | set.h:226 | in the in-order sequence, the successor of the key at index k is the key at index k + 1 |
| `Bst.OrderedLength` | set.h:122 | the tree's node count equals its number of distinct keys |
| `Bst.OrderedDeterminedByKeys` | set.h:184 | two trees holding the same keys have the same in-order sequence |
| `Bst.SpanStep` | set.h:173-174 | one forward step from a key adds exactly that key to the visited span, as long as every key above it is still present |
| `Bst.StepAhead` | set.h:146 | one forward step leaves exactly one key fewer ahead of the iterator |
| `SetProperties.EraseKeyTwice` | set.h:162-170 | `erase(key)` twice in a row returns 1 then 0 for a present key, and the second call changes nothing |
| `SetProperties.FindAfterErase` | set.h:158-161 | after `erase(find(x))`, `find(x)` returns `end()` |
| `SetProperties.InsertTwice` | set.h:128-132 | a second insert of the same key is rejected, changes nothing and points at the same key |
| `SetProperties.InsertThenErase` | set.h:162-170 | erasing a freshly inserted key returns 1 and restores the original set |
| `SetProperties.SwapTwice` | set.h:84-89 | swapping twice restores both sets |
| `SetProperties.MoveAssignVersusSwap` | set.h:70-75 | move assignment gives the left-hand side what `swap` would, and leaves the right-hand side empty |
| `SetProperties.SameContentsSameSet` | set.h:184 | a set is determined by its keys alone |
| `SetProperties.ListAssignKeysOnly` | set.h:76-83 | initializer-list assignment depends only on which keys are listed, not on their order, their repetitions or the prior contents |
| `SetProperties.InsertAllKeysOnly` | set.h:138-142 | list insertion depends only on which keys are listed, not on their order or repetitions |
| `SetProperties.Traverse` | set.h:224-228 | iterating by `++` from `begin()` to `end()` yields every key exactly once, in strictly ascending order |
| `SetProperties.ScenarioSteps` | set.h:128-132 | the first single inserts of a worked example: 5, 3 and 8 into an empty tree, each placed in order |
| `SetProperties.ScenarioRepeat` | set.h:128-132 | in that worked example a repeated 3 is rejected and changes nothing, and 1 then goes in front |
| `SetProperties.ScenarioInsert` | set.h:138-142 | inserting 5, 3, 8, 3, 1 gives 1, 3, 5, 8, which has size 4 |
| `SetProperties.ScenarioErase` | set.h:162-170 | erasing 3 from {1, 3, 5, 8} returns 1 and leaves {1, 5, 8}; erasing 3 again returns 0 |

## Left out

- Relational operators (set.h:266-292): `==`, `!=`, `<` and `>` on sets each call themselves, so they recurse without end. No terminating behaviour exists to model, and the code does not contain the intended lexicographic comparison.
- The tree itself: `bst.h` is not part of this model. Only the contract the adapter uses is given (module `Bst`), and the tree's descent in `find` is written as a binary search of the in-order sequence.
- Copy versus move construction (set.h:44-48), the destructor, `noexcept`, `std::move`, and the copy and move forms of `insert`: all collapse to value semantics. In the same way, `swap` copies the tree through a temporary rather than exchanging pointers, which gives the same values.
- Aliasing: with sets as values, no `Set` can be assigned to itself. Self move assignment (`s = std::move(s)`) clears the set and then swaps it with itself, which leaves it empty. That case is not modelled.
- The default iterator constructor (set.h:197): its cursor is a null pointer. Whether it equals `end()` depends on how `bst.h` represents the sentinel, which is not part of this model. The iterator's copy constructor and copy assignment (set.h:198-204) are value copies.
- Misuse whose outcome set.h leaves to the tree is excluded by preconditions rather than modelled: dereferencing or stepping `end()`, decrementing the first key, erasing at `end()`, and a range whose end is not reachable from its start. What the tree does in these cases is decided in bst.h, which is not part of this model.
- `SetIterator.PreDecrement`: decrementing `end()` is not modelled, because set.h forwards `--` to the tree cursor and what that cursor does on the end sentinel is decided in bst.h, which is not part of this model; a standard container would move to the last key there.
- `SetIterator.PostDecrement`: excludes `end()` for the same reason as `SetIterator.PreDecrement`, since it forwards to the same `--` of the tree cursor.
- `CustomSet.InsertRange` and `CustomSet.RangeConstruct`: the source templates accept any input iterator. The model instantiates them with iterators over another set. A general input sequence is covered by `CustomSet.InsertAll`, which runs the same loop over a list.
- The `DEBUG` visibility toggles, and the `iostream` and `cassert` includes.
