# Persistent size-augmented red-black tree

A model of the ordered map of `lib/tree.js`, `lib/forward-iterator.js` and
`lib/backward-iterator.js`. The map is a red-black tree whose nodes also store
their subtree size (`_count`). Every update copies the path from the root to
the changed node and returns a new `Tree` handle. Entries can be addressed by
key and by rank relative to a key.

Here a tree is a value:
`Tree<V> = Leaf | Node(color, left, key, value, right, count)`. Old versions
therefore never change, and the copy-on-write discipline of the source holds
by construction. Keys are `int`s; their order stands for the comparator's total
order. The sentinels `beforeStart` and `afterEnd` are the constructors
`BeforeStart` and `AfterEnd` of `Bound`. The `TypeError` thrown for a sentinel
key becomes `Err(InvalidKey)`.

The stacks of the source (`nStack`/`dStack` in `set` and `insert`, `stack` in
`find`, `ge`, `remove` and `fixDoubleBlack`) become a path of `Frame`s. A frame
is an ancestor without the child on the path, plus the direction taken. The
source's pointer tests (`pp.left === p`) become that direction. The loops that
rewrite the stack are methods with `while` loops over the path. Each method
ends in one of two ways. It can return a tree that is `Valid` (ordered, counts
right, root black, no red-red pair, equal black heights) with the expected
entries. Or it keeps the invariant of the source's loop (`Fixing` for the
insert fix-up, `Deficit` for the double-black cascade).

A generator becomes a function that returns the finite sequence it yields.
Values that are not nodes are the `Blank` (a bare `yield;`) and
`Residual(offset)` (a yielded number) constructors of `Item`. Rank results
that are either a node or a number become `Rank = Found(node) | Over(residual)`.

Modules: `Content` (sorted entry sequences and what `set`, `clear` and
`clearRange` do to them), `RbNode` (nodes and invariants), `Zipper` (paths),
`Search`, `Insertion`, `Removal`, `ForwardIter`, `BackwardIter`, `Rank`, and
`TreeMap` (the `Tree` class).

## Model

| member | source | states |
|---|---|---|
| RbNode.Recounted | lib/tree.js:10-12 | a recounted node holds its left entries, its own entry and its right entries, in that order; the count invariant carries over from the children |
| RbNode.CountIsSize | lib/tree.js:10-22 | when every `_count` is 1 + left + right, the root's count is the number of entries, so `length` is the map's size |
| RbNode.CountBeforePrefix | lib/tree.js:398-400 | in an ordered tree the keys before a boundary (`<`, or `<=` when inclusive) form a prefix of the in-order entries; `CountBefore - 1` is the last index before the boundary |
| RbNode.SameShapeKeeps | lib/tree.js:109-120 | trees with the same colours and counts in the same places agree on every colour and count invariant |
| RbNode.OrderedNode | lib/tree.js:257-269 | a node is ordered exactly when both subtrees are ordered, every left key is below its key and every right key is above it |
| Search.LookupNode | lib/tree.js:257-269 | `node` returns the node holding the key, whose value is the map's value for it; it returns none exactly when the key is absent |
| Search.Find | lib/tree.js:271-289 | `find` returns the path down to the node holding the key, or an empty stack exactly when the key is absent |
| Search.Ge | lib/tree.js:291-315 | `ge` returns a path to the least key at or after the start bound (the leftmost node for `beforeStart`), or an empty stack when every key lies before the bound |
| Insertion.Set | lib/tree.js:94-131 | the new root is valid and its entries are the old ones with `key` mapped to `value`; when the key was present, colours and counts stay unchanged everywhere |
| Insertion.Rebuild | lib/tree.js:109-120 | the copy loop of the upsert branch links each ancestor to its copied child and rebuilds exactly the plugged tree |
| Insertion.ReplaceValue | lib/tree.js:109-120 | replacing the value of the node holding the key keeps the tree valid and performs `Upsert` on the entries |
| Insertion.NewValueSameShape | lib/tree.js:109-120 | replacing one value keeps every colour and count of the tree |
| Insertion.Insert | lib/tree.js:467-613 | hanging a new red node in the key's gap, then fixing up, gives a valid tree whose entries are the old ones plus the new entry in order |
| Insertion.Bump | lib/tree.js:477-484 | after the copy loop every ancestor's `_count` is one more and every other field is unchanged |
| Insertion.Rebalance | lib/tree.js:486-613 | from the fix-up state (at most one red-red pair, at the hole) the loop and the final root blackening reach a valid tree with the same entries |
| Insertion.Recolour | lib/tree.js:496-501 | red uncle: parent and uncle turn black and the grandparent red; entries, count and black height of the subtree are kept |
| Insertion.RotateOuter | lib/tree.js:502-520 | parent and node on the same side: one rotation at the grandparent gives a red-red-free subtree with the same entries, count and black height |
| Insertion.RotateInner | lib/tree.js:528-549 | node on the inner side: the double rotation lifts the node and keeps entries, count and black height |
| Insertion.Lift | lib/tree.js:487-493 | after replacing the grandparent's subtree with an equivalent one, the fix-up state holds two levels up with the same overall entries |
| Removal.Clear | lib/tree.js:133-145 | the result is valid and holds the old entries without `key`; an absent key returns the same root |
| Removal.Remove | lib/tree.js:615-719 | removing the node on top of the stack gives a valid tree without that node's entry |
| Removal.SwapPredecessor | lib/tree.js:634-657 | a node with two children takes its in-order predecessor's key and value, and the predecessor node, which has no right child, is the one to unlink; colours and counts stay sound and the remaining entries are unchanged |
| Removal.Unlink | lib/tree.js:659-718 | unlinking a red leaf, a black node with one child, the only node, or a black leaf (via the cascade) leaves a sound tree holding the remaining entries |
| Removal.Shrink | lib/tree.js:664-666 | the decrement loop lowers every ancestor's `_count` by one and changes nothing else |
| Removal.Dropped | lib/tree.js:659-718 | after the counts drop, a red leaf's or single-child node's removal is sound, and a black leaf's removal is one black short on its side |
| Removal.FixDoubleBlack | lib/tree.js:721-922 | from a subtree one black short under the path, the cascade returns a sound tree with the same entries |
| Removal.Repair | lib/tree.js:731-791 | the terminating cases (far red nephew, near red nephew, red parent over a black sibling with black children) give a subtree that fills the missing black with the same entries and count |
| Removal.Rotate | lib/tree.js:795-823 | a red sibling rotates above the parent, which turns red; the short subtree keeps its deficit one level deeper, with the same entries |
| Removal.FarRed | lib/tree.js:731-755 | the far-nephew rotation fills the missing black and keeps entries and count |
| Removal.NearRed | lib/tree.js:757-783 | the near-nephew double rotation fills the missing black and keeps entries and count |
| Removal.Absorb | lib/tree.js:785-791 | a red parent trades colours with its black sibling and fills the missing black |
| Removal.PushUp | lib/tree.js:793-794 | black sibling and black parent: the sibling turns red and the parent's subtree becomes the short one, one level up |
| Removal.Deepen | lib/tree.js:810-822 | after the red-sibling rotation, the path with the two new frames is in the deficit state, with the same entries |
| Rank.ForwardOffset | lib/tree.js:349-379 | the result is the `offset`-th node in order (1-based) when the subtree has that many nodes; otherwise it is the residual `offset - count`, and `offset` itself for a missing subtree |
| Rank.BackwardOffset | lib/tree.js:317-347 | the result is the `-offset`-th node from the right when the subtree has that many nodes; otherwise it is the residual `offset + count`, and `offset` itself for a missing subtree |
| Rank.ForwardStep | lib/tree.js:355-377 | one pass of the `forwardOffset` loop keeps the answer: the `k`-th node is in the left subtree when `k <= count(left)`, is the node itself at `count(left) + 1`, and is otherwise the `(k - count(left) - 1)`-th of the right subtree, residual included |
| Rank.BackwardStep | lib/tree.js:323-345 | one pass of the `backwardOffset` loop keeps the answer: the `-k`-th node from the right is in the right subtree when `-k <= count(right)`, is the node itself at `-k = count(right) + 1`, and is otherwise counted on into the left subtree, residual included |
| Rank.FindNodeRank | lib/tree.js:381-465 | `findNode` returns the node at in-order index `base + offset` or the distance past either end, where `base` is -1 for `beforeStart`, the length for `afterEnd`, and the last index before the boundary for a key |
| Rank.FindInRank | lib/tree.js:402-462 | the inner recursive `find` gives the node at index `CountBefore - 1 + offset` of the subtree, or the signed distance outside it |
| TreeMap.Empty | lib/tree.js:15-18 | a new tree is valid and empty |
| TreeMap.Length | lib/tree.js:20-22 | `length` is the number of entries |
| TreeMap.Get | lib/tree.js:70-76 | a sentinel fails with `InvalidKey`; otherwise the result is the value under the key, or none |
| TreeMap.Set | lib/tree.js:94-131 | a sentinel fails before any change; otherwise the new tree is valid, the key reads back its new value, every other key keeps its value, the length grows by one only for a new key, and an upsert keeps the shape |
| TreeMap.Clear | lib/tree.js:133-145 | a sentinel fails; otherwise the new tree is valid, the key is gone, every other key keeps its value, the length drops by one only for a present key, and an absent key returns the same handle |
| TreeMap.ClearRange | lib/tree.js:233-254 | the result is valid and keeps exactly the entries whose keys are outside [start, end), with sentinels unbounded; when no key lies in the range it is the same handle |
| TreeMap.GetKey | lib/tree.js:78-92 | with the source's defaults `inclusive = false` and `offset = 1`, the result is the key at index `base + offset` of the sorted keys, `beforeStart` below index 0, and `afterEnd` at or past the length; a real key on an empty tree fails |
| TreeMap.GetKeyExample | test.js:223-259 | on any valid map with keys `[1, 2, 3, 5, 8]`: `getKey(4, false, 0)` is `3`, `getKey(4)` with the default offset `1` is `5`, `getKey(4, true, -3)` runs off to `beforeStart`, `getKey(beforeStart)` is `1` and `getKey(afterEnd, false, -1)` is `8` |
| TreeMap.Listing | lib/tree.js:24-34 | `entries` yields every entry once, ascending, or descending when reversed |
| TreeMap.ForwardFrom | lib/tree.js:36-51 | `forwardIterator(key, inclusive, offset)` yields the ascending entries from index `clamp(lastIndexBefore + offset, 0, length)` to the end |
| TreeMap.BackwardFrom | lib/tree.js:53-68 | `backwardIterator(key, inclusive, offset)` yields the descending entries from index `clamp(firstIndexBefore - offset, 0, length)` to the smallest key |
| TreeMap.Unwrap | lib/tree.js:30-32 | the `[key, value]` loop over a node iterator yields the entries those nodes carry, in order |
| ForwardIter.ForwardIteratorEntries | lib/forward-iterator.js:80-88 | the in-order traversal yields one node per entry, carrying exactly the entries in ascending key order |
| ForwardIter.ForwardOffsetIteratorTail | lib/forward-iterator.js:1-26 | for `offset <= -1` the offset traversal yields the last `-offset` nodes in order; when the subtree is smaller it yields the residual `offset + count` first and then every node, and a missing subtree yields just the residual |
| ForwardIter.IterateSeeks | lib/forward-iterator.js:29-64 | `iterate(n)` yields a marker (`undefined`, or the residual when the negative offset runs past the start) and then the nodes from the boundary, shifted back by a negative offset, to the end |
| ForwardIter.OnlyFirstIsMarker | lib/forward-iterator.js:29-64 | only the first value `iterate` yields can be something other than a node |
| ForwardIter.KeyedForwardIterator | lib/forward-iterator.js:28-78 | the wrapper drops the first value for a positive offset, skips `offset - 1` more, otherwise passes the first value only if it is a node; the result is the ascending nodes from `clamp(CountBefore - 1 + offset, 0, count)` to the end |
| BackwardIter.BackwardIsReverse | lib/backward-iterator.js:80-90 | the reverse traversal yields exactly the in-order nodes, reversed |
| BackwardIter.BackwardOffsetIteratorTail | lib/backward-iterator.js:1-26 | for `offset >= 1` the offset traversal yields the `offset` smallest nodes in descending order; when the subtree is smaller it yields the residual `offset - count` first and then every node, and a missing subtree yields just the residual |
| BackwardIter.IterateDownSeeks | lib/backward-iterator.js:29-64 | `iterate(n)` yields, for a positive offset, the residual when the offset runs past the largest key and then the descending nodes from `offset` places above the boundary; otherwise it yields the descending nodes before the boundary |
| BackwardIter.KeyedBackwardIterator | lib/backward-iterator.js:28-78 | the wrapper drops the first value and `-offset - 1` more for a negative offset, otherwise passes the first value if it is a node; the result is the descending nodes from `clamp(count - CountBefore - offset, 0, count)` to the end |
| BackwardIter.StartDown | lib/backward-iterator.js:66-67 | the started inner generator yields the `SeekDown` sequence from the first node at or after the boundary |
| BackwardIter.SkipDown | lib/backward-iterator.js:66-77 | the skip loop keeps the first value only for a non-negative offset when it is a node; otherwise it drops `-offset` values, or all of them if fewer remain |
| Content.UpsertLookup | lib/tree.js:94-131 | after `set(k, v)`, `k` reads `v` and every other key reads its old value |
| Content.UpsertLength | lib/tree.js:94-131 | `set` adds one entry exactly when the key is new |
| Content.UpsertSorted | lib/tree.js:94-131 | `set` keeps the keys strictly ascending |
| Content.WithoutLookup | lib/tree.js:133-145 | after `clear(k)`, `k` is absent and every other key reads its old value |
| Content.WithoutLength | lib/tree.js:133-145 | `clear` removes one entry exactly when the key is present |
| Content.WithoutIdempotent | lib/tree.js:133-145 | clearing a key twice is the same as clearing it once |
| Content.KeepOutsideLookup | lib/tree.js:233-254 | after `clearRange(start, end)` keys in [start, end) are absent and every other key keeps its value |

## Left out

- `getRange` (lib/tree.js:147-231): its only test is skipped, and it depends on object identity (`node === stopNode`) and on `Number.isInteger` limit coercion. No contract is validated for it, so it is not modelled.
- Laziness of the generators: every iterator is the finite sequence it yields. A consumer that stops early sees a prefix of it.
- The comparator: keys are `int`s compared by their order. A comparator that throws, or one that is not a total order, is not modelled.
- Sentinels as JavaScript `Symbol`s, the `typeof` checks and the error message text: these are replaced by the `Bound`, `Rank` and `Item` datatypes and `Err(InvalidKey)`.
- Pointer identity (`p.left === n`, `stack[i].left === v`): the direction stored in each frame replaces it. Which nodes are fresh copies and which are shared between versions is not modelled; since trees are values, no old version can change.
- Removal.Unlink: in the black-leaf case the source decrements the leaf's own `_count` to 0 and detaches it only after `fixDoubleBlack`. The model detaches it first, so the short subtree is `Leaf`. The counts and shapes that result are the same.
- TreeMap.ForwardFrom and TreeMap.BackwardFrom take a real key only: a sentinel passed to the keyed iterators reaches the comparator, whose behaviour on it is not defined.
- Rank.ForwardOffset and Rank.BackwardOffset require `offset >= 1` and `offset <= -1` respectively. Every caller in the source guarantees this, so a zero offset is never passed in.
- The concurrent publication of a root, the test suite and `Buffer` keys are not part of this model.
