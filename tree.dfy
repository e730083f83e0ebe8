/** The `Tree` class of lib/tree.js: an immutable handle on a root node.
    Every update returns a new handle and leaves the old one as it was, so
    a handle is a value here. A real key is an `int`; the two sentinels are
    the other constructors of `Bound`, and the source's `TypeError` for a
    sentinel key is the `Err` case of `Result`. */
module TreeMap {
  import opened Content
  import opened RbNode
  import opened Zipper
  import opened Search
  import opened ForwardIter
  import opened BackwardIter
  import opened Rank
  import Insertion
  import Removal

  /** A tree handle (lib/tree.js:14-18); the comparator is the order of
      `int`. */
  datatype Map<V> = Map(root: Tree<V>)

  /** The reasons the source throws. */
  datatype Error = InvalidKey | NoRoot

  datatype Result<T> = Ok(value: T) | Err(error: Error)

  /** The handle the source's users start from: `new Tree(compare)`. */
  function Empty<V>(): (m: Map<V>)
    ensures Valid(m.root) && Entries(m.root) == []
  {
    Map(Leaf)
  }

  /** `length` (lib/tree.js:20-22): the count stored at the root. */
  function Length<V>(m: Map<V>): (n: nat)
    requires Valid(m.root)
    ensures n == |Entries(m.root)|
  {
    CountIsSize(m.root);
    Count(m.root)
  }

  /** `get(key)` (lib/tree.js:71-77): the value under `key`, none when the
      key is absent, and an error for a sentinel. */
  method Get<V>(m: Map<V>, key: Bound) returns (r: Result<Option<V>>)
    requires Valid(m.root)
    ensures !key.Key? <==> r == Err(InvalidKey)
    ensures key.Key? ==> r == Ok(Lookup(Entries(m.root), key.k))
  {
    if !key.Key? {
      return Err(InvalidKey);
    }
    var n := LookupNode(key.k, m.root);
    r := Ok(if n.Node? then Some(n.value) else None);
  }

  /** `set(key, value)` (lib/tree.js:94-131): a new handle in which `key`
      maps to `value` and every other key keeps its value; the old handle is
      untouched. */
  method Set<V>(m: Map<V>, key: Bound, value: V) returns (r: Result<Map<V>>)
    requires Valid(m.root)
    ensures !key.Key? <==> r == Err(InvalidKey)
    ensures r.Ok? ==> Valid(r.value.root) && Entries(r.value.root) == Upsert(Entries(m.root), key.k, value)
    ensures r.Ok? ==> forall k :: (Lookup(Entries(r.value.root), k) ==
      if k == key.k then Some(value) else Lookup(Entries(m.root), k))
    ensures r.Ok? ==> Length(r.value) == Length(m) + (if Lookup(Entries(m.root), key.k).None? then 1 else 0)
    ensures r.Ok? && Lookup(Entries(m.root), key.k).Some? ==> SameShape(m.root, r.value.root)
  {
    if !key.Key? {
      return Err(InvalidKey);
    }
    var root := Insertion.Set(m.root, key.k, value);
    forall k {
      UpsertLookup(Entries(m.root), key.k, value, k);
    }
    UpsertLength(Entries(m.root), key.k, value);
    r := Ok(Map(root));
  }

  /** `clear(key)` (lib/tree.js:133-145): a new handle without `key`; every
      other key keeps its value, and an absent key returns the same
      handle. */
  method Clear<V>(m: Map<V>, key: Bound) returns (r: Result<Map<V>>)
    requires Valid(m.root)
    ensures !key.Key? <==> r == Err(InvalidKey)
    ensures r.Ok? ==> Valid(r.value.root) && Entries(r.value.root) == Without(Entries(m.root), key.k)
    ensures r.Ok? ==> forall k :: (Lookup(Entries(r.value.root), k) ==
      if k == key.k then None else Lookup(Entries(m.root), k))
    ensures r.Ok? ==> Length(r.value) == Length(m) - (if Lookup(Entries(m.root), key.k).Some? then 1 else 0)
    ensures r.Ok? && Lookup(Entries(m.root), key.k).None? ==> r.value == m
  {
    if !key.Key? {
      return Err(InvalidKey);
    }
    var root := Removal.Clear(m.root, key.k);
    forall k {
      WithoutLookup(Entries(m.root), key.k, k);
    }
    WithoutLength(Entries(m.root), key.k);
    r := Ok(Map(root));
  }

  /** `clearRange(start, end)` (lib/tree.js:233-254): removes every key in
      [start, end) one at a time -- the least key at or after `start`, while
      it lies before `end` -- and keeps every other entry; an empty range
      returns the same handle. */
  method ClearRange<V>(m: Map<V>, start: Bound, end: Bound) returns (r: Map<V>)
    requires Valid(m.root)
    ensures Valid(r.root) && Entries(r.root) == KeepOutside(Entries(m.root), start, end)
    ensures forall k :: Lookup(Entries(r.root), k) == if InRange(k, start, end) then None else Lookup(Entries(m.root), k)
    ensures (forall i :: 0 <= i < |Entries(m.root)| ==> !InRange(Entries(m.root)[i].0, start, end)) ==> r == m
  {
    forall k {
      KeepOutsideLookup(Entries(m.root), start, end, k);
    }
    if start.AfterEnd? || end.BeforeStart? {
      KeepOutsideNone(Entries(m.root), start, end);
      return m;
    }
    var root := m.root;
    var path, top := Ge(root, start);
    while top.Node? && (end.AfterEnd? || top.key < end.k)
      invariant Valid(root) && KeepOutside(Entries(root), start, end) == KeepOutside(Entries(m.root), start, end)
      invariant top.Leaf? ==> forall i :: 0 <= i < |Entries(root)| ==> !AtOrAfter(Entries(root)[i].0, start)
      invariant top.Node? ==> Plug(path, top) == root && AtOrAfter(top.key, start)
      invariant top.Node? ==> forall i :: 0 <= i < |Entries(root)| && AtOrAfter(Entries(root)[i].0, start) ==>
        top.key <= Entries(root)[i].0
      invariant root != m.root ==> exists i :: 0 <= i < |Entries(m.root)| && InRange(Entries(m.root)[i].0, start, end)
      decreases |Entries(root)|
    {
      ghost var es := Entries(root);
      TopEntry(path, top);
      RemovalShrinks(path, top);
      KeepOutsideWithout(es, top.key, start, end);
      root := Removal.Remove(path, top);
      path, top := Ge(root, start);
    }
    Cleared(Entries(root), top, start, end);
    KeepOutsideNone(Entries(root), start, end);
    r := Map(root);
  }

  /** Once `ge` finds no key at or after `start` that lies before `end`, no
      key lies in the range. */
  lemma Cleared<V>(es: seq<(int, V)>, top: Tree<V>, start: Bound, end: Bound)
    requires !start.AfterEnd? && !end.BeforeStart?
    requires top.Node? ==> !end.AfterEnd? && end.k <= top.key
    requires top.Leaf? ==> forall i :: 0 <= i < |es| ==> !AtOrAfter(es[i].0, start)
    requires top.Node? ==> forall i :: 0 <= i < |es| && AtOrAfter(es[i].0, start) ==> top.key <= es[i].0
    ensures forall i :: 0 <= i < |es| ==> !InRange(es[i].0, start, end)
  {
    forall i | 0 <= i < |es|
      ensures !InRange(es[i].0, start, end)
    {
      if InRange(es[i].0, start, end) {
        assert AtOrAfter(es[i].0, start);
      }
    }
  }

  /** The node on top of a stack holds one of the tree's entries. */
  lemma TopEntry<V>(path: seq<Frame<V>>, top: Tree<V>)
    requires top.Node?
    ensures exists i :: 0 <= i < |Entries(Plug(path, top))| && Entries(Plug(path, top))[i].0 == top.key
  {
    PlugSplit(path, top);
    var a := PreEntries(path) + Entries(top.left);
    assert Entries(Plug(path, top))[|a|] == (top.key, top.value);
  }

  /** Removing the node on top of a stack takes one entry out. */
  lemma RemovalShrinks<V>(path: seq<Frame<V>>, top: Tree<V>)
    requires top.Node?
    ensures |Without(Entries(Plug(path, top)), top.key)| < |Entries(Plug(path, top))|
  {
    PlugSplit(path, top);
    var a := PreEntries(path) + Entries(top.left);
    var es := Entries(Plug(path, top));
    assert es[|a|] == (top.key, top.value);
    WithoutShorter(es, |a|);
  }

  /** `getKey(key, inclusive = false, offset = 1)` (lib/tree.js:78-92): the
      key of the node `findNode` reaches, or the sentinel on the side it ran
      off. A real key on an empty tree fails: the source reads the key of a
      missing root. */
  function GetKey<V>(m: Map<V>, key: Bound, inclusive: bool := false, offset: int := 1): (r: Result<Bound>)
    requires Valid(m.root)
    ensures r.Err? <==> key.Key? && m.root.Leaf?
    ensures r.Ok? ==> var t := BaseIndex(key, inclusive, m.root) + offset;
      && (r.value.Key? <==> 0 <= t < |Entries(m.root)|)
      && (r.value.Key? ==> r.value.k == Entries(m.root)[t].0)
      && (r.value.BeforeStart? <==> t < 0)
  {
    if key.Key? && m.root.Leaf? then Err(NoRoot)
    else
      FindNodeRank(key, inclusive, offset, m.root);
      ForwardIteratorEntries(m.root);
      match FindNode(key, inclusive, offset, m.root)
      case Found(n) => Ok(Key(n.key))
      case Over(x) => Ok(if x < 0 then BeforeStart else AfterEnd)
  }

  /** The defaults at work on keys `[1, 2, 3, 5, 8]` (test.js:223-259): from
      key 4, offset 0 stays on the last key below it, the default offset 1
      moves to the first key after it, and a sentinel counts from its end. */
  lemma GetKeyExample(m: Map<int>)
    requires Valid(m.root) && Entries(m.root) == [(1, 1), (2, 2), (3, 3), (5, 5), (8, 8)]
    ensures GetKey(m, Key(4), false, 0) == Ok(Key(3))
    ensures GetKey(m, Key(4)) == Ok(Key(5))
    ensures GetKey(m, Key(4), true, -3) == Ok(BeforeStart)
    ensures GetKey(m, BeforeStart) == Ok(Key(1))
    ensures GetKey(m, AfterEnd, false, -1) == Ok(Key(8))
  {
    var es := Entries(m.root);
    assert CountBefore(m.root, 4, false) == 3 by {
      CountBeforePrefix(m.root, 4, false);
      assert es[2].0 == 3 && es[3].0 == 5;
    }
    assert CountBefore(m.root, 4, true) == 3 by {
      CountBeforePrefix(m.root, 4, true);
      assert es[2].0 == 3 && es[3].0 == 5;
    }
    ForwardIteratorEntries(m.root);
  }

  /** `nodes` are nodes whose keys and values are, in order, `es`. */
  ghost predicate Carries<V>(nodes: seq<Tree<V>>, es: seq<(int, V)>) {
    |nodes| == |es| && forall i :: 0 <= i < |nodes| ==> nodes[i].Node? && (nodes[i].key, nodes[i].value) == es[i]
  }

  /** The loop of the source's generators over a node iterator: one
      `[key, value]` pair per node, in the iterator's order. */
  method Unwrap<V>(nodes: seq<Tree<V>>, ghost es: seq<(int, V)>) returns (r: seq<(int, V)>)
    requires Carries(nodes, es)
    ensures r == es
  {
    r := [];
    for i := 0 to |nodes|
      invariant r == es[..i]
    {
      r := r + [(nodes[i].key, nodes[i].value)];
    }
  }

  /** `entries(reverse)` (lib/tree.js:24-35): every entry once, in ascending
      key order, or descending for `reverse`. */
  method Listing<V>(m: Map<V>, reverse: bool) returns (r: seq<(int, V)>)
    ensures r == if reverse then Reverse(Entries(m.root)) else Entries(m.root)
  {
    if m.root.Leaf? {
      return [];
    }
    if reverse {
      DescendingCarries(m.root, 0);
      r := Unwrap(BackwardIterator(m.root), Reverse(Entries(m.root)));
    } else {
      AscendingCarries(m.root, 0);
      r := Unwrap(ForwardIterator(m.root), Entries(m.root));
    }
  }

  /** `forwardIterator(key, inclusive, offset)` (lib/tree.js:37-52): the
      entries in ascending order from position `c - 1 + offset`, clamped to
      the tree, where `c` counts the keys before the boundary. */
  method ForwardFrom<V>(m: Map<V>, key: int, inclusive: bool, offset: int) returns (r: seq<(int, V)>)
    requires Valid(m.root)
    ensures CountBefore(m.root, key, inclusive) <= |Entries(m.root)|
    ensures r == Entries(m.root)[Clamp(CountBefore(m.root, key, inclusive) - 1 + offset, 0, |Entries(m.root)|)..]
  {
    if m.root.Leaf? {
      return [];
    }
    var items := KeyedForwardIterator(key, offset, m.root, inclusive);
    var c := Clamp(CountBefore(m.root, key, inclusive) - 1 + offset, 0, |Entries(m.root)|);
    AscendingCarries(m.root, c);
    r := Unwrap(NodesOf(items), Entries(m.root)[c..]);
  }

  /** `backwardIterator(key, inclusive, offset)` (lib/tree.js:54-69): the
      entries in descending order from position `a - offset`, clamped to the
      tree, where `a` counts the keys at or after the boundary. */
  method BackwardFrom<V>(m: Map<V>, key: int, inclusive: bool, offset: int) returns (r: seq<(int, V)>)
    requires Valid(m.root)
    ensures CountBefore(m.root, key, inclusive) <= |Entries(m.root)|
    ensures var n := |Entries(m.root)|;
      r == Reverse(Entries(m.root))[Clamp(n - CountBefore(m.root, key, inclusive) - offset, 0, n)..]
  {
    if m.root.Leaf? {
      return [];
    }
    var items := KeyedBackwardIterator(key, offset, m.root, inclusive);
    var n := |Entries(m.root)|;
    var c := Clamp(n - CountBefore(m.root, key, inclusive) - offset, 0, n);
    DescendingCarries(m.root, c);
    r := Unwrap(NodesOf(items), Reverse(Entries(m.root))[c..]);
  }

  /** The ascending nodes from position `c` on carry the entries from
      position `c` on. */
  lemma AscendingCarries<V>(n: Tree<V>, c: int)
    requires 0 <= c <= |Entries(n)|
    ensures Carries(ForwardIterator(n), Entries(n))
    ensures Carries(NodesOf(Yields(ForwardIterator(n)[c..])), Entries(n)[c..])
  {
    ForwardIteratorEntries(n);
    CarriesFrom(ForwardIterator(n), Entries(n), c);
  }

  /** The descending nodes from position `c` on carry the reversed entries
      from position `c` on. */
  lemma DescendingCarries<V>(n: Tree<V>, c: int)
    requires 0 <= c <= |Entries(n)|
    ensures Carries(BackwardIterator(n), Reverse(Entries(n)))
    ensures Carries(NodesOf(Yields(BackwardIterator(n)[c..])), Reverse(Entries(n))[c..])
  {
    ForwardIteratorEntries(n);
    BackwardIsReverse(n);
    ReverseCarries(ForwardIterator(n), Entries(n));
    CarriesFrom(BackwardIterator(n), Reverse(Entries(n)), c);
  }

  /** Reversing carrying nodes and their entries keeps them paired. */
  lemma ReverseCarries<V>(nodes: seq<Tree<V>>, es: seq<(int, V)>)
    requires Carries(nodes, es)
    ensures Carries(Reverse(nodes), Reverse(es))
  {
    var k := |nodes|;
    forall i | 0 <= i < k
      ensures Reverse(nodes)[i].Node? && (Reverse(nodes)[i].key, Reverse(nodes)[i].value) == Reverse(es)[i]
    {
      assert Reverse(nodes)[i] == nodes[k - 1 - i] && Reverse(es)[i] == es[k - 1 - i];
    }
  }

  /** A suffix of carrying nodes, yielded and unpacked again, carries the
      same suffix of entries. */
  lemma CarriesFrom<V>(nodes: seq<Tree<V>>, es: seq<(int, V)>, c: int)
    requires Carries(nodes, es) && 0 <= c <= |nodes|
    ensures Carries(NodesOf(Yields(nodes[c..])), es[c..])
  {
    var items := Yields(nodes[c..]);
    forall i | 0 <= i < |items|
      ensures NodesOf(items)[i] == nodes[c + i]
    {
      assert items[i] == Yield(nodes[c..][i]);
    }
  }

  /** The nodes a run of yielded values carries. */
  function NodesOf<V>(items: seq<Item<V>>): (r: seq<Tree<V>>)
    ensures |r| == |items|
    ensures forall i :: 0 <= i < |items| && items[i].Yield? ==> r[i] == items[i].node
  {
    seq(|items|, i requires 0 <= i < |items| => if items[i].Yield? then items[i].node else Leaf)
  }
}
