/** lib/forward-iterator.js: ascending traversal, the rank-aware offset
    traversal, and the keyed iterator that seeks a boundary and shifts by a
    signed offset. Each generator is a function returning the finite sequence
    of values it yields. */
module ForwardIter {
  import opened Content
  import opened RbNode

  /** A value a generator yields: a node, a residual offset (a plain number),
      or `undefined` (a bare `yield;`). */
  datatype Item<V> = Blank | Residual(offset: int) | Yield(node: Tree<V>)

  function Yields<V>(s: seq<Tree<V>>): (r: seq<Item<V>>)
    ensures |r| == |s|
  {
    seq(|s|, i requires 0 <= i < |s| => Yield(s[i]))
  }

  function Clamp(x: int, lo: int, hi: int): int
    requires lo <= hi
  {
    if x < lo then lo else if x > hi then hi else x
  }

  /** `forwardIterator(node)` (lib/forward-iterator.js:80-88): every node once,
      in in-order, i.e. ascending key, sequence. */
  function ForwardIterator<V>(n: Tree<V>): (r: seq<Tree<V>>)
    ensures |r| == |Entries(n)|
  {
    if n.Leaf? then [] else ForwardIterator(n.left) + [n] + ForwardIterator(n.right)
  }

  lemma YieldsConcat<V>(a: seq<Tree<V>>, b: seq<Tree<V>>)
    ensures Yields(a + b) == Yields(a) + Yields(b)
  {
  }

  /** The items an offset traversal yields for its last `-offset` nodes, with
      the residual first when the subtree is too small. */
  function LastItems<V>(nodes: seq<Tree<V>>, offset: int): seq<Item<V>>
    requires offset <= -1
  {
    if -offset > |nodes| then [Residual(offset + |nodes|)] + Yields(nodes)
    else Yields(nodes[|nodes| + offset..])
  }

  /** `forwardOffsetIterator(n, offset)` (lib/forward-iterator.js:1-26). */
  function ForwardOffsetIterator<V>(n: Tree<V>, offset: int): (r: seq<Item<V>>)
    ensures |r| > 0
  {
    if n.Leaf? then [Residual(offset)]
    else if -offset == n.count then Yields(ForwardIterator(n))
    else if -offset > n.count then [Residual(offset + n.count)] + Yields(ForwardIterator(n))
    else if n.right.Node? then
      if -offset == n.right.count + 1 then [Yield(n)] + Yields(ForwardIterator(n.right))
      else if -offset > n.right.count + 1 then
        ForwardOffsetIterator(n.left, offset + n.right.count + 1) + [Yield(n)] + Yields(ForwardIterator(n.right))
      else ForwardOffsetIterator(n.right, offset)
    else (if offset < -1 then ForwardOffsetIterator(n.left, offset + 1) else []) + [Yield(n)]
  }

  /** The inner `iterate(n)` of `keyedForwardIterator`
      (lib/forward-iterator.js:29-64); `!Before(n.key, key, inclusive)` is the
      boundary `test(n.key, key)`. Peeking at the first value of the right
      subtree's generator is reading `it[0]`. */
  function Iterate<V>(n: Tree<V>, key: int, inclusive: bool, offset: int): (r: seq<Item<V>>)
    requires n.Node?
    ensures |r| > 0
  {
    if !Before(n.key, key, inclusive) then
      (if n.left.Node? then Iterate(n.left, key, inclusive, offset) else [Blank])
      + [Yield(n)] + Yields(ForwardIterator(n.right))
    else if n.right.Node? then
      var it := Iterate(n.right, key, inclusive, offset);
      match it[0]
      case Residual(v) =>
        (if v < -1 then ForwardOffsetIterator(n.left, v + 1) else []) + [Yield(n)] + it[1..]
      case Yield(_) => it
      case Blank =>
        (if offset < 0 then ForwardOffsetIterator(n.left, offset) else []) + [Yield(n)] + it[1..]
    else
      (if offset < 0 then ForwardOffsetIterator(n.left, offset) else []) + [Yield(n)]
  }

  /** What `iterate(n)` yields, given the number `c` of nodes before the
      boundary: a leading marker (`undefined`, or the residual when the
      offset runs past the start), then the nodes from the boundary shifted
      back by the negative offset. */
  function Seek<V>(nodes: seq<Tree<V>>, c: int, offset: int): seq<Item<V>>
    requires 0 <= c <= |nodes|
  {
    if c == 0 then [Blank] + Yields(nodes)
    else if offset >= 0 then Yields(nodes[c - 1..])
    else if c - 1 + offset < 0 then [Residual(c - 1 + offset)] + Yields(nodes)
    else Yields(nodes[c - 1 + offset..])
  }

  // ---------------------------------------------------------------------

  /** The ascending traversal yields exactly the entries, in key order. */
  lemma {:induction false} ForwardIteratorEntries<V>(n: Tree<V>)
    ensures forall i :: 0 <= i < |ForwardIterator(n)| ==>
      ForwardIterator(n)[i].Node? && (ForwardIterator(n)[i].key, ForwardIterator(n)[i].value) == Entries(n)[i]
  {
    if n.Node? {
      ForwardIteratorEntries(n.left);
      ForwardIteratorEntries(n.right);
      var nodes, l, r := ForwardIterator(n), ForwardIterator(n.left), ForwardIterator(n.right);
      var es, el, er := Entries(n), Entries(n.left), Entries(n.right);
      forall i | 0 <= i < |nodes| ensures nodes[i].Node? && (nodes[i].key, nodes[i].value) == es[i] {
        if i < |l| {
          assert nodes[i] == l[i] && es[i] == el[i];
        } else if i > |l| {
          assert nodes[i] == r[i - |l| - 1] && es[i] == er[i - |l| - 1];
        }
      }
    }
  }

  lemma SliceLeft<T>(l: seq<T>, x: T, r: seq<T>, k: int)
    requires 0 <= k <= |l|
    ensures (l + [x] + r)[k..] == l[k..] + [x] + r
  {
  }

  lemma SliceRight<T>(l: seq<T>, x: T, r: seq<T>, k: int)
    requires 0 <= k <= |r|
    ensures (l + [x] + r)[|l| + 1 + k..] == r[k..]
  {
  }

  /** The offset reaches exactly the node. */
  lemma OffsetAtNode<V>(n: Tree<V>, offset: int)
    requires n.Node? && Count(n.right) == |ForwardIterator(n.right)|
    requires offset <= -1 && -offset == Count(n.right) + 1 && -offset != n.count && -offset < n.count
    ensures ForwardOffsetIterator(n, offset) == LastItems(ForwardIterator(n), offset)
  {
    var l, r := ForwardIterator(n.left), ForwardIterator(n.right);
    var nodes := ForwardIterator(n);
    assert nodes == l + [n] + r;
    assert nodes[|nodes| + offset..] == [n] + r;
    YieldsConcat([n], r);
    if n.right.Leaf? {
      assert r == [];
      assert ForwardOffsetIterator(n, offset) == [Yield(n)];
    }
  }

  /** The offset reaches past the node into its left subtree. */
  lemma OffsetIntoLeft<V>(n: Tree<V>, offset: int)
    requires n.Node? && Count(n.right) == |ForwardIterator(n.right)|
    requires -offset > Count(n.right) + 1 && -offset != n.count && -offset < n.count
    requires n.count == |ForwardIterator(n)|
    requires ForwardOffsetIterator(n.left, offset + Count(n.right) + 1) ==
      LastItems(ForwardIterator(n.left), offset + Count(n.right) + 1)
    ensures ForwardOffsetIterator(n, offset) == LastItems(ForwardIterator(n), offset)
  {
    var l, r := ForwardIterator(n.left), ForwardIterator(n.right);
    assert ForwardIterator(n) == l + [n] + r;
    var o := offset + |r| + 1;
    SliceLeft(l, n, r, |l| + o);
    YieldsConcat(l[|l| + o..], [n]);
    YieldsConcat(l[|l| + o..] + [n], r);
    if n.right.Leaf? {
      assert r == [] && Yields(r) == [];
    }
  }

  /** For a negative offset, `forwardOffsetIterator` yields the last `-offset`
      nodes in ascending order, or, when the subtree holds fewer, the residual
      `offset + count(n)` and then all of its nodes. */
  lemma {:induction false} ForwardOffsetIteratorTail<V>(n: Tree<V>, offset: int)
    requires CountsOk(n) && offset <= -1
    ensures ForwardOffsetIterator(n, offset) == LastItems(ForwardIterator(n), offset)
  {
    CountIsSize(n);
    if n.Node? && -offset < n.count {
      CountIsSize(n.right);
      if n.right.Node? && -offset <= n.right.count {
        ForwardOffsetIteratorTail(n.right, offset);
        var l, r := ForwardIterator(n.left), ForwardIterator(n.right);
        SliceRight(l, n, r, |r| + offset);
      } else if -offset == Count(n.right) + 1 {
        OffsetAtNode(n, offset);
      } else {
        ForwardOffsetIteratorTail(n.left, offset + Count(n.right) + 1);
        OffsetIntoLeft(n, offset);
      }
    }
  }

  /** A lead of the last `-o` nodes of `l`, then the node and `r`, is the
      seek over `l + [n] + r` from the node shifted by `o`. */
  lemma LeadJoin<V>(l: seq<Tree<V>>, n: Tree<V>, r: seq<Tree<V>>, o: int, lead: seq<Item<V>>)
    requires o <= 0 && lead == (if o < 0 then LastItems(l, o) else [])
    ensures lead + [Yield(n)] + Yields(r) == Seek(l + [n] + r, |l| + 1, o)
  {
    assert Yields([n]) == [Yield(n)];
    if o < 0 && |l| + o < 0 {
      YieldsConcat(l, [n]);
      YieldsConcat(l + [n], r);
    } else {
      SliceLeft(l, n, r, |l| + o);
      YieldsConcat(l[|l| + o..], [n]);
      YieldsConcat(l[|l| + o..] + [n], r);
      if o == 0 {
        assert l[|l|..] == [];
      }
    }
  }

  /** The part a node contributes once the boundary lies to its right: the
      last `-o` nodes of its left subtree (a residual if there are fewer),
      the node, then what follows. */
  lemma NodeAfterTail<V>(left: Tree<V>, n: Tree<V>, r: seq<Tree<V>>, o: int, nodes: seq<Tree<V>>, lead: seq<Item<V>>)
    requires CountsOk(left) && o <= 0
    requires nodes == ForwardIterator(left) + [n] + r
    requires lead == if o < 0 then ForwardOffsetIterator(left, o) else []
    ensures |ForwardIterator(left)| + 1 <= |nodes|
    ensures lead + [Yield(n)] + Yields(r) == Seek(nodes, |ForwardIterator(left)| + 1, o)
  {
    if o < 0 {
      ForwardOffsetIteratorTail(left, o);
    }
    LeadJoin(ForwardIterator(left), n, r, o, lead);
  }

  /** What a left subtree's seek yields, followed by the node and the right
      subtree, is the seek over the whole node. */
  lemma SeekExtend<V>(l: seq<Tree<V>>, n: Tree<V>, r: seq<Tree<V>>, c: int, offset: int)
    requires 0 <= c <= |l|
    ensures Seek(l, c, offset) + [Yield(n)] + Yields(r) == Seek(l + [n] + r, c, offset)
  {
    assert Yields([n]) == [Yield(n)];
    if c == 0 || (offset < 0 && c - 1 + offset < 0) {
      YieldsConcat(l, [n]);
      YieldsConcat(l + [n], r);
    } else {
      var k := if offset >= 0 then c - 1 else c - 1 + offset;
      SliceLeft(l, n, r, k);
      YieldsConcat(l[k..], [n]);
      YieldsConcat(l[k..] + [n], r);
    }
  }

  /** Past the first node, a seek depends only on the index it starts from. */
  lemma SeekTarget<V>(s: seq<Tree<V>>, c1: int, o1: int, c2: int, o2: int)
    requires 1 <= c1 <= |s| && 1 <= c2 <= |s|
    requires c1 - 1 + (if o1 < 0 then o1 else 0) == c2 - 1 + (if o2 < 0 then o2 else 0)
    ensures Seek(s, c1, o1) == Seek(s, c2, o2)
  {
  }

  /** A seek that ends inside the right part of `l + [n] + r` is a seek
      within `r`, and starts with a node. */
  lemma SeekWithin<V>(l: seq<Tree<V>>, n: Tree<V>, r: seq<Tree<V>>, cr: int, offset: int)
    requires 0 < cr <= |r| && (offset >= 0 || cr - 1 + offset >= 0)
    ensures Seek(l + [n] + r, |l| + 1 + cr, offset) == Seek(r, cr, offset)
    ensures Seek(r, cr, offset)[0].Yield?
  {
    SliceRight(l, n, r, if offset >= 0 then cr - 1 else cr - 1 + offset);
  }

  /** `SeekWithin` with the whole sequence and the count named. */
  lemma SeekWithinAt<V>(l: seq<Tree<V>>, n: Tree<V>, r: seq<Tree<V>>, cr: int, offset: int, c: int, nodes: seq<Tree<V>>)
    requires 0 < cr <= |r| && (offset >= 0 || cr - 1 + offset >= 0)
    requires nodes == l + [n] + r && c == |l| + 1 + cr
    ensures c <= |nodes|
    ensures Seek(nodes, c, offset) == Seek(r, cr, offset)
    ensures Seek(r, cr, offset)[0].Yield?
  {
    SeekWithin(l, n, r, cr, offset);
  }

  /** A seek that runs off the start leads with a marker, then every node. */
  lemma SeekPast<V>(s: seq<Tree<V>>, c: int, offset: int)
    requires 0 <= c <= |s| && (c == 0 || (offset < 0 && c - 1 + offset < 0))
    ensures Seek(s, c, offset)[1..] == Yields(s)
    ensures c == 0 ==> Seek(s, c, offset)[0] == Blank
    ensures c > 0 ==> Seek(s, c, offset)[0] == Residual(c - 1 + offset)
  {
  }

  /** One step of `iterate` at a node before the boundary that has a right
      subtree, when the first value pulled from the right subtree is a node:
      the right subtree's values pass through unchanged. */
  lemma IterateStepYield<V>(n: Tree<V>, key: int, inclusive: bool, offset: int, it: seq<Item<V>>)
    requires n.Node? && Before(n.key, key, inclusive) && n.right.Node?
    requires it == Iterate(n.right, key, inclusive, offset) && it[0].Yield?
    ensures Iterate(n, key, inclusive, offset) == it
  {
  }

  /** One step of `iterate` when the right subtree's first value is the residual
      `o - 1`: the last `-o` nodes of the left subtree lead. */
  lemma IterateStepResidual<V>(n: Tree<V>, key: int, inclusive: bool, offset: int, it: seq<Item<V>>, o: int, lead: seq<Item<V>>)
    requires n.Node? && Before(n.key, key, inclusive) && n.right.Node?
    requires it == Iterate(n.right, key, inclusive, offset) && it[0] == Residual(o - 1)
    requires lead == if o < 0 then ForwardOffsetIterator(n.left, o) else []
    ensures Iterate(n, key, inclusive, offset) == lead + [Yield(n)] + it[1..]
  {
  }

  /** One step of `iterate` when the right subtree's first value is `undefined`:
      the last `-o` nodes of the left subtree lead, `o` being the offset
      when it is negative and 0 otherwise. */
  lemma IterateStepBlank<V>(n: Tree<V>, key: int, inclusive: bool, offset: int, it: seq<Item<V>>, o: int, lead: seq<Item<V>>)
    requires n.Node? && Before(n.key, key, inclusive) && n.right.Node?
    requires it == Iterate(n.right, key, inclusive, offset) && it[0] == Blank
    requires o == (if offset < 0 then offset else 0)
    requires lead == if o < 0 then ForwardOffsetIterator(n.left, o) else []
    ensures Iterate(n, key, inclusive, offset) == lead + [Yield(n)] + it[1..]
  {
  }

  /** The node lies before the boundary and has no right subtree. */
  lemma IterateRightLeaf<V>(n: Tree<V>, key: int, inclusive: bool, offset: int, c: int)
    requires n.Node? && CountsOk(n.left) && Before(n.key, key, inclusive) && n.right.Leaf?
    requires c == |ForwardIterator(n.left)| + 1
    ensures c <= |ForwardIterator(n)|
    ensures Iterate(n, key, inclusive, offset) == Seek(ForwardIterator(n), c, offset)
  {
    var l, nodes := ForwardIterator(n.left), ForwardIterator(n);
    var o := if offset < 0 then offset else 0;
    var lead := if o < 0 then ForwardOffsetIterator(n.left, o) else [];
    assert nodes == l + [n] + [];
    NodeAfterTail(n.left, n, [], o, nodes, lead);
    assert Yields<V>([]) == [];
    assert lead + [Yield(n)] + Yields([]) == lead + [Yield(n)];
    SeekTarget(nodes, c, offset, c, o);
  }

  /** The node lies before the boundary and the seek ends inside its right
      subtree, `cr` nodes of which lie before the boundary. */
  lemma IterateRightInside<V>(n: Tree<V>, key: int, inclusive: bool, offset: int, cr: int, c: int)
    requires n.Node? && Before(n.key, key, inclusive) && n.right.Node?
    requires 0 < cr <= |ForwardIterator(n.right)| && (offset >= 0 || cr - 1 + offset >= 0)
    requires Iterate(n.right, key, inclusive, offset) == Seek(ForwardIterator(n.right), cr, offset)
    requires c == |ForwardIterator(n.left)| + 1 + cr
    ensures c <= |ForwardIterator(n)|
    ensures Iterate(n, key, inclusive, offset) == Seek(ForwardIterator(n), c, offset)
  {
    var it := Iterate(n.right, key, inclusive, offset);
    SeekWithinAt(ForwardIterator(n.left), n, ForwardIterator(n.right), cr, offset, c, ForwardIterator(n));
    IterateStepYield(n, key, inclusive, offset, it);
  }

  /** The node lies before the boundary and the seek runs off the start of
      its right subtree: a marker leads, and the left subtree's tail, the
      node and the right subtree follow. */
  lemma IterateRightPast<V>(n: Tree<V>, key: int, inclusive: bool, offset: int, cr: int, c: int)
    requires n.Node? && CountsOk(n.left) && Before(n.key, key, inclusive) && n.right.Node?
    requires 0 <= cr <= |ForwardIterator(n.right)| && (cr == 0 || (offset < 0 && cr - 1 + offset < 0))
    requires Iterate(n.right, key, inclusive, offset) == Seek(ForwardIterator(n.right), cr, offset)
    requires c == |ForwardIterator(n.left)| + 1 + cr
    ensures c <= |ForwardIterator(n)|
    ensures Iterate(n, key, inclusive, offset) == Seek(ForwardIterator(n), c, offset)
  {
    var r := ForwardIterator(n.right);
    var it := Iterate(n.right, key, inclusive, offset);
    SeekPast(r, cr, offset);
    var o := if cr > 0 then cr + offset else if offset < 0 then offset else 0;
    var lead := if o < 0 then ForwardOffsetIterator(n.left, o) else [];
    if cr == 0 {
      IterateStepBlank(n, key, inclusive, offset, it, o, lead);
    } else {
      IterateStepResidual(n, key, inclusive, offset, it, o, lead);
    }
    PastJoin(n.left, n, r, cr, offset, c, o, lead, ForwardIterator(n));
  }

  /** The sequence half of `IterateRightPast`: the left subtree's tail, the
      node and the right subtree's nodes are the seek over the whole node. */
  lemma PastJoin<V>(left: Tree<V>, n: Tree<V>, r: seq<Tree<V>>, cr: int, offset: int, c: int, o: int,
                    lead: seq<Item<V>>, nodes: seq<Tree<V>>)
    requires CountsOk(left) && 0 <= cr <= |r| && (cr == 0 || (offset < 0 && cr - 1 + offset < 0))
    requires o == (if cr > 0 then cr + offset else if offset < 0 then offset else 0)
    requires lead == if o < 0 then ForwardOffsetIterator(left, o) else []
    requires nodes == ForwardIterator(left) + [n] + r
    requires c == |ForwardIterator(left)| + 1 + cr
    ensures c <= |nodes|
    ensures lead + [Yield(n)] + Yields(r) == Seek(nodes, c, offset)
  {
    NodeAfterTail(left, n, r, o, nodes, lead);
    SeekTarget(nodes, c, offset, |ForwardIterator(left)| + 1, o);
  }

  /** The node lies at or after the boundary; `cl` nodes of its left subtree
      lie before it. */
  lemma IterateLeft<V>(n: Tree<V>, key: int, inclusive: bool, offset: int, cl: int)
    requires n.Node? && !Before(n.key, key, inclusive)
    requires n.left.Leaf? ==> cl == 0
    requires n.left.Node? ==>
      0 <= cl <= |ForwardIterator(n.left)| &&
      Iterate(n.left, key, inclusive, offset) == Seek(ForwardIterator(n.left), cl, offset)
    ensures cl <= |ForwardIterator(n)|
    ensures Iterate(n, key, inclusive, offset) == Seek(ForwardIterator(n), cl, offset)
  {
    var l, r := ForwardIterator(n.left), ForwardIterator(n.right);
    assert ForwardIterator(n) == l + [n] + r;
    if n.left.Node? {
      SeekExtend(l, n, r, cl, offset);
    } else {
      assert l == [];
      YieldsConcat([n], r);
    }
  }

  /** `iterate(n)` seeks the boundary: see `Seek`. */
  lemma {:induction false} IterateSeeks<V>(n: Tree<V>, key: int, inclusive: bool, offset: int)
    requires n.Node? && CountsOk(n) && Ordered(n)
    ensures CountBefore(n, key, inclusive) <= |ForwardIterator(n)|
    ensures Iterate(n, key, inclusive, offset) == Seek(ForwardIterator(n), CountBefore(n, key, inclusive), offset)
    decreases n, 1
  {
    if !Before(n.key, key, inclusive) {
      IterateSeeksLeft(n, key, inclusive, offset);
    } else {
      IterateSeeksRight(n, key, inclusive, offset);
    }
  }

  /** `IterateSeeks` at a node at or after the boundary. */
  lemma {:induction false} IterateSeeksLeft<V>(n: Tree<V>, key: int, inclusive: bool, offset: int)
    requires n.Node? && CountsOk(n) && Ordered(n) && !Before(n.key, key, inclusive)
    ensures CountBefore(n, key, inclusive) <= |ForwardIterator(n)|
    ensures Iterate(n, key, inclusive, offset) == Seek(ForwardIterator(n), CountBefore(n, key, inclusive), offset)
    decreases n, 0
  {
    var cl := CountBefore(n.left, key, inclusive);
    assert Ordered(n.left) && CountBefore(n, key, inclusive) == cl by {
      CountBeforeNode(n, key, inclusive);
    }
    if n.left.Node? {
      IterateSeeks(n.left, key, inclusive, offset);
    }
    IterateLeft(n, key, inclusive, offset, cl);
  }

  /** `IterateSeeks` at a node before the boundary. */
  lemma {:induction false} IterateSeeksRight<V>(n: Tree<V>, key: int, inclusive: bool, offset: int)
    requires n.Node? && CountsOk(n) && Ordered(n) && Before(n.key, key, inclusive)
    ensures CountBefore(n, key, inclusive) <= |ForwardIterator(n)|
    ensures Iterate(n, key, inclusive, offset) == Seek(ForwardIterator(n), CountBefore(n, key, inclusive), offset)
    decreases n, 0
  {
    var cr := CountBefore(n.right, key, inclusive);
    assert Ordered(n.right) && CountBefore(n, key, inclusive) == |ForwardIterator(n.left)| + 1 + cr by {
      CountBeforeNode(n, key, inclusive);
    }
    var c := CountBefore(n, key, inclusive);
    if n.right.Leaf? {
      IterateRightLeaf(n, key, inclusive, offset, c);
    } else {
      IterateSeeks(n.right, key, inclusive, offset);
      if 0 < cr && (offset >= 0 || cr - 1 + offset >= 0) {
        IterateRightInside(n, key, inclusive, offset, cr, c);
      } else {
        IterateRightPast(n, key, inclusive, offset, cr, c);
      }
    }
  }

  /** Only the first value pulled from `iterate` can be something other than
      a node. */
  lemma OnlyFirstIsMarker<V>(n: Tree<V>, key: int, inclusive: bool, offset: int)
    requires n.Node? && CountsOk(n) && Ordered(n)
    ensures forall i :: 1 <= i < |Iterate(n, key, inclusive, offset)| ==> Iterate(n, key, inclusive, offset)[i].Yield?
  {
    IterateSeeks(n, key, inclusive, offset);
  }

  lemma YieldsDrop<V>(s: seq<Tree<V>>, k: int)
    requires 0 <= k <= |s|
    ensures Yields(s)[k..] == Yields(s[k..])
  {
  }

  /** What the wrapper yields once it has pulled the first value and skipped
      `pos - 1` more: the nodes from the shifted boundary on. */
  lemma SkipSeek<V>(it: seq<Item<V>>, nodes: seq<Tree<V>>, c: int, offset: int, pos: int)
    requires 0 <= c <= |nodes| && it == Seek(nodes, c, offset)
    requires offset > 0 ==> pos == if offset < |it| then offset else |it|
    requires offset <= 0 ==> pos == 1
    ensures 1 <= pos <= |it|
    ensures (if offset <= 0 && it[0].Yield? then [it[0]] else []) + it[pos..] ==
      Yields(nodes[Clamp(c - 1 + offset, 0, |nodes|)..])
  {
    if offset > 0 {
      if c == 0 {
        assert it[1..] == Yields(nodes);
        YieldsDrop(nodes, pos - 1);
        assert it[pos..] == it[1..][pos - 1..];
      } else {
        YieldsDrop(nodes[c - 1..], pos);
        assert nodes[c - 1..][pos..] == nodes[c - 1 + pos..];
      }
    } else if c == 0 || c - 1 + offset < 0 {
      assert it[1..] == Yields(nodes);
    } else {
      var k := if offset >= 0 then c - 1 else c - 1 + offset;
      assert it == Yields(nodes[k..]);
      assert it[0] == Yield(nodes[k]);
      assert [it[0]] + it[1..] == it;
    }
  }

  /** `keyedForwardIterator(key, offset, n, test)` (lib/forward-iterator.js:28-78):
      pulls the first value of `iterate(n)`; for a positive offset it drops it
      and skips `offset - 1` further values, otherwise it passes it on when it
      is a node; then it yields the rest. The result is the ascending nodes
      from index `c - 1 + offset`, clamped to the tree, to the end, where `c`
      counts the keys before the boundary (test.js:118-132). */
  method KeyedForwardIterator<V>(key: int, offset: int, n: Tree<V>, inclusive: bool) returns (r: seq<Item<V>>)
    requires n.Node? && CountsOk(n) && Ordered(n)
    ensures CountBefore(n, key, inclusive) <= |ForwardIterator(n)|
    ensures r == Yields(ForwardIterator(n)[Clamp(CountBefore(n, key, inclusive) - 1 + offset, 0, |ForwardIterator(n)|)..])
  {
    var it := Iterate(n, key, inclusive, offset);
    IterateSeeks(n, key, inclusive, offset);
    var first := it[0];
    var pos := 1;
    var rest := offset;
    r := [];
    if rest > 0 {
      rest := rest - 1;
    } else if first.Yield? {
      r := [first];
    }
    while rest > 0 && pos < |it|
      invariant 1 <= pos <= |it|
      invariant offset > 0 ==> rest >= 0 && pos + rest == offset
      invariant offset <= 0 ==> pos == 1
    {
      rest := rest - 1;
      pos := pos + 1;
    }
    SkipSeek(it, ForwardIterator(n), CountBefore(n, key, inclusive), offset, pos);
    r := r + it[pos..];
  }
}
