/** lib/backward-iterator.js: the mirror image of lib/forward-iterator.js,
    walking keys in descending order. */
module BackwardIter {
  import opened Content
  import opened RbNode
  import opened ForwardIter

  /** `backwardIterator(node)` (lib/backward-iterator.js:80-90): every node
      once, in descending key order. */
  function BackwardIterator<V>(n: Tree<V>): (r: seq<Tree<V>>)
    ensures |r| == |Entries(n)|
  {
    if n.Leaf? then [] else BackwardIterator(n.right) + [n] + BackwardIterator(n.left)
  }

  /** The items an offset traversal yields for its last `offset` nodes in
      descending order, with the residual first when the subtree is too
      small. */
  function LastItemsDown<V>(desc: seq<Tree<V>>, offset: int): seq<Item<V>>
    requires offset >= 1
  {
    if offset > |desc| then [Residual(offset - |desc|)] + Yields(desc)
    else Yields(desc[|desc| - offset..])
  }

  /** `backwardOffsetIterator(n, offset)` (lib/backward-iterator.js:1-26). */
  function BackwardOffsetIterator<V>(n: Tree<V>, offset: int): (r: seq<Item<V>>)
    ensures |r| > 0
  {
    if n.Leaf? then [Residual(offset)]
    else if offset == n.count then Yields(BackwardIterator(n))
    else if offset > n.count then [Residual(offset - n.count)] + Yields(BackwardIterator(n))
    else if n.left.Node? then
      if offset == n.left.count + 1 then [Yield(n)] + Yields(BackwardIterator(n.left))
      else if offset > n.left.count + 1 then
        BackwardOffsetIterator(n.right, offset - n.left.count - 1) + [Yield(n)] + Yields(BackwardIterator(n.left))
      else BackwardOffsetIterator(n.left, offset)
    else (if offset > 1 then BackwardOffsetIterator(n.right, offset - 1) else []) + [Yield(n)]
  }

  /** The inner `iterate(n)` of `keyedBackwardIterator`
      (lib/backward-iterator.js:29-64); `!Before(n.key, key, inclusive)` is
      `test(n.key, key)`. A left subtree whose generator finishes without a
      value leaves nothing to yield; that is the empty sequence here. */
  function IterateDown<V>(n: Tree<V>, key: int, inclusive: bool, offset: int): (r: seq<Item<V>>)
    requires n.Node?
  {
    if !Before(n.key, key, inclusive) then
      if n.left.Node? then
        var it := IterateDown(n.left, key, inclusive, offset);
        if it == [] then []
        else if it[0].Residual? then
          (if it[0].offset > 1 then BackwardOffsetIterator(n.right, it[0].offset - 1) else []) + [Yield(n)] + it[1..]
        else it
      else if offset > 0 then BackwardOffsetIterator(n, offset)
      else []
    else if n.right.Node? then
      IterateDown(n.right, key, inclusive, offset) + [Yield(n)] + Yields(BackwardIterator(n.left))
    else
      (if offset > 0 then [Residual(offset)] else []) + [Yield(n)] + Yields(BackwardIterator(n.left))
  }

  /** What `iterate(n)` yields, given the number `a` of nodes at or after the
      boundary (the first `a` of the descending sequence): for a positive
      offset the nodes from `offset` places before the boundary on, with the
      residual first when that runs past the largest key; otherwise the nodes
      before the boundary. */
  function SeekDown<V>(desc: seq<Tree<V>>, a: int, offset: int): seq<Item<V>>
    requires 0 <= a <= |desc|
  {
    if offset <= 0 then Yields(desc[a..])
    else if a - offset < 0 then [Residual(offset - a)] + Yields(desc)
    else Yields(desc[a - offset..])
  }

  // ---------------------------------------------------------------------

  lemma ReverseJoin<T>(l: seq<T>, x: T, r: seq<T>)
    ensures Reverse(l + [x] + r) == Reverse(r) + [x] + Reverse(l)
  {
    ReverseConcat(l + [x], r);
    ReverseConcat(l, [x]);
    assert Reverse([x]) == [x];
  }

  lemma ReverseConcat<T>(a: seq<T>, b: seq<T>)
    ensures Reverse(a + b) == Reverse(b) + Reverse(a)
  {
    var s, t := a + b, Reverse(b) + Reverse(a);
    forall i | 0 <= i < |t|
      ensures Reverse(s)[i] == t[i]
    {
      if i < |b| {
        assert s[|s| - 1 - i] == b[|b| - 1 - i];
      } else {
        assert s[|s| - 1 - i] == a[|a| - 1 - (i - |b|)];
      }
    }
  }


  /** The descending traversal is the ascending one reversed. */
  lemma {:induction false} BackwardIsReverse<V>(n: Tree<V>)
    ensures BackwardIterator(n) == Reverse(ForwardIterator(n))
  {
    if n.Node? {
      BackwardIsReverse(n.left);
      BackwardIsReverse(n.right);
      ReverseJoin(ForwardIterator(n.left), n, ForwardIterator(n.right));
    }
  }

  /** The offset reaches exactly the node. */
  lemma OffsetAtNodeDown<V>(n: Tree<V>, offset: int)
    requires n.Node? && Count(n.left) == |BackwardIterator(n.left)|
    requires offset >= 1 && offset == Count(n.left) + 1 && offset != n.count && offset < n.count
    ensures BackwardOffsetIterator(n, offset) == LastItemsDown(BackwardIterator(n), offset)
  {
    var r, l := BackwardIterator(n.right), BackwardIterator(n.left);
    var desc := BackwardIterator(n);
    assert desc == r + [n] + l;
    assert desc[|desc| - offset..] == [n] + l;
    YieldsConcat([n], l);
    if n.left.Leaf? {
      assert l == [];
      assert BackwardOffsetIterator(n, offset) == [Yield(n)];
    }
  }

  /** The offset reaches past the node into its right subtree. */
  lemma OffsetIntoRight<V>(n: Tree<V>, offset: int)
    requires n.Node? && Count(n.left) == |BackwardIterator(n.left)|
    requires offset > Count(n.left) + 1 && offset != n.count && offset < n.count
    requires n.count == |BackwardIterator(n)|
    requires BackwardOffsetIterator(n.right, offset - Count(n.left) - 1) ==
      LastItemsDown(BackwardIterator(n.right), offset - Count(n.left) - 1)
    ensures BackwardOffsetIterator(n, offset) == LastItemsDown(BackwardIterator(n), offset)
  {
    var r, l := BackwardIterator(n.right), BackwardIterator(n.left);
    assert BackwardIterator(n) == r + [n] + l;
    var o := offset - |l| - 1;
    LastItemsDownSplit(r, n, l, o);
    if n.left.Leaf? {
      assert l == [] && Yields(l) == [];
      assert BackwardOffsetIterator(n, offset) == BackwardOffsetIterator(n.right, o) + [Yield(n)];
    } else {
      assert BackwardOffsetIterator(n, offset) == BackwardOffsetIterator(n.right, o) + [Yield(n)] + Yields(l);
    }
  }

  /** The last `o + |l| + 1` descending items, when they reach into `r`. */
  lemma LastItemsDownSplit<V>(r: seq<Tree<V>>, n: Tree<V>, l: seq<Tree<V>>, o: int)
    requires 1 <= o <= |r|
    ensures LastItemsDown(r + [n] + l, o + |l| + 1) == LastItemsDown(r, o) + [Yield(n)] + Yields(l)
  {
    SliceLeft(r, n, l, |r| - o);
    YieldsConcat(r[|r| - o..], [n]);
    YieldsConcat(r[|r| - o..] + [n], l);
  }


  /** For a positive offset, `backwardOffsetIterator` yields the `offset`
      smallest nodes in descending order, or, when the subtree holds fewer,
      the residual `offset - count(n)` and then all of its nodes. */
  lemma {:induction false} BackwardOffsetIteratorTail<V>(n: Tree<V>, offset: int)
    requires CountsOk(n) && offset >= 1
    ensures BackwardOffsetIterator(n, offset) == LastItemsDown(BackwardIterator(n), offset)
  {
    CountIsSize(n);
    if n.Node? && offset < n.count {
      CountIsSize(n.left);
      if n.left.Node? && offset <= n.left.count {
        BackwardOffsetIteratorTail(n.left, offset);
        var r, l := BackwardIterator(n.right), BackwardIterator(n.left);
        SliceRight(r, n, l, |l| - offset);
      } else if offset == Count(n.left) + 1 {
        OffsetAtNodeDown(n, offset);
      } else {
        BackwardOffsetIteratorTail(n.right, offset - Count(n.left) - 1);
        OffsetIntoRight(n, offset);
      }
    }
  }

  /** A lead of the `o` smallest nodes of `r` in descending order, then the
      node and `l`, is the seek over `r + [n] + l` from the node shifted by
      `o`. */
  lemma LeadJoinDown<V>(r: seq<Tree<V>>, n: Tree<V>, l: seq<Tree<V>>, o: int, lead: seq<Item<V>>)
    requires o >= 0 && lead == (if o > 0 then LastItemsDown(r, o) else [])
    ensures lead + [Yield(n)] + Yields(l) == SeekDown(r + [n] + l, |r|, o)
  {
    var desc := r + [n] + l;
    assert Yields([n]) == [Yield(n)];
    if o == 0 {
      assert SeekDown(desc, |r|, o) == Yields(desc[|r|..]);
      assert desc[|r|..] == [n] + l;
      YieldsConcat([n], l);
    } else if |r| - o < 0 {
      assert SeekDown(desc, |r|, o) == [Residual(o - |r|)] + Yields(desc);
      YieldsConcat(r, [n]);
      YieldsConcat(r + [n], l);
    } else {
      var tail := r[|r| - o..];
      assert lead == Yields(tail);
      assert SeekDown(desc, |r|, o) == Yields(desc[|r| - o..]);
      SliceLeft(r, n, l, |r| - o);
      YieldsConcat(tail, [n]);
      YieldsConcat(tail + [n], l);
    }
  }

  /** The part a node contributes once the walk has passed the boundary
      below it: the `o` smallest nodes of its right subtree (a residual if
      there are fewer), the node, then its left subtree. */
  lemma NodeAfterTailDown<V>(right: Tree<V>, n: Tree<V>, l: seq<Tree<V>>, o: int, nodes: seq<Tree<V>>, lead: seq<Item<V>>)
    requires CountsOk(right) && o >= 0
    requires nodes == BackwardIterator(right) + [n] + l
    requires lead == if o > 0 then BackwardOffsetIterator(right, o) else []
    ensures |BackwardIterator(right)| <= |nodes|
    ensures lead + [Yield(n)] + Yields(l) == SeekDown(nodes, |BackwardIterator(right)|, o)
  {
    if o > 0 {
      BackwardOffsetIteratorTail(right, o);
    }
    LeadJoinDown(BackwardIterator(right), n, l, o, lead);
  }

  /** A right subtree's seek, followed by the node and the left subtree, is
      the seek over the whole node when the node lies before the boundary. */
  lemma SeekDownExtend<V>(r: seq<Tree<V>>, n: Tree<V>, l: seq<Tree<V>>, a: int, offset: int)
    requires 0 <= a <= |r|
    ensures SeekDown(r, a, offset) + [Yield(n)] + Yields(l) == SeekDown(r + [n] + l, a, offset)
  {
    assert Yields([n]) == [Yield(n)];
    if offset > 0 && a - offset < 0 {
      YieldsConcat(r, [n]);
      YieldsConcat(r + [n], l);
    } else {
      var k := if offset <= 0 then a else a - offset;
      SliceLeft(r, n, l, k);
      YieldsConcat(r[k..], [n]);
      YieldsConcat(r[k..] + [n], l);
    }
  }

  /** A descending seek depends only on the index it starts from. */
  lemma SeekDownTarget<V>(s: seq<Tree<V>>, a1: int, o1: int, a2: int, o2: int)
    requires 0 <= a1 <= |s| && 0 <= a2 <= |s|
    requires a1 - (if o1 > 0 then o1 else 0) == a2 - (if o2 > 0 then o2 else 0)
    ensures SeekDown(s, a1, o1) == SeekDown(s, a2, o2)
  {
  }

  /** A seek that ends inside the left part of `r + [n] + l` is a seek
      within `l`, and starts with a node if it yields anything. */
  lemma SeekDownWithin<V>(r: seq<Tree<V>>, n: Tree<V>, l: seq<Tree<V>>, al: int, offset: int)
    requires 0 <= al <= |l| && (offset <= 0 || al - offset >= 0)
    ensures SeekDown(r + [n] + l, |r| + 1 + al, offset) == SeekDown(l, al, offset)
    ensures SeekDown(l, al, offset) == [] || SeekDown(l, al, offset)[0].Yield?
  {
    SliceRight(r, n, l, if offset <= 0 then al else al - offset);
  }

  /** `SeekDownWithin` with the whole sequence and the start index named. */
  lemma SeekDownWithinAt<V>(r: seq<Tree<V>>, n: Tree<V>, l: seq<Tree<V>>, al: int, offset: int, a: int, nodes: seq<Tree<V>>)
    requires 0 <= al <= |l| && (offset <= 0 || al - offset >= 0)
    requires nodes == r + [n] + l && a == |r| + 1 + al
    ensures a <= |nodes|
    ensures SeekDown(nodes, a, offset) == SeekDown(l, al, offset)
    ensures SeekDown(l, al, offset) == [] || SeekDown(l, al, offset)[0].Yield?
  {
    SeekDownWithin(r, n, l, al, offset);
  }

  /** A seek that runs past the largest key leads with the residual, then
      every node. */
  lemma SeekDownPast<V>(l: seq<Tree<V>>, al: int, offset: int)
    requires 0 <= al <= |l| && offset > 0 && al - offset < 0
    ensures SeekDown(l, al, offset)[0] == Residual(offset - al)
    ensures SeekDown(l, al, offset)[1..] == Yields(l)
  {
  }

  /** One step of `iterate` at a node at or after the boundary that has a
      left subtree, when the left subtree's generator is empty or its first
      value is a node: its values pass through unchanged. */
  lemma IterateDownStepPass<V>(n: Tree<V>, key: int, inclusive: bool, offset: int, it: seq<Item<V>>)
    requires n.Node? && !Before(n.key, key, inclusive) && n.left.Node?
    requires it == IterateDown(n.left, key, inclusive, offset) && (it == [] || !it[0].Residual?)
    ensures IterateDown(n, key, inclusive, offset) == it
  {
  }

  /** One step of `iterate` when the left subtree's first value is the
      residual `o + 1`: the `o` smallest nodes of the right subtree lead. */
  lemma IterateDownStepResidual<V>(n: Tree<V>, key: int, inclusive: bool, offset: int, it: seq<Item<V>>, o: int, lead: seq<Item<V>>)
    requires n.Node? && !Before(n.key, key, inclusive) && n.left.Node?
    requires it == IterateDown(n.left, key, inclusive, offset) && it != [] && it[0] == Residual(o + 1)
    requires lead == if o > 0 then BackwardOffsetIterator(n.right, o) else []
    ensures IterateDown(n, key, inclusive, offset) == lead + [Yield(n)] + it[1..]
  {
  }

  /** The node lies at or after the boundary and has no left subtree. */
  lemma IterateDownLast<V>(n: Tree<V>, key: int, inclusive: bool, offset: int)
    requires n.Node? && CountsOk(n) && !Before(n.key, key, inclusive) && n.left.Leaf?
    ensures IterateDown(n, key, inclusive, offset) == SeekDown(BackwardIterator(n), |BackwardIterator(n)|, offset)
  {
    var desc := BackwardIterator(n);
    if offset > 0 {
      BackwardOffsetIteratorTail(n, offset);
    } else {
      assert desc[|desc|..] == [];
    }
  }

  /** The node lies at or after the boundary and the seek ends inside its
      left subtree, `|l| - al` nodes of which lie before the boundary. */
  lemma IterateDownInside<V>(n: Tree<V>, key: int, inclusive: bool, offset: int, al: int, a: int)
    requires n.Node? && !Before(n.key, key, inclusive) && n.left.Node?
    requires 0 <= al <= |BackwardIterator(n.left)| && (offset <= 0 || al - offset >= 0)
    requires IterateDown(n.left, key, inclusive, offset) == SeekDown(BackwardIterator(n.left), al, offset)
    requires a == |BackwardIterator(n.right)| + 1 + al
    ensures a <= |BackwardIterator(n)|
    ensures IterateDown(n, key, inclusive, offset) == SeekDown(BackwardIterator(n), a, offset)
  {
    var it := IterateDown(n.left, key, inclusive, offset);
    SeekDownWithinAt(BackwardIterator(n.right), n, BackwardIterator(n.left), al, offset, a, BackwardIterator(n));
    IterateDownStepPass(n, key, inclusive, offset, it);
  }

  /** The offset runs past every node of the left subtree: its residual
      continues in the right subtree. */
  lemma IterateDownPast<V>(n: Tree<V>, key: int, inclusive: bool, offset: int, al: int, a: int)
    requires n.Node? && CountsOk(n.right) && !Before(n.key, key, inclusive) && n.left.Node?
    requires 0 <= al <= |BackwardIterator(n.left)| && offset > 0 && al - offset < 0
    requires IterateDown(n.left, key, inclusive, offset) == SeekDown(BackwardIterator(n.left), al, offset)
    requires a == |BackwardIterator(n.right)| + 1 + al
    ensures a <= |BackwardIterator(n)|
    ensures IterateDown(n, key, inclusive, offset) == SeekDown(BackwardIterator(n), a, offset)
  {
    var l := BackwardIterator(n.left);
    var it := IterateDown(n.left, key, inclusive, offset);
    SeekDownPast(l, al, offset);
    var o := offset - al - 1;
    var lead := if o > 0 then BackwardOffsetIterator(n.right, o) else [];
    IterateDownStepResidual(n, key, inclusive, offset, it, o, lead);
    PastJoinDown(n.right, n, l, al, offset, a, o, lead, BackwardIterator(n));
  }

  /** The sequence half of `IterateDownPast`: the right subtree's smallest
      nodes, the node and the left subtree's nodes are the seek over the
      whole node. */
  lemma PastJoinDown<V>(right: Tree<V>, n: Tree<V>, l: seq<Tree<V>>, al: int, offset: int, a: int, o: int,
                        lead: seq<Item<V>>, nodes: seq<Tree<V>>)
    requires CountsOk(right) && 0 <= al <= |l| && offset > 0 && al - offset < 0
    requires o == offset - al - 1
    requires lead == if o > 0 then BackwardOffsetIterator(right, o) else []
    requires nodes == BackwardIterator(right) + [n] + l
    requires a == |BackwardIterator(right)| + 1 + al
    ensures a <= |nodes|
    ensures lead + [Yield(n)] + Yields(l) == SeekDown(nodes, a, offset)
  {
    NodeAfterTailDown(right, n, l, o, nodes, lead);
    SeekDownTarget(nodes, a, offset, |BackwardIterator(right)|, o);
  }

  /** The node lies before the boundary; `ar` nodes of its right subtree lie
      at or after it. */
  lemma IterateDownRight<V>(n: Tree<V>, key: int, inclusive: bool, offset: int, ar: int)
    requires n.Node? && Before(n.key, key, inclusive)
    requires n.right.Leaf? ==> ar == 0
    requires n.right.Node? ==>
      0 <= ar <= |BackwardIterator(n.right)| &&
      IterateDown(n.right, key, inclusive, offset) == SeekDown(BackwardIterator(n.right), ar, offset)
    ensures ar <= |BackwardIterator(n)|
    ensures IterateDown(n, key, inclusive, offset) == SeekDown(BackwardIterator(n), ar, offset)
  {
    var r, l := BackwardIterator(n.right), BackwardIterator(n.left);
    assert BackwardIterator(n) == r + [n] + l;
    if n.right.Node? {
      SeekDownExtend(r, n, l, ar, offset);
    } else {
      assert r == [];
      assert Yields([n]) == [Yield(n)];
      YieldsConcat([n], l);
    }
  }

  /** `iterate(n)` seeks the boundary from above: see `SeekDown`. */
  lemma {:induction false} IterateDownSeeks<V>(n: Tree<V>, key: int, inclusive: bool, offset: int)
    requires n.Node? && CountsOk(n) && Ordered(n)
    ensures CountBefore(n, key, inclusive) <= |BackwardIterator(n)|
    ensures IterateDown(n, key, inclusive, offset) ==
      SeekDown(BackwardIterator(n), |BackwardIterator(n)| - CountBefore(n, key, inclusive), offset)
    decreases n, 2
  {
    if !Before(n.key, key, inclusive) {
      IterateDownSeeksLeft(n, key, inclusive, offset);
    } else {
      IterateDownSeeksRight(n, key, inclusive, offset);
    }
  }

  /** `IterateDownSeeks` at a node at or after the boundary. */
  lemma {:induction false} IterateDownSeeksLeft<V>(n: Tree<V>, key: int, inclusive: bool, offset: int)
    requires n.Node? && CountsOk(n) && Ordered(n) && !Before(n.key, key, inclusive)
    ensures CountBefore(n, key, inclusive) <= |BackwardIterator(n)|
    ensures IterateDown(n, key, inclusive, offset) ==
      SeekDown(BackwardIterator(n), |BackwardIterator(n)| - CountBefore(n, key, inclusive), offset)
    decreases n, 1
  {
    CountBeforeBound(n, key, inclusive);
    if n.left.Leaf? {
      assert CountBefore(n, key, inclusive) == 0 by {
        CountBeforeNode(n, key, inclusive);
      }
      IterateDownLast(n, key, inclusive, offset);
    } else {
      var al := |BackwardIterator(n.left)| - CountBefore(n.left, key, inclusive);
      CountBeforeBound(n.left, key, inclusive);
      if offset <= 0 || al - offset >= 0 {
        IterateDownSeeksInside(n, key, inclusive, offset, al);
      } else {
        IterateDownSeeksPast(n, key, inclusive, offset, al);
      }
    }
  }

  /** At a node at or after the boundary, the nodes at or after it are the
      right subtree, the node, and those of the left subtree. */
  lemma AtOrAfterLeft<V>(n: Tree<V>, key: int, inclusive: bool)
    requires n.Node? && Ordered(n) && !Before(n.key, key, inclusive)
    ensures Ordered(n.left) && CountBefore(n, key, inclusive) <= |BackwardIterator(n)|
    ensures |BackwardIterator(n)| - CountBefore(n, key, inclusive) ==
      |BackwardIterator(n.right)| + 1 + (|BackwardIterator(n.left)| - CountBefore(n.left, key, inclusive))
  {
    CountBeforeNode(n, key, inclusive);
    CountBeforeBound(n.left, key, inclusive);
  }

  /** The seek ends inside the left subtree. */
  lemma {:induction false} IterateDownSeeksInside<V>(n: Tree<V>, key: int, inclusive: bool, offset: int, al: int)
    requires n.Node? && CountsOk(n) && Ordered(n) && !Before(n.key, key, inclusive) && n.left.Node?
    requires al == |BackwardIterator(n.left)| - CountBefore(n.left, key, inclusive)
    requires 0 <= al && (offset <= 0 || al - offset >= 0)
    ensures CountBefore(n, key, inclusive) <= |BackwardIterator(n)|
    ensures IterateDown(n, key, inclusive, offset) ==
      SeekDown(BackwardIterator(n), |BackwardIterator(n)| - CountBefore(n, key, inclusive), offset)
    decreases n, 0
  {
    AtOrAfterLeft(n, key, inclusive);
    var a := |BackwardIterator(n.right)| + 1 + al;
    assert IterateDown(n.left, key, inclusive, offset) == SeekDown(BackwardIterator(n.left), al, offset) by {
      assert CountsOk(n.left);
      IterateDownSeeks(n.left, key, inclusive, offset);
    }
    IterateDownInside(n, key, inclusive, offset, al, a);
  }

  /** The offset runs past the start of the left subtree's part. */
  lemma {:induction false} IterateDownSeeksPast<V>(n: Tree<V>, key: int, inclusive: bool, offset: int, al: int)
    requires n.Node? && CountsOk(n) && Ordered(n) && !Before(n.key, key, inclusive) && n.left.Node?
    requires al == |BackwardIterator(n.left)| - CountBefore(n.left, key, inclusive)
    requires 0 <= al && offset > 0 && al - offset < 0
    ensures CountBefore(n, key, inclusive) <= |BackwardIterator(n)|
    ensures IterateDown(n, key, inclusive, offset) ==
      SeekDown(BackwardIterator(n), |BackwardIterator(n)| - CountBefore(n, key, inclusive), offset)
    decreases n, 0
  {
    AtOrAfterLeft(n, key, inclusive);
    var a := |BackwardIterator(n.right)| + 1 + al;
    assert IterateDown(n.left, key, inclusive, offset) == SeekDown(BackwardIterator(n.left), al, offset) by {
      assert CountsOk(n.left);
      IterateDownSeeks(n.left, key, inclusive, offset);
    }
    IterateDownPast(n, key, inclusive, offset, al, a);
  }

  /** `IterateDownSeeks` at a node before the boundary. */
  lemma {:induction false} IterateDownSeeksRight<V>(n: Tree<V>, key: int, inclusive: bool, offset: int)
    requires n.Node? && CountsOk(n) && Ordered(n) && Before(n.key, key, inclusive)
    ensures CountBefore(n, key, inclusive) <= |BackwardIterator(n)|
    ensures IterateDown(n, key, inclusive, offset) ==
      SeekDown(BackwardIterator(n), |BackwardIterator(n)| - CountBefore(n, key, inclusive), offset)
    decreases n, 1
  {
    CountBeforeBound(n, key, inclusive);
    var a := |BackwardIterator(n)| - CountBefore(n, key, inclusive);
    assert Ordered(n.right) && a == |BackwardIterator(n.right)| - CountBefore(n.right, key, inclusive) by {
      CountBeforeNode(n, key, inclusive);
    }
    if n.right.Node? {
      IterateDownSeeks(n.right, key, inclusive, offset);
    }
    IterateDownRight(n, key, inclusive, offset, a);
  }

  /** What the wrapper yields once it has pulled the first value (if any)
      and skipped `pos - 1` more. */
  lemma SkipSeekDown<V>(it: seq<Item<V>>, desc: seq<Tree<V>>, a: int, offset: int, pos: int, lead: seq<Item<V>>)
    requires 0 <= a <= |desc| && it == SeekDown(desc, a, offset)
    requires offset < 0 ==> pos == if -offset < |it| then -offset else |it|
    requires offset >= 0 ==> pos == if |it| > 0 then 1 else 0
    requires lead == if offset >= 0 && |it| > 0 && it[0].Yield? then [it[0]] else []
    ensures 0 <= pos <= |it|
    ensures lead + it[pos..] == Yields(desc[Clamp(a - offset, 0, |desc|)..])
  {
    if offset < 0 {
      YieldsDrop(desc[a..], pos);
      assert desc[a..][pos..] == desc[a + pos..];
    } else if offset == 0 {
      if |it| > 0 {
        assert [it[0]] + it[1..] == it;
      }
    } else if a - offset < 0 {
      assert it[1..] == Yields(desc);
    } else {
      assert it[0] == Yield(desc[a - offset]);
      assert [it[0]] + it[1..] == it;
    }
  }

  /** `keyedBackwardIterator(key, offset, n, test)`
      (lib/backward-iterator.js:28-78): pulls the first value of
      `iterate(n)`; for a negative offset it drops it and skips `-offset - 1`
      further values, otherwise it passes it on when it is a node; then it
      yields the rest. The result is the descending nodes from index
      `a - offset`, clamped to the tree, to the end, where `a` counts the keys
      at or after the boundary (test.js:134-148). */
  method KeyedBackwardIterator<V>(key: int, offset: int, n: Tree<V>, inclusive: bool) returns (r: seq<Item<V>>)
    requires n.Node? && CountsOk(n) && Ordered(n)
    ensures CountBefore(n, key, inclusive) <= |BackwardIterator(n)|
    ensures r == Yields(BackwardIterator(n)[Clamp(|BackwardIterator(n)| - CountBefore(n, key, inclusive) - offset, 0, |BackwardIterator(n)|)..])
  {
    var it := StartDown(n, key, inclusive, offset);
    var lead, pos := SkipDown(it, offset);
    ghost var desc := BackwardIterator(n);
    SkipSeekDown(it, desc, |desc| - CountBefore(n, key, inclusive), offset, pos, lead);
    r := lead + it[pos..];
  }



  /** The inner generator `iterate(n)` of `keyedBackwardIterator`, started:
      its values are those of `SeekDown` from the first node at or after the
      boundary. */
  method StartDown<V>(n: Tree<V>, key: int, inclusive: bool, offset: int) returns (it: seq<Item<V>>)
    requires n.Node? && CountsOk(n) && Ordered(n)
    ensures CountBefore(n, key, inclusive) <= |BackwardIterator(n)|
    ensures it == SeekDown(BackwardIterator(n), |BackwardIterator(n)| - CountBefore(n, key, inclusive), offset)
  {
    it := IterateDown(n, key, inclusive, offset);
    IterateDownSeeks(n, key, inclusive, offset);
  }

  /** The skipping part of `keyedBackwardIterator`: the first value is kept
      when the offset is not negative and it is a node, and otherwise it and
      `-offset - 1` further values are dropped. */
  method SkipDown<V>(it: seq<Item<V>>, offset: int) returns (lead: seq<Item<V>>, pos: int)
    ensures offset < 0 ==> pos == if -offset < |it| then -offset else |it|
    ensures offset >= 0 ==> pos == if |it| > 0 then 1 else 0
    ensures lead == if offset >= 0 && |it| > 0 && it[0].Yield? then [it[0]] else []
  {
    pos := if |it| > 0 then 1 else 0;
    var rest := offset;
    lead := [];
    if rest < 0 {
      rest := rest + 1;
    } else if pos == 1 && it[0].Yield? {
      lead := [it[0]];
    }
    while rest < 0 && pos < |it|
      invariant 0 <= pos <= |it|
      invariant |it| > 0 ==> 1 <= pos
      invariant offset < 0 && |it| > 0 ==> rest <= 0 && pos - rest == -offset
      invariant offset >= 0 ==> pos == if |it| > 0 then 1 else 0
    {
      rest := rest + 1;
      pos := pos + 1;
    }
  }
}
