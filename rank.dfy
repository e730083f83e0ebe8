/** Rank navigation by subtree counts (lib/tree.js:317-465):
    `forwardOffset`, `backwardOffset` and `findNode`, which `getKey` uses.
    The source returns either a node or a number; here the two are the
    constructors of `Rank`. Positions are indices into the in-order node
    sequence `ForwardIterator(n)`. The loops `ForwardOffset` and
    `BackwardOffset` are proved equal to the functions `NthForward` and
    `NthBackward`, and the function-level `FindIn`/`FindNode` call those
    functions where the source calls the loops. */
module Rank {
  import opened Content
  import opened RbNode
  import opened ForwardIter
  import opened BackwardIter

  /** A node, or the number the source returns instead: how far the
      requested position lies before the first node (negative) or after the
      last one (positive). */
  datatype Rank<V> = Found(node: Tree<V>) | Over(residual: int)

  /** The node at index `t` of `nodes`, or how far `t` lies outside:
      `t` itself below the start, `t - |nodes| + 1` past the end. */
  function RankAt<V>(nodes: seq<Tree<V>>, t: int): (r: Rank<V>)
    ensures r.Over? ==> r.residual != 0
  {
    if t < 0 then Over(t)
    else if t < |nodes| then Found(nodes[t])
    else Over(t - |nodes| + 1)
  }

  /** The `k`-th node of `n` in order (1-based), or the residual
      `k - count(n)` past the end. */
  function NthForward<V>(n: Tree<V>, k: int): Rank<V>
    requires k >= 1
  {
    RankAt(ForwardIterator(n), k - 1)
  }

  /** The `-k`-th node of `n` counted from the right (1-based), or the
      negative residual `k + count(n)` past the start. */
  function NthBackward<V>(n: Tree<V>, k: int): Rank<V>
    requires k <= -1
  {
    RankAt(ForwardIterator(n), |ForwardIterator(n)| + k)
  }

  /** `forwardOffset(n, offset)` (lib/tree.js:349-379): walks down by the
      left subtrees' counts to the `offset`-th node of `n` in order, and
      returns the residual when `n` holds fewer nodes. Every caller passes
      an offset of at least 1. */
  method ForwardOffset<V>(n: Tree<V>, offset: int) returns (r: Rank<V>)
    requires CountsOk(n) && offset >= 1
    ensures r == NthForward(n, offset)
  {
    if n.Leaf? {
      return Over(offset);
    }
    var m, o := n, offset;
    while true
      invariant m.Node? && CountsOk(m) && o >= 1
      invariant NthForward(m, o) == NthForward(n, offset)
      decreases m
    {
      ForwardStep(m, o);
      if m.left.Node? {
        if o <= m.left.count {
          m := m.left;
          continue;
        }
        o := o - m.left.count;
      }
      o := o - 1;
      if o == 0 {
        return Found(m);
      }
      if m.right.Node? {
        if o > m.right.count {
          return Over(o - m.right.count);
        }
        m := m.right;
      } else {
        return Over(o);
      }
    }
  }

  /** `backwardOffset(n, offset)` (lib/tree.js:317-347): the mirror image of
      `forwardOffset` for a negative offset, counting from the right. Every
      caller passes an offset of at most -1. */
  method BackwardOffset<V>(n: Tree<V>, offset: int) returns (r: Rank<V>)
    requires CountsOk(n) && offset <= -1
    ensures r == NthBackward(n, offset)
  {
    if n.Leaf? {
      return Over(offset);
    }
    var m, o := n, offset;
    while true
      invariant m.Node? && CountsOk(m) && o <= -1
      invariant NthBackward(m, o) == NthBackward(n, offset)
      decreases m
    {
      BackwardStep(m, o);
      if m.right.Node? {
        if -o <= m.right.count {
          m := m.right;
          continue;
        }
        o := o + m.right.count;
      }
      o := o + 1;
      if o == 0 {
        return Found(m);
      }
      if m.left.Node? {
        if -o > m.left.count {
          return Over(o + m.left.count);
        }
        m := m.left;
      } else {
        return Over(o);
      }
    }
  }

  /** One step of `forwardOffset`: the `k`-th node lies in the left
      subtree, is the node itself, or is the `k - count(left) - 1`-th of the
      right subtree (which also gives the residual past the end). */
  lemma ForwardStep<V>(m: Tree<V>, k: int)
    requires m.Node? && CountsOk(m) && k >= 1
    ensures Count(m.right) == |ForwardIterator(m.right)|
    ensures k <= Count(m.left) ==> NthForward(m, k) == NthForward(m.left, k)
    ensures k == Count(m.left) + 1 ==> NthForward(m, k) == Found(m)
    ensures k > Count(m.left) + 1 ==> NthForward(m, k) == NthForward(m.right, k - Count(m.left) - 1)
  {
    CountIsSize(m.right);
    if k <= Count(m.left) {
      ForwardStepLeft(m, k);
    } else if k == Count(m.left) + 1 {
      ForwardStepSelf(m);
    } else {
      ForwardStepRight(m, k);
    }
  }

  lemma ForwardStepLeft<V>(m: Tree<V>, k: int)
    requires m.Node? && CountsOk(m) && 1 <= k <= Count(m.left)
    ensures NthForward(m, k) == NthForward(m.left, k)
  {
    var l, r := ForwardIterator(m.left), ForwardIterator(m.right);
    assert ForwardIterator(m) == l + [m] + r;
    CountIsSize(m.left);
    RankAtLeft(l, m, r, k - 1);
  }

  lemma ForwardStepSelf<V>(m: Tree<V>)
    requires m.Node? && CountsOk(m)
    ensures NthForward(m, Count(m.left) + 1) == Found(m)
  {
    var l, r := ForwardIterator(m.left), ForwardIterator(m.right);
    assert ForwardIterator(m) == l + [m] + r;
    CountIsSize(m.left);
    RankAtMiddle(l, m, r);
  }

  lemma ForwardStepRight<V>(m: Tree<V>, k: int)
    requires m.Node? && CountsOk(m) && k > Count(m.left) + 1
    ensures NthForward(m, k) == NthForward(m.right, k - Count(m.left) - 1)
  {
    var l, r := ForwardIterator(m.left), ForwardIterator(m.right);
    assert ForwardIterator(m) == l + [m] + r;
    CountIsSize(m.left);
    RankAtRight(l, m, r, k - 1);
  }

  /** One step of `backwardOffset`: the `-k`-th node from the right lies in
      the right subtree, is the node itself, or is counted on into the left
      subtree (which also gives the residual past the start). */
  lemma BackwardStep<V>(m: Tree<V>, k: int)
    requires m.Node? && CountsOk(m) && k <= -1
    ensures Count(m.left) == |ForwardIterator(m.left)|
    ensures -k <= Count(m.right) ==> NthBackward(m, k) == NthBackward(m.right, k)
    ensures k + Count(m.right) + 1 == 0 ==> NthBackward(m, k) == Found(m)
    ensures k + Count(m.right) + 1 < 0 ==> NthBackward(m, k) == NthBackward(m.left, k + Count(m.right) + 1)
  {
    var l, r := ForwardIterator(m.left), ForwardIterator(m.right);
    assert ForwardIterator(m) == l + [m] + r;
    assert Count(m.left) == |l| && Count(m.right) == |r| by {
      CountIsSize(m.left);
      CountIsSize(m.right);
    }
    var t := |l| + 1 + |r| + k;
    if -k <= |r| {
      RankAtRight(l, m, r, t);
    } else if t == |l| {
      RankAtMiddle(l, m, r);
    } else {
      RankAtLeft(l, m, r, t);
    }
  }

  /** Index `t` of `l + [x] + r` before `x` lies in `l` (or before it). */
  lemma RankAtLeft<V>(l: seq<Tree<V>>, x: Tree<V>, r: seq<Tree<V>>, t: int)
    requires t < |l|
    ensures RankAt(l + [x] + r, t) == RankAt(l, t)
  {
    if 0 <= t {
      assert (l + [x] + r)[t] == l[t];
    }
  }

  /** Index `|l|` of `l + [x] + r` is `x`. */
  lemma RankAtMiddle<V>(l: seq<Tree<V>>, x: Tree<V>, r: seq<Tree<V>>)
    ensures RankAt(l + [x] + r, |l|) == Found(x)
  {
    assert (l + [x] + r)[|l|] == x;
  }

  /** Index `t` of `l + [x] + r` after `x` lies in `r` (or past it). */
  lemma RankAtRight<V>(l: seq<Tree<V>>, x: Tree<V>, r: seq<Tree<V>>, t: int)
    requires t > |l|
    ensures RankAt(l + [x] + r, t) == RankAt(r, t - |l| - 1)
  {
    if t < |l| + 1 + |r| {
      assert (l + [x] + r)[t] == r[t - |l| - 1];
    }
  }


  /** The inner `find(n)` of `findNode` (lib/tree.js:402-462): below a key
      that is not before the boundary it looks left and resolves a residual
      from there by the node itself or by `forwardOffset` into the right
      subtree; otherwise it looks right and resolves a residual by the node
      itself or by `backwardOffset` into the left subtree. */
  function FindIn<V>(n: Tree<V>, key: int, inclusive: bool, offset: int): Rank<V>
    requires n.Node?
    decreases n
  {
    if !Before(n.key, key, inclusive) then
      if n.left.Node? then
        var v := FindIn(n.left, key, inclusive, offset);
        if v.Over? then
          if v.residual < 0 then v
          else if v.residual > 1 then NthForward(n.right, v.residual - 1)
          else Found(n)
        else v
      else if offset == 1 then Found(n)
      else if offset > 1 then NthForward(n.right, offset - 1)
      else Over(offset - 1)
    else if n.right.Node? then
      var v := FindIn(n.right, key, inclusive, offset);
      if v.Over? then
        if v.residual < -1 then NthBackward(n.left, v.residual + 1)
        else if v.residual > 0 then v
        else Found(n)
      else v
    else if offset < 0 then NthBackward(n.left, offset)
    else if offset > 0 then Over(offset)
    else Found(n)
  }

  /** `findNode(key, inclusive, offset, root, compare)`
      (lib/tree.js:381-465). A real key needs a root: the inner search reads
      `n.key` at once. */
  function FindNode<V>(key: Bound, inclusive: bool, offset: int, root: Tree<V>): Rank<V>
    requires key.Key? ==> root.Node?
  {
    match key
    case BeforeStart => if offset > 0 then NthForward(root, offset) else Over(offset - 1)
    case AfterEnd => if offset < 0 then NthBackward(root, offset) else Over(offset + 1)
    case Key(k) => FindIn(root, k, inclusive, offset)
  }

  /** The index `findNode` starts from: before the first node for
      `beforeStart`, after the last for `afterEnd`, and otherwise the last
      node whose key lies before the boundary. */
  function BaseIndex<V>(key: Bound, inclusive: bool, root: Tree<V>): int {
    match key
    case BeforeStart => -1
    case AfterEnd => |ForwardIterator(root)|
    case Key(k) => CountBefore(root, k, inclusive) - 1
  }

  // ---------------------------------------------------------------------

  /** `findNode` is the node at index `BaseIndex + offset` of the in-order
      sequence, or the distance past either end (never 0). */
  lemma FindNodeRank<V>(key: Bound, inclusive: bool, offset: int, root: Tree<V>)
    requires key.Key? ==> root.Node? && Ordered(root)
    ensures FindNode(key, inclusive, offset, root) ==
      RankAt(ForwardIterator(root), BaseIndex(key, inclusive, root) + offset)
  {
    var nodes := ForwardIterator(root);
    match key
    case BeforeStart =>
      assert FindNode(key, inclusive, offset, root) == RankAt(nodes, offset - 1);
    case AfterEnd =>
      assert FindNode(key, inclusive, offset, root) == RankAt(nodes, |nodes| + offset);
    case Key(k) =>
      FindInRank(root, k, inclusive, offset);
  }

  /** The inner search's closed form, by induction on the tree. */
  lemma {:induction false} FindInRank<V>(n: Tree<V>, key: int, inclusive: bool, offset: int)
    requires n.Node? && Ordered(n)
    ensures FindIn(n, key, inclusive, offset) ==
      RankAt(ForwardIterator(n), CountBefore(n, key, inclusive) - 1 + offset)
    decreases n, 1
  {
    if !Before(n.key, key, inclusive) {
      FindInRankAfter(n, key, inclusive, offset);
    } else {
      FindInRankBefore(n, key, inclusive, offset);
    }
  }

  /** `FindInRank` at a node that is not before the boundary. */
  lemma {:induction false} FindInRankAfter<V>(n: Tree<V>, key: int, inclusive: bool, offset: int)
    requires n.Node? && Ordered(n) && !Before(n.key, key, inclusive)
    ensures FindIn(n, key, inclusive, offset) ==
      RankAt(ForwardIterator(n), CountBefore(n, key, inclusive) - 1 + offset)
    decreases n, 0
  {
    assert Ordered(n.left) by {
      OrderedNode(n);
    }
    var t := CountBefore(n.left, key, inclusive) - 1 + offset;
    assert t == CountBefore(n, key, inclusive) - 1 + offset by {
      CountBeforeNode(n, key, inclusive);
    }
    if n.left.Node? {
      FindInRank(n.left, key, inclusive, offset);
      FindInLeft(n, key, inclusive, offset, t);
    } else {
      FindInLeftLeaf(n, key, inclusive, offset, t);
    }
  }

  /** `FindInRank` at a node that is before the boundary. */
  lemma {:induction false} FindInRankBefore<V>(n: Tree<V>, key: int, inclusive: bool, offset: int)
    requires n.Node? && Ordered(n) && Before(n.key, key, inclusive)
    ensures FindIn(n, key, inclusive, offset) ==
      RankAt(ForwardIterator(n), CountBefore(n, key, inclusive) - 1 + offset)
    decreases n, 0
  {
    assert Ordered(n.right) by {
      OrderedNode(n);
    }
    var tr := CountBefore(n.right, key, inclusive) - 1 + offset;
    var t := |ForwardIterator(n.left)| + 1 + tr;
    assert t == CountBefore(n, key, inclusive) - 1 + offset by {
      CountBeforeNode(n, key, inclusive);
    }
    if n.right.Node? {
      assert FindIn(n.right, key, inclusive, offset) == RankAt(ForwardIterator(n.right), tr) by {
        FindInRank(n.right, key, inclusive, offset);
      }
      FindInRight(n, key, inclusive, offset, tr, t);
    } else {
      FindInRightLeaf(n, key, inclusive, offset, t);
    }
  }

  /** A node not before the boundary and without a left subtree is the
      first candidate. */
  lemma FindInLeftLeaf<V>(n: Tree<V>, key: int, inclusive: bool, offset: int, t: int)
    requires n.Node? && n.left.Leaf? && !Before(n.key, key, inclusive) && t == offset - 1
    ensures FindIn(n, key, inclusive, offset) == RankAt(ForwardIterator(n), t)
  {
    var r := ForwardIterator(n.right);
    var nodes := ForwardIterator(n);
    assert nodes == [n] + r;
    if t >= 1 && t - 1 < |r| {
      assert nodes[t] == r[t - 1];
    }
  }

  /** A node before the boundary and without a right subtree is the last
      candidate. */
  lemma FindInRightLeaf<V>(n: Tree<V>, key: int, inclusive: bool, offset: int, t: int)
    requires n.Node? && n.right.Leaf? && Before(n.key, key, inclusive)
    requires t == |ForwardIterator(n.left)| + offset
    ensures FindIn(n, key, inclusive, offset) == RankAt(ForwardIterator(n), t)
  {
    var l := ForwardIterator(n.left);
    var nodes := ForwardIterator(n);
    assert nodes == l + [n];
    if 0 <= t < |l| {
      assert nodes[t] == l[t];
    }
  }

  /** The left-subtree step of `FindInRank`. */
  lemma FindInLeft<V>(n: Tree<V>, key: int, inclusive: bool, offset: int, t: int)
    requires n.Node? && n.left.Node? && !Before(n.key, key, inclusive)
    requires FindIn(n.left, key, inclusive, offset) == RankAt(ForwardIterator(n.left), t)
    ensures FindIn(n, key, inclusive, offset) == RankAt(ForwardIterator(n), t)
  {
    var l, r := ForwardIterator(n.left), ForwardIterator(n.right);
    var nodes := ForwardIterator(n);
    assert nodes == l + [n] + r;
    if 0 <= t < |l| {
      assert nodes[t] == l[t];
    } else if t > |l| && t - |l| - 1 < |r| {
      assert nodes[t] == r[t - |l| - 1];
    }
  }

  /** The right-subtree step of `FindInRank`: `tr` is the index within the
      right subtree. */
  lemma FindInRight<V>(n: Tree<V>, key: int, inclusive: bool, offset: int, tr: int, t: int)
    requires n.Node? && n.right.Node? && Before(n.key, key, inclusive)
    requires FindIn(n.right, key, inclusive, offset) == RankAt(ForwardIterator(n.right), tr)
    requires t == |ForwardIterator(n.left)| + 1 + tr
    ensures FindIn(n, key, inclusive, offset) == RankAt(ForwardIterator(n), t)
  {
    var l, r := ForwardIterator(n.left), ForwardIterator(n.right);
    var nodes := ForwardIterator(n);
    assert nodes == l + [n] + r;
    if 0 <= tr < |r| {
      assert nodes[t] == r[tr];
    } else if 0 <= t < |l| {
      assert nodes[t] == l[t];
    }
  }
}
