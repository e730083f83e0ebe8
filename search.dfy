/** The search loops of lib/tree.js: `node` (exact lookup), `find` (the
    stack down to a key, for `clear`) and `ge` (the stack down to the least
    key at or after a bound, for `clearRange`). A returned stack is a path
    of frames and the node on top of it; an empty stack is an empty path
    under `Leaf`. */
module Search {
  import opened Content
  import opened RbNode
  import opened Zipper

  /** `node(key, n, compare)` (lib/tree.js:257-269): walks down from `root`
      and returns the node holding `key`, or `Leaf` (undefined) when there is
      none. */
  method LookupNode<V>(key: int, root: Tree<V>) returns (r: Tree<V>)
    requires Ordered(root)
    ensures r.Leaf? <==> Lookup(Entries(root), key).None?
    ensures r.Node? ==> r.key == key && Lookup(Entries(root), key) == Some(r.value)
  {
    var n := root;
    while n.Node?
      invariant Ordered(n)
      invariant Lookup(Entries(root), key) == Lookup(Entries(n), key)
      decreases n
    {
      OrderedNode(n);
      LookupMiddle(Entries(n.left), n.key, n.value, Entries(n.right), key);
      var d := Compare(key, n.key);
      if d == 0 {
        return n;
      }
      if d <= 0 {
        n := n.left;
      } else {
        n := n.right;
      }
    }
    return Leaf;
  }

  /** `find(n, key, compare)` (lib/tree.js:271-289): descends as `node`
      does, remembering the stack at the last node whose key matched; the
      stack is cut back to it, so it is empty when the key is absent. */
  method Find<V>(root: Tree<V>, key: int) returns (path: seq<Frame<V>>, top: Tree<V>)
    requires Ordered(root)
    ensures top.Leaf? <==> Lookup(Entries(root), key).None?
    ensures top.Leaf? ==> path == []
    ensures top.Node? ==> top.key == key && Plug(path, top) == root
  {
    path, top := [], Leaf;
    var stack: seq<Frame<V>> := [];
    var n := root;
    while n.Node?
      invariant Ordered(n) && Plug(stack, n) == root
      invariant top.Leaf? ==> path == [] && Lookup(Entries(root), key) == Lookup(Entries(n), key)
      invariant top.Node? ==> top.key == key && Plug(path, top) == root
      invariant top.Node? ==> Lookup(Entries(root), key).Some? && Lookup(Entries(n), key).None?
      decreases n
    {
      OrderedNode(n);
      LookupMiddle(Entries(n.left), n.key, n.value, Entries(n.right), key);
      LookupNone(Entries(n.left), key);
      var d := Compare(key, n.key);
      if d == 0 {
        path, top := stack, n;
      }
      if d <= 0 {
        stack := stack + [FrameOf(n, Left)];
        PlugLast(stack[..|stack| - 1], FrameOf(n, Left), n.left);
        assert stack[..|stack| - 1] + [FrameOf(n, Left)] == stack;
        n := n.left;
      } else {
        stack := stack + [FrameOf(n, Right)];
        PlugLast(stack[..|stack| - 1], FrameOf(n, Right), n.right);
        assert stack[..|stack| - 1] + [FrameOf(n, Right)] == stack;
        n := n.right;
      }
    }
  }

  /** A key at or after the start bound of `ge`. */
  predicate AtOrAfter(k: int, start: Bound) {
    InRange(k, start, AfterEnd)
  }

  /** `ge(n, key, compare)` (lib/tree.js:291-315): the stack down to the
      least key at or after `start` -- the leftmost path for `beforeStart` --
      or an empty stack when every key lies before `start`. */
  method Ge<V>(root: Tree<V>, start: Bound) returns (path: seq<Frame<V>>, top: Tree<V>)
    requires Ordered(root) && !start.AfterEnd?
    ensures top.Leaf? ==> path == []
    ensures top.Leaf? ==> forall i :: 0 <= i < |Entries(root)| ==> !AtOrAfter(Entries(root)[i].0, start)
    ensures top.Node? ==> Plug(path, top) == root && AtOrAfter(top.key, start)
    ensures top.Node? ==> forall i :: 0 <= i < |Entries(root)| && AtOrAfter(Entries(root)[i].0, start) ==>
      top.key <= Entries(root)[i].0
  {
    path, top := [], Leaf;
    var stack: seq<Frame<V>> := [];
    var n := root;
    ghost var es := Entries(root);
    if start.BeforeStart? {
      while n.Node?
        invariant Ordered(n) && Plug(stack, n) == root
        invariant forall i :: 0 <= i < |es| ==> es[i] in Entries(n) || (top.Node? && top.key <= es[i].0)
        invariant top.Node? ==> forall x :: x in Entries(n) ==> x.0 < top.key
        invariant top.Leaf? ==> path == [] && n == root
        invariant top.Node? ==> Plug(path, top) == root
        decreases n
      {
        OrderedNode(n);
        forall x | x in Entries(n) {
          MemberSplit(n, x);
        }
        path, top := stack, n;
        stack := stack + [FrameOf(n, Left)];
        PlugLast(stack[..|stack| - 1], FrameOf(n, Left), n.left);
        assert stack[..|stack| - 1] + [FrameOf(n, Left)] == stack;
        n := n.left;
      }
    } else {
      var key := start.k;
      while n.Node?
        invariant Ordered(n) && Plug(stack, n) == root
        invariant forall i :: 0 <= i < |es| && AtOrAfter(es[i].0, start) ==>
          es[i] in Entries(n) || (top.Node? && top.key <= es[i].0)
        invariant top.Node? ==> forall x :: x in Entries(n) ==> x.0 < top.key
        invariant top.Leaf? ==> path == []
        invariant top.Node? ==> Plug(path, top) == root && AtOrAfter(top.key, start)
        decreases n
      {
        OrderedNode(n);
        forall x | x in Entries(n) {
          MemberSplit(n, x);
        }
        var d := Compare(key, n.key);
        if d <= 0 {
          path, top := stack, n;
          stack := stack + [FrameOf(n, Left)];
          PlugLast(stack[..|stack| - 1], FrameOf(n, Left), n.left);
          assert stack[..|stack| - 1] + [FrameOf(n, Left)] == stack;
          n := n.left;
        } else {
          stack := stack + [FrameOf(n, Right)];
          PlugLast(stack[..|stack| - 1], FrameOf(n, Right), n.right);
          assert stack[..|stack| - 1] + [FrameOf(n, Right)] == stack;
          n := n.right;
        }
      }
    }
  }
}
