/** The tree node of lib/tree.js and the invariants every published root keeps:
    key order, red-black colouring and the subtree counts. */
module RbNode {
  import opened Content

  datatype Color = Red | Black

  /** A node `{ _color, key, value, left, right, _count }`; `Leaf` is a
      missing (undefined) subtree. */
  datatype Tree<V> = Leaf | Node(color: Color, left: Tree<V>, key: int, value: V, right: Tree<V>, count: nat)

  /** `n._count`, with 0 for a missing subtree. */
  function Count<V>(t: Tree<V>): nat {
    if t.Node? then t.count else 0
  }

  /** A node whose `_count` is written by `recount` (lib/tree.js:10-12). */
  function Recounted<V>(c: Color, l: Tree<V>, k: int, v: V, r: Tree<V>): (t: Tree<V>)
    ensures t.Node? && Entries(t) == Entries(l) + [(k, v)] + Entries(r)
    ensures CountsOk(l) && CountsOk(r) ==> CountsOk(t)
  {
    Node(c, l, k, v, r, 1 + Count(l) + Count(r))
  }

  /** The map's content: the entries in in-order sequence. */
  function Entries<V>(t: Tree<V>): seq<(int, V)> {
    match t
    case Leaf => []
    case Node(_, l, k, v, r, _) => Entries(l) + [(k, v)] + Entries(r)
  }

  /** Every node's `_count` is `1 + count(left) + count(right)`. */
  ghost predicate CountsOk<V>(t: Tree<V>) {
    match t
    case Leaf => true
    case Node(_, l, _, _, r, n) => n == 1 + Count(l) + Count(r) && CountsOk(l) && CountsOk(r)
  }

  /** Keys strictly ascend in in-order sequence (the comparator never sees
      two equal keys in one tree). */
  ghost predicate Ordered<V>(t: Tree<V>) {
    SortedKeys(Entries(t))
  }

  predicate IsRed<V>(t: Tree<V>) {
    t.Node? && t.color == Red
  }

  /** No red node has a red child. */
  ghost predicate NoRedRed<V>(t: Tree<V>) {
    match t
    case Leaf => true
    case Node(c, l, _, _, r, _) => (c == Red ==> !IsRed(l) && !IsRed(r)) && NoRedRed(l) && NoRedRed(r)
  }

  /** Black nodes on the leftmost path (all paths, once `Balanced`). */
  function BlackHeight<V>(t: Tree<V>): nat {
    match t
    case Leaf => 0
    case Node(c, l, _, _, _, _) => BlackHeight(l) + (if c == Black then 1 else 0)
  }

  /** Every root-to-leaf path holds the same number of black nodes. */
  ghost predicate Balanced<V>(t: Tree<V>) {
    match t
    case Leaf => true
    case Node(_, l, _, _, r, _) => Balanced(l) && Balanced(r) && BlackHeight(l) == BlackHeight(r)
  }

  /** The invariants of every published root (test.js:25-66). */
  ghost predicate Valid<V>(t: Tree<V>) {
    Ordered(t) && CountsOk(t) && NoRedRed(t) && Balanced(t) && !IsRed(t)
  }

  /** Number of keys that lie before a boundary key. */
  function CountBefore<V>(t: Tree<V>, b: int, inclusive: bool): nat {
    match t
    case Leaf => 0
    case Node(_, l, k, _, r, _) =>
      CountBefore(l, b, inclusive) + (if Before(k, b, inclusive) then 1 else 0) + CountBefore(r, b, inclusive)
  }

  function Blacken<V>(t: Tree<V>): (r: Tree<V>)
    ensures Entries(r) == Entries(t) && Count(r) == Count(t) && !IsRed(r)
    ensures CountsOk(t) ==> CountsOk(r)
    ensures NoRedRed(t) ==> NoRedRed(r)
    ensures Balanced(t) ==> Balanced(r)
    ensures !IsRed(t) ==> r == t
  {
    if t.Node? then t.(color := Black) else Leaf
  }

  /** The same colours and counts everywhere, whatever the keys and values:
      what moving a key and value into another node leaves unchanged. */
  ghost predicate SameShape<V>(a: Tree<V>, b: Tree<V>) {
    match a
    case Leaf => b.Leaf?
    case Node(c, l, _, _, r, n) =>
      b.Node? && b.color == c && b.count == n && SameShape(l, b.left) && SameShape(r, b.right)
  }

  // ---------------------------------------------------------------------

  lemma {:induction false} SameShapeRefl<V>(t: Tree<V>)
    ensures SameShape(t, t)
  {
    if t.Node? {
      SameShapeRefl(t.left);
      SameShapeRefl(t.right);
    }
  }

  /** The colour and count invariants only see the shape. */
  lemma {:induction false} SameShapeKeeps<V>(a: Tree<V>, b: Tree<V>)
    requires SameShape(a, b)
    ensures Count(a) == Count(b) && IsRed(a) == IsRed(b) && BlackHeight(a) == BlackHeight(b)
    ensures CountsOk(a) == CountsOk(b) && NoRedRed(a) == NoRedRed(b) && Balanced(a) == Balanced(b)
  {
    if a.Node? {
      SameShapeKeeps(a.left, b.left);
      SameShapeKeeps(a.right, b.right);
    }
  }

  /** The stored counts are the subtree sizes. */
  lemma {:induction false} CountIsSize<V>(t: Tree<V>)
    requires CountsOk(t)
    ensures Count(t) == |Entries(t)|
  {
    if t.Node? {
      CountIsSize(t.left);
      CountIsSize(t.right);
    }
  }

  /** Key order at one node: left keys below, right keys above. */
  lemma OrderedNode<V>(t: Tree<V>)
    requires t.Node?
    ensures Ordered(t) <==>
      Ordered(t.left) && Ordered(t.right) && AllBelow(Entries(t.left), t.key) && AllAbove(Entries(t.right), t.key)
  {
    if Ordered(t) {
      SortedMiddle(Entries(t.left), t.key, t.value, Entries(t.right));
    }
    if Ordered(t.left) && Ordered(t.right) && AllBelow(Entries(t.left), t.key) && AllAbove(Entries(t.right), t.key) {
      SortedJoin(Entries(t.left), t.key, t.value, Entries(t.right));
    }
  }

  /** An entry of an ordered node lies in its left subtree below the key, is
      the node's own, or lies in its right subtree above the key. */
  lemma MemberSplit<V>(t: Tree<V>, x: (int, V))
    requires t.Node? && Ordered(t) && x in Entries(t)
    ensures x in Entries(t.left) ==> x.0 < t.key
    ensures x in Entries(t.right) ==> t.key < x.0
    ensures x in Entries(t.left) || x == (t.key, t.value) || x in Entries(t.right)
  {
    OrderedNode(t);
    if x in Entries(t.left) {
      var i :| 0 <= i < |Entries(t.left)| && Entries(t.left)[i] == x;
    }
    if x in Entries(t.right) {
      var i :| 0 <= i < |Entries(t.right)| && Entries(t.right)[i] == x;
    }
  }

  lemma CountBeforeBound<V>(t: Tree<V>, b: int, inclusive: bool)
    ensures CountBefore(t, b, inclusive) <= |Entries(t)|
  {
  }

  /** The keys before a boundary form a prefix of the in-order sequence:
      `CountBefore - 1` is the last index whose key is before the boundary. */
  lemma {:induction false} CountBeforePrefix<V>(t: Tree<V>, b: int, inclusive: bool)
    requires Ordered(t)
    ensures CountBefore(t, b, inclusive) <= |Entries(t)|
    ensures forall i :: 0 <= i < CountBefore(t, b, inclusive) ==> Before(Entries(t)[i].0, b, inclusive)
    ensures forall i :: CountBefore(t, b, inclusive) <= i < |Entries(t)| ==> !Before(Entries(t)[i].0, b, inclusive)
  {
    if t.Node? {
      OrderedNode(t);
      CountBeforePrefix(t.left, b, inclusive);
      CountBeforePrefix(t.right, b, inclusive);
      var el, er := Entries(t.left), Entries(t.right);
      var es := Entries(t);
      var c := CountBefore(t, b, inclusive);
      if Before(t.key, b, inclusive) {
        NoneAboveBefore(t.left, t.key, b, inclusive);
        assert c == |el| + 1 + CountBefore(t.right, b, inclusive);
        forall i | 0 <= i < c ensures Before(es[i].0, b, inclusive) {
          if i < |el| {
            assert es[i] == el[i];
          } else if i > |el| {
            assert es[i] == er[i - |el| - 1];
          }
        }
        forall i | c <= i < |es| ensures !Before(es[i].0, b, inclusive) {
          assert es[i] == er[i - |el| - 1];
        }
      } else {
        NoneBelowAfter(t.right, t.key, b, inclusive);
        assert c == CountBefore(t.left, b, inclusive);
        forall i | 0 <= i < c ensures Before(es[i].0, b, inclusive) {
          assert es[i] == el[i];
        }
        forall i | c <= i < |es| ensures !Before(es[i].0, b, inclusive) {
          if i < |el| {
            assert es[i] == el[i];
          } else if i > |el| {
            assert es[i] == er[i - |el| - 1];
          }
        }
      }
    }
  }

  /** Below a key that is before the boundary, every key is before it. */
  lemma {:induction false} NoneAboveBefore<V>(t: Tree<V>, k: int, b: int, inclusive: bool)
    requires AllBelow(Entries(t), k) && Before(k, b, inclusive)
    ensures CountBefore(t, b, inclusive) == |Entries(t)|
  {
    if t.Node? {
      var el, er := Entries(t.left), Entries(t.right);
      assert forall i :: 0 <= i < |el| ==> Entries(t)[i] == el[i];
      assert Entries(t)[|el|] == (t.key, t.value);
      assert forall i :: 0 <= i < |er| ==> Entries(t)[|el| + 1 + i] == er[i];
      NoneAboveBefore(t.left, k, b, inclusive);
      NoneAboveBefore(t.right, k, b, inclusive);
    }
  }

  /** Above a key that is not before the boundary, no key is before it. */
  lemma {:induction false} NoneBelowAfter<V>(t: Tree<V>, k: int, b: int, inclusive: bool)
    requires AllAbove(Entries(t), k) && !Before(k, b, inclusive)
    ensures CountBefore(t, b, inclusive) == 0
  {
    if t.Node? {
      var el, er := Entries(t.left), Entries(t.right);
      assert forall i :: 0 <= i < |el| ==> Entries(t)[i] == el[i];
      assert Entries(t)[|el|] == (t.key, t.value);
      assert forall i :: 0 <= i < |er| ==> Entries(t)[|el| + 1 + i] == er[i];
      NoneBelowAfter(t.left, k, b, inclusive);
      NoneBelowAfter(t.right, k, b, inclusive);
    }
  }

  /** In an ordered tree the count splits at the root: left of a node that is
      before the boundary everything is before it, right of a node that is not,
      nothing is. */
  lemma CountBeforeNode<V>(t: Tree<V>, b: int, inclusive: bool)
    requires t.Node? && Ordered(t)
    ensures Ordered(t.left) && Ordered(t.right)
    ensures Before(t.key, b, inclusive) ==>
      CountBefore(t, b, inclusive) == |Entries(t.left)| + 1 + CountBefore(t.right, b, inclusive)
    ensures !Before(t.key, b, inclusive) ==> CountBefore(t, b, inclusive) == CountBefore(t.left, b, inclusive)
  {
    OrderedNode(t);
    if Before(t.key, b, inclusive) {
      NoneAboveBefore(t.left, t.key, b, inclusive);
    } else {
      NoneBelowAfter(t.right, t.key, b, inclusive);
    }
  }
}
