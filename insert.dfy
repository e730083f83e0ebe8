/** `set` and `insert` of lib/tree.js: the descent that either replaces the
    value of a present key along a copied path, or hangs a new red node under
    the path, bumps every ancestor's count and restores the red-black
    colouring with recolourings and at most one (double) rotation. */
module Insertion {
  import opened Content
  import opened RbNode
  import opened Zipper

  /** The copied path of `set`'s replacement branch (lib/tree.js:107-115):
      bottom-up, every ancestor is cloned with the path's child linked in. */
  method Rebuild<V>(path: seq<Frame<V>>, t: Tree<V>) returns (r: Tree<V>)
    ensures r == Plug(path, t)
  {
    r := t;
    var i := |path|;
    assert path[..i] == path;
    while i > 0
      invariant 0 <= i <= |path|
      invariant Plug(path[..i], r) == Plug(path, t)
    {
      PlugLast(path[..i - 1], path[i - 1], r);
      assert path[..i - 1] + [path[i - 1]] == path[..i];
      r := Attach(path[i - 1], r);
      i := i - 1;
    }
  }

  /** `tree.set(key, value)` (lib/tree.js:94-131): the new root holds exactly
      the old entries with `key` mapped to `value`, and is a valid red-black
      tree again. */
  method Set<V>(root: Tree<V>, key: int, value: V) returns (r: Tree<V>)
    requires Valid(root)
    ensures Valid(r) && Entries(r) == Upsert(Entries(root), key, value)
    ensures Lookup(Entries(root), key).Some? ==> SameShape(root, r)
  {
    var stack: seq<Frame<V>> := [];
    var n := root;
    while n.Node?
      invariant Ordered(n) && Plug(stack, n) == root
      invariant AllBelow(PreEntries(stack), key) && AllAbove(PostEntries(stack), key)
      invariant Lookup(Entries(root), key) == Lookup(Entries(n), key)
      decreases n
    {
      OrderedNode(n);
      LookupMiddle(Entries(n.left), n.key, n.value, Entries(n.right), key);
      var d := Compare(key, n.key);
      if d == 0 {
        r := Rebuild(stack, n.(value := value));
        ReplaceValue(stack, n, value);
        NewValueSameShape(stack, n, value);
        return;
      }
      var f := FrameOf(n, if d < 0 then Left else Right);
      DescendGap(stack, f, key);
      PlugLast(stack, f, Child(n, f.dir));
      stack := stack + [f];
      n := Child(n, f.dir);
    }
    r := Insert(stack, key, value);
  }

  /** One step of `set`'s descent keeps the new key between the entries left
      and right of the hole. */
  lemma DescendGap<V>(stack: seq<Frame<V>>, f: Frame<V>, key: int)
    requires AllBelow(PreEntries(stack), key) && AllAbove(PostEntries(stack), key)
    requires f.dir == Left ==> key < f.key && AllAbove(Entries(f.sibling), f.key)
    requires f.dir == Right ==> f.key < key && AllBelow(Entries(f.sibling), f.key)
    ensures AllBelow(PreEntries(stack + [f]), key) && AllAbove(PostEntries(stack + [f]), key)
  {
    assert (stack + [f])[..|stack|] == stack;
  }

  /** Replacing the value of the node holding the key keeps every invariant
      and is `Upsert` on the entries. */
  lemma ReplaceValue<V>(stack: seq<Frame<V>>, n: Tree<V>, value: V)
    requires n.Node? && Valid(Plug(stack, n))
    requires AllBelow(PreEntries(stack), n.key) && AllBelow(Entries(n.left), n.key)
    ensures Valid(Plug(stack, n.(value := value)))
    ensures Entries(Plug(stack, n.(value := value))) == Upsert(Entries(Plug(stack, n)), n.key, value)
  {
    ReplaceEntries(stack, n, value);
    UpsertSorted(Entries(Plug(stack, n)), n.key, value);
    ReplaceShape(stack, n, value);
  }

  lemma ReplaceEntries<V>(stack: seq<Frame<V>>, n: Tree<V>, value: V)
    requires n.Node?
    requires AllBelow(PreEntries(stack), n.key) && AllBelow(Entries(n.left), n.key)
    ensures Entries(Plug(stack, n.(value := value))) == Upsert(Entries(Plug(stack, n)), n.key, value)
  {
    var a, b := PreEntries(stack) + Entries(n.left), Entries(n.right) + PostEntries(stack);
    PlugSplit(stack, n);
    PlugSplit(stack, n.(value := value));
    AllBelowConcat(PreEntries(stack), Entries(n.left), n.key);
    UpsertHit(a, n.value, b, n.key, value);
  }

  /** An upsert of a present key changes one value and keeps every colour
      and count. */
  lemma NewValueSameShape<V>(stack: seq<Frame<V>>, n: Tree<V>, value: V)
    requires n.Node?
    ensures SameShape(Plug(stack, n), Plug(stack, n.(value := value)))
  {
    SameShapeRefl(n.left);
    SameShapeRefl(n.right);
    PlugSameShape(stack, n, n.(value := value));
  }

  /** A new value leaves counts and colours as they are. */
  lemma ReplaceShape<V>(stack: seq<Frame<V>>, n: Tree<V>, value: V)
    requires n.Node? && CountsOk(Plug(stack, n)) && Balanced(Plug(stack, n))
    requires NoRedRed(Plug(stack, n)) && !IsRed(Plug(stack, n))
    ensures CountsOk(Plug(stack, n.(value := value))) && Balanced(Plug(stack, n.(value := value)))
    ensures NoRedRed(Plug(stack, n.(value := value))) && !IsRed(Plug(stack, n.(value := value)))
  {
    var m := n.(value := value);
    PlugCounts(stack, n);
    PlugCounts(stack, m);
    PlugBalanced(stack, n);
    PlugBalanced(stack, m);
    PlugNoRedRed(stack, n);
    PlugNoRedRed(stack, m);
    PlugRoot(stack, n);
    PlugRoot(stack, m);
  }

  // ---------------------------------------------------------------------
  // insert

  /** The state of `insert`'s fix-up loop: the path and the subtree `t` at
      its hole satisfy every invariant except that `t`'s root may be red
      under a red parent. */
  ghost predicate Fixing<V>(path: seq<Frame<V>>, t: Tree<V>) {
    && t.Node?
    && CountsOk(t) && PathCounts(path, Count(t))
    && Balanced(t) && PathBalanced(path, BlackHeight(t))
    && NoRedRed(t) && PathNoRedRed(path)
    && (path != [] ==> path[0].color == Black)
  }

  /** `t` may stand in for the subtree `u`: same entries, same count, right
      counts, black height `h` and no red-red pair inside. */
  ghost predicate Replaces<V>(t: Tree<V>, u: Tree<V>, h: nat) {
    && t.Node?
    && Entries(t) == Entries(u)
    && CountsOk(t) && Count(t) == Count(u)
    && Balanced(t) && BlackHeight(t) == h
    && NoRedRed(t)
  }

  /** A red node `t` under a red parent `p` whose parent `g` is black: the
      situation every fix-up step of `insert` starts from. */
  ghost predicate RedPair<V>(p: Frame<V>, g: Frame<V>, t: Tree<V>) {
    && t.Node? && t.color == Red && p.color == Red && g.color == Black
    && NoRedRed(t) && NoRedRed(p.sibling) && !IsRed(p.sibling) && NoRedRed(g.sibling)
    && CountsOk(t) && CountsOk(p.sibling) && CountsOk(g.sibling)
    && p.count == 1 + Count(p.sibling) + Count(t) && g.count == 1 + Count(g.sibling) + p.count
    && Balanced(t) && Balanced(p.sibling) && Balanced(g.sibling)
    && BlackHeight(p.sibling) == BlackHeight(t) && BlackHeight(g.sibling) == BlackHeight(t)
  }

  lemma RedPairOf<V>(path: seq<Frame<V>>, t: Tree<V>)
    requires |path| >= 2 && Fixing(path, t)
    requires t.color == Red && path[|path| - 1].color == Red
    ensures RedPair(path[|path| - 1], path[|path| - 2], t)
  {
    TwoUp(path);
    var p := path[|path| - 1];
    Pop(path, Count(t), BlackHeight(t));
    Pop(path[..|path| - 1], p.count, BlackHeight(t) + BlackOf(p.color));
  }

  /** Replacing the grandparent's subtree by an equivalent one keeps the
      fix-up state one level up. */
  lemma Lift<V>(path: seq<Frame<V>>, focus: Tree<V>, t: Tree<V>)
    requires |path| >= 2 && Fixing(path, focus)
    requires Replaces(t, Attach(path[|path| - 2], Attach(path[|path| - 1], focus)),
      BlackHeight(focus) + BlackOf(path[|path| - 1].color) + BlackOf(path[|path| - 2].color))
    ensures Fixing(path[..|path| - 2], t)
    ensures Entries(Plug(path[..|path| - 2], t)) == Entries(Plug(path, focus))
  {
    TwoUp(path);
    var pre, g, p := path[..|path| - 2], path[|path| - 2], path[|path| - 1];
    Pop(path, Count(focus), BlackHeight(focus));
    Pop(path[..|path| - 1], p.count, BlackHeight(focus) + BlackOf(p.color));
    assert path == pre + [g] + [p];
    PlugLast(pre + [g], p, focus);
    PlugLast(pre, g, Attach(p, focus));
    SameEntriesPlug(pre, t, Attach(g, Attach(p, focus)));
  }

  /** A red uncle: parent and uncle turn black, the grandparent red
      (lib/tree.js:496-501, 522-527, 552-557 and 578-583). */
  lemma Recolour<V>(p: Frame<V>, g: Frame<V>, t: Tree<V>)
    requires RedPair(p, g, t) && IsRed(g.sibling)
    ensures Replaces(Attach(g.(color := Red, sibling := Blacken(g.sibling)), Attach(p.(color := Black), t)),
      Attach(g, Attach(p, t)), BlackHeight(t) + 1)
  {
  }

  /** Parent and node on the same side: one rotation at the grandparent
      (lib/tree.js:502-520 and 558-576). */
  lemma RotateOuter<V>(p: Frame<V>, g: Frame<V>, t: Tree<V>)
    requires RedPair(p, g, t) && !IsRed(g.sibling) && p.dir == g.dir
    ensures g.dir == Left ==> Replaces(
      Recounted(Black, t, p.key, p.value, Recounted(Red, p.sibling, g.key, g.value, g.sibling)),
      Attach(g, Attach(p, t)), BlackHeight(t) + 1)
    ensures g.dir == Right ==> Replaces(
      Recounted(Black, Recounted(Red, g.sibling, g.key, g.value, p.sibling), p.key, p.value, t),
      Attach(g, Attach(p, t)), BlackHeight(t) + 1)
  {
    var et, ep, eg := Entries(t), Entries(p.sibling), Entries(g.sibling);
    var mp, mg := [(p.key, p.value)], [(g.key, g.value)];
    if g.dir == Left {
      assert Entries(Attach(g, Attach(p, t))) == et + mp + (ep + mg + eg);
    } else {
      assert Entries(Attach(g, Attach(p, t))) == (eg + mg + ep) + mp + et;
    }
  }

  /** Node on the inner side: a double rotation lifts the node itself
      (lib/tree.js:528-549 and 584-605). */
  lemma RotateInner<V>(p: Frame<V>, g: Frame<V>, t: Tree<V>)
    requires RedPair(p, g, t) && !IsRed(g.sibling) && p.dir != g.dir
    ensures g.dir == Left ==> Replaces(
      Recounted(Black, Recounted(Red, p.sibling, p.key, p.value, t.left), t.key, t.value,
        Recounted(Red, t.right, g.key, g.value, g.sibling)),
      Attach(g, Attach(p, t)), BlackHeight(t) + 1)
    ensures g.dir == Right ==> Replaces(
      Recounted(Black, Recounted(Red, g.sibling, g.key, g.value, t.left), t.key, t.value,
        Recounted(Red, t.right, p.key, p.value, p.sibling)),
      Attach(g, Attach(p, t)), BlackHeight(t) + 1)
  {
    if g.dir == Left {
      RotateInnerLeft(p, g, t);
    } else {
      RotateInnerRight(p, g, t);
    }
  }

  lemma RotateInnerLeft<V>(p: Frame<V>, g: Frame<V>, t: Tree<V>)
    requires RedPair(p, g, t) && !IsRed(g.sibling) && p.dir == Right && g.dir == Left
    ensures Replaces(
      Recounted(Black, Recounted(Red, p.sibling, p.key, p.value, t.left), t.key, t.value,
        Recounted(Red, t.right, g.key, g.value, g.sibling)),
      Attach(g, Attach(p, t)), BlackHeight(t) + 1)
  {
    var el, er := Entries(t.left), Entries(t.right);
    var ep, eg := Entries(p.sibling), Entries(g.sibling);
    assert Entries(t) == el + [(t.key, t.value)] + er;
    assert Entries(Attach(g, Attach(p, t))) == (ep + [(p.key, p.value)] + el) + [(t.key, t.value)]
      + (er + [(g.key, g.value)] + eg);
  }

  lemma RotateInnerRight<V>(p: Frame<V>, g: Frame<V>, t: Tree<V>)
    requires RedPair(p, g, t) && !IsRed(g.sibling) && p.dir == Left && g.dir == Right
    ensures Replaces(
      Recounted(Black, Recounted(Red, g.sibling, g.key, g.value, t.left), t.key, t.value,
        Recounted(Red, t.right, p.key, p.value, p.sibling)),
      Attach(g, Attach(p, t)), BlackHeight(t) + 1)
  {
    var el, er := Entries(t.left), Entries(t.right);
    var ep, eg := Entries(p.sibling), Entries(g.sibling);
    assert Entries(t) == el + [(t.key, t.value)] + er;
    assert Entries(Attach(g, Attach(p, t))) == (eg + [(g.key, g.value)] + el) + [(t.key, t.value)]
      + (er + [(p.key, p.value)] + ep);
  }

  /** `insert(key, value, nStack, dStack)` (lib/tree.js:467-613) for a key
      whose place is the hole of `path`: the result holds the new entry in
      order, its count is one more on every ancestor, and it is a valid
      red-black tree. */
  method Insert<V>(path: seq<Frame<V>>, key: int, value: V) returns (r: Tree<V>)
    requires Valid(Plug(path, Leaf))
    requires AllBelow(PreEntries(path), key) && AllAbove(PostEntries(path), key)
    ensures Valid(r) && Entries(r) == Upsert(Entries(Plug(path, Leaf)), key, value)
  {
    var grown := Bump(path);
    var focus := Node(Red, Leaf, key, value, Leaf, 1);
    HoleFacts(path);
    Shifted(path, grown, 0, 0);
    StartFixing(grown, key, value);
    InsertGap(path, key, value);
    r := Rebalance(grown, focus, PreEntries(path) + [(key, value)] + PostEntries(path));
  }

  /** The copy loop of `insert` (lib/tree.js:477-484): every ancestor's
      `_count` goes up by one for the new node. */
  method Bump<V>(path: seq<Frame<V>>) returns (grown: seq<Frame<V>>)
    ensures |grown| == |path|
    ensures forall i :: 0 <= i < |grown| ==> grown[i] == path[i].(count := path[i].count + 1)
  {
    grown := path;
    var s := |path|;
    while s > 0
      invariant 0 <= s <= |path| && |grown| == |path|
      invariant forall i :: 0 <= i < s ==> grown[i] == path[i]
      invariant forall i :: s <= i < |grown| ==> grown[i] == path[i].(count := path[i].count + 1)
    {
      s := s - 1;
      grown := grown[s := path[s].(count := path[s].count + 1)];
    }
  }

  /** The fix-up loop of `insert` (lib/tree.js:486-607) and the final
      blackening of the root (lib/tree.js:610): from a red node under the
      path it reaches a valid tree with the same entries. */
  method Rebalance<V>(path: seq<Frame<V>>, node: Tree<V>, ghost target: seq<(int, V)>) returns (r: Tree<V>)
    requires Fixing(path, node) && Entries(Plug(path, node)) == target && SortedKeys(target)
    ensures Valid(r) && Entries(r) == target
  {
    var stack, focus := path, node;
    while |stack| > 1
      invariant Fixing(stack, focus) && Entries(Plug(stack, focus)) == target
      decreases |stack|
    {
      var p, g := stack[|stack| - 1], stack[|stack| - 2];
      if p.color == Black || focus.color == Black {
        assert Junction(stack, focus);
        break;
      }
      RedPairOf(stack, focus);
      var t: Tree<V>;
      if IsRed(g.sibling) {
        t := Attach(g.(color := Red, sibling := Blacken(g.sibling)), Attach(p.(color := Black), focus));
        Recolour(p, g, focus);
        Lift(stack, focus, t);
        stack, focus := stack[..|stack| - 2], t;
      } else {
        if p.dir == g.dir {
          RotateOuter(p, g, focus);
          if g.dir == Left {
            t := Recounted(Black, focus, p.key, p.value, Recounted(Red, p.sibling, g.key, g.value, g.sibling));
          } else {
            t := Recounted(Black, Recounted(Red, g.sibling, g.key, g.value, p.sibling), p.key, p.value, focus);
          }
        } else {
          RotateInner(p, g, focus);
          if g.dir == Left {
            t := Recounted(Black, Recounted(Red, p.sibling, p.key, p.value, focus.left), focus.key, focus.value,
              Recounted(Red, focus.right, g.key, g.value, g.sibling));
          } else {
            t := Recounted(Black, Recounted(Red, g.sibling, g.key, g.value, focus.left), focus.key, focus.value,
              Recounted(Red, focus.right, p.key, p.value, p.sibling));
          }
        }
        Lift(stack, focus, t);
        stack, focus := stack[..|stack| - 2], t;
        assert Junction(stack, focus);
        break;
      }
    }
    r := Blacken(Plug(stack, focus));
    FinishFixing(stack, focus, target);
  }

  /** The new entry goes exactly into the hole: the insertion is `Upsert`. */
  lemma InsertGap<V>(path: seq<Frame<V>>, key: int, value: V)
    requires Ordered(Plug(path, Leaf))
    requires AllBelow(PreEntries(path), key) && AllAbove(PostEntries(path), key)
    ensures Upsert(Entries(Plug(path, Leaf)), key, value) == PreEntries(path) + [(key, value)] + PostEntries(path)
    ensures SortedKeys(PreEntries(path) + [(key, value)] + PostEntries(path))
  {
    PlugEntries(path, Leaf);
    assert Entries(Plug(path, Leaf)) == PreEntries(path) + PostEntries(path);
    UpsertGap(PreEntries(path), PostEntries(path), key, value);
    UpsertSorted(Entries(Plug(path, Leaf)), key, value);
  }

  /** The path down to an empty place in a valid tree. */
  lemma HoleFacts<V>(path: seq<Frame<V>>)
    requires Valid(Plug(path, Leaf))
    ensures PathCounts(path, 0) && PathBalanced(path, 0) && PathNoRedRed(path)
    ensures path != [] ==> path[0].color == Black
  {
    PlugCounts(path, Leaf);
    PlugBalanced(path, Leaf);
    PlugNoRedRed(path, Leaf);
    PlugRoot(path, Leaf);
  }

  /** The bumped path with the new red node in its hole starts the fix-up
      loop. */
  lemma StartFixing<V>(grown: seq<Frame<V>>, key: int, value: V)
    requires PathCounts(grown, 1) && PathBalanced(grown, 0) && PathNoRedRed(grown)
    requires grown != [] ==> grown[0].color == Black
    ensures Fixing(grown, Node(Red, Leaf, key, value, Leaf, 1))
    ensures Entries(Plug(grown, Node(Red, Leaf, key, value, Leaf, 1))) ==
      PreEntries(grown) + [(key, value)] + PostEntries(grown)
  {
    PlugSplit(grown, Node(Red, Leaf, key, value, Leaf, 1));
  }

  /** When the loop stops, the root blackened is a valid tree. */
  lemma FinishFixing<V>(stack: seq<Frame<V>>, focus: Tree<V>, target: seq<(int, V)>)
    requires Fixing(stack, focus) && Entries(Plug(stack, focus)) == target && SortedKeys(target)
    requires |stack| <= 1 || Junction(stack, focus)
    ensures Valid(Blacken(Plug(stack, focus))) && Entries(Blacken(Plug(stack, focus))) == target
  {
    var t := Plug(stack, focus);
    PlugCounts(stack, focus);
    PlugBalanced(stack, focus);
    PlugNoRedRed(stack, focus);
  }
}
