/** `clear`, `remove` and `fixDoubleBlack` of lib/tree.js: the node found by
    `find` is swapped with its in-order predecessor when it has two children,
    then unlinked -- a red leaf simply, a black node with one (red) child by
    promoting the child, a black leaf by repairing the missing black with
    rotations and recolourings up the path. */
module Removal {
  import opened Content
  import opened RbNode
  import opened Zipper
  import opened Search

  /** Colours and counts are right and the root is black: every invariant
      of a published root but key order. */
  ghost predicate Sound<V>(t: Tree<V>) {
    CountsOk(t) && NoRedRed(t) && Balanced(t) && !IsRed(t)
  }

  /** The entries left when the node `n` in the hole of `path` is taken out
      and its subtrees kept. */
  ghost function Remains<V>(path: seq<Frame<V>>, n: Tree<V>): seq<(int, V)>
    requires n.Node?
  {
    PreEntries(path) + (Entries(n.left) + Entries(n.right)) + PostEntries(path)
  }

  /** `tree.clear(key)` (lib/tree.js:133-145): the new root holds the old
      entries but the one with `key`, and is valid; an absent key leaves the
      tree as it is. */
  method Clear<V>(root: Tree<V>, key: int) returns (r: Tree<V>)
    requires Valid(root)
    ensures Valid(r) && Entries(r) == Without(Entries(root), key)
    ensures Lookup(Entries(root), key).None? ==> r == root
  {
    var path, top := Find(root, key);
    if top.Leaf? {
      LookupNone(Entries(root), key);
      WithoutAbsent(Entries(root), key);
      return root;
    }
    r := Remove(path, top);
  }

  /** `remove(stack)` (lib/tree.js:615-719) on the stack down to `top`. */
  method Remove<V>(path: seq<Frame<V>>, top: Tree<V>) returns (r: Tree<V>)
    requires top.Node? && Valid(Plug(path, top))
    ensures Valid(r) && Entries(r) == Without(Entries(Plug(path, top)), top.key)
  {
    RemoveTarget(path, top);
    var stack, n := path, top;
    if n.left.Node? && n.right.Node? {
      stack, n := SwapPredecessor(path, top);
    }
    r := Unlink(stack, n);
  }

  /** The entries of `remove`'s result, sorted. */
  lemma RemoveTarget<V>(path: seq<Frame<V>>, top: Tree<V>)
    requires top.Node? && Ordered(Plug(path, top))
    ensures Without(Entries(Plug(path, top)), top.key) == Remains(path, top)
    ensures SortedKeys(Remains(path, top))
  {
    PlugSplit(path, top);
    var a, b := PreEntries(path) + Entries(top.left), Entries(top.right) + PostEntries(path);
    WithoutHit(a, top.value, b, top.key);
    SortedDrop(a, (top.key, top.value), b);
    RemainsSplit(path, top);
  }

  /** What remains, split around the removed entry. */
  lemma RemainsSplit<V>(path: seq<Frame<V>>, top: Tree<V>)
    requires top.Node?
    ensures Remains(path, top) == (PreEntries(path) + Entries(top.left)) + (Entries(top.right) + PostEntries(path))
  {
    var pre, el, er, post := PreEntries(path), Entries(top.left), Entries(top.right), PostEntries(path);
    var a := pre + el;
    assert pre + (el + er) == a + er;
    assert (a + er) + post == a + (er + post);
  }

  /** The swap of `remove` (lib/tree.js:634-657): a node with two children
      takes the key and value of its in-order predecessor -- the rightmost
      node of its left subtree -- and that node, now holding the doomed key,
      becomes the one to unlink. */
  method SwapPredecessor<V>(path: seq<Frame<V>>, top: Tree<V>) returns (stack: seq<Frame<V>>, n: Tree<V>)
    requires top.Node? && top.left.Node? && top.right.Node? && Sound(Plug(path, top))
    ensures n.Node? && n.right.Leaf? && Sound(Plug(stack, n))
    ensures Remains(stack, n) == Remains(path, top)
  {
    var spine: seq<Frame<V>> := [];
    var m := top.left;
    while m.right.Node?
      invariant m.Node? && Plug(spine, m) == top.left
      invariant forall i :: 0 <= i < |spine| ==> spine[i].dir == Right
      decreases m
    {
      PlugLast(spine, FrameOf(m, Right), m.right);
      spine := spine + [FrameOf(m, Right)];
      m := m.right;
    }
    stack := path + [Frame(Left, top.color, m.key, m.value, top.right, top.count)] + spine;
    n := m.(key := top.key, value := top.value);
    SwapShape(path, top, spine, m);
    SwapEntries(path, top, spine, m);
  }

  lemma SwapShape<V>(path: seq<Frame<V>>, top: Tree<V>, spine: seq<Frame<V>>, m: Tree<V>)
    requires top.Node? && m.Node? && Plug(spine, m) == top.left && Sound(Plug(path, top))
    ensures Sound(Plug(path + [Frame(Left, top.color, m.key, m.value, top.right, top.count)] + spine,
      m.(key := top.key, value := top.value)))
  {
    var f := Frame(Left, top.color, m.key, m.value, top.right, top.count);
    var n := m.(key := top.key, value := top.value);
    PlugConcat(path + [f], spine, n);
    PlugLast(path, f, Plug(spine, n));
    SameShapeRefl(m.left);
    SameShapeRefl(m.right);
    assert SameShape(n, m);
    PlugSameShape(spine, n, m);
    SameShapeRefl(top.right);
    assert SameShape(Attach(f, Plug(spine, n)), top);
    PlugSameShape(path, Attach(f, Plug(spine, n)), top);
    SameShapeKeeps(Plug(path, Attach(f, Plug(spine, n))), Plug(path, top));
  }

  lemma SwapEntries<V>(path: seq<Frame<V>>, top: Tree<V>, spine: seq<Frame<V>>, m: Tree<V>)
    requires top.Node? && m.Node? && m.right.Leaf? && Plug(spine, m) == top.left
    requires forall i :: 0 <= i < |spine| ==> spine[i].dir == Right
    ensures var n := m.(key := top.key, value := top.value);
      Remains(path + [Frame(Left, top.color, m.key, m.value, top.right, top.count)] + spine, n) == Remains(path, top)
  {
    var f := Frame(Left, top.color, m.key, m.value, top.right, top.count);
    var n := m.(key := top.key, value := top.value);
    PreConcat(path + [f], spine);
    PostConcat(path + [f], spine);
    assert (path + [f])[..|path|] == path;
    RightSpine(spine);
    PlugEntries(spine, m);
    var pre, post, ps, el, er, x := PreEntries(path), PostEntries(path), PreEntries(spine), Entries(m.left), Entries(top.right), [(m.key, m.value)];
    assert Entries(top.left) == ps + (el + x);
    assert PreEntries(path + [f] + spine) == pre + ps;
    assert PostEntries(path + [f] + spine) == x + er + post;
    Regroup(pre, ps, el, x, er, post);
  }

  /** The regrouping of entries that removal needs. */
  lemma Regroup<T>(pre: seq<T>, ps: seq<T>, el: seq<T>, x: seq<T>, er: seq<T>, post: seq<T>)
    ensures (pre + ps) + (el + []) + (x + er + post) == pre + ((ps + (el + x)) + er) + post
  {
    var a, q := pre + ps, ps + (el + x);
    assert a + (el + []) == a + el;
    assert (a + el) + (x + er + post) == ((a + el) + x) + er + post;
    assert q == (ps + el) + x;
    assert pre + (q + er) == ((pre + (ps + el)) + x) + er;
    assert pre + (ps + el) == a + el;
  }


  /** Unlinking the node to remove, which has at most one child
      (lib/tree.js:659-718). */
  method Unlink<V>(stack: seq<Frame<V>>, n: Tree<V>) returns (r: Tree<V>)
    requires n.Node? && (n.left.Leaf? || n.right.Leaf?) && Sound(Plug(stack, n))
    ensures Sound(r) && Entries(r) == Remains(stack, n)
  {
    NodeFacts(stack, n);
    PathCountsPositive(stack, Count(n));
    if n.color == Red {
      // A red leaf: drop it.
      var shrunk := Shrink(stack);
      r := Plug(shrunk, Leaf);
      Dropped(shrunk, stack, n);
    } else if n.left.Node? || n.right.Node? {
      // A black node with one red child: the child, blackened, takes its place.
      var shrunk := Shrink(stack);
      var child := if n.left.Node? then n.left else n.right;
      r := Plug(shrunk, Blacken(child));
      Dropped(shrunk, stack, n);
    } else if stack == [] {
      // The only node.
      r := Leaf;
    } else {
      // A black leaf: one black is missing on its side.
      var shrunk := Shrink(stack);
      Dropped(shrunk, stack, n);
      r := FixDoubleBlack(shrunk, Leaf);
    }
  }

  /** What is left once the node `n` at the end of `stack`, with at most
      one child, is taken out and the counts above it are lowered: a red
      leaf leaves a sound tree, a black node's red child blackened in its
      place leaves a sound tree, and a black leaf leaves a tree one black
      short on that side; the entries are those of `n`'s children in its
      place. */
  lemma Dropped<V>(shrunk: seq<Frame<V>>, stack: seq<Frame<V>>, n: Tree<V>)
    requires n.Node? && (n.left.Leaf? || n.right.Leaf?) && Sound(Plug(stack, n))
    requires |shrunk| == |stack|
    requires forall i :: 0 <= i < |stack| ==> stack[i] == shrunk[i].(count := shrunk[i].count + 1)
    ensures n.color == Red ==>
      Sound(Plug(shrunk, Leaf)) && Entries(Plug(shrunk, Leaf)) == Remains(stack, n)
    ensures n.color == Black && n.left.Node? ==>
      Sound(Plug(shrunk, Blacken(n.left))) && Entries(Plug(shrunk, Blacken(n.left))) == Remains(stack, n)
    ensures n.color == Black && n.right.Node? ==>
      Sound(Plug(shrunk, Blacken(n.right))) && Entries(Plug(shrunk, Blacken(n.right))) == Remains(stack, n)
    ensures n.color == Black && n.left.Leaf? && n.right.Leaf? ==>
      Deficit(shrunk, Leaf) && Entries(Plug(shrunk, Leaf)) == Remains(stack, n)
  {
    NodeFacts(stack, n);
    if n.color == Red {
      ShrunkPlug(shrunk, stack, Leaf, 0, 0);
      assert Entries(n.left) + Entries(n.right) == [];
    } else if n.left.Node? {
      ShrunkPlug(shrunk, stack, Blacken(n.left), Count(n.left), 1);
      assert Entries(n.left) + Entries(n.right) == Entries(Blacken(n.left));
    } else if n.right.Node? {
      ShrunkPlug(shrunk, stack, Blacken(n.right), Count(n.right), 1);
      assert Entries(n.left) + Entries(n.right) == Entries(Blacken(n.right));
    } else {
      ShrunkDeficit(shrunk, stack);
      PlugEntries(shrunk, Leaf);
      assert Entries(n.left) + Entries(n.right) == [];
    }
  }

  /** What validity says about the node `remove` unlinks: a red one is a
      leaf below the root, a child of a black one is red. */
  lemma NodeFacts<V>(stack: seq<Frame<V>>, n: Tree<V>)
    requires n.Node? && (n.left.Leaf? || n.right.Leaf?) && Sound(Plug(stack, n))
    ensures CountsOk(n) && PathCounts(stack, Count(n))
    ensures Balanced(n) && PathBalanced(stack, BlackHeight(n))
    ensures NoRedRed(n) && PathNoRedRed(stack)
    ensures stack != [] ==> stack[0].color == Black
    ensures n.color == Red ==> stack != [] && n.left.Leaf? && n.right.Leaf? && BlackHeight(n) == 0 && Count(n) == 1
    ensures n.color == Black ==> BlackHeight(n) == 1
    ensures n.left.Node? ==> IsRed(n.left) && BlackHeight(n.left) == 0 && Count(n) == Count(n.left) + 1
    ensures n.right.Node? ==> IsRed(n.right) && BlackHeight(n.right) == 0 && Count(n) == Count(n.right) + 1
    ensures n.left.Leaf? && n.right.Leaf? ==> Count(n) == 1
  {
    PlugCounts(stack, n);
    PlugBalanced(stack, n);
    PlugNoRedRed(stack, n);
    PlugRoot(stack, n);
    if n.left.Node? {
      assert BlackHeight(n.right) == 0;
    }
  }

  /** The decrement loops of `remove` (lib/tree.js:664-666, 680-682 and
      704-706): every ancestor loses one descendant. */
  method Shrink<V>(path: seq<Frame<V>>) returns (shrunk: seq<Frame<V>>)
    requires forall i :: 0 <= i < |path| ==> path[i].count >= 1
    ensures |shrunk| == |path|
    ensures forall i :: 0 <= i < |path| ==> path[i] == shrunk[i].(count := shrunk[i].count + 1)
  {
    shrunk := [];
    var i := 0;
    while i < |path|
      invariant 0 <= i <= |path| && |shrunk| == i
      invariant forall j :: 0 <= j < i ==> path[j] == shrunk[j].(count := shrunk[j].count + 1)
    {
      shrunk := shrunk + [path[i].(count := path[i].count - 1)];
      i := i + 1;
    }
  }

  /** Plugging a subtree one smaller under the shrunk path keeps the
      invariants the old path had. */
  lemma ShrunkPlug<V>(shrunk: seq<Frame<V>>, stack: seq<Frame<V>>, t: Tree<V>, c: nat, h: nat)
    requires |shrunk| == |stack|
    requires forall i :: 0 <= i < |stack| ==> stack[i] == shrunk[i].(count := shrunk[i].count + 1)
    requires CountsOk(t) && Count(t) == c && PathCounts(stack, c + 1)
    requires Balanced(t) && BlackHeight(t) == h && PathBalanced(stack, h)
    requires NoRedRed(t) && !IsRed(t) && PathNoRedRed(stack)
    requires stack != [] ==> stack[0].color == Black
    ensures Sound(Plug(shrunk, t))
    ensures Entries(Plug(shrunk, t)) == PreEntries(stack) + Entries(t) + PostEntries(stack)
  {
    Shifted(shrunk, stack, c, h);
    PlugCounts(shrunk, t);
    PlugBalanced(shrunk, t);
    PlugNoRedRed(shrunk, t);
    PlugRoot(shrunk, t);
    PlugEntries(shrunk, t);
  }

  lemma ShrunkDeficit<V>(shrunk: seq<Frame<V>>, stack: seq<Frame<V>>)
    requires |shrunk| == |stack|
    requires forall i :: 0 <= i < |stack| ==> stack[i] == shrunk[i].(count := shrunk[i].count + 1)
    requires PathCounts(stack, 1) && PathBalanced(stack, 1) && PathNoRedRed(stack)
    requires stack != [] ==> stack[0].color == Black
    ensures Deficit(shrunk, Leaf)
    ensures PreEntries(shrunk) == PreEntries(stack) && PostEntries(shrunk) == PostEntries(stack)
  {
    Shifted(shrunk, stack, 0, 1);
  }

  // ---------------------------------------------------------------------
  // fixDoubleBlack

  /** The state of `fixDoubleBlack`'s loop: the subtree `t` in the hole is
      one black short of what its place demands, and is not red; everything
      else holds. */
  ghost predicate Deficit<V>(path: seq<Frame<V>>, t: Tree<V>) {
    && CountsOk(t) && PathCounts(path, Count(t))
    && Balanced(t) && PathBalanced(path, BlackHeight(t) + 1)
    && NoRedRed(t) && !IsRed(t) && PathNoRedRed(path)
    && (path != [] ==> path[0].color == Black)
  }

  /** The deficit seen from the parent frame `p`: the sibling is a node one
      black higher than `t`. */
  ghost predicate Short<V>(p: Frame<V>, t: Tree<V>) {
    && CountsOk(t) && Balanced(t) && NoRedRed(t) && !IsRed(t)
    && p.sibling.Node?
    && CountsOk(p.sibling) && p.count == 1 + Count(p.sibling) + Count(t)
    && Balanced(p.sibling) && BlackHeight(p.sibling) == BlackHeight(t) + 1
    && NoRedRed(p.sibling) && (p.color == Red ==> !IsRed(p.sibling))
  }

  /** `u` may replace the parent's subtree `Attach(p, t)` and end the
      repair: same entries and count, and the black height the parent's
      place demands. */
  ghost predicate Settles<V>(p: Frame<V>, t: Tree<V>, u: Tree<V>) {
    && u.Node? && Entries(u) == Entries(Attach(p, t))
    && CountsOk(u) && Count(u) == p.count
    && Balanced(u) && BlackHeight(u) == BlackHeight(t) + 1 + BlackOf(p.color)
    && NoRedRed(u) && (IsRed(u) ==> p.color == Red)
  }

  lemma ShortOf<V>(path: seq<Frame<V>>, t: Tree<V>)
    requires path != [] && Deficit(path, t)
    ensures Short(path[|path| - 1], t)
  {
    Pop(path, Count(t), BlackHeight(t) + 1);
  }

  /** `fixDoubleBlack(stack)` (lib/tree.js:721-922): repairs the missing
      black under the path and returns the root of a sound tree with the
      same entries. */
  method FixDoubleBlack<V>(path0: seq<Frame<V>>, t0: Tree<V>) returns (r: Tree<V>)
    requires Deficit(path0, t0)
    ensures Sound(r) && Entries(r) == Entries(Plug(path0, t0))
  {
    var path, t := path0, t0;
    while path != []
      invariant Deficit(path, t) && Entries(Plug(path, t)) == Entries(Plug(path0, t0))
      decreases |path| - (if path != [] && path[|path| - 1].color == Red then 1 else 0),
        if path != [] && IsRed(path[|path| - 1].sibling) then 1 else 0
    {
      var p, pre := path[|path| - 1], path[..|path| - 1];
      ShortOf(path, t);
      var s := p.sibling;
      if IsRed(s.left) || IsRed(s.right) || (s.color == Black && p.color == Red) {
        var u := Repair(p, t);
        Settle(path, t, u);
        return Plug(pre, u);
      } else if s.color == Black {
        // Black sibling, black parent: the parent becomes the short subtree.
        var t' := Attach(p.(sibling := s.(color := Red)), t);
        PushUp(path, t);
        path, t := pre, t';
      } else {
        // Red sibling: rotate it above the parent, which turns red.
        var sf, pf := Rotate(p, t);
        Deepen(path, t, sf, pf);
        path := pre + [sf, pf];
      }
    }
    r := Blacken(t);
  }

  /** The cases of `fixDoubleBlack` that end the repair at the parent `p`
      of the short subtree `t`: a red nephew, far (lib/tree.js:731-755 and
      827-851) or near (lib/tree.js:757-783 and 853-879), which a rotation
      or two turns into the missing black, or a red parent over a black
      sibling with black children (lib/tree.js:785-791 and 881-887), which
      trades colours with the sibling. */
  method Repair<V>(p: Frame<V>, t: Tree<V>) returns (u: Tree<V>)
    requires Short(p, t)
    requires IsRed(p.sibling.left) || IsRed(p.sibling.right) || (p.sibling.color == Black && p.color == Red)
    ensures Settles(p, t, u)
  {
    var s := p.sibling;
    if p.dir == Left && IsRed(s.right) {
      u := Recounted(p.color, Recounted(Black, Blacken(t), p.key, p.value, s.left), s.key, s.value, Blacken(s.right));
      FarRed(p, t);
    } else if p.dir == Left && IsRed(s.left) {
      var z := s.left;
      u := Recounted(p.color, Recounted(Black, Blacken(t), p.key, p.value, z.left), z.key, z.value,
        Recounted(Black, z.right, s.key, s.value, s.right));
      NearRed(p, t);
    } else if p.dir == Right && IsRed(s.left) {
      u := Recounted(p.color, Blacken(s.left), s.key, s.value, Recounted(Black, s.right, p.key, p.value, Blacken(t)));
      FarRed(p, t);
    } else if p.dir == Right && IsRed(s.right) {
      var z := s.right;
      u := Recounted(p.color, Recounted(Black, s.left, s.key, s.value, z.left), z.key, z.value,
        Recounted(Black, z.right, p.key, p.value, Blacken(t)));
      NearRed(p, t);
    } else {
      u := Attach(p.(color := Black, sibling := s.(color := Red)), t);
      Absorb(p, t);
    }
  }

  /** The rotation of `fixDoubleBlack` for a red sibling (lib/tree.js:795-823
      and 890-917): the sibling takes the parent's place and colour, and the
      parent, now red, takes the sibling's near child as its other child. */
  method Rotate<V>(p: Frame<V>, t: Tree<V>) returns (sf: Frame<V>, pf: Frame<V>)
    requires Short(p, t) && IsRed(p.sibling)
    ensures Turn(p, t, sf, pf) && sf.dir == p.dir && pf.dir == p.dir
  {
    var s := p.sibling;
    if p.dir == Left {
      var cp := 1 + Count(t) + Count(s.left);
      sf, pf := Frame(Left, p.color, s.key, s.value, s.right, 1 + cp + Count(s.right)),
        Frame(Left, Red, p.key, p.value, s.left, cp);
    } else {
      var cp := 1 + Count(t) + Count(s.right);
      sf, pf := Frame(Right, p.color, s.key, s.value, s.left, 1 + Count(s.left) + cp),
        Frame(Right, Red, p.key, p.value, s.right, cp);
    }
    RedSibling(p, t);
  }

  /** Ending the repair with a subtree that settles the parent's place. */
  lemma Settle<V>(path: seq<Frame<V>>, t: Tree<V>, u: Tree<V>)
    requires path != [] && Deficit(path, t) && Settles(path[|path| - 1], t, u)
    ensures Sound(Plug(path[..|path| - 1], u))
    ensures Entries(Plug(path[..|path| - 1], u)) == Entries(Plug(path, t))
  {
    var p, pre := path[|path| - 1], path[..|path| - 1];
    Pop(path, Count(t), BlackHeight(t) + 1);
    assert path == pre + [p];
    PlugLast(pre, p, t);
    SameEntriesPlug(pre, u, Attach(p, t));
    PlugCounts(pre, u);
    PlugBalanced(pre, u);
    PlugNoRedRed(pre, u);
    PlugRoot(pre, u);
  }

  /** The sibling's far child is red: one rotation at the parent, the far
      child turns black (lib/tree.js:731-755 and 827-851). */
  lemma FarRed<V>(p: Frame<V>, t: Tree<V>)
    requires Short(p, t)
    ensures p.dir == Left && IsRed(p.sibling.right) ==> Settles(p, t,
      Recounted(p.color, Recounted(Black, Blacken(t), p.key, p.value, p.sibling.left),
        p.sibling.key, p.sibling.value, Blacken(p.sibling.right)))
    ensures p.dir == Right && IsRed(p.sibling.left) ==> Settles(p, t,
      Recounted(p.color, Blacken(p.sibling.left), p.sibling.key, p.sibling.value,
        Recounted(Black, p.sibling.right, p.key, p.value, Blacken(t))))
  {
    var s := p.sibling;
    var et, el, er, mp, ms := Entries(t), Entries(s.left), Entries(s.right), [(p.key, p.value)], [(s.key, s.value)];
    assert Entries(s) == el + ms + er;
    if p.dir == Left {
      assert Entries(Attach(p, t)) == (et + mp + el) + ms + er;
    } else {
      assert Entries(Attach(p, t)) == el + ms + (er + mp + et);
    }
  }

  /** The sibling's near child is red (the far one is not): a double
      rotation lifts the near child to the parent's place
      (lib/tree.js:757-783 and 853-879). */
  lemma NearRed<V>(p: Frame<V>, t: Tree<V>)
    requires Short(p, t)
    ensures p.dir == Left && !IsRed(p.sibling.right) && IsRed(p.sibling.left) ==> Settles(p, t,
      Recounted(p.color, Recounted(Black, Blacken(t), p.key, p.value, p.sibling.left.left),
        p.sibling.left.key, p.sibling.left.value,
        Recounted(Black, p.sibling.left.right, p.sibling.key, p.sibling.value, p.sibling.right)))
    ensures p.dir == Right && !IsRed(p.sibling.left) && IsRed(p.sibling.right) ==> Settles(p, t,
      Recounted(p.color, Recounted(Black, p.sibling.left, p.sibling.key, p.sibling.value, p.sibling.right.left),
        p.sibling.right.key, p.sibling.right.value,
        Recounted(Black, p.sibling.right.right, p.key, p.value, Blacken(t))))
  {
    if p.dir == Left && !IsRed(p.sibling.right) && IsRed(p.sibling.left) {
      NearRedLeft(p, t);
    } else if p.dir == Right && !IsRed(p.sibling.left) && IsRed(p.sibling.right) {
      NearRedRight(p, t);
    }
  }

  lemma NearRedLeft<V>(p: Frame<V>, t: Tree<V>)
    requires Short(p, t) && p.dir == Left && !IsRed(p.sibling.right) && IsRed(p.sibling.left)
    ensures Settles(p, t,
      Recounted(p.color, Recounted(Black, Blacken(t), p.key, p.value, p.sibling.left.left),
        p.sibling.left.key, p.sibling.left.value,
        Recounted(Black, p.sibling.left.right, p.sibling.key, p.sibling.value, p.sibling.right)))
  {
    var s := p.sibling;
    var z := s.left;
    assert s.color == Black && CountsOk(z) && Balanced(z) && NoRedRed(z) && Blacken(t) == t;
    var et, ezl, ezr, er := Entries(t), Entries(z.left), Entries(z.right), Entries(s.right);
    var mp, ms, mz := [(p.key, p.value)], [(s.key, s.value)], [(z.key, z.value)];
    assert Entries(s) == (ezl + mz + ezr) + ms + er;
    assert Entries(Attach(p, t)) == (et + mp + ezl) + mz + (ezr + ms + er);
  }

  lemma NearRedRight<V>(p: Frame<V>, t: Tree<V>)
    requires Short(p, t) && p.dir == Right && !IsRed(p.sibling.left) && IsRed(p.sibling.right)
    ensures Settles(p, t,
      Recounted(p.color, Recounted(Black, p.sibling.left, p.sibling.key, p.sibling.value, p.sibling.right.left),
        p.sibling.right.key, p.sibling.right.value,
        Recounted(Black, p.sibling.right.right, p.key, p.value, Blacken(t))))
  {
    var s := p.sibling;
    var z := s.right;
    assert s.color == Black && CountsOk(z) && Balanced(z) && NoRedRed(z) && Blacken(t) == t;
    var et, ezl, ezr, el := Entries(t), Entries(z.left), Entries(z.right), Entries(s.left);
    var mp, ms, mz := [(p.key, p.value)], [(s.key, s.value)], [(z.key, z.value)];
    assert Entries(s) == el + ms + (ezl + mz + ezr);
    assert Entries(Attach(p, t)) == (el + ms + ezl) + mz + (ezr + mp + et);
  }

  /** A black sibling with black children under a red parent: swapping the
      two colours restores the missing black (lib/tree.js:785-791 and
      881-887). */
  lemma Absorb<V>(p: Frame<V>, t: Tree<V>)
    requires Short(p, t) && p.color == Red
    requires p.sibling.color == Black && !IsRed(p.sibling.left) && !IsRed(p.sibling.right)
    ensures Settles(p, t, Attach(p.(color := Black, sibling := p.sibling.(color := Red)), t))
  {
  }

  /** A black sibling with black children under a black parent: the sibling
      turns red and the whole parent subtree is now the one short of a black
      (lib/tree.js:793-794 and 889). */
  lemma PushUp<V>(path: seq<Frame<V>>, t: Tree<V>)
    requires path != [] && Deficit(path, t)
    requires var p := path[|path| - 1];
      p.color == Black && p.sibling.Node? && p.sibling.color == Black && !IsRed(p.sibling.left) && !IsRed(p.sibling.right)
    ensures var p := path[|path| - 1];
      Deficit(path[..|path| - 1], Attach(p.(sibling := p.sibling.(color := Red)), t))
    ensures var p := path[|path| - 1];
      Entries(Plug(path[..|path| - 1], Attach(p.(sibling := p.sibling.(color := Red)), t))) == Entries(Plug(path, t))
  {
    var p, pre := path[|path| - 1], path[..|path| - 1];
    var t' := Attach(p.(sibling := p.sibling.(color := Red)), t);
    Pop(path, Count(t), BlackHeight(t) + 1);
    Lighter(p, t);
    assert path == pre + [p];
    PlugLast(pre, p, t);
    SameEntriesPlug(pre, t', Attach(p, t));
  }

  /** The parent subtree of `PushUp`, its sibling turned red: sound, one
      black short of its old height, and holding the same entries. */
  lemma Lighter<V>(p: Frame<V>, t: Tree<V>)
    requires Short(p, t) && p.color == Black
    requires p.sibling.color == Black && !IsRed(p.sibling.left) && !IsRed(p.sibling.right)
    ensures var t' := Attach(p.(sibling := p.sibling.(color := Red)), t);
      && CountsOk(t') && Count(t') == p.count && Balanced(t') && BlackHeight(t') == BlackHeight(t) + 1
      && NoRedRed(t') && !IsRed(t') && Entries(t') == Entries(Attach(p, t))
  {
  }


  /** The parent `p` (black, over a red sibling) rotated: the sibling `sf`
      takes the parent's place and colour, and the parent `pf`, now red,
      sits between it and the short subtree `t`. */
  ghost predicate Turn<V>(p: Frame<V>, t: Tree<V>, sf: Frame<V>, pf: Frame<V>) {
    && p.color == Black && sf.color == p.color && pf.color == Red
    && pf.count == 1 + Count(pf.sibling) + Count(t) && sf.count == 1 + Count(sf.sibling) + pf.count
    && sf.count == p.count
    && CountsOk(pf.sibling) && CountsOk(sf.sibling)
    && Balanced(pf.sibling) && Balanced(sf.sibling)
    && BlackHeight(pf.sibling) == BlackHeight(t) + 1 && BlackHeight(sf.sibling) == BlackHeight(t) + 1
    && NoRedRed(pf.sibling) && NoRedRed(sf.sibling) && !IsRed(pf.sibling)
    && Entries(Attach(sf, Attach(pf, t))) == Entries(Attach(p, t))
  }

  /** A red sibling: rotated above the parent, which turns red, so that the
      short subtree gets a black sibling under a red parent
      (lib/tree.js:795-823 and 890-917). */
  lemma RedSibling<V>(p: Frame<V>, t: Tree<V>)
    requires Short(p, t) && IsRed(p.sibling)
    ensures var s := p.sibling; var cp := 1 + Count(t) + Count(s.left);
      p.dir == Left ==> Turn(p, t, Frame(Left, p.color, s.key, s.value, s.right, 1 + cp + Count(s.right)),
        Frame(Left, Red, p.key, p.value, s.left, cp))
    ensures var s := p.sibling; var cp := 1 + Count(t) + Count(s.right);
      p.dir == Right ==> Turn(p, t, Frame(Right, p.color, s.key, s.value, s.left, 1 + Count(s.left) + cp),
        Frame(Right, Red, p.key, p.value, s.right, cp))
  {
    var s := p.sibling;
    var et, el, er, mp, ms := Entries(t), Entries(s.left), Entries(s.right), [(p.key, p.value)], [(s.key, s.value)];
    if p.dir == Left {
      assert Entries(Attach(p, t)) == (et + mp + el) + ms + er;
    } else {
      assert Entries(Attach(p, t)) == el + ms + (er + mp + et);
    }
  }

  /** After the rotation the short subtree sits one level deeper, under a
      red parent, and everything else holds. */
  lemma Deepen<V>(path: seq<Frame<V>>, t: Tree<V>, sf: Frame<V>, pf: Frame<V>)
    requires path != [] && Deficit(path, t) && Turn(path[|path| - 1], t, sf, pf)
    ensures Deficit(path[..|path| - 1] + [sf, pf], t)
    ensures Entries(Plug(path[..|path| - 1] + [sf, pf], t)) == Entries(Plug(path, t))
  {
    var p, pre := path[|path| - 1], path[..|path| - 1];
    var path' := pre + [sf, pf];
    Pop(path, Count(t), BlackHeight(t) + 1);
    assert path'[..|path'| - 1] == pre + [sf];
    assert (pre + [sf])[..|pre|] == pre;
    Pop(path', Count(t), BlackHeight(t) + 1);
    Pop(pre + [sf], pf.count, BlackHeight(t) + 1);
    assert path == pre + [p];
    PlugLast(pre, p, t);
    PlugLast(pre + [sf], pf, t);
    PlugLast(pre, sf, Attach(pf, t));
    SameEntriesPlug(pre, Attach(sf, Attach(pf, t)), Attach(p, t));
  }
}
