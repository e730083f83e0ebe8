/** The root-to-node stacks of lib/tree.js (`nStack`/`dStack` in `set` and
    `insert`, `stack` in `find`, `ge`, `remove` and `fixDoubleBlack`) as a
    zipper: each frame is one ancestor on the path, holding that node's own
    fields except the child the path runs through, plus the direction taken
    (the source's `dStack` entry, or its `p.left === n` identity test).
    Writing a child into a cloned ancestor is plugging a subtree back into
    its frame; the ancestor keeps the `_count` its frame stores. */
module Zipper {
  import opened Content
  import opened RbNode

  datatype Dir = Left | Right

  datatype Frame<V> = Frame(dir: Dir, color: Color, key: int, value: V, sibling: Tree<V>, count: nat)

  /** The ancestor `{ ...n, left: t }` (or `right: t`): every other field,
      `_count` included, is the frame's. */
  function Attach<V>(f: Frame<V>, t: Tree<V>): Tree<V> {
    if f.dir == Left then Node(f.color, t, f.key, f.value, f.sibling, f.count)
    else Node(f.color, f.sibling, f.key, f.value, t, f.count)
  }

  function Child<V>(t: Tree<V>, d: Dir): Tree<V>
    requires t.Node?
  {
    if d == Left then t.left else t.right
  }

  /** The frame a descent from `t` towards `d` pushes. */
  function FrameOf<V>(t: Tree<V>, d: Dir): (f: Frame<V>)
    requires t.Node?
    ensures Attach(f, Child(t, d)) == t
    ensures f.dir == d && f.color == t.color && f.key == t.key && f.count == t.count
  {
    Frame(d, t.color, t.key, t.value, if d == Left then t.right else t.left, t.count)
  }

  /** The whole tree: `t` put back under every frame of the path, bottom-up. */
  function Plug<V>(path: seq<Frame<V>>, t: Tree<V>): Tree<V>
    decreases |path|
  {
    if path == [] then t else Plug(path[..|path| - 1], Attach(path[|path| - 1], t))
  }

  /** The entries to the left of the hole. */
  function PreEntries<V>(path: seq<Frame<V>>): seq<(int, V)>
    decreases |path|
  {
    if path == [] then []
    else
      var f := path[|path| - 1];
      if f.dir == Left then PreEntries(path[..|path| - 1])
      else PreEntries(path[..|path| - 1]) + Entries(f.sibling) + [(f.key, f.value)]
  }

  /** The entries to the right of the hole. */
  function PostEntries<V>(path: seq<Frame<V>>): seq<(int, V)>
    decreases |path|
  {
    if path == [] then []
    else
      var f := path[|path| - 1];
      if f.dir == Left then [(f.key, f.value)] + Entries(f.sibling) + PostEntries(path[..|path| - 1])
      else PostEntries(path[..|path| - 1])
  }

  /** Every stored count on the path is right when the hole holds `c`
      nodes. */
  ghost predicate PathCounts<V>(path: seq<Frame<V>>, c: nat)
    decreases |path|
  {
    path == [] ||
    var f := path[|path| - 1];
    f.count == 1 + Count(f.sibling) + c && CountsOk(f.sibling) && PathCounts(path[..|path| - 1], f.count)
  }

  /** No red ancestor has a red sibling-subtree or a red parent. */
  ghost predicate PathNoRedRed<V>(path: seq<Frame<V>>)
    decreases |path|
  {
    path == [] ||
    var f := path[|path| - 1];
    && NoRedRed(f.sibling)
    && (f.color == Red ==> !IsRed(f.sibling) && (|path| > 1 ==> path[|path| - 2].color != Red))
    && PathNoRedRed(path[..|path| - 1])
  }

  /** The subtree in the hole does not make a red-red pair with its parent. */
  ghost predicate Junction<V>(path: seq<Frame<V>>, t: Tree<V>) {
    path != [] && path[|path| - 1].color == Red ==> !IsRed(t)
  }

  function BlackOf(c: Color): nat {
    if c == Black then 1 else 0
  }

  /** Every sibling-subtree has the black height the hole's subtree must have
      at its level, when the hole's subtree has black height `h`. */
  ghost predicate PathBalanced<V>(path: seq<Frame<V>>, h: nat)
    decreases |path|
  {
    path == [] ||
    var f := path[|path| - 1];
    Balanced(f.sibling) && BlackHeight(f.sibling) == h && PathBalanced(path[..|path| - 1], h + BlackOf(f.color))
  }

  // ---------------------------------------------------------------------

  lemma PlugLast<V>(path: seq<Frame<V>>, f: Frame<V>, t: Tree<V>)
    ensures Plug(path + [f], t) == Plug(path, Attach(f, t))
  {
    assert (path + [f])[..|path|] == path;
  }

  /** Plugging splits the in-order entries at the hole. */
  lemma {:induction false} PlugEntries<V>(path: seq<Frame<V>>, t: Tree<V>)
    ensures Entries(Plug(path, t)) == PreEntries(path) + Entries(t) + PostEntries(path)
    decreases |path|
  {
    if path != [] {
      var f := path[|path| - 1];
      var pre := path[..|path| - 1];
      PlugEntries(pre, Attach(f, t));
      Regroup5(PreEntries(pre), Entries(Child(Attach(f, t), Left)), [(f.key, f.value)],
        Entries(Child(Attach(f, t), Right)), PostEntries(pre));
    }
  }

  /** The entries of a plugged node, split at that node. */
  lemma {:induction false} PlugSplit<V>(path: seq<Frame<V>>, t: Tree<V>)
    requires t.Node?
    ensures Entries(Plug(path, t)) ==
      (PreEntries(path) + Entries(t.left)) + [(t.key, t.value)] + (Entries(t.right) + PostEntries(path))
  {
    PlugEntries(path, t);
    Regroup5(PreEntries(path), Entries(t.left), [(t.key, t.value)], Entries(t.right), PostEntries(path));
  }

  lemma Regroup5<T>(a: seq<T>, b: seq<T>, c: seq<T>, d: seq<T>, e: seq<T>)
    ensures a + (b + c + d) + e == (a + b) + c + (d + e)
  {
  }

  /** A subtree with the same entries plugs into a tree with the same entries. */
  lemma SameEntriesPlug<V>(path: seq<Frame<V>>, a: Tree<V>, b: Tree<V>)
    requires Entries(a) == Entries(b)
    ensures Entries(Plug(path, a)) == Entries(Plug(path, b))
  {
    PlugEntries(path, a);
    PlugEntries(path, b);
  }

  /** The plugged tree's counts are right exactly when the subtree's are and
      the path's stored counts fit it. */
  lemma {:induction false} PlugCounts<V>(path: seq<Frame<V>>, t: Tree<V>)
    ensures CountsOk(Plug(path, t)) <==> CountsOk(t) && PathCounts(path, Count(t))
    decreases |path|
  {
    if path != [] {
      PlugCounts(path[..|path| - 1], Attach(path[|path| - 1], t));
    }
  }

  lemma {:induction false} PlugBalanced<V>(path: seq<Frame<V>>, t: Tree<V>)
    ensures Balanced(t) && PathBalanced(path, BlackHeight(t)) ==> Balanced(Plug(path, t))
    ensures Balanced(Plug(path, t)) ==> Balanced(t) && PathBalanced(path, BlackHeight(t))
    decreases |path|
  {
    if path != [] {
      var f, pre := path[|path| - 1], path[..|path| - 1];
      var a := Attach(f, t);
      PlugBalanced(pre, a);
      assert BlackHeight(a) == BlackHeight(t) + BlackOf(f.color) || BlackHeight(t) != BlackHeight(f.sibling);
    }
  }

  lemma {:induction false} PlugNoRedRed<V>(path: seq<Frame<V>>, t: Tree<V>)
    ensures NoRedRed(t) && PathNoRedRed(path) && Junction(path, t) ==> NoRedRed(Plug(path, t))
    ensures NoRedRed(Plug(path, t)) ==> NoRedRed(t) && PathNoRedRed(path) && Junction(path, t)
    decreases |path|
  {
    if path != [] {
      var f, pre := path[|path| - 1], path[..|path| - 1];
      var a := Attach(f, t);
      PlugNoRedRed(pre, a);
      assert NoRedRed(a) == ((f.color == Red ==> !IsRed(t) && !IsRed(f.sibling)) && NoRedRed(t) && NoRedRed(f.sibling));
      if pre != [] {
        assert pre[|pre| - 1] == path[|path| - 2];
      }
    }
  }

  lemma {:induction false} PlugRoot<V>(path: seq<Frame<V>>, t: Tree<V>)
    ensures path == [] ==> Plug(path, t) == t
    ensures path != [] ==> Plug(path, t).Node? && Plug(path, t).color == path[0].color
    decreases |path|
  {
    if |path| > 1 {
      PlugRoot(path[..|path| - 1], Attach(path[|path| - 1], t));
    }
  }

  lemma TwoUp<V>(path: seq<Frame<V>>)
    requires |path| >= 2
    ensures path[..|path| - 1][..|path| - 2] == path[..|path| - 2]
    ensures path[..|path| - 1][|path| - 2] == path[|path| - 2]
  {
  }

  /** The path predicates, one frame at a time. */
  lemma Pop<V>(path: seq<Frame<V>>, c: nat, h: nat)
    requires path != []
    ensures var f, pre := path[|path| - 1], path[..|path| - 1];
      && (PathCounts(path, c) <==>
            f.count == 1 + Count(f.sibling) + c && CountsOk(f.sibling) && PathCounts(pre, f.count))
      && (PathBalanced(path, h) <==>
            Balanced(f.sibling) && BlackHeight(f.sibling) == h && PathBalanced(pre, h + BlackOf(f.color)))
      && (PathNoRedRed(path) <==>
            && NoRedRed(f.sibling)
            && (f.color == Red ==> !IsRed(f.sibling) && (pre != [] ==> pre[|pre| - 1].color != Red))
            && PathNoRedRed(pre))
  {
  }

  /** Every ancestor gaining one descendant (`insert`) or losing one
      (`remove`): the entries around the hole, the colours and black heights
      stay, the stored counts fit a hole one larger. */
  lemma Shifted<V>(path: seq<Frame<V>>, grown: seq<Frame<V>>, c: nat, h: nat)
    requires |grown| == |path|
    requires forall i :: 0 <= i < |grown| ==> grown[i] == path[i].(count := path[i].count + 1)
    ensures PreEntries(grown) == PreEntries(path) && PostEntries(grown) == PostEntries(path)
    ensures PathCounts(path, c) <==> PathCounts(grown, c + 1)
    ensures PathBalanced(path, h) <==> PathBalanced(grown, h)
    ensures PathNoRedRed(path) <==> PathNoRedRed(grown)
    ensures path != [] ==> grown[0].color == path[0].color
  {
    ShiftedEntries(path, grown);
    ShiftedCounts(path, grown, c);
    ShiftedBalanced(path, grown, h);
    ShiftedNoRedRed(path, grown);
  }

  /** The prefix of a shifted path is the shifted prefix. */
  lemma ShiftedPrefix<V>(path: seq<Frame<V>>, grown: seq<Frame<V>>)
    requires |grown| == |path| && path != []
    requires forall i :: 0 <= i < |grown| ==> grown[i] == path[i].(count := path[i].count + 1)
    ensures var k := |path| - 1;
      forall i :: 0 <= i < k ==> grown[..k][i] == path[..k][i].(count := path[..k][i].count + 1)
  {
  }

  lemma {:induction false} ShiftedEntries<V>(path: seq<Frame<V>>, grown: seq<Frame<V>>)
    requires |grown| == |path|
    requires forall i :: 0 <= i < |grown| ==> grown[i] == path[i].(count := path[i].count + 1)
    ensures PreEntries(grown) == PreEntries(path) && PostEntries(grown) == PostEntries(path)
    decreases |path|
  {
    if path != [] {
      var k := |path| - 1;
      ShiftedPrefix(path, grown);
      ShiftedEntries(path[..k], grown[..k]);
    }
  }

  lemma {:induction false} ShiftedCounts<V>(path: seq<Frame<V>>, grown: seq<Frame<V>>, c: nat)
    requires |grown| == |path|
    requires forall i :: 0 <= i < |grown| ==> grown[i] == path[i].(count := path[i].count + 1)
    ensures PathCounts(path, c) <==> PathCounts(grown, c + 1)
    decreases |path|
  {
    if path != [] {
      var k := |path| - 1;
      ShiftedPrefix(path, grown);
      ShiftedCounts(path[..k], grown[..k], path[k].count);
    }
  }

  lemma {:induction false} ShiftedBalanced<V>(path: seq<Frame<V>>, grown: seq<Frame<V>>, h: nat)
    requires |grown| == |path|
    requires forall i :: 0 <= i < |grown| ==> grown[i] == path[i].(count := path[i].count + 1)
    ensures PathBalanced(path, h) <==> PathBalanced(grown, h)
    decreases |path|
  {
    if path != [] {
      var k := |path| - 1;
      ShiftedPrefix(path, grown);
      ShiftedBalanced(path[..k], grown[..k], h + BlackOf(path[k].color));
    }
  }

  lemma {:induction false} ShiftedNoRedRed<V>(path: seq<Frame<V>>, grown: seq<Frame<V>>)
    requires |grown| == |path|
    requires forall i :: 0 <= i < |grown| ==> grown[i] == path[i].(count := path[i].count + 1)
    ensures PathNoRedRed(path) <==> PathNoRedRed(grown)
    decreases |path|
  {
    if path != [] {
      var k := |path| - 1;
      ShiftedPrefix(path, grown);
      ShiftedNoRedRed(path[..k], grown[..k]);
    }
  }

  /** Every stored count on a path that fits some hole is positive. */
  lemma {:induction false} PathCountsPositive<V>(path: seq<Frame<V>>, c: nat)
    requires PathCounts(path, c)
    ensures forall i :: 0 <= i < |path| ==> path[i].count >= 1
    decreases |path|
  {
    if path != [] {
      PathCountsPositive(path[..|path| - 1], path[|path| - 1].count);
    }
  }

  /** Plugging through two paths in a row. */
  lemma {:induction false} PlugConcat<V>(a: seq<Frame<V>>, b: seq<Frame<V>>, t: Tree<V>)
    ensures Plug(a + b, t) == Plug(a, Plug(b, t))
    decreases |b|
  {
    if b == [] {
      assert a + b == a;
    } else {
      var k := |b| - 1;
      assert (a + b)[..|a + b| - 1] == a + b[..k];
      PlugConcat(a, b[..k], Attach(b[k], t));
    }
  }

  lemma {:induction false} PreConcat<V>(a: seq<Frame<V>>, b: seq<Frame<V>>)
    ensures PreEntries(a + b) == PreEntries(a) + PreEntries(b)
    decreases |b|
  {
    if b == [] {
      assert a + b == a;
    } else {
      var k := |b| - 1;
      assert (a + b)[..|a + b| - 1] == a + b[..k];
      PreConcat(a, b[..k]);
      var f, x, y := b[k], PreEntries(a), PreEntries(b[..k]);
      if f.dir == Right {
        assert PreEntries(a + b) == (x + y) + Entries(f.sibling) + [(f.key, f.value)];
        assert PreEntries(b) == y + Entries(f.sibling) + [(f.key, f.value)];
      }
    }
  }

  lemma {:induction false} PostConcat<V>(a: seq<Frame<V>>, b: seq<Frame<V>>)
    ensures PostEntries(a + b) == PostEntries(b) + PostEntries(a)
    decreases |b|
  {
    if b == [] {
      assert a + b == a;
    } else {
      var k := |b| - 1;
      assert (a + b)[..|a + b| - 1] == a + b[..k];
      PostConcat(a, b[..k]);
      var f, x, y := b[k], PostEntries(a), PostEntries(b[..k]);
      if f.dir == Left {
        assert PostEntries(a + b) == [(f.key, f.value)] + Entries(f.sibling) + (y + x);
        assert PostEntries(b) == [(f.key, f.value)] + Entries(f.sibling) + y;
      }
    }
  }

  /** Subtrees of the same shape plug into trees of the same shape. */
  lemma {:induction false} PlugSameShape<V>(path: seq<Frame<V>>, a: Tree<V>, b: Tree<V>)
    requires SameShape(a, b)
    ensures SameShape(Plug(path, a), Plug(path, b))
    decreases |path|
  {
    if path != [] {
      var f := path[|path| - 1];
      SameShapeRefl(f.sibling);
      PlugSameShape(path[..|path| - 1], Attach(f, a), Attach(f, b));
    }
  }

  /** A path all of whose frames went right has nothing after its hole. */
  lemma {:induction false} RightSpine<V>(path: seq<Frame<V>>)
    requires forall i :: 0 <= i < |path| ==> path[i].dir == Right
    ensures PostEntries(path) == []
    decreases |path|
  {
    if path != [] {
      RightSpine(path[..|path| - 1]);
    }
  }
}
