/** The abstract content of a map: its entries in ascending key order, the two
    sentinel positions, and the operations the map promises on that content.
    Keys are ints; their order stands for the comparator's total order. */
module Content {

  datatype Option<T> = None | Some(value: T)

  /** A key argument, or one of the two boundary sentinels (lib/tree.js:7-8). */
  datatype Bound = BeforeStart | AfterEnd | Key(k: int)

  /** The comparator contract: negative, zero or positive. */
  function Compare(a: int, b: int): (d: int)
    ensures d < 0 <==> a < b
    ensures d == 0 <==> a == b
  {
    if a < b then -1 else if a == b then 0 else 1
  }

  /** Strictly ascending keys: no duplicates. */
  ghost predicate SortedKeys<V>(es: seq<(int, V)>) {
    forall i, j :: 0 <= i < j < |es| ==> es[i].0 < es[j].0
  }

  ghost predicate AllBelow<V>(es: seq<(int, V)>, k: int) {
    forall i :: 0 <= i < |es| ==> es[i].0 < k
  }

  ghost predicate AllAbove<V>(es: seq<(int, V)>, k: int) {
    forall i :: 0 <= i < |es| ==> k < es[i].0
  }

  ghost predicate NoKey<V>(es: seq<(int, V)>, k: int) {
    forall i :: 0 <= i < |es| ==> es[i].0 != k
  }

  function Lookup<V>(es: seq<(int, V)>, k: int): Option<V> {
    if es == [] then None
    else if es[0].0 == k then Some(es[0].1)
    else Lookup(es[1..], k)
  }

  /** Insert or replace `k |-> v` in a sorted entry sequence. */
  function Upsert<V>(es: seq<(int, V)>, k: int, v: V): seq<(int, V)> {
    if es == [] then [(k, v)]
    else if k < es[0].0 then [(k, v)] + es
    else if k == es[0].0 then [(k, v)] + es[1..]
    else [es[0]] + Upsert(es[1..], k, v)
  }

  /** Every entry except the ones with key `k`. */
  function Without<V>(es: seq<(int, V)>, k: int): seq<(int, V)> {
    if es == [] then []
    else (if es[0].0 == k then [] else [es[0]]) + Without(es[1..], k)
  }

  /** `k` lies in the half-open range [start, end); sentinels are unbounded. */
  predicate InRange(k: int, start: Bound, end: Bound) {
    && (start.BeforeStart? || (start.Key? && start.k <= k))
    && (end.AfterEnd? || (end.Key? && k < end.k))
  }

  /** The entries that survive `clearRange(start, end)`. */
  function KeepOutside<V>(es: seq<(int, V)>, start: Bound, end: Bound): seq<(int, V)> {
    if es == [] then []
    else (if InRange(es[0].0, start, end) then [] else [es[0]]) + KeepOutside(es[1..], start, end)
  }

  function Reverse<T>(s: seq<T>): (r: seq<T>)
    ensures |r| == |s|
    ensures forall i :: 0 <= i < |s| ==> r[i] == s[|s| - 1 - i]
  {
    if s == [] then [] else Reverse(s[1..]) + [s[0]]
  }

  /** The keyed iterators' and `findNode`'s test: a key `k` lies before a
      boundary key `b` when `k < b`, or `k <= b` for an inclusive boundary. */
  predicate Before(k: int, b: int, inclusive: bool) {
    if inclusive then k <= b else k < b
  }

  // ---------------------------------------------------------------------
  // Lemmas about the content operations

  lemma {:induction false} SortedSplit<V>(a: seq<(int, V)>, b: seq<(int, V)>)
    requires SortedKeys(a + b)
    ensures SortedKeys(a) && SortedKeys(b)
  {
    assert forall i :: 0 <= i < |a| ==> a[i] == (a + b)[i];
    assert forall i :: 0 <= i < |b| ==> b[i] == (a + b)[|a| + i];
  }

  lemma AllBelowConcat<V>(a: seq<(int, V)>, b: seq<(int, V)>, k: int)
    requires AllBelow(a, k) && AllBelow(b, k)
    ensures AllBelow(a + b, k)
  {
    assert forall i :: |a| <= i < |a + b| ==> (a + b)[i] == b[i - |a|];
  }

  lemma {:induction false} SortedJoin<V>(a: seq<(int, V)>, k: int, v: V, b: seq<(int, V)>)
    requires SortedKeys(a) && SortedKeys(b) && AllBelow(a, k) && AllAbove(b, k)
    ensures SortedKeys(a + [(k, v)] + b)
  {
    var s := a + [(k, v)] + b;
    forall i, j | 0 <= i < j < |s| ensures s[i].0 < s[j].0 {
      if j < |a| {
      } else if j == |a| {
      } else if i < |a| {
        assert s[i].0 < k < s[j].0;
      } else if i == |a| {
      } else {
        assert s[i] == b[i - |a| - 1] && s[j] == b[j - |a| - 1];
      }
    }
  }

  lemma {:induction false} SortedMiddle<V>(a: seq<(int, V)>, k: int, v: V, b: seq<(int, V)>)
    requires SortedKeys(a + [(k, v)] + b)
    ensures SortedKeys(a) && SortedKeys(b) && AllBelow(a, k) && AllAbove(b, k)
  {
    var s := a + [(k, v)] + b;
    assert forall i :: 0 <= i < |a| ==> s[i] == a[i];
    assert s[|a|] == (k, v);
    assert forall i :: 0 <= i < |b| ==> s[|a| + 1 + i] == b[i];
    forall i, j | 0 <= i < j < |b| ensures b[i].0 < b[j].0 {
      assert s[|a| + 1 + i].0 < s[|a| + 1 + j].0;
    }
  }

  /** Dropping an entry keeps the rest sorted. */
  lemma SortedDrop<V>(a: seq<(int, V)>, x: (int, V), b: seq<(int, V)>)
    requires SortedKeys(a + [x] + b)
    ensures SortedKeys(a + b)
  {
    var s, t := a + [x] + b, a + b;
    forall i, j | 0 <= i < j < |t| ensures t[i].0 < t[j].0 {
      var i', j' := if i < |a| then i else i + 1, if j < |a| then j else j + 1;
      assert t[i] == s[i'] && t[j] == s[j'];
    }
  }

  lemma {:induction false} LookupConcat<V>(a: seq<(int, V)>, b: seq<(int, V)>, k: int)
    ensures Lookup(a + b, k) == if Lookup(a, k).Some? then Lookup(a, k) else Lookup(b, k)
  {
    if a != [] {
      assert (a + b)[1..] == a[1..] + b;
      LookupConcat(a[1..], b, k);
    } else {
      assert a + b == b;
    }
  }

  lemma {:induction false} LookupNone<V>(es: seq<(int, V)>, k: int)
    ensures Lookup(es, k).None? <==> NoKey(es, k)
  {
    if es != [] {
      LookupNone(es[1..], k);
      assert forall i :: 1 <= i < |es| ==> es[i] == es[1..][i - 1];
    }
  }

  /** In sorted entries, a lookup finds the entry holding the key. */
  lemma {:induction false} LookupAt<V>(es: seq<(int, V)>, i: int)
    requires SortedKeys(es) && 0 <= i < |es|
    ensures Lookup(es, es[i].0) == Some(es[i].1)
  {
    if i > 0 {
      assert es[1..][i - 1] == es[i];
      assert SortedKeys(es[1..]) by {
        assert forall a, b :: 0 <= a < b < |es| - 1 ==> es[1..][a] == es[a + 1] && es[1..][b] == es[b + 1];
      }
      assert es[0].0 < es[i].0;
      LookupAt(es[1..], i - 1);
    }
  }

  lemma LookupMiddle<V>(a: seq<(int, V)>, k: int, v: V, b: seq<(int, V)>, key: int)
    requires SortedKeys(a + [(k, v)] + b)
    ensures key < k ==> Lookup(a + [(k, v)] + b, key) == Lookup(a, key)
    ensures key == k ==> Lookup(a + [(k, v)] + b, key) == Some(v)
    ensures k < key ==> Lookup(a + [(k, v)] + b, key) == Lookup(b, key)
  {
    SortedMiddle(a, k, v, b);
    LookupConcat(a + [(k, v)], b, key);
    LookupConcat(a, [(k, v)], key);
    LookupNone(a, key);
    LookupNone(b, key);
    if k <= key {
      assert NoKey(a, key);
    }
    if key <= k {
      assert NoKey(b, key);
    }
  }

  lemma {:induction false} UpsertGap<V>(a: seq<(int, V)>, b: seq<(int, V)>, k: int, v: V)
    requires AllBelow(a, k) && AllAbove(b, k)
    ensures Upsert(a + b, k, v) == a + [(k, v)] + b
  {
    if a == [] {
      assert a + b == b;
    } else {
      assert (a + b)[0] == a[0];
      assert (a + b)[1..] == a[1..] + b;
      UpsertGap(a[1..], b, k, v);
    }
  }

  lemma {:induction false} UpsertHit<V>(a: seq<(int, V)>, v0: V, b: seq<(int, V)>, k: int, v: V)
    requires AllBelow(a, k)
    ensures Upsert(a + [(k, v0)] + b, k, v) == a + [(k, v)] + b
  {
    if a == [] {
      assert a + [(k, v0)] + b == [(k, v0)] + b;
      assert ([(k, v0)] + b)[1..] == b;
    } else {
      assert (a + [(k, v0)] + b)[1..] == a[1..] + [(k, v0)] + b;
      UpsertHit(a[1..], v0, b, k, v);
    }
  }

  lemma {:induction false} WithoutAbsent<V>(es: seq<(int, V)>, k: int)
    requires NoKey(es, k)
    ensures Without(es, k) == es
  {
    if es != [] {
      WithoutAbsent(es[1..], k);
    }
  }

  lemma {:induction false} WithoutConcat<V>(a: seq<(int, V)>, b: seq<(int, V)>, k: int)
    ensures Without(a + b, k) == Without(a, k) + Without(b, k)
  {
    if a == [] {
      assert a + b == b;
    } else {
      assert (a + b)[1..] == a[1..] + b;
      WithoutConcat(a[1..], b, k);
    }
  }

  /** Removing a present key from sorted entries removes exactly that entry. */
  lemma WithoutHit<V>(a: seq<(int, V)>, v0: V, b: seq<(int, V)>, k: int)
    requires SortedKeys(a + [(k, v0)] + b)
    ensures Without(a + [(k, v0)] + b, k) == a + b
  {
    SortedMiddle(a, k, v0, b);
    WithoutConcat(a + [(k, v0)], b, k);
    WithoutConcat(a, [(k, v0)], k);
    WithoutAbsent(a, k);
    WithoutAbsent(b, k);
  }

  lemma {:induction false} KeepOutsideConcat<V>(a: seq<(int, V)>, b: seq<(int, V)>, start: Bound, end: Bound)
    ensures KeepOutside(a + b, start, end) == KeepOutside(a, start, end) + KeepOutside(b, start, end)
  {
    if a == [] {
      assert a + b == b;
    } else {
      assert (a + b)[1..] == a[1..] + b;
      KeepOutsideConcat(a[1..], b, start, end);
    }
  }

  lemma {:induction false} KeepOutsideNone<V>(es: seq<(int, V)>, start: Bound, end: Bound)
    requires forall i :: 0 <= i < |es| ==> !InRange(es[i].0, start, end)
    ensures KeepOutside(es, start, end) == es
  {
    if es != [] {
      KeepOutsideNone(es[1..], start, end);
    }
  }

  /** Removing a key of the range first does not change what clearRange keeps. */
  lemma {:induction false} KeepOutsideWithout<V>(es: seq<(int, V)>, k: int, start: Bound, end: Bound)
    requires InRange(k, start, end)
    ensures KeepOutside(Without(es, k), start, end) == KeepOutside(es, start, end)
  {
    if es != [] {
      KeepOutsideWithout(es[1..], k, start, end);
      KeepOutsideConcat(if es[0].0 == k then [] else [es[0]], Without(es[1..], k), start, end);
    }
  }

  lemma {:induction false} WithoutShorter<V>(es: seq<(int, V)>, i: int)
    requires 0 <= i < |es|
    ensures |Without(es, es[i].0)| < |es|
  {
    if i > 0 {
      assert es[1..][i - 1] == es[i];
      WithoutShorter(es[1..], i - 1);
    } else {
      WithoutNotLonger(es[1..], es[0].0);
    }
  }

  lemma {:induction false} WithoutNotLonger<V>(es: seq<(int, V)>, k: int)
    ensures |Without(es, k)| <= |es|
  {
    if es != [] {
      WithoutNotLonger(es[1..], k);
    }
  }

  // ---------------------------------------------------------------------
  // The promises of set and clear, stated on content

  /** set(k, v) then get(k) gives v; every other key keeps its value. */
  lemma {:induction false} UpsertLookup<V>(es: seq<(int, V)>, k: int, v: V, key: int)
    ensures Lookup(Upsert(es, k, v), key) == if key == k then Some(v) else Lookup(es, key)
  {
    if es != [] && k > es[0].0 {
      UpsertLookup(es[1..], k, v, key);
    }
  }

  lemma {:induction false} UpsertAbove<V>(es: seq<(int, V)>, k: int, v: V, lo: int)
    requires AllAbove(es, lo) && lo < k
    ensures AllAbove(Upsert(es, k, v), lo)
  {
    if es != [] && k > es[0].0 {
      UpsertAbove(es[1..], k, v, lo);
    }
  }

  lemma SortedCons<V>(x: (int, V), s: seq<(int, V)>)
    ensures SortedKeys([x] + s) <==> SortedKeys(s) && AllAbove(s, x.0)
  {
    var t := [x] + s;
    assert forall i :: 0 <= i < |s| ==> t[i + 1] == s[i];
    if SortedKeys(s) && AllAbove(s, x.0) {
      forall i, j | 0 <= i < j < |t| ensures t[i].0 < t[j].0 {
        if i > 0 {
          assert t[i].0 == s[i - 1].0 && t[j].0 == s[j - 1].0;
        }
      }
    }
    if SortedKeys(t) {
      forall i | 0 <= i < |s| ensures x.0 < s[i].0 {
        assert t[0].0 < t[i + 1].0;
      }
      forall i, j | 0 <= i < j < |s| ensures s[i].0 < s[j].0 {
        assert t[i + 1].0 < t[j + 1].0;
      }
    }
  }

  /** set keeps the keys sorted. */
  lemma {:induction false} UpsertSorted<V>(es: seq<(int, V)>, k: int, v: V)
    requires SortedKeys(es)
    ensures SortedKeys(Upsert(es, k, v))
  {
    if es != [] {
      var tl := es[1..];
      assert es == [es[0]] + tl;
      SortedCons(es[0], tl);
      if k == es[0].0 {
        SortedCons((k, v), tl);
      } else if k > es[0].0 {
        UpsertSorted(tl, k, v);
        UpsertAbove(tl, k, v, es[0].0);
        SortedCons(es[0], Upsert(tl, k, v));
      } else {
        assert AllAbove(es, k);
        SortedCons((k, v), es);
      }
    } else {
      SortedCons((k, v), []);
    }
  }

  /** set grows the length by one exactly when the key is new. */
  lemma {:induction false} UpsertLength<V>(es: seq<(int, V)>, k: int, v: V)
    requires SortedKeys(es)
    ensures |Upsert(es, k, v)| == if Lookup(es, k).None? then |es| + 1 else |es|
  {
    if es != [] {
      var tl := es[1..];
      assert es == [es[0]] + tl;
      SortedCons(es[0], tl);
      if k < es[0].0 {
        assert NoKey(es, k);
        LookupNone(es, k);
      } else if k > es[0].0 {
        UpsertLength(tl, k, v);
      }
    }
  }

  /** clear(k): k is gone, every other key keeps its value. */
  lemma {:induction false} WithoutLookup<V>(es: seq<(int, V)>, k: int, key: int)
    ensures Lookup(Without(es, k), key) == if key == k then None else Lookup(es, key)
  {
    if es != [] {
      WithoutLookup(es[1..], k, key);
      LookupConcat(if es[0].0 == k then [] else [es[0]], Without(es[1..], k), key);
    }
  }

  /** clear(k) shortens sorted entries by one exactly when k is present. */
  lemma {:induction false} WithoutLength<V>(es: seq<(int, V)>, k: int)
    requires SortedKeys(es)
    ensures |Without(es, k)| == |es| - (if Lookup(es, k).Some? then 1 else 0)
  {
    if es != [] {
      SortedCons(es[0], es[1..]);
      assert [es[0]] + es[1..] == es;
      if es[0].0 == k {
        WithoutAbsent(es[1..], k);
      } else {
        WithoutLength(es[1..], k);
      }
    }
  }

  /** Clearing twice is clearing once. */
  lemma {:induction false} WithoutIdempotent<V>(es: seq<(int, V)>, k: int)
    ensures Without(Without(es, k), k) == Without(es, k)
  {
    if es != [] {
      WithoutIdempotent(es[1..], k);
      WithoutConcat(if es[0].0 == k then [] else [es[0]], Without(es[1..], k), k);
    }
  }

  /** clearRange keeps exactly the entries outside [start, end), in order. */
  lemma {:induction false} KeepOutsideLookup<V>(es: seq<(int, V)>, start: Bound, end: Bound, key: int)
    ensures Lookup(KeepOutside(es, start, end), key) == if InRange(key, start, end) then None else Lookup(es, key)
  {
    if es != [] {
      KeepOutsideLookup(es[1..], start, end, key);
      LookupConcat(if InRange(es[0].0, start, end) then [] else [es[0]], KeepOutside(es[1..], start, end), key);
    }
  }
}
