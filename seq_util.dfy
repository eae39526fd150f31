/** Sequence helpers shared by the aggregation step and the recommender:
    Python's ordering of `str` values, pandas boolean-mask filtering and
    `unique()`, and a stable insertion sort by a total preorder (used
    wherever the source calls `sort_values`). */
module SeqUtil {

  /** Python's `a < b` on `str`: lexicographic by code point, a proper
      prefix before any of its extensions. */
  predicate StrLt(a: string, b: string)
    decreases |a|
  {
    if |a| == 0 then |b| > 0
    else if |b| == 0 then false
    else a[0] < b[0] || (a[0] == b[0] && StrLt(a[1..], b[1..]))
  }

  /** Python's `a <= b` on `str`. */
  predicate StrLe(a: string, b: string) {
    a == b || StrLt(a, b)
  }

  lemma {:induction false} StrLtIrreflexive(a: string)
    ensures !StrLt(a, a)
    decreases |a|
  {
    if |a| > 0 {
      StrLtIrreflexive(a[1..]);
    }
  }

  lemma {:induction false} StrLtTransitive(a: string, b: string, c: string)
    requires StrLt(a, b) && StrLt(b, c)
    ensures StrLt(a, c)
    decreases |a|
  {
    if |a| > 0 && |b| > 0 && |c| > 0 && a[0] == b[0] && b[0] == c[0] {
      StrLtTransitive(a[1..], b[1..], c[1..]);
    }
  }

  /** Any two strings are ordered one way or the other, or are equal. */
  lemma {:induction false} StrLtTrichotomy(a: string, b: string)
    ensures StrLt(a, b) || a == b || StrLt(b, a)
    decreases |a|
  {
    if |a| > 0 && |b| > 0 && a[0] == b[0] {
      StrLtTrichotomy(a[1..], b[1..]);
      if a[1..] == b[1..] {
        assert a == [a[0]] + a[1..];
        assert b == [b[0]] + b[1..];
      }
    }
  }

  lemma StrLtAsymmetric(a: string, b: string)
    requires StrLt(a, b)
    ensures !StrLt(b, a) && a != b
  {
    if StrLt(b, a) {
      StrLtTransitive(a, b, a);
      StrLtIrreflexive(a);
    }
    if a == b {
      StrLtIrreflexive(a);
    }
  }

  /** pandas `Series.unique()`: every value once, in order of first appearance. */
  function Unique<T(==,!new)>(s: seq<T>): (u: seq<T>)
    ensures forall x :: x in u <==> x in s
    ensures forall i, j :: 0 <= i < j < |u| ==> u[i] != u[j]
    ensures |u| <= |s|
  {
    if s == [] then []
    else
      var u := Unique(s[..|s| - 1]);
      assert forall x :: x in s <==> x in s[..|s| - 1] || x == s[|s| - 1] by {
        assert s == s[..|s| - 1] + [s[|s| - 1]];
      }
      if s[|s| - 1] in u then u else u + [s[|s| - 1]]
  }

  /** `le` is total and transitive: what a sort key ordering must be. */
  ghost predicate TotalPreorder<T(!new)>(le: (T, T) -> bool) {
    && (forall a, b :: le(a, b) || le(b, a))
    && (forall a, b, c :: le(a, b) && le(b, c) ==> le(a, c))
  }

  ghost predicate SortedBy<T>(s: seq<T>, le: (T, T) -> bool) {
    forall i, j :: 0 <= i < j < |s| ==> le(s[i], s[j])
  }

  function Insert<T(!new)>(x: T, s: seq<T>, le: (T, T) -> bool): (r: seq<T>)
    requires TotalPreorder(le) && SortedBy(s, le)
    ensures SortedBy(r, le)
    ensures multiset(r) == multiset(s) + multiset{x}
  {
    if s == [] then [x]
    else if le(x, s[0]) then [x] + s
    else
      var t := Insert(x, s[1..], le);
      InsertBehindHead(x, s, t, le);
      [s[0]] + t
  }

  /** Once x goes after the head, the head followed by x inserted into the
      tail is sorted and holds the same elements. */
  lemma InsertBehindHead<T(!new)>(x: T, s: seq<T>, t: seq<T>, le: (T, T) -> bool)
    requires TotalPreorder(le) && SortedBy(s, le) && s != [] && !le(x, s[0])
    requires SortedBy(t, le) && multiset(t) == multiset(s[1..]) + multiset{x}
    ensures SortedBy([s[0]] + t, le)
    ensures multiset([s[0]] + t) == multiset(s) + multiset{x}
  {
    HeadTail(s);
    forall y | y in t ensures le(s[0], y) {
      assert y in multiset(t);
      if y != x {
        assert y in multiset(s[1..]);
      }
    }
  }

  /** A sort by `le` that keeps equal elements in input order. The source's
      sorts make no promise about ties, so only "sorted and a permutation"
      is relied upon. */
  function SortBy<T(!new)>(s: seq<T>, le: (T, T) -> bool): (r: seq<T>)
    requires TotalPreorder(le)
    ensures SortedBy(r, le)
    ensures multiset(r) == multiset(s)
    ensures |r| == |s|
  {
    if s == [] then []
    else
      assert s == [s[0]] + s[1..];
      var r := Insert(s[0], SortBy(s[1..], le), le);
      assert |r| == |multiset(r)|;
      r
  }

  /** The ordering `sort_values(key, ascending=False)` sorts by. */
  function Descending<T>(key: T -> int): (le: (T, T) -> bool)
  {
    (a: T, b: T) => key(a) >= key(b)
  }

  lemma DescendingIsPreorder<T(!new)>(key: T -> int)
    ensures TotalPreorder(Descending(key))
  {
  }

  lemma SortedDescending<T>(s: seq<T>, key: T -> int)
    requires SortedBy(s, Descending(key))
    ensures forall i, j :: 0 <= i < j < |s| ==> key(s[i]) >= key(s[j])
  {
    forall i, j | 0 <= i < j < |s| ensures key(s[i]) >= key(s[j]) {
      assert Descending(key)(s[i], s[j]);
    }
  }

  /** A boolean-mask selection `df[mask]`: the rows that pass, in table order. */
  function Filter<T(!new)>(s: seq<T>, keep: T -> bool): (r: seq<T>)
    ensures |r| <= |s|
    ensures forall x :: x in r <==> x in s && keep(x)
    decreases |s|
  {
    if s == [] then []
    else
      assert s == [s[0]] + s[1..];
      (if keep(s[0]) then [s[0]] else []) + Filter(s[1..], keep)
  }

  /** Filtering keeps table order: the filter of a concatenation is the
      concatenation of the filters. */
  lemma {:induction false} FilterConcat<T(!new)>(a: seq<T>, b: seq<T>, keep: T -> bool)
    ensures Filter(a + b, keep) == Filter(a, keep) + Filter(b, keep)
    decreases |a|
  {
    if a == [] {
      assert a + b == b;
    } else {
      assert (a + b)[0] == a[0] && (a + b)[1..] == a[1..] + b;
      FilterConcat(a[1..], b, keep);
    }
  }

  /** Appending one row to the table appends it to the filter when it
      passes. */
  lemma FilterSnoc<T(!new)>(s: seq<T>, x: T, keep: T -> bool)
    ensures Filter(s + [x], keep) == Filter(s, keep) + (if keep(x) then [x] else [])
  {
    FilterConcat(s, [x], keep);
    assert Filter([x], keep) == (if keep(x) then [x] else []) + Filter([x][1..], keep);
  }

  /** The filter of a two-row table. */
  lemma FilterPair<T(!new)>(a: T, b: T, keep: T -> bool)
    ensures Filter([a, b], keep) == (if keep(a) then [a] else []) + (if keep(b) then [b] else [])
  {
    FilterSnoc([], a, keep);
    FilterSnoc([a], b, keep);
    assert [] + [a] == [a];
    assert [a] + [b] == [a, b];
  }

  function Not<T>(keep: T -> bool): T -> bool {
    x => !keep(x)
  }

  /** The rows a mask keeps and the rows it drops together make up the
      table. */
  lemma {:induction false} FilterPartition<T(!new)>(s: seq<T>, keep: T -> bool)
    ensures |Filter(s, keep)| + |Filter(s, Not(keep))| == |s|
    ensures multiset(Filter(s, keep)) + multiset(Filter(s, Not(keep))) == multiset(s)
    decreases |s|
  {
    if s != [] {
      FilterPartition(s[1..], keep);
      assert s == [s[0]] + s[1..];
    }
  }

  /** Taking the first n rows of "kept rows, then dropped rows": the kept
      ones come first and number as many as fit. */
  lemma PartitionPrefix<T(!new)>(s: seq<T>, keep: T -> bool, n: nat)
    ensures var kept := Filter(s, keep);
            var both := kept + Filter(s, Not(keep));
            var sel := both[..Min(n, |both|)];
            var k := Min(n, |kept|);
      && |sel| == Min(n, |s|)
      && k <= |sel|
      && (forall i :: 0 <= i < k ==> keep(sel[i]))
      && (forall i :: k <= i < |sel| ==> !keep(sel[i]))
  {
    var kept := Filter(s, keep);
    var dropped := Filter(s, Not(keep));
    var both := kept + dropped;
    var sel := both[..Min(n, |both|)];
    var k := Min(n, |kept|);
    FilterPartition(s, keep);
    forall i | 0 <= i < k ensures keep(sel[i]) {
      assert sel[i] == kept[i] && kept[i] in kept;
    }
    forall i | k <= i < |sel| ensures !keep(sel[i]) {
      assert sel[i] == dropped[i - |kept|] && dropped[i - |kept|] in dropped;
      assert Not(keep)(dropped[i - |kept|]);
    }
  }

  /** `idx` lists, in increasing order, the positions of `s` that `r` is
      made of. */
  ghost predicate Embeds<T>(r: seq<T>, s: seq<T>, idx: seq<nat>) {
    && |idx| == |r|
    && (forall k :: 0 <= k < |idx| ==> idx[k] < |s| && r[k] == s[idx[k]])
    && (forall k, l :: 0 <= k < l < |idx| ==> idx[k] < idx[l])
  }

  /** `r` is `s` with some elements left out, the others in their order. */
  ghost predicate SubsequenceOf<T>(r: seq<T>, s: seq<T>) {
    exists idx :: Embeds(r, s, idx)
  }

  function Shift(idx: seq<nat>): (out: seq<nat>)
    ensures |out| == |idx|
    ensures forall k :: 0 <= k < |idx| ==> out[k] == idx[k] + 1
  {
    seq(|idx|, k requires 0 <= k < |idx| => idx[k] + 1)
  }

  /** A prefix holds no element more often than the whole. */
  lemma PrefixMultiset<T>(s: seq<T>, k: nat)
    requires k <= |s|
    ensures multiset(s[..k]) <= multiset(s)
  {
    assert s == s[..k] + s[k..];
    assert multiset(s) == multiset(s[..k]) + multiset(s[k..]);
  }

  /** A non-empty sequence is its head followed by its tail. */
  lemma HeadTail<T>(s: seq<T>)
    requires s != []
    ensures [s[0]] + s[1..] == s
  {
  }

  /** The head and the tail of a concatenation whose first part is not
      empty. */
  lemma ConcatHeadTail<T>(a: seq<T>, b: seq<T>)
    requires a != []
    ensures (a + b)[0] == a[0] && (a + b)[1..] == a[1..] + b
  {
  }

  /** A sequence is the part before position k, the element at k and the
      part after it. */
  lemma SplitAround<T>(s: seq<T>, k: nat)
    requires k < |s|
    ensures s == s[..k] + [s[k]] + s[k + 1..]
  {
  }

  /** A prefix of a suffix is a middle slice, and what follows it in the
      suffix is the rest of the sequence. */
  lemma PrefixOfSuffix<T>(s: seq<T>, suffix: seq<T>, r: seq<T>)
    requires |suffix| <= |s| && suffix == s[|s| - |suffix|..]
    requires r <= suffix
    ensures var lead := |s| - |suffix|;
      && lead + |r| <= |s|
      && r == s[lead..lead + |r|]
      && suffix[|r|..] == s[lead + |r|..]
  {
  }

  /** Putting one element in front commutes with concatenation. */
  lemma ConsConcat<T>(x: T, a: seq<T>, b: seq<T>)
    ensures [x] + (a + b) == [x] + a + b
  {
  }

  lemma SkipEmbeds<T>(r: seq<T>, s: seq<T>, idx: seq<nat>)
    requires s != [] && Embeds(r, s[1..], idx)
    ensures Embeds(r, s, Shift(idx))
  {
    var idx' := Shift(idx);
    forall k | 0 <= k < |idx'| ensures idx'[k] < |s| && r[k] == s[idx'[k]] {
      assert s[1..][idx[k]] == s[idx[k] + 1];
    }
  }

  lemma ConsEmbeds<T>(r: seq<T>, s: seq<T>, idx: seq<nat>)
    requires s != [] && Embeds(r, s[1..], idx)
    ensures Embeds([s[0]] + r, s, [0] + Shift(idx))
  {
    SkipEmbeds(r, s, idx);
    var idx' := [0] + Shift(idx);
    var r' := [s[0]] + r;
    forall k | 0 < k < |idx'| ensures idx'[k] < |s| && r'[k] == s[idx'[k]] {
      assert idx'[k] == Shift(idx)[k - 1] && r'[k] == r[k - 1];
    }
  }

  /** A mask never reorders the rows it keeps. */
  lemma {:induction false} FilterSubsequence<T(!new)>(s: seq<T>, keep: T -> bool)
    ensures SubsequenceOf(Filter(s, keep), s)
    decreases |s|
  {
    if s == [] {
      assert Embeds(Filter(s, keep), s, []);
    } else {
      FilterSubsequence(s[1..], keep);
      var tail := Filter(s[1..], keep);
      var idx :| Embeds(tail, s[1..], idx);
      if keep(s[0]) {
        ConsEmbeds(tail, s, idx);
        assert Filter(s, keep) == [s[0]] + tail;
      } else {
        SkipEmbeds(tail, s, idx);
        assert Filter(s, keep) == tail;
      }
    }
  }

  lemma PrefixSubsequence<T>(r: seq<T>, s: seq<T>, k: nat)
    requires SubsequenceOf(r, s) && k <= |r|
    ensures SubsequenceOf(r[..k], s)
  {
    var idx :| Embeds(r, s, idx);
    assert Embeds(r[..k], s, idx[..k]);
  }

  lemma SubsequenceKeysDistinct<T, K>(r: seq<T>, s: seq<T>, key: T -> K)
    requires SubsequenceOf(r, s) && KeysDistinct(s, key)
    ensures KeysDistinct(r, key)
  {
    var idx :| Embeds(r, s, idx);
    forall i, j | 0 <= i < j < |r| ensures key(r[i]) != key(r[j]) {
      assert key(s[idx[i]]) != key(s[idx[j]]);
    }
  }

  function Min(a: int, b: int): int {
    if a <= b then a else b
  }

  /** No two elements of `s` share a key. */
  ghost predicate KeysDistinct<T, K>(s: seq<T>, key: T -> K) {
    forall i, j :: 0 <= i < j < |s| ==> key(s[i]) != key(s[j])
  }

  lemma {:induction false} CountAtLeastTwo<T>(s: seq<T>, i: nat, j: nat)
    requires i < j < |s| && s[i] == s[j]
    ensures multiset(s)[s[i]] >= 2
  {
    assert s == s[..i] + [s[i]] + s[i + 1..j] + [s[j]] + s[j + 1..];
  }

  lemma {:induction false} DistinctCountsOne<T, K>(s: seq<T>, key: T -> K, x: T)
    requires KeysDistinct(s, key)
    ensures multiset(s)[x] <= 1
    decreases |s|
  {
    if s != [] {
      assert s == [s[0]] + s[1..];
      DistinctCountsOne(s[1..], key, x);
      forall k | 0 <= k < |s[1..]| ensures s[1..][k] != s[0] {
        assert key(s[0]) != key(s[k + 1]);
      }
    }
  }

  /** Reordering a table whose rows have distinct keys leaves them distinct:
      a sort never creates a duplicate group. */
  lemma PermutationKeepsKeysDistinct<T, K>(s: seq<T>, r: seq<T>, key: T -> K)
    requires multiset(r) == multiset(s)
    requires KeysDistinct(s, key)
    ensures KeysDistinct(r, key)
  {
    forall i, j | 0 <= i < j < |r| ensures key(r[i]) != key(r[j]) {
      assert r[i] in multiset(s) && r[j] in multiset(s);
      var a :| 0 <= a < |s| && s[a] == r[i];
      var b :| 0 <= b < |s| && s[b] == r[j];
      if key(r[i]) == key(r[j]) {
        assert a == b;
        CountAtLeastTwo(r, i, j);
        DistinctCountsOne(s, key, r[i]);
      }
    }
  }
}
