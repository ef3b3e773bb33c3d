/** The array primitives of JavaScript the storefront relies on: `filter`,
    `slice`, `reduce` into a sum and `Array.from(new Set(...))`. */
module Seqs {

  /** `a` is `b` with some elements left out, the rest kept in order. */
  predicate Subseq<T(==)>(a: seq<T>, b: seq<T>)
    decreases |b|
  {
    if |a| == 0 then true
    else if |b| == 0 then false
    else (a[0] == b[0] && Subseq(a[1..], b[1..])) || Subseq(a, b[1..])
  }

  lemma {:induction false} SubseqPrefix<T>(a: seq<T>, b: seq<T>, n: nat)
    requires n <= |a|
    requires Subseq(a, b)
    ensures Subseq(a[..n], b)
    decreases |b|
  {
    if n > 0 && |a| > 0 {
      if a[0] == b[0] && Subseq(a[1..], b[1..]) {
        SubseqPrefix(a[1..], b[1..], n - 1);
        assert a[..n][1..] == a[1..][..n - 1];
      } else {
        SubseqPrefix(a, b[1..], n);
      }
    }
  }

  /** `s.filter(f)`: the elements satisfying `f`, in their original order. */
  function Filter<T(==,!new)>(s: seq<T>, f: T -> bool): (r: seq<T>)
    ensures |r| <= |s|
    ensures Subseq(r, s)
    ensures forall i :: 0 <= i < |r| ==> r[i] in s && f(r[i])
    ensures forall i :: 0 <= i < |s| && f(s[i]) ==> s[i] in r
    decreases |s|
  {
    if |s| == 0 then
      []
    else if f(s[0]) then
      var r := [s[0]] + Filter(s[1..], f);
      assert r[1..] == Filter(s[1..], f);
      r
    else
      var r := Filter(s[1..], f);
      assert |r| == 0 || Subseq(r, s[1..]);
      r
  }

  /** Filtering keeps every passing element as often as it occurs, and no
      other: the multiset of the result is that of `s` cut down to `f`. */
  lemma {:induction false} FilterCounts<T(!new)>(s: seq<T>, f: T -> bool)
    ensures forall x :: multiset(Filter(s, f))[x] == if f(x) then multiset(s)[x] else 0
    decreases |s|
  {
    if |s| > 0 {
      FilterCounts(s[1..], f);
      assert s == [s[0]] + s[1..];
      assert multiset(s) == multiset{s[0]} + multiset(s[1..]);
      if f(s[0]) {
        assert Filter(s, f) == [s[0]] + Filter(s[1..], f);
        assert multiset(Filter(s, f)) == multiset{s[0]} + multiset(Filter(s[1..], f));
      }
    }
  }

  lemma {:induction false} FilterKeepsAll<T(!new)>(s: seq<T>, f: T -> bool)
    requires forall i :: 0 <= i < |s| ==> f(s[i])
    ensures Filter(s, f) == s
    decreases |s|
  {
    if |s| > 0 {
      FilterKeepsAll(s[1..], f);
    }
  }

  lemma {:induction false} FilterNone<T(!new)>(s: seq<T>, f: T -> bool)
    requires forall i :: 0 <= i < |s| ==> !f(s[i])
    ensures Filter(s, f) == []
    decreases |s|
  {
    if |s| > 0 {
      FilterNone(s[1..], f);
    }
  }

  /** No two elements of `s` share a key. */
  ghost predicate DistinctBy<T, K>(s: seq<T>, key: T -> K)
  {
    forall i, j :: 0 <= i < j < |s| ==> key(s[i]) != key(s[j])
  }

  /** Filtering keeps elements apart by a key. */
  lemma {:induction false} FilterDistinctBy<T(!new), K>(s: seq<T>, f: T -> bool, key: T -> K)
    requires DistinctBy(s, key)
    ensures DistinctBy(Filter(s, f), key)
    decreases |s|
  {
    if |s| > 0 {
      FilterDistinctBy(s[1..], f, key);
      var t := Filter(s[1..], f);
      var r := Filter(s, f);
      if f(s[0]) {
        forall j | 0 <= j < |t|
          ensures key(s[0]) != key(t[j])
        {
          assert t[j] in s[1..];
          var k :| 0 <= k < |s[1..]| && s[1..][k] == t[j];
          assert s[k + 1] == t[j];
        }
        assert r == [s[0]] + t;
        DistinctByCons(s[0], t, key);
      } else {
        assert r == t;
      }
    }
  }

  /** An element whose key no other element has can go in front. */
  lemma DistinctByCons<T, K>(x: T, t: seq<T>, key: T -> K)
    requires DistinctBy(t, key)
    requires forall j :: 0 <= j < |t| ==> key(x) != key(t[j])
    ensures DistinctBy([x] + t, key)
  {
    var r := [x] + t;
    forall a, b | 0 <= a < b < |r|
      ensures key(r[a]) != key(r[b])
    {
      assert r[b] == t[b - 1];
      if a > 0 {
        assert r[a] == t[a - 1];
      }
    }
  }

  lemma FilterAppend<T(!new)>(s: seq<T>, x: T, f: T -> bool)
    ensures Filter(s + [x], f) == Filter(s, f) + (if f(x) then [x] else [])
    decreases |s|
  {
    if |s| > 0 {
      assert (s + [x])[1..] == s[1..] + [x];
      FilterAppend(s[1..], x, f);
    }
  }

  /** `findIndex(f)`: the position of the first element satisfying `f`, or -1
      when none does. */
  function FindIndex<T>(s: seq<T>, f: T -> bool): (i: int)
    ensures -1 <= i < |s|
    ensures i >= 0 ==> f(s[i]) && forall j :: 0 <= j < i ==> !f(s[j])
    ensures i == -1 <==> forall j :: 0 <= j < |s| ==> !f(s[j])
    decreases |s|
  {
    if |s| == 0 then -1
    else if f(s[0]) then 0
    else
      var t := FindIndex(s[1..], f);
      assert forall j :: 1 <= j < |s| ==> s[j] == s[1..][j - 1];
      if t == -1 then -1 else t + 1
  }

  /** `s.slice(0, n)` for a non-negative `n`. */
  function Take<T>(s: seq<T>, n: nat): (r: seq<T>)
    ensures |r| <= n && |r| <= |s|
    ensures |r| == n || |r| == |s|
    ensures r == s[..|r|]
  {
    if n <= |s| then s[..n] else s
  }

  /** The index `Array.prototype.slice` derives from a relative position:
      negative positions count from the end, and the result is clamped to [0, len]. */
  function SliceBound(len: nat, rel: int): (k: nat)
    ensures k <= len
    ensures 0 <= rel ==> k == (if rel <= len then rel else len)
    ensures rel < 0 ==> k == (if len + rel >= 0 then len + rel else 0)
  {
    if rel < 0 then (if len + rel >= 0 then len + rel else 0)
    else if rel <= len then rel else len
  }

  /** `s.slice(start, end)` */
  function JsSlice<T>(s: seq<T>, start: int, end: int): (r: seq<T>)
    ensures |r| <= |s|
  {
    var lo := SliceBound(|s|, start);
    var hi := SliceBound(|s|, end);
    if lo <= hi then s[lo..hi] else []
  }

  /** `s.reduce((sum, x) => sum + f(x), 0)` */
  function SumOf<T>(s: seq<T>, f: T -> int): int
    decreases |s|
  {
    if |s| == 0 then 0 else SumOf(s[..|s| - 1], f) + f(s[|s| - 1])
  }

  lemma SumOfAppend<T>(s: seq<T>, x: T, f: T -> int)
    ensures SumOf(s + [x], f) == SumOf(s, f) + f(x)
  {
    assert (s + [x])[..|s|] == s;
  }

  lemma {:induction false} SumOfConcat<T>(a: seq<T>, b: seq<T>, f: T -> int)
    ensures SumOf(a + b, f) == SumOf(a, f) + SumOf(b, f)
    decreases |b|
  {
    if |b| > 0 {
      var b' := b[..|b| - 1];
      assert a + b == (a + b') + [b[|b| - 1]];
      SumOfConcat(a, b', f);
      SumOfAppend(a + b', b[|b| - 1], f);
    } else {
      assert a + b == a;
    }
  }

  /** Replacing one element changes the sum by the difference of the two terms. */
  lemma {:induction false} SumOfUpdate<T>(s: seq<T>, i: nat, x: T, f: T -> int)
    requires i < |s|
    ensures SumOf(s[i := x], f) == SumOf(s, f) - f(s[i]) + f(x)
  {
    assert s == s[..i] + [s[i]] + s[i + 1..];
    assert s[i := x] == s[..i] + [x] + s[i + 1..];
    SumOfConcat(s[..i] + [s[i]], s[i + 1..], f);
    SumOfConcat(s[..i] + [x], s[i + 1..], f);
    SumOfAppend(s[..i], s[i], f);
    SumOfAppend(s[..i], x, f);
  }

  /** Position of the first occurrence of `x`. */
  function FirstIndex<T(==)>(s: seq<T>, x: T): (i: nat)
    requires x in s
    ensures i < |s| && s[i] == x
    ensures x !in s[..i]
    decreases |s|
  {
    if s[0] == x then 0 else 1 + FirstIndex(s[1..], x)
  }

  lemma FirstIndexPrefix<T>(s: seq<T>, n: nat, x: T)
    requires n <= |s|
    requires x in s[..n]
    ensures FirstIndex(s[..n], x) == FirstIndex(s, x)
  {
    var i := FirstIndex(s, x);
    var j := FirstIndex(s[..n], x);
    assert s[..n][..j] == s[..j];
  }

  /** `x` first appears in `s` before `y` does. */
  predicate FirstBefore<T(==)>(s: seq<T>, x: T, y: T)
  {
    x in s && y in s && FirstIndex(s, x) < FirstIndex(s, y)
  }

  /** `Array.from(new Set(s))`: each distinct element once, in order of first
      appearance (the iteration order of a JavaScript Set is insertion order). */
  function Dedup<T(==)>(s: seq<T>): (r: seq<T>)
    ensures forall i :: 0 <= i < |r| ==> r[i] in s
    ensures forall i :: 0 <= i < |s| ==> s[i] in r
    ensures forall a, b :: 0 <= a < b < |r| ==> r[a] != r[b]
    ensures forall a, b :: 0 <= a < b < |r| ==> FirstBefore(s, r[a], r[b])
    decreases |s|
  {
    if |s| == 0 then
      []
    else
      var init := s[..|s| - 1];
      var last := s[|s| - 1];
      var r := Dedup(init);
      assert s == init + [last];
      forall x | x in r
        ensures FirstIndex(s, x) == FirstIndex(init, x) < |s| - 1
      {
        FirstIndexPrefix(s, |s| - 1, x);
      }
      if last in r then
        r
      else
        assert FirstIndex(s, last) == |s| - 1;
        r + [last]
  }
}
