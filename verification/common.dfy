/**
 * Shared vocabulary: optional values, results, and the array operations the
 * TypeScript code leans on (`filter`, `find`, `pop`, `some`, `flatMap`, and the
 * stable `sort` of ES2019), stated once and used by every other module.
 */
module Common {

  /** `undefined` versus a present value. */
  datatype Option<+T> = None | Some(value: T) {
    /** The `??` operator: the value when present, else the default. */
    function GetOr(default: T): T {
      match this
      case Some(v) => v
      case None => default
    }
  }

  /** A value or an error, for operations whose source throws or rejects. */
  datatype Result<+T, +E> = Ok(value: T) | Err(error: E)

  /** `xs.filter(p)`: the elements satisfying `p`, in their original order. */
  function Filter<T>(s: seq<T>, p: T -> bool): (r: seq<T>)
    ensures |r| <= |s|
    ensures forall i :: 0 <= i < |r| ==> p(r[i])
    ensures forall x :: x in r ==> x in s
    ensures forall x :: x in s && p(x) ==> x in r
  {
    if s == [] then []
    else if p(s[0]) then [s[0]] + Filter(s[1..], p)
    else Filter(s[1..], p)
  }

  /** `xs.find(p)`: the first element satisfying `p`, if any. */
  function Find<T>(s: seq<T>, p: T -> bool): (r: Option<T>)
    ensures r.None? <==> forall i :: 0 <= i < |s| ==> !p(s[i])
    ensures r.Some? ==> exists i :: IsFirst(s, p, i) && s[i] == r.value
  {
    if s == [] then None
    else if p(s[0]) then (assert IsFirst(s, p, 0); Some(s[0]))
    else
      var r := Find(s[1..], p);
      assert forall i :: IsFirst(s[1..], p, i) ==> IsFirst(s, p, i + 1);
      r
  }

  /** `find` over a sequence with a match ignores what is appended. */
  lemma FindPrefixStable<T>(s: seq<T>, t: seq<T>, p: T -> bool)
    requires Find(s, p).Some?
    ensures Find(s + t, p) == Find(s, p)
  {
    var i :| IsFirst(s, p, i) && s[i] == Find(s, p).value;
    assert IsFirst(s + t, p, i);
    assert p((s + t)[i]);
    var j :| IsFirst(s + t, p, j) && (s + t)[j] == Find(s + t, p).value;
    IsFirstUnique(s + t, p, i, j);
  }

  /** `find` returns the head of the matching elements. */
  lemma {:induction false} FindIsHeadOfFilter<T>(s: seq<T>, p: T -> bool)
    requires Filter(s, p) != []
    ensures Find(s, p) == Some(Filter(s, p)[0])
  {
    if !p(s[0]) {
      FindIsHeadOfFilter(s[1..], p);
    }
  }

  /** A filter no element passes leaves nothing. */
  lemma {:induction false} FilterNone<T>(s: seq<T>, p: T -> bool)
    requires forall i :: 0 <= i < |s| ==> !p(s[i])
    ensures Filter(s, p) == []
  {
    if s != [] {
      FilterNone(s[1..], p);
    }
  }

  /** Filtering by `q` before a stronger `p` changes nothing. */
  lemma {:induction false} FilterNarrow<T>(s: seq<T>, q: T -> bool, p: T -> bool)
    requires forall i :: 0 <= i < |s| && p(s[i]) ==> q(s[i])
    ensures Filter(Filter(s, q), p) == Filter(s, p)
  {
    if s != [] {
      FilterNarrow(s[1..], q, p);
    }
  }

  /** Filtering twice by the same predicate is filtering once. */
  lemma FilterTwice<T>(s: seq<T>, p: T -> bool)
    ensures Filter(Filter(s, p), p) == Filter(s, p)
  {
    var f := Filter(s, p);
    FilterAll(f, p);
  }

  /**
   * A `for` loop over `s` from index `from` on whose body awaits a step that
   * may reject: the results in order, or the first rejection.
   */
  function MapUntilError<T, U, E>(s: seq<T>, f: (nat, T) -> Result<U, E>, from: nat): (r: Result<seq<U>, E>)
    requires from <= |s|
    ensures r.Err? <==> exists k :: from <= k < |s| && f(k, s[k]).Err?
    ensures r.Err? ==> exists k :: from <= k < |s| && f(k, s[k]).Err? && r.error == f(k, s[k]).error
                                   && forall k' :: from <= k' < k ==> f(k', s[k']).Ok?
    ensures r.Ok? ==> |r.value| == |s| - from
    ensures r.Ok? ==> forall k :: 0 <= k < |r.value| ==> f(from + k, s[from + k]).Ok? && r.value[k] == f(from + k, s[from + k]).value
    decreases |s| - from
  {
    if from == |s| then Ok([])
    else
      match f(from, s[from])
      case Err(e) => Err(e)
      case Ok(x) =>
        match MapUntilError(s, f, from + 1)
        case Err(e) => Err(e)
        case Ok(rest) =>
          assert forall k :: 1 <= k < |rest| + 1 ==> ([x] + rest)[k] == rest[k - 1];
          Ok([x] + rest)
  }

  /** `xs.pop()` on a copy: the last element, if any. */
  function Last<T>(s: seq<T>): (r: Option<T>)
    ensures r.None? <==> s == []
    ensures r.Some? ==> r.value == s[|s| - 1]
  {
    if s == [] then None else Some(s[|s| - 1])
  }

  /** Some element passes the filter exactly when the filter keeps one. */
  lemma FilterOfAnyIsNonEmpty<T>(s: seq<T>, p: T -> bool)
    requires exists i :: 0 <= i < |s| && p(s[i])
    ensures Filter(s, p) != []
  {
    var i :| 0 <= i < |s| && p(s[i]);
    assert s[i] in Filter(s, p);
  }

  /** The last element of a concatenation with a non-empty tail is the tail's. */
  lemma LastOfAppend<T>(a: seq<T>, b: seq<T>)
    requires b != []
    ensures Last(a + b) == Last(b)
  {
  }

  /** `xs.some(p)`. */
  predicate Any<T>(s: seq<T>, p: T -> bool) {
    exists i :: 0 <= i < |s| && p(s[i])
  }

  /** Index `i` holds the first element of `s` satisfying `p`. */
  ghost predicate IsFirst<T>(s: seq<T>, p: T -> bool, i: int) {
    0 <= i < |s| && p(s[i]) && forall j :: 0 <= j < i ==> !p(s[j])
  }

  lemma IsFirstUnique<T>(s: seq<T>, p: T -> bool, i: int, j: int)
    requires IsFirst(s, p, i) && IsFirst(s, p, j)
    ensures i == j
  {
  }

  lemma IsLastUnique<T>(s: seq<T>, p: T -> bool, i: int, j: int)
    requires IsLast(s, p, i) && IsLast(s, p, j)
    ensures i == j
  {
  }

  /** Index `i` holds the last element of `s` satisfying `p`. */
  ghost predicate IsLast<T>(s: seq<T>, p: T -> bool, i: int) {
    0 <= i < |s| && p(s[i]) && forall j :: i < j < |s| ==> !p(s[j])
  }

  /**
   * `r` is a subsequence of `s` picked at the strictly increasing positions
   * `f`: `r[k] == s[f[k]]` for every `k`.
   */
  ghost predicate Embeds<T>(r: seq<T>, s: seq<T>, f: seq<int>) {
    && |f| == |r|
    && (forall a, b :: 0 <= a < b < |f| ==> f[a] < f[b])
    && (forall k :: 0 <= k < |f| ==> 0 <= f[k] < |s| && r[k] == s[f[k]])
  }

  /** An embedding into the tail of `s` shifts to one into `s`, optionally using the head. */
  lemma EmbedsShift<T>(r: seq<T>, s: seq<T>, g: seq<int>, takeHead: bool) returns (f: seq<int>)
    requires s != [] && Embeds(r, s[1..], g)
    ensures takeHead ==> Embeds([s[0]] + r, s, f)
    ensures !takeHead ==> Embeds(r, s, f)
  {
    var shifted := seq(|g|, k requires 0 <= k < |g| => g[k] + 1);
    forall k | 0 <= k < |g| ensures r[k] == s[shifted[k]] {
      assert s[1..][g[k]] == s[g[k] + 1];
    }
    if takeHead {
      f := [0] + shifted;
      var r' := [s[0]] + r;
      forall k | 1 <= k < |f| ensures f[k] == shifted[k - 1] && r'[k] == r[k - 1] {
      }
    } else {
      f := shifted;
    }
  }

  /**
   * `filter` keeps order: `Filter(s, p)` is a subsequence of `s`, its
   * elements sitting at strictly increasing positions `f` of `s`.
   */
  lemma {:induction false} FilterIndices<T>(s: seq<T>, p: T -> bool) returns (f: seq<int>)
    ensures |f| == |Filter(s, p)|
    ensures forall a, b :: 0 <= a < b < |f| ==> f[a] < f[b]
    ensures forall k :: 0 <= k < |f| ==> 0 <= f[k] < |s| && Filter(s, p)[k] == s[f[k]]
  {
    if s == [] {
      return [];
    }
    var g := FilterIndices(s[1..], p);
    f := EmbedsShift(Filter(s[1..], p), s, g, p(s[0]));
  }

  /** No element occurs twice. */
  ghost predicate Distinct<T>(s: seq<T>) {
    forall i, j :: 0 <= i < j < |s| ==> s[i] != s[j]
  }

  /** Filtering a sequence without repeats gives one without repeats. */
  lemma FilterDistinct<T>(s: seq<T>, p: T -> bool)
    requires Distinct(s)
    ensures Distinct(Filter(s, p))
  {
    var f := FilterIndices(s, p);
    var r := Filter(s, p);
    forall i, j | 0 <= i < j < |r| ensures r[i] != r[j] {
      assert f[i] < f[j];
    }
  }

  /** A sequence without repeats has as many elements as the set of its elements. */
  lemma {:induction false} DistinctCardinality<T>(s: seq<T>)
    requires Distinct(s)
    ensures |set x | x in s| == |s|
  {
    if s != [] {
      var t := s[1..];
      assert Distinct(t) by {
        forall i, j | 0 <= i < j < |t| ensures t[i] != t[j] {
          assert t[i] == s[i + 1] && t[j] == s[j + 1];
        }
      }
      DistinctCardinality(t);
      assert (set x | x in s) == {s[0]} + (set x | x in t);
      assert s[0] !in (set x | x in t);
    }
  }

  lemma {:induction false} FilterAppend<T>(s: seq<T>, t: seq<T>, p: T -> bool)
    ensures Filter(s + t, p) == Filter(s, p) + Filter(t, p)
  {
    if s == [] {
      assert s + t == t;
    } else {
      assert (s + t)[1..] == s[1..] + t;
      FilterAppend(s[1..], t, p);
    }
  }

  /** Filtering keeps exactly the copies of the elements that satisfy `p`. */
  lemma {:induction false} FilterMultiset<T>(s: seq<T>, p: T -> bool, x: T)
    ensures multiset(Filter(s, p))[x] == if p(x) then multiset(s)[x] else 0
  {
    if s != [] {
      var t := s[1..];
      FilterMultiset(t, p, x);
      assert s == [s[0]] + t;
      assert multiset(s) == multiset{s[0]} + multiset(t);
      if p(s[0]) {
        assert multiset(Filter(s, p)) == multiset{s[0]} + multiset(Filter(t, p));
      }
    }
  }

  /** Filtering commutes with permutation. */
  lemma FilterPermutation<T>(s: seq<T>, t: seq<T>, p: T -> bool)
    requires multiset(s) == multiset(t)
    ensures multiset(Filter(s, p)) == multiset(Filter(t, p))
  {
    forall x ensures multiset(Filter(s, p))[x] == multiset(Filter(t, p))[x] {
      FilterMultiset(s, p, x);
      FilterMultiset(t, p, x);
    }
  }

  /** A filter whose predicate every element meets changes nothing. */
  lemma {:induction false} FilterAll<T>(s: seq<T>, p: T -> bool)
    requires forall i :: 0 <= i < |s| ==> p(s[i])
    ensures Filter(s, p) == s
  {
    if s != [] {
      FilterAll(s[1..], p);
    }
  }

  /** The last element of `Filter(s, p)` is the last element of `s` satisfying `p`. */
  lemma {:induction false} LastOfFilter<T>(s: seq<T>, p: T -> bool)
    ensures Last(Filter(s, p)).None? <==> forall i :: 0 <= i < |s| ==> !p(s[i])
    ensures Last(Filter(s, p)).Some? ==>
              exists i :: IsLast(s, p, i) && s[i] == Last(Filter(s, p)).value
  {
    if s != [] {
      var init := s[..|s| - 1];
      var x := s[|s| - 1];
      assert s == init + [x];
      FilterAppend(init, [x], p);
      LastOfFilter(init, p);
      if p(x) {
        assert Filter([x], p) == [x];
        assert IsLast(s, p, |s| - 1);
      } else {
        assert Filter([x], p) == [];
        assert Filter(s, p) == Filter(init, p);
        if Last(Filter(init, p)).Some? {
          var i :| IsLast(init, p, i) && init[i] == Last(Filter(init, p)).value;
          assert IsLast(s, p, i);
        }
      }
    }
  }

  /** `s` is ordered by `key`, largest first. */
  ghost predicate SortedDesc<T>(s: seq<T>, key: T -> int) {
    forall i, j :: 0 <= i < j < |s| ==> key(s[i]) >= key(s[j])
  }

  /**
   * Places `x` in front of the first element whose key is not larger, so that
   * `x` precedes every element of `s` with an equal key.
   */
  function InsertDesc<T>(x: T, s: seq<T>, key: T -> int): (r: seq<T>)
    requires SortedDesc(s, key)
    ensures SortedDesc(r, key)
    ensures multiset(r) == multiset(s) + multiset{x}
    ensures |r| == |s| + 1
    ensures r[0] == x || (|s| > 0 && r[0] == s[0])
  {
    if s == [] || key(s[0]) <= key(x) then [x] + s
    else
      var rest := InsertDesc(x, s[1..], key);
      InsertBehindHead(x, s, key, rest);
      [s[0]] + rest
  }

  /** Putting the head of `s` back in front of the insertion into its tail keeps the order. */
  lemma InsertBehindHead<T>(x: T, s: seq<T>, key: T -> int, rest: seq<T>)
    requires s != [] && SortedDesc(s, key) && key(x) < key(s[0])
    requires SortedDesc(rest, key) && multiset(rest) == multiset(s[1..]) + multiset{x}
    ensures SortedDesc([s[0]] + rest, key)
    ensures multiset([s[0]] + rest) == multiset(s) + multiset{x}
  {
    var r := [s[0]] + rest;
    assert s == [s[0]] + s[1..];
    forall j | 0 < j < |r| ensures key(r[0]) >= key(r[j]) {
      assert r[j] == rest[j - 1];
      assert rest[j - 1] in multiset(s[1..]) + multiset{x};
      if rest[j - 1] != x {
        assert rest[j - 1] in s[1..];
      }
    }
    assert forall i, j :: 0 < i < j < |r| ==> r[i] == rest[i - 1] && r[j] == rest[j - 1];
  }

  /**
   * `xs.sort((a, b) => key(b) - key(a))`: a stable sort, largest key first.
   * Elements with equal keys keep their relative order.
   */
  function SortDesc<T>(s: seq<T>, key: T -> int): (r: seq<T>)
    ensures SortedDesc(r, key)
    ensures multiset(r) == multiset(s)
    ensures |r| == |s|
  {
    if s == [] then []
    else
      assert s == [s[0]] + s[1..];
      InsertDesc(s[0], SortDesc(s[1..], key), key)
  }

  /** A sort leaves an already sorted sequence as it is. */
  lemma {:induction false} SortDescOfSorted<T>(s: seq<T>, key: T -> int)
    requires SortedDesc(s, key)
    ensures SortDesc(s, key) == s
  {
    if s != [] {
      SortDescOfSorted(s[1..], key);
    }
  }

  /** An element whose key is at least every other key comes out first. */
  lemma {:induction false} SortDescPutsMaxFirst<T>(x: T, s: seq<T>, key: T -> int)
    requires forall i :: 0 <= i < |s| ==> key(s[i]) <= key(x)
    ensures SortDesc([x] + s, key)[0] == x
  {
    assert ([x] + s)[1..] == s;
    var sorted := SortDesc(s, key);
    if sorted != [] {
      assert sorted[0] in multiset(s);
    }
  }
}
