/**
 * Sequence facts shared by the genetic operators: distinctness, filtering
 * out a segment, subsequences, flattening and permutations (as multisets).
 */
module Sequences {

  /** No element occurs twice. */
  ghost predicate Distinct<T>(s: seq<T>) {
    forall i, j :: 0 <= i < j < |s| ==> s[i] != s[j]
  }

  /** `a` is `b` with some elements left out, order kept. */
  ghost predicate IsSubsequence<T>(a: seq<T>, b: seq<T>)
    decreases |b|
  {
    if b == [] then a == []
    else (a != [] && a[0] == b[0] && IsSubsequence(a[1..], b[1..])) || IsSubsequence(a, b[1..])
  }

  /** The elements of `s` that do not occur in `segment`, in the order of `s`. */
  function Without<T(==)>(s: seq<T>, segment: seq<T>): (r: seq<T>)
    ensures |r| <= |s|
  {
    if s == [] then []
    else if s[0] in segment then Without(s[1..], segment)
    else [s[0]] + Without(s[1..], segment)
  }

  /** Python's slice `s[lo:hi]` for non-negative bounds: both are clamped to `|s|`. */
  function Slice<T>(s: seq<T>, lo: nat, hi: nat): (r: seq<T>)
    requires lo <= hi
    ensures hi <= |s| ==> r == s[lo..hi]
    ensures |r| == if lo <= |s| then (if hi <= |s| then hi else |s|) - lo else 0
    ensures forall k :: 0 <= k < |r| ==> lo + k < |s| && r[k] == s[lo + k]
  {
    if hi <= |s| then s[lo..hi] else if lo <= |s| then s[lo..] else []
  }

  /** The concatenation of all the sequences in `ss`. */
  function Flatten<T>(ss: seq<seq<T>>): seq<T> {
    if ss == [] then [] else Flatten(ss[..|ss| - 1]) + ss[|ss| - 1]
  }

  /** The pairs of `pairs`, laid out one after the other: `[a0, b0, a1, b1, ...]`. */
  function Unpair<T>(pairs: seq<(T, T)>): (r: seq<T>)
    ensures |r| == 2 * |pairs|
  {
    if pairs == [] then [] else
      var last := pairs[|pairs| - 1];
      Unpair(pairs[..|pairs| - 1]) + [last.0, last.1]
  }

  /** Pair `k` lands at positions `2k` and `2k + 1`. */
  lemma {:induction false} UnpairAt<T>(pairs: seq<(T, T)>, k: nat)
    requires k < |pairs|
    ensures Unpair(pairs)[2 * k] == pairs[k].0 && Unpair(pairs)[2 * k + 1] == pairs[k].1
  {
    if k < |pairs| - 1 {
      UnpairAt(pairs[..|pairs| - 1], k);
    }
  }

  /** If both halves of every pair are permutations of `whole`, so is every element of the layout. */
  lemma UnpairPermutations<T>(pairs: seq<(seq<T>, seq<T>)>, whole: seq<T>)
    requires forall j :: 0 <= j < |pairs| ==>
      multiset(pairs[j].0) == multiset(whole) && multiset(pairs[j].1) == multiset(whole)
    ensures forall k :: 0 <= k < |Unpair(pairs)| ==> multiset(Unpair(pairs)[k]) == multiset(whole)
  {
    forall k | 0 <= k < |Unpair(pairs)| ensures multiset(Unpair(pairs)[k]) == multiset(whole) {
      var j := k / 2;
      UnpairAt(pairs, j);
      assert k == 2 * j || k == 2 * j + 1;
    }
  }

  /** Laying out one more pair extends the layout by that pair. */
  lemma UnpairSnoc<T>(start: seq<T>, pairs: seq<(T, T)>, n: nat, a: T, b: T)
    requires n < |pairs| && pairs[n] == (a, b)
    ensures start + Unpair(pairs[..n]) + [a, b] == start + Unpair(pairs[..n + 1])
  {
    assert pairs[..n + 1][..n] == pairs[..n];
  }

  lemma FlattenAppend<T>(ss: seq<seq<T>>, s: seq<T>)
    ensures Flatten(ss + [s]) == Flatten(ss) + s
  {
    assert (ss + [s])[..|ss|] == ss;
  }

  lemma {:induction false} FlattenCons<T>(s: seq<T>, ss: seq<seq<T>>)
    ensures Flatten([s] + ss) == s + Flatten(ss)
    decreases |ss|
  {
    if ss == [] {
      assert [s][..0] == [];
    } else {
      var init := ss[..|ss| - 1];
      FlattenCons(s, init);
      assert ([s] + ss)[..|ss|] == [s] + init;
    }
  }

  lemma {:induction false} WithoutIsSubsequence<T>(s: seq<T>, segment: seq<T>)
    ensures IsSubsequence(Without(s, segment), s)
  {
    if s != [] {
      WithoutIsSubsequence(s[1..], segment);
      if s[0] !in segment {
        assert ([s[0]] + Without(s[1..], segment))[1..] == Without(s[1..], segment);
      }
    }
  }

  lemma {:induction false} WithoutDistinct<T>(s: seq<T>, segment: seq<T>)
    requires Distinct(s)
    ensures Distinct(Without(s, segment))
  {
    if s != [] {
      assert Distinct(s[1..]) by {
        forall i, j | 0 <= i < j < |s[1..]| ensures s[1..][i] != s[1..][j] {
          assert s[1..][i] == s[i + 1] && s[1..][j] == s[j + 1];
        }
      }
      WithoutDistinct(s[1..], segment);
      WithoutElements(s[1..], segment);
      if s[0] !in segment {
        var rest := Without(s[1..], segment);
        assert s[0] !in rest by {
          forall k | 0 <= k < |s[1..]| ensures s[1..][k] != s[0] {
            assert s[1..][k] == s[k + 1];
          }
        }
        DistinctCons(s[0], rest);
      }
    }
  }

  /** Each kept element comes from `s` and not from `segment`; each element of `s` outside `segment` is kept. */
  lemma {:induction false} WithoutElements<T>(s: seq<T>, segment: seq<T>)
    ensures var r := Without(s, segment);
      && (forall k :: 0 <= k < |r| ==> r[k] in s && r[k] !in segment)
      && (forall k :: 0 <= k < |s| && s[k] !in segment ==> s[k] in r)
  {
    if s != [] {
      WithoutElements(s[1..], segment);
      var r, rest := Without(s, segment), Without(s[1..], segment);
      forall k | 0 <= k < |r| ensures r[k] in s && r[k] !in segment {
        if s[0] in segment {
          assert r[k] == rest[k];
        } else if k > 0 {
          assert r[k] == rest[k - 1];
        }
      }
      forall k | 0 <= k < |s| && s[k] !in segment ensures s[k] in r {
        if k > 0 {
          assert s[k] == s[1..][k - 1];
        }
      }
    }
  }

  /** Membership in the filtered sequence, element-wise. */
  lemma WithoutMembers<T>(s: seq<T>, segment: seq<T>)
    ensures forall x :: x in Without(s, segment) <==> x in s && x !in segment
  {
    WithoutElements(s, segment);
    var r := Without(s, segment);
    forall x | x in r ensures x in s && x !in segment {
      var k :| 0 <= k < |r| && r[k] == x;
    }
    forall x | x in s && x !in segment ensures x in r {
      var k :| 0 <= k < |s| && s[k] == x;
    }
  }

  lemma DistinctCons<T>(x: T, s: seq<T>)
    requires x !in s && Distinct(s)
    ensures Distinct([x] + s)
  {
    forall i, j | 0 <= i < j < |[x] + s| ensures ([x] + s)[i] != ([x] + s)[j] {
      if i > 0 {
        assert ([x] + s)[i] == s[i - 1] && ([x] + s)[j] == s[j - 1];
      } else {
        assert ([x] + s)[j] == s[j - 1];
      }
    }
  }

  lemma DistinctConcat<T>(a: seq<T>, b: seq<T>)
    requires Distinct(a) && Distinct(b)
    requires forall x :: x in a ==> x !in b
    ensures Distinct(a + b)
  {
    forall i, j | 0 <= i < j < |a + b| ensures (a + b)[i] != (a + b)[j] {
      if j < |a| {
        assert (a + b)[i] == a[i] && (a + b)[j] == a[j];
      } else if i < |a| {
        assert (a + b)[i] == a[i] && (a + b)[j] == b[j - |a|];
        assert a[i] in a;
      } else {
        assert (a + b)[i] == b[i - |a|] && (a + b)[j] == b[j - |a|];
      }
    }
  }

  lemma DistinctSlice<T>(s: seq<T>, lo: nat, hi: nat)
    requires lo <= hi <= |s| && Distinct(s)
    ensures Distinct(s[lo..hi])
  {
    forall i, j | 0 <= i < j < hi - lo ensures s[lo..hi][i] != s[lo..hi][j] {
      assert s[lo..hi][i] == s[lo + i] && s[lo..hi][j] == s[lo + j];
    }
  }

  /** In a sequence without repetitions every element is counted once. */
  lemma {:induction false} DistinctCount<T>(s: seq<T>, x: T)
    requires Distinct(s)
    ensures multiset(s)[x] == if x in s then 1 else 0
  {
    if s != [] {
      assert s == [s[0]] + s[1..];
      assert Distinct(s[1..]) by {
        forall i, j | 0 <= i < j < |s[1..]| ensures s[1..][i] != s[1..][j] {
          assert s[1..][i] == s[i + 1] && s[1..][j] == s[j + 1];
        }
      }
      assert s[0] !in s[1..] by {
        forall k | 0 <= k < |s[1..]| ensures s[1..][k] != s[0] {
          assert s[1..][k] == s[k + 1];
        }
      }
      DistinctCount(s[1..], x);
    }
  }

  lemma RepeatedCount<T>(s: seq<T>, i: nat, j: nat)
    requires i < j < |s|
    ensures s[i] == s[j] ==> multiset(s)[s[j]] >= 2
  {
    assert s == s[..j] + [s[j]] + s[j + 1..];
    assert s[i] == s[..j][i];
    assert multiset(s) == multiset(s[..j]) + multiset{s[j]} + multiset(s[j + 1..]);
  }

  /** A rearrangement of a sequence without repetitions has none either. */
  lemma PermutationDistinct<T>(a: seq<T>, b: seq<T>)
    requires multiset(a) == multiset(b) && Distinct(b)
    ensures Distinct(a)
  {
    forall i, j | 0 <= i < j < |a| ensures a[i] != a[j] {
      RepeatedCount(a, i, j);
      DistinctCount(b, a[j]);
    }
  }

  /** Two sequences without repetitions that hold the same elements are permutations of each other. */
  lemma SameElementsPermutation<T>(a: seq<T>, b: seq<T>)
    requires Distinct(a) && Distinct(b)
    requires forall x :: x in a <==> x in b
    ensures multiset(a) == multiset(b)
  {
    forall x ensures multiset(a)[x] == multiset(b)[x] {
      DistinctCount(a, x);
      DistinctCount(b, x);
    }
  }

  /** Mapping each element through `f` keeps permutations permutations. */
  lemma {:induction false} MapPermutation<T, U>(f: T -> U, a: seq<T>, b: seq<T>)
    requires multiset(a) == multiset(b)
    ensures multiset(Map(f, a)) == multiset(Map(f, b))
    decreases |a|
  {
    if a != [] {
      var k := PermutationRemove(a, b);
      var b' := b[..k] + b[k + 1..];
      assert b == b[..k] + [b[k]] + b[k + 1..];
      assert a == [a[0]] + a[1..];
      MapPermutation(f, a[1..], b');
      MapConcat(f, b[..k] + [b[k]], b[k + 1..]);
      MapConcat(f, b[..k], [b[k]]);
      MapConcat(f, b[..k], b[k + 1..]);
      MapConcat(f, [a[0]], a[1..]);
    }
  }

  /** The first element of `a` sits somewhere in its permutation `b`; the rests are permutations. */
  lemma PermutationRemove<T>(a: seq<T>, b: seq<T>) returns (k: nat)
    requires a != [] && multiset(a) == multiset(b)
    ensures k < |b| && b[k] == a[0] && multiset(a[1..]) == multiset(b[..k] + b[k + 1..])
  {
    assert a[0] in multiset(b);
    k :| 0 <= k < |b| && b[k] == a[0];
    var rest := b[..k] + b[k + 1..];
    assert b == b[..k] + [b[k]] + b[k + 1..];
    assert a == [a[0]] + a[1..];
    assert multiset(a) == multiset{a[0]} + multiset(a[1..]);
    assert multiset(b) == multiset(b[..k]) + multiset{b[k]} + multiset(b[k + 1..]);
    assert multiset(rest) == multiset(b[..k]) + multiset(b[k + 1..]);
    assert multiset(a[1..]) == multiset(a) - multiset{a[0]};
    assert multiset(rest) == multiset(b) - multiset{b[k]};
  }

  /** `f` applied to every element. */
  function Map<T, U>(f: T -> U, s: seq<T>): (r: seq<U>)
    ensures |r| == |s| && forall k :: 0 <= k < |s| ==> r[k] == f(s[k])
  {
    seq(|s|, k requires 0 <= k < |s| => f(s[k]))
  }

  lemma MapConcat<T, U>(f: T -> U, a: seq<T>, b: seq<T>)
    ensures Map(f, a + b) == Map(f, a) + Map(f, b)
  {
  }

  lemma {:induction false} MapFlatten<T, U>(f: T -> U, ss: seq<seq<T>>)
    ensures Flatten(seq(|ss|, k requires 0 <= k < |ss| => Map(f, ss[k]))) == Map(f, Flatten(ss))
  {
    var mapped := seq(|ss|, k requires 0 <= k < |ss| => Map(f, ss[k]));
    if ss != [] {
      var init := ss[..|ss| - 1];
      MapFlatten(f, init);
      assert mapped[..|ss| - 1] == seq(|init|, k requires 0 <= k < |init| => Map(f, init[k]));
      MapConcat(f, Flatten(init), ss[|ss| - 1]);
    }
  }
}
