/** Generic facts about sequences, multisets and sets used throughout the model:
    duplicate-freedom, the index range 0..n, flattening, and picking elements by index. */
module Sequences {

  /** A value that may be missing, as Rust's `Option`. */
  datatype Option<T> = None | Some(value: T)

  /** No value occurs twice in `s`. */
  predicate Distinct<T(==)>(s: seq<T>) {
    forall i, j :: 0 <= i < j < |s| ==> s[i] != s[j]
  }

  /** The sequence [lo, lo+1, ..., hi-1]. */
  function Range(lo: nat, hi: nat): (r: seq<nat>)
    ensures |r| == if lo <= hi then hi - lo else 0
    ensures forall k :: 0 <= k < |r| ==> r[k] == lo + k
    decreases hi - lo
  {
    if lo >= hi then [] else [lo] + Range(lo + 1, hi)
  }

  /** `s` lists exactly the values 0..n-1, each once. */
  predicate IsTour(s: seq<nat>, n: nat) {
    multiset(s) == multiset(Range(0, n))
  }

  /** Concatenation of a sequence of sequences, in order. */
  function Flatten<T>(xss: seq<seq<T>>): (r: seq<T>)
  {
    if xss == [] then [] else xss[0] + Flatten(xss[1..])
  }

  /** The elements of `xs` at the positions listed in `idx`, in the order of `idx`. */
  function Pick<T>(xs: seq<T>, idx: seq<nat>): (r: seq<T>)
    requires forall k :: 0 <= k < |idx| ==> idx[k] < |xs|
    ensures |r| == |idx|
    ensures forall k :: 0 <= k < |idx| ==> r[k] == xs[idx[k]]
  {
    seq(|idx|, k requires 0 <= k < |idx| => xs[idx[k]])
  }

  lemma {:induction false} DistinctCounts<T>(s: seq<T>, v: T)
    requires Distinct(s)
    ensures multiset(s)[v] <= 1
  {
    if s != [] {
      assert s == [s[0]] + s[1..];
      assert Distinct(s[1..]);
      DistinctCounts(s[1..], v);
      if s[0] == v {
        assert v !in s[1..];
      }
    }
  }

  lemma CountsDistinct<T>(s: seq<T>)
    requires forall v :: multiset(s)[v] <= 1
    ensures Distinct(s)
  {
    forall i, j | 0 <= i < j < |s|
      ensures s[i] != s[j]
    {
      assert s == s[..j] + s[j..];
      assert s[i] in s[..j] && s[j] in s[j..];
      assert multiset(s) == multiset(s[..j]) + multiset(s[j..]);
      assert multiset(s[..j])[s[i]] >= 1 && multiset(s[j..])[s[j]] >= 1;
      assert multiset(s)[s[i]] <= 1 && multiset(s)[s[j]] <= 1;
    }
  }

  /** A sequence with the same multiset as a duplicate-free one is duplicate-free. */
  lemma SameMultisetDistinct<T>(s: seq<T>, t: seq<T>)
    requires Distinct(t) && multiset(s) == multiset(t)
    ensures Distinct(s) && |s| == |t|
  {
    forall v ensures multiset(s)[v] <= 1 {
      DistinctCounts(t, v);
    }
    CountsDistinct(s);
    assert |multiset(s)| == |multiset(t)|;
  }

  lemma {:induction false} RangeDistinct(lo: nat, hi: nat)
    ensures Distinct(Range(lo, hi))
  {
  }

  lemma {:induction false} RangeMembers(n: nat, v: nat)
    ensures v in multiset(Range(0, n)) <==> v < n
  {
    var r := Range(0, n);
    if v < n {
      assert r[v] == v;
    }
  }

  /** A tour of length n is duplicate-free, has length n and holds exactly 0..n-1. */
  lemma TourFacts(s: seq<nat>, n: nat)
    requires IsTour(s, n)
    ensures Distinct(s) && |s| == n
    ensures forall k :: 0 <= k < |s| ==> s[k] < n
  {
    RangeDistinct(0, n);
    SameMultisetDistinct(s, Range(0, n));
    forall k | 0 <= k < |s| ensures s[k] < n {
      assert s[k] in multiset(s);
      RangeMembers(n, s[k]);
    }
  }

  lemma {:induction false} FlattenLength<T>(xss: seq<seq<T>>, k: nat)
    requires forall i :: 0 <= i < |xss| ==> |xss[i]| == k
    ensures |Flatten(xss)| == |xss| * k
  {
    if xss != [] {
      FlattenLength(xss[1..], k);
      assert |Flatten(xss)| == k + (|xss| - 1) * k;
    }
  }

  /** In a flattening of pieces of length `w`, position `j` of piece `i` lands at `i * w + j`. */
  lemma {:induction false} FlattenAt<T>(xss: seq<seq<T>>, w: nat, i: nat, j: nat)
    requires forall k :: 0 <= k < |xss| ==> |xss[k]| == w
    requires i < |xss| && j < w
    ensures i * w + j < |Flatten(xss)| && Flatten(xss)[i * w + j] == xss[i][j]
  {
    FlattenLength(xss, w);
    if i > 0 {
      FlattenAt(xss[1..], w, i - 1, j);
      assert i * w + j == w + ((i - 1) * w + j);
    }
  }

  /** Position `j` of piece `i` sits at `i * w + j` of `flat`. */
  ghost predicate BlockAt<T>(flat: seq<T>, xss: seq<seq<T>>, w: nat, i: nat, j: nat)
    requires i < |xss| && j < |xss[i]|
  {
    i * w + j < |flat| && flat[i * w + j] == xss[i][j]
  }

  /** In a flattening of pieces of length `w`, every position `j` of every piece `i`
      lands at `i * w + j`. */
  lemma FlattenBlocks<T>(xss: seq<seq<T>>, w: nat)
    requires forall k :: 0 <= k < |xss| ==> |xss[k]| == w
    ensures forall i: nat, j: nat :: i < |xss| && j < w ==> BlockAt(Flatten(xss), xss, w, i, j)
  {
    forall i: nat, j: nat | i < |xss| && j < w
      ensures BlockAt(Flatten(xss), xss, w, i, j)
    {
      FlattenAt(xss, w, i, j);
    }
  }

  /** Every element of every piece is in the flattening. */
  lemma {:induction false} FlattenHas<T>(xss: seq<seq<T>>, i: nat, j: nat)
    requires i < |xss| && j < |xss[i]|
    ensures xss[i][j] in Flatten(xss)
  {
    if i > 0 {
      FlattenHas(xss[1..], i - 1, j);
    }
  }

  /** Every element of a flattening sits at some position of one of the pieces. */
  lemma {:induction false} FlattenMembers<T>(xss: seq<seq<T>>, c: T) returns (i: nat, j: nat)
    requires c in Flatten(xss)
    ensures i < |xss| && j < |xss[i]| && xss[i][j] == c
  {
    if c in xss[0] {
      j :| 0 <= j < |xss[0]| && xss[0][j] == c;
      i := 0;
    } else {
      var i', j' := FlattenMembers(xss[1..], c);
      i, j := i' + 1, j';
    }
  }

  /** The set of a sequence's values is no larger than the sequence. */
  lemma {:induction false} SetOfSeqCard<T>(s: seq<T>)
    ensures |(set x | x in s)| <= |s|
    ensures Distinct(s) ==> |(set x | x in s)| == |s|
  {
    if s != [] {
      var rest := set x | x in s[1..];
      SetOfSeqCard(s[1..]);
      assert (set x | x in s) == rest + {s[0]};
      if Distinct(s) {
        assert Distinct(s[1..]);
        assert s[0] !in rest;
      }
    }
  }

  /** Picking by a sequence of indexes splits along a split of the indexes. */
  lemma PickAppend<T>(xs: seq<T>, a: seq<nat>, b: seq<nat>)
    requires forall k :: 0 <= k < |a| ==> a[k] < |xs|
    requires forall k :: 0 <= k < |b| ==> b[k] < |xs|
    ensures Pick(xs, a + b) == Pick(xs, a) + Pick(xs, b)
  {
  }

  lemma PrefixMultiset<T>(xs: seq<T>, k: nat)
    requires 0 < k <= |xs|
    ensures multiset(xs[..k]) == multiset(xs[..k - 1]) + multiset{xs[k - 1]}
  {
    assert xs[..k] == xs[..k - 1] + [xs[k - 1]];
  }

  /** The lists `f(0)`, ..., `f(count - 1)`, one after another. */
  function ConcatUpTo<T>(f: nat -> seq<T>, count: nat): seq<T> {
    if count == 0 then [] else ConcatUpTo(f, count - 1) + f(count - 1)
  }

  /** A value is in the concatenation exactly when one of the lists holds it. */
  lemma {:induction false} ConcatUpToMembers<T>(f: nat -> seq<T>, count: nat, x: T)
    ensures x in ConcatUpTo(f, count) <==> exists j :: 0 <= j < count && x in f(j)
  {
    if count > 0 {
      ConcatUpToMembers(f, count - 1, x);
      if x in f(count - 1) {
        assert 0 <= count - 1 < count;
      }
    }
  }

  /** Lists of at most `k` values concatenate to at most `count * k` values. */
  lemma {:induction false} ConcatUpToLength<T>(f: nat -> seq<T>, count: nat, k: nat)
    requires forall j :: |f(j)| <= k
    ensures |ConcatUpTo(f, count)| <= count * k
  {
    if count > 0 {
      ConcatUpToLength(f, count - 1, k);
      assert (count - 1) * k + k == count * k;
    }
  }
}
