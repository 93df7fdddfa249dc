/**
 * `get_top_terms`: the highest-scoring terms of one document. The scores
 * come from a TF-IDF computation that is not part of this model; `np.argsort`
 * is represented by the index order it returns, which may be ANY order of the
 * indices that sorts the scores ascending (it is not stable, so equal scores
 * may come in any order).
 */
module TopTerms {
  import opened Seqs

  /** One entry of the result: `{"term": ..., "score": ...}`. */
  datatype TermScore = TermScore(term: string, score: real)

  /** `idx` lists score indices in ascending order of their scores. */
  predicate SortedByScore(scores: seq<real>, idx: seq<nat>)
    requires forall k :: 0 <= k < |idx| ==> idx[k] < |scores|
  {
    forall k, l :: 0 <= k <= l < |idx| ==> scores[idx[k]] <= scores[idx[l]]
  }

  /** `order` is a result `np.argsort(scores)` may return. */
  predicate IsArgsort(scores: seq<real>, order: seq<nat>) {
    && |order| == |scores|
    && (forall k :: 0 <= k < |order| ==> order[k] < |scores|)
    && (forall i :: 0 <= i < |scores| ==> i in order)
    && NoDuplicates(order)
    && SortedByScore(scores, order)
  }

  /** Where Python's slice `a[-n:]` starts in a list of length `len`. */
  function SliceStart(len: nat, n: int): (start: nat)
    ensures start <= len
    ensures n >= 1 ==> len - start == if n < len then n else len
    ensures n == 0 ==> start == 0
  {
    if n > 0 then (if n < len then len - n else 0)
    else if n == 0 then 0
    else if -n < len then -n else len
  }

  /** The entries of `idx` whose score is positive, in their order. */
  function PositiveIndices(scores: seq<real>, idx: seq<nat>): (r: seq<nat>)
    requires forall k :: 0 <= k < |idx| ==> idx[k] < |scores|
    ensures |r| <= |idx|
    ensures forall k :: 0 <= k < |r| ==> r[k] < |scores| && scores[r[k]] > 0.0
  {
    if idx == [] then []
    else if scores[idx[0]] > 0.0 then [idx[0]] + PositiveIndices(scores, idx[1..])
    else PositiveIndices(scores, idx[1..])
  }

  /** Exactly the entries of `idx` with a positive score are kept. */
  lemma {:induction false} PositiveIndicesMembers(scores: seq<real>, idx: seq<nat>)
    requires forall k :: 0 <= k < |idx| ==> idx[k] < |scores|
    ensures forall i :: i in PositiveIndices(scores, idx) <==> i in idx && i < |scores| && scores[i] > 0.0
  {
    if idx != [] {
      var tail := idx[1..];
      PositiveIndicesMembers(scores, tail);
      assert forall i :: i in idx <==> i == idx[0] || i in tail;
    }
  }

  /** Keeping the positive entries of a score-sorted list leaves it sorted. */
  lemma {:induction false} PositiveIndicesSorted(scores: seq<real>, idx: seq<nat>)
    requires forall k :: 0 <= k < |idx| ==> idx[k] < |scores|
    requires SortedByScore(scores, idx)
    ensures SortedByScore(scores, PositiveIndices(scores, idx))
  {
    if idx != [] {
      var rest := idx[1..];
      assert SortedByScore(scores, rest) by {
        forall k, l | 0 <= k <= l < |rest| ensures scores[rest[k]] <= scores[rest[l]] {
          assert rest[k] == idx[k + 1] && rest[l] == idx[l + 1];
        }
      }
      PositiveIndicesSorted(scores, rest);
      if scores[idx[0]] > 0.0 {
        var p := PositiveIndices(scores, rest);
        PositiveIndicesMembers(scores, rest);
        forall y | y in p ensures scores[idx[0]] <= scores[y] {
          var j :| 0 <= j < |rest| && rest[j] == y;
          assert rest[j] == idx[j + 1];
        }
        SortedCons(scores, idx[0], p);
      }
    }
  }

  /** An index scoring no more than any entry of a sorted list may go in front of it. */
  lemma SortedCons(scores: seq<real>, x: nat, p: seq<nat>)
    requires x < |scores|
    requires forall k :: 0 <= k < |p| ==> p[k] < |scores|
    requires SortedByScore(scores, p)
    requires forall y :: y in p ==> scores[x] <= scores[y]
    ensures SortedByScore(scores, [x] + p)
  {
    var r := [x] + p;
    forall k, l | 0 <= k <= l < |r| ensures scores[r[k]] <= scores[r[l]] {
      if k == 0 {
        if l > 0 {
          assert r[l] == p[l - 1] && p[l - 1] in p;
        }
      } else {
        assert r[k] == p[k - 1] && r[l] == p[l - 1];
      }
    }
  }

  /** Keeping the positive entries of a list without repeats gives a list without repeats. */
  lemma {:induction false} PositiveIndicesNoDuplicates(scores: seq<real>, idx: seq<nat>)
    requires forall k :: 0 <= k < |idx| ==> idx[k] < |scores|
    requires NoDuplicates(idx)
    ensures NoDuplicates(PositiveIndices(scores, idx))
  {
    if idx != [] {
      PositiveIndicesNoDuplicates(scores, idx[1..]);
      var p := PositiveIndices(scores, idx[1..]);
      if scores[idx[0]] > 0.0 {
        PositiveIndicesMembers(scores, idx[1..]);
        assert idx[0] !in p;
        assert ([idx[0]] + p)[1..] == p;
      }
    }
  }

  /** The indices behind the result of `get_top_terms(scores, names, n)`. */
  function TopIndices(scores: seq<real>, order: seq<nat>, n: int): (r: seq<nat>)
    requires IsArgsort(scores, order)
    ensures n >= 1 ==> |r| <= n
    ensures forall k :: 0 <= k < |r| ==> r[k] < |scores| && scores[r[k]] > 0.0
  {
    PositiveIndices(scores, order[SliceStart(|order|, n)..])
  }

  /**
   * `get_top_terms`: the last `n` indices of the ascending order (all of
   * them when `n` is 0), those with a positive score, each paired with its
   * term.
   */
  function GetTopTerms(scores: seq<real>, names: seq<string>, order: seq<nat>, n: int): (r: seq<TermScore>)
    requires |names| == |scores|
    requires IsArgsort(scores, order)
    ensures var top := TopIndices(scores, order, n);
      |r| == |top| && forall k :: 0 <= k < |r| ==> r[k] == TermScore(names[top[k]], scores[top[k]])
    ensures n >= 1 ==> |r| <= n
    ensures forall k :: 0 <= k < |r| ==> r[k].score > 0.0
    ensures forall k, l :: 0 <= k <= l < |r| ==> r[k].score <= r[l].score
  {
    var top := TopIndices(scores, order, n);
    TopIndicesSorted(scores, order, n);
    seq(|top|, k requires 0 <= k < |top| => TermScore(names[top[k]], scores[top[k]]))
  }

  /** The selected indices come in ascending order of their scores. */
  lemma TopIndicesSorted(scores: seq<real>, order: seq<nat>, n: int)
    requires IsArgsort(scores, order)
    ensures SortedByScore(scores, TopIndices(scores, order, n))
  {
    var s := SliceStart(|order|, n);
    var tail := order[s..];
    assert forall k :: 0 <= k < |tail| ==> tail[k] == order[s + k];
    assert SortedByScore(scores, tail) by {
      forall k, l | 0 <= k <= l < |tail| ensures scores[tail[k]] <= scores[tail[l]] {
        assert tail[k] == order[s + k] && tail[l] == order[s + l];
      }
    }
    PositiveIndicesSorted(scores, tail);
  }

  /**
   * Nothing better is left out: a term with a positive score that is not
   * returned scores no more than every returned term.
   */
  lemma GetTopTermsAreLargest(scores: seq<real>, names: seq<string>, order: seq<nat>, n: int, j: nat)
    requires |names| == |scores|
    requires IsArgsort(scores, order)
    requires j < |scores| && scores[j] > 0.0
    requires j !in TopIndices(scores, order, n)
    ensures forall k :: 0 <= k < |GetTopTerms(scores, names, order, n)| ==>
      scores[j] <= GetTopTerms(scores, names, order, n)[k].score
  {
    var start := SliceStart(|order|, n);
    var p := PositionBeforeSlice(scores, order, n, j);
    var top := TopIndices(scores, order, n);
    forall k | 0 <= k < |top| ensures scores[j] <= scores[top[k]] {
      var q := PositionInSlice(scores, order, n, top[k]);
      assert scores[order[p]] <= scores[order[q]];
    }
  }

  /** A positive-scored index that is not returned sits before the slice `[-n:]`. */
  lemma PositionBeforeSlice(scores: seq<real>, order: seq<nat>, n: int, j: nat) returns (p: nat)
    requires IsArgsort(scores, order)
    requires j < |scores| && scores[j] > 0.0
    requires j !in TopIndices(scores, order, n)
    ensures p < SliceStart(|order|, n) && order[p] == j
  {
    assert j in order;
    p :| 0 <= p < |order| && order[p] == j;
    var start := SliceStart(|order|, n);
    PositiveIndicesMembers(scores, order[start..]);
    assert forall q :: start <= q < |order| ==> order[q] in order[start..];
  }

  /** A returned index sits inside the slice `[-n:]`. */
  lemma PositionInSlice(scores: seq<real>, order: seq<nat>, n: int, i: nat) returns (q: nat)
    requires IsArgsort(scores, order)
    requires i in TopIndices(scores, order, n)
    ensures SliceStart(|order|, n) <= q < |order| && order[q] == i
  {
    var start := SliceStart(|order|, n);
    var tail := order[start..];
    PositiveIndicesMembers(scores, tail);
    assert i in tail;
    var q' :| 0 <= q' < |tail| && tail[q'] == i;
    q := start + q';
  }

  /** No index is selected twice. */
  lemma GetTopTermsNoRepeatedIndex(scores: seq<real>, order: seq<nat>, n: int)
    requires IsArgsort(scores, order)
    ensures NoDuplicates(TopIndices(scores, order, n))
  {
    var start := SliceStart(|order|, n);
    NoDuplicatesSuffix(order, start);
    PositiveIndicesNoDuplicates(scores, order[start..]);
  }

  /** Feature names are distinct, so no term is returned twice. */
  lemma GetTopTermsNoRepeatedTerm(scores: seq<real>, names: seq<string>, order: seq<nat>, n: int)
    requires |names| == |scores|
    requires IsArgsort(scores, order)
    requires NoDuplicates(names)
    ensures var r := GetTopTerms(scores, names, order, n);
      forall k, l :: 0 <= k < l < |r| ==> r[k].term != r[l].term
  {
    var top := TopIndices(scores, order, n);
    var r := GetTopTerms(scores, names, order, n);
    GetTopTermsNoRepeatedIndex(scores, order, n);
    forall k, l | 0 <= k < l < |r| ensures r[k].term != r[l].term {
      NoDuplicatesAt(top, k, l);
      if top[k] < top[l] {
        NoDuplicatesAt(names, top[k], top[l]);
      } else {
        NoDuplicatesAt(names, top[l], top[k]);
      }
    }
  }

  /** A suffix of a list without repeats has no repeats. */
  lemma {:induction false} NoDuplicatesSuffix<T>(s: seq<T>, start: nat)
    requires NoDuplicates(s) && start <= |s|
    ensures NoDuplicates(s[start..])
  {
    if start > 0 {
      NoDuplicatesSuffix(s[1..], start - 1);
      assert s[1..][start - 1..] == s[start..];
    }
  }

  /** With `n` = 0 the slice `[-0:]` is the whole order, so every positive-scored term is returned. */
  lemma GetTopTermsZeroKeepsAll(scores: seq<real>, order: seq<nat>)
    requires IsArgsort(scores, order)
    ensures TopIndices(scores, order, 0) == PositiveIndices(scores, order)
  {
    assert order[0..] == order;
  }

  /** Position of the first positive score along `idx` (|idx| when there is none). */
  ghost function FirstPositive(scores: seq<real>, idx: seq<nat>): (m: nat)
    requires forall k :: 0 <= k < |idx| ==> idx[k] < |scores|
    ensures m <= |idx|
    ensures forall k :: 0 <= k < m ==> scores[idx[k]] <= 0.0
    ensures m < |idx| ==> scores[idx[m]] > 0.0
  {
    if idx == [] then 0
    else if scores[idx[0]] > 0.0 then 0
    else
      var m := FirstPositive(scores, idx[1..]);
      assert forall k :: 1 <= k < m + 1 ==> idx[k] == idx[1..][k - 1];
      m + 1
  }

  /** Keeping the positive entries distributes over concatenation. */
  lemma {:induction false} PositiveIndicesAppend(scores: seq<real>, a: seq<nat>, b: seq<nat>)
    requires forall k :: 0 <= k < |a| ==> a[k] < |scores|
    requires forall k :: 0 <= k < |b| ==> b[k] < |scores|
    ensures PositiveIndices(scores, a + b) == PositiveIndices(scores, a) + PositiveIndices(scores, b)
  {
    if a == [] {
      assert a + b == b;
    } else {
      var ab, tail := a + b, a[1..];
      assert ab[0] == a[0] && ab[1..] == tail + b;
      assert forall k :: 0 <= k < |tail| ==> tail[k] == a[k + 1];
      PositiveIndicesAppend(scores, tail, b);
      var rest := PositiveIndices(scores, tail);
      if scores[a[0]] > 0.0 {
        assert PositiveIndices(scores, ab) == [a[0]] + (rest + PositiveIndices(scores, b));
        assert PositiveIndices(scores, a) == [a[0]] + rest;
      } else {
        assert PositiveIndices(scores, ab) == rest + PositiveIndices(scores, b);
        assert PositiveIndices(scores, a) == rest;
      }
    }
  }

  /** A list whose entries all score positive is kept whole. */
  lemma {:induction false} PositiveIndicesAll(scores: seq<real>, idx: seq<nat>)
    requires forall k :: 0 <= k < |idx| ==> idx[k] < |scores| && scores[idx[k]] > 0.0
    ensures PositiveIndices(scores, idx) == idx
  {
    if idx != [] {
      PositiveIndicesAll(scores, idx[1..]);
      assert [idx[0]] + idx[1..] == idx;
    }
  }

  /** A list whose entries all score at most zero is dropped entirely. */
  lemma {:induction false} PositiveIndicesNone(scores: seq<real>, idx: seq<nat>)
    requires forall k :: 0 <= k < |idx| ==> idx[k] < |scores| && scores[idx[k]] <= 0.0
    ensures PositiveIndices(scores, idx) == []
  {
    if idx != [] {
      var tail := idx[1..];
      assert forall k :: 0 <= k < |tail| ==> tail[k] == idx[k + 1];
      PositiveIndicesNone(scores, tail);
    }
  }

  /** Along a score-sorted list every entry from FirstPositive on scores positive. */
  lemma SortedPositiveFrom(scores: seq<real>, idx: seq<nat>)
    requires forall k :: 0 <= k < |idx| ==> idx[k] < |scores|
    requires SortedByScore(scores, idx)
    ensures forall k :: FirstPositive(scores, idx) <= k < |idx| ==> scores[idx[k]] > 0.0
  {
    var m := FirstPositive(scores, idx);
    forall k | m <= k < |idx| ensures scores[idx[k]] > 0.0 {
      assert scores[idx[m]] <= scores[idx[k]];
    }
  }

  /**
   * Along a score-sorted list the positive entries form a suffix starting at
   * FirstPositive, so the positive entries of the suffix from `t` number
   * |idx| - max(t, FirstPositive).
   */
  lemma PositiveSuffixCount(scores: seq<real>, idx: seq<nat>, t: nat)
    requires forall k :: 0 <= k < |idx| ==> idx[k] < |scores|
    requires SortedByScore(scores, idx)
    requires t <= |idx|
    ensures var m := FirstPositive(scores, idx);
      |PositiveIndices(scores, idx[t..])| == |idx| - (if t < m then m else t)
  {
    SortedPositiveFrom(scores, idx);
    SplitCount(scores, idx, FirstPositive(scores, idx), t);
  }

  /** The counting argument behind PositiveSuffixCount, for a split point `m` given outright. */
  lemma SplitCount(scores: seq<real>, idx: seq<nat>, m: nat, t: nat)
    requires forall k :: 0 <= k < |idx| ==> idx[k] < |scores|
    requires m <= |idx| && t <= |idx|
    requires forall k :: 0 <= k < m ==> scores[idx[k]] <= 0.0
    requires forall k :: m <= k < |idx| ==> scores[idx[k]] > 0.0
    ensures |PositiveIndices(scores, idx[t..])| == |idx| - (if t < m then m else t)
  {
    if t < m {
      var low, high := idx[t..m], idx[m..];
      assert idx[t..] == low + high;
      assert forall k :: 0 <= k < |low| ==> low[k] == idx[t + k];
      assert forall k :: 0 <= k < |high| ==> high[k] == idx[m + k];
      PositiveIndicesAppend(scores, low, high);
      PositiveIndicesNone(scores, low);
      PositiveIndicesAll(scores, high);
    } else {
      var high := idx[t..];
      assert forall k :: 0 <= k < |high| ==> high[k] == idx[t + k];
      PositiveIndicesAll(scores, high);
    }
  }

  /**
   * For `n` >= 1 exactly min(n, P) terms come back, P being the number of
   * terms with a positive score: the `n` best, unless fewer than `n` score
   * above zero.
   */
  lemma GetTopTermsCount(scores: seq<real>, names: seq<string>, order: seq<nat>, n: int)
    requires |names| == |scores|
    requires IsArgsort(scores, order)
    requires n >= 1
    ensures var positive := |PositiveIndices(scores, order)|;
      |GetTopTerms(scores, names, order, n)| == if n < positive then n else positive
  {
    var start := SliceStart(|order|, n);
    PositiveSuffixCount(scores, order, start);
    PositiveSuffixCount(scores, order, 0);
    assert order[0..] == order;
  }
}
