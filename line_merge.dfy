/** The meaning of merging one row or column of the 2048 game, stated independently of
    the single-pass loops that compute it (`merge` in poc_2048.py, merge.py and
    poc_2048_merge.py). A line is merged by sliding its nonzero tiles to the front, keeping
    their order, and then combining equal neighbours pairwise from the front; a tile made by
    combining is never combined again in the same merge. */
module LineMerge {

  /** The nonzero values of `line`, in order. */
  function Compact(line: seq<int>): (r: seq<int>)
    ensures |r| <= |line|
    ensures forall k :: 0 <= k < |r| ==> r[k] != 0
  {
    if line == [] then []
    else
      var front := Compact(line[..|line| - 1]);
      if line[|line| - 1] == 0 then front else front + [line[|line| - 1]]
  }

  /** Combines equal neighbours pairwise, scanning from the front. */
  function Combine(xs: seq<int>): seq<int>
  {
    if |xs| < 2 then xs
    else if xs[0] == xs[1] then [2 * xs[0]] + Combine(xs[2..])
    else [xs[0]] + Combine(xs[1..])
  }

  /** Whether the last value of `Combine(xs)` is a single, not yet combined, input value
      (so that a further equal value appended to `xs` would combine with it). */
  predicate EndsOpen(xs: seq<int>)
  {
    if |xs| == 0 then false
    else if |xs| == 1 then true
    else if xs[0] == xs[1] then EndsOpen(xs[2..])
    else EndsOpen(xs[1..])
  }

  function Zeros(n: nat): (r: seq<int>)
    ensures |r| == n && forall k :: 0 <= k < n ==> r[k] == 0
  {
    seq(n, _ => 0)
  }

  /** The merged line: combined nonzero values first, then zeros up to the line's length. */
  function Merged(line: seq<int>): seq<int>
  {
    var c := Combine(Compact(line));
    CombineShorter(Compact(line));
    c + Zeros(|line| - |c|)
  }

  function Sum(s: seq<int>): int
  {
    if s == [] then 0 else Sum(s[..|s| - 1]) + s[|s| - 1]
  }

  /** `ys` arises from `xs` by replacing some disjoint pairs of equal neighbours with their
      double and keeping every other value: each output value stands for one input value or
      for one pair, so no value is combined twice. */
  predicate CombinedFrom(xs: seq<int>, ys: seq<int>)
    decreases |xs|
  {
    if xs == [] then ys == []
    else
      ys != [] &&
      ((ys[0] == xs[0] && CombinedFrom(xs[1..], ys[1..])) ||
       (|xs| >= 2 && xs[0] == xs[1] && ys[0] == 2 * xs[0] && CombinedFrom(xs[2..], ys[1..])))
  }

  lemma {:induction false} CombineShorter(xs: seq<int>)
    ensures |Combine(xs)| <= |xs|
    ensures EndsOpen(xs) ==> Combine(xs) != []
    decreases |xs|
  {
    if |xs| >= 2 {
      if xs[0] == xs[1] { CombineShorter(xs[2..]); } else { CombineShorter(xs[1..]); }
    }
  }

  /** What appending `v` does to a combined line `c` whose last value is open or not. */
  function AppendCombining(c: seq<int>, open: bool, v: int): seq<int>
    requires open ==> c != []
  {
    if open && c[|c| - 1] == v then c[..|c| - 1] + [2 * v] else c + [v]
  }

  lemma ConsAppendCombining(hd: int, c: seq<int>, open: bool, v: int)
    requires open ==> c != []
    ensures [hd] + AppendCombining(c, open, v) == AppendCombining([hd] + c, open, v)
  {
    if open && c[|c| - 1] == v {
      assert ([hd] + c)[..|[hd] + c| - 1] == [hd] + c[..|c| - 1];
    }
  }

  /** Appending one value to the input of `Combine`, as the single pass of the source does:
      the value combines with the last output value exactly when that one is still open and
      equal to it. */
  lemma {:induction false} CombineSnoc(xs: seq<int>, v: int)
    ensures EndsOpen(xs) ==> Combine(xs) != []
    ensures Combine(xs + [v]) == AppendCombining(Combine(xs), EndsOpen(xs), v)
    ensures EndsOpen(xs + [v]) == !(EndsOpen(xs) && Combine(xs)[|Combine(xs)| - 1] == v)
    decreases |xs|
  {
    CombineShorter(xs);
    if |xs| == 0 {
      assert xs + [v] == [v];
    } else if |xs| == 1 {
      assert xs + [v] == [xs[0], v];
      assert [xs[0], v][2..] == [];
      assert [xs[0], v][1..] == [v];
    } else {
      var k := if xs[0] == xs[1] then 2 else 1;
      var hd := if k == 2 then 2 * xs[0] else xs[0];
      assert (xs + [v])[k..] == xs[k..] + [v];
      CombineSnoc(xs[k..], v);
      CombineShorter(xs[k..]);
      assert Combine(xs) == [hd] + Combine(xs[k..]);
      assert Combine(xs + [v]) == [hd] + Combine(xs[k..] + [v]);
      ConsAppendCombining(hd, Combine(xs[k..]), EndsOpen(xs[k..]), v);
    }
  }

  lemma {:induction false} CombineNonzero(xs: seq<int>)
    requires forall k :: 0 <= k < |xs| ==> xs[k] != 0
    ensures forall k :: 0 <= k < |Combine(xs)| ==> Combine(xs)[k] != 0
    decreases |xs|
  {
    if |xs| >= 2 {
      if xs[0] == xs[1] { CombineNonzero(xs[2..]); } else { CombineNonzero(xs[1..]); }
    }
  }

  lemma {:induction false} SumAppend(a: seq<int>, b: seq<int>)
    ensures Sum(a + b) == Sum(a) + Sum(b)
    decreases |b|
  {
    if b == [] {
      assert a + b == a;
    } else {
      assert (a + b)[..|a + b| - 1] == a + b[..|b| - 1];
      SumAppend(a, b[..|b| - 1]);
    }
  }

  lemma {:induction false} SumZeros(n: nat)
    ensures Sum(Zeros(n)) == 0
  {
    if n > 0 {
      assert Zeros(n)[..n - 1] == Zeros(n - 1);
      SumZeros(n - 1);
    }
  }

  lemma {:induction false} SumCompact(line: seq<int>)
    ensures Sum(Compact(line)) == Sum(line)
    decreases |line|
  {
    if line != [] {
      var front := line[..|line| - 1];
      SumCompact(front);
      SumAppend(Compact(front), [line[|line| - 1]]);
    }
  }

  lemma {:induction false} SumCombine(xs: seq<int>)
    ensures Sum(Combine(xs)) == Sum(xs)
    decreases |xs|
  {
    if |xs| >= 2 {
      var k := if xs[0] == xs[1] then 2 else 1;
      assert xs == xs[..k] + xs[k..];
      SumAppend(xs[..k], xs[k..]);
      SumCombine(xs[k..]);
      var head := if k == 2 then [2 * xs[0]] else [xs[0]];
      SumAppend(head, Combine(xs[k..]));
      if k == 2 {
        assert xs[..2][..1] == [xs[0]];
      }
    }
  }

  lemma {:induction false} CombineIsCombinedFrom(xs: seq<int>)
    ensures CombinedFrom(xs, Combine(xs))
    decreases |xs|
  {
    if |xs| == 1 {
      assert xs[1..] == [];
    } else if |xs| >= 2 {
      if xs[0] == xs[1] {
        CombineIsCombinedFrom(xs[2..]);
        assert Combine(xs)[1..] == Combine(xs[2..]);
      } else {
        CombineIsCombinedFrom(xs[1..]);
        assert Combine(xs)[1..] == Combine(xs[1..]);
      }
    }
  }

  /** The state of the single pass of `merge` after the nonzero values `c` of a prefix of
      the line: `result` has the line's length `n`, holds `Combine(c)` in its first `i`
      slots and zeros after them, and `i > lastMerge` exactly when the last slot written is
      open to a further combination. */
  ghost predicate PassState(result: seq<int>, n: nat, i: nat, lastMerge: nat, c: seq<int>)
  {
    |result| == n && lastMerge <= i <= |c| && i <= n && result[..i] == Combine(c) &&
    (i > lastMerge) == EndsOpen(c) &&
    forall m :: i <= m < n ==> result[m] == 0
  }

  lemma PassStart(n: nat)
    ensures PassState(Zeros(n), n, 0, 0, [])
  {
  }

  /** One nonzero value `v` processed by the pass: it is written to slot `i` and, when the slot
      before holds an equal open value, combined into it. */
  lemma PassStep(result: seq<int>, n: nat, i: nat, lastMerge: nat, c: seq<int>, v: int)
    requires PassState(result, n, i, lastMerge, c) && |c| < n
    ensures i < n
    ensures
      var written := result[i := v];
      if i > lastMerge && written[i - 1] == written[i]
      then PassState(written[i - 1 := written[i - 1] * 2][i := 0], n, i, i, c + [v])
      else PassState(written, n, i + 1, lastMerge, c + [v])
  {
    CombineSnoc(c, v);
    CombineShorter(c + [v]);
    var written := result[i := v];
    if i > lastMerge && written[i - 1] == written[i] {
      var merged := written[i - 1 := written[i - 1] * 2][i := 0];
      assert merged[..i] == result[..i - 1] + [2 * v];
      assert Combine(c)[..|Combine(c)| - 1] == result[..i - 1];
    } else {
      assert written[..i + 1] == result[..i] + [v];
    }
  }

  /** Skipping a zero leaves the nonzero values of the prefix unchanged. */
  lemma CompactStep(line: seq<int>, k: nat)
    requires k < |line|
    ensures Compact(line[..k + 1]) ==
      if line[k] == 0 then Compact(line[..k]) else Compact(line[..k]) + [line[k]]
  {
    assert line[..k + 1][..k] == line[..k];
  }

  /** The end of the pass: slots from `i` on are zeros, so the result is the combined
      values followed by zeros. */
  lemma PassEnd(result: seq<int>, n: nat, i: nat, lastMerge: nat, c: seq<int>)
    requires PassState(result, n, i, lastMerge, c)
    ensures |Combine(c)| <= n
    ensures result == Combine(c) + Zeros(n - |Combine(c)|)
  {
    var combined := Combine(c);
    assert |combined| == i;
    var tail := result[i..];
    assert tail == Zeros(n - i) by {
      forall m | 0 <= m < |tail| ensures tail[m] == 0 {
        assert tail[m] == result[i + m];
      }
    }
    assert result == combined + tail;
  }

  /** `merge` of poc_2048.py and of poc_2048_merge.py (the two are the same text): one pass
      over the values of `line`, taken from the front of what is left of it; zeros are
      skipped, every other value is written to slot `idx` and combined with the slot before
      when that one holds an equal value that is not itself the product of a combination
      (`idx > lastMerge`). */
  method Merge(line: seq<int>) returns (r: seq<int>)
    ensures |r| == |line|
    ensures r == Merged(line)
  {
    var result := Zeros(|line|);
    var idx, lastMerge := 0, 0;
    PassStart(|line|);
    var rest := line;
    while rest != []
      invariant |rest| <= |line| && rest == line[|line| - |rest|..]
      invariant |Compact(line[..|line| - |rest|])| <= |line| - |rest|
      invariant PassState(result, |line|, idx, lastMerge, Compact(line[..|line| - |rest|]))
    {
      var k := |line| - |rest|;
      var value := rest[0];
      rest := rest[1..];
      CompactStep(line, k);
      if value != 0 {
        PassStep(result, |line|, idx, lastMerge, Compact(line[..k]), value);
        result := result[idx := value];
        if idx > lastMerge && result[idx - 1] == result[idx] {
          result := result[idx - 1 := result[idx - 1] * 2][idx := 0];
          lastMerge := idx;
        } else {
          idx := idx + 1;
        }
      }
    }
    assert line[..|line|] == line;
    PassEnd(result, |line|, idx, lastMerge, Compact(line));
    r := result;
  }

  /** The merged line has the line's length. */
  lemma MergedLength(line: seq<int>)
    ensures |Merged(line)| == |line|
  {
    CombineShorter(Compact(line));
  }

  /** The nonzero values of the merged line form a prefix; zeros follow them. */
  lemma NonzeroPrefix(line: seq<int>)
    ensures |Merged(line)| == |line|
    ensures
      var n := |Combine(Compact(line))|;
      n <= |line| &&
      (forall k :: 0 <= k < n ==> Merged(line)[k] != 0) &&
      (forall k :: n <= k < |line| ==> Merged(line)[k] == 0)
  {
    CombineShorter(Compact(line));
    CombineNonzero(Compact(line));
  }

  /** Merging preserves the sum of the line. */
  lemma MergedSum(line: seq<int>)
    ensures Sum(Merged(line)) == Sum(line)
  {
    var c := Compact(line);
    CombineShorter(c);
    SumAppend(Combine(c), Zeros(|line| - |Combine(c)|));
    SumZeros(|line| - |Combine(c)|);
    SumCombine(c);
    SumCompact(line);
  }

  /** The nonzero part of the merged line arises from the nonzero input values, in their
      order, by combining disjoint pairs of equal neighbours: every value is merged at most
      once. */
  lemma MergedOnce(line: seq<int>)
    ensures
      var c := Combine(Compact(line));
      |c| <= |line| && Merged(line)[..|c|] == c && CombinedFrom(Compact(line), c)
  {
    CombineShorter(Compact(line));
    CombineIsCombinedFrom(Compact(line));
  }

  /** Merging twice can differ from merging once: a combined tile is not combined again. */
  lemma MergedNotIdempotent()
    ensures Merged([2, 2, 4]) == [4, 4, 0]
    ensures Merged(Merged([2, 2, 4])) == [8, 0, 0]
  {
    assert Compact([2, 2, 4]) == [2, 2, 4] by {
      assert [2, 2, 4][..2] == [2, 2];
      assert [2, 2][..1] == [2];
      assert [2][..0] == [];
    }
    assert Compact([4, 4, 0]) == [4, 4] by {
      assert [4, 4, 0][..2] == [4, 4];
      assert [4, 4][..1] == [4];
      assert [4][..0] == [];
    }
  }
}
