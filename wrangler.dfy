/** poc_wrangler.py: the ordered word-list utilities of the Word Wrangler game. Words are
    strings ordered as Python orders them: lexicographically by character, a proper prefix
    before any of its extensions. */
module WordWrangler {
  import opened SeqUtil

  type Word = string

  /** Python's `<` on strings. */
  predicate Less(a: Word, b: Word)
  {
    if |a| == 0 then |b| > 0
    else |b| > 0 && (a[0] < b[0] || (a[0] == b[0] && Less(a[1..], b[1..])))
  }

  lemma {:induction false} LessIrreflexive(a: Word)
    ensures !Less(a, a)
    decreases |a|
  {
    if |a| > 0 {
      LessIrreflexive(a[1..]);
    }
  }

  lemma {:induction false} LessTransitive(a: Word, b: Word, c: Word)
    requires Less(a, b) && Less(b, c)
    ensures Less(a, c)
    decreases |a|
  {
    if |a| > 0 && a[0] == b[0] && b[0] == c[0] {
      LessTransitive(a[1..], b[1..], c[1..]);
    }
  }

  /** Any two different words are ordered one way or the other. */
  lemma {:induction false} LessTotal(a: Word, b: Word)
    ensures a == b || Less(a, b) || Less(b, a)
    decreases |a|
  {
    if |a| > 0 && |b| > 0 && a[0] == b[0] {
      LessTotal(a[1..], b[1..]);
      if a[1..] == b[1..] {
        assert a == [a[0]] + a[1..] && b == [b[0]] + b[1..];
      }
    }
  }

  /** Not greater is transitive: `a <= b` and `b <= c` give `a <= c`. */
  lemma NotLessTransitive(a: Word, b: Word, c: Word)
    requires !Less(b, a) && !Less(c, b)
    ensures !Less(c, a)
  {
    if Less(c, a) {
      LessTotal(b, c);
      if b != c {
        LessTransitive(b, c, a);
      }
    }
  }

  /** `a < b` and `b <= c` give `a < c`. */
  lemma LessNotLess(a: Word, b: Word, c: Word)
    requires Less(a, b) && !Less(c, b)
    ensures Less(a, c)
  {
    LessTotal(b, c);
    if b != c {
      LessTransitive(a, b, c);
    }
  }

  /** Sorted in non-decreasing order. */
  predicate Sorted(s: seq<Word>)
  {
    forall i, j :: 0 <= i < j < |s| ==> !Less(s[j], s[i])
  }

  predicate StrictlySorted(s: seq<Word>)
  {
    forall i, j :: 0 <= i < j < |s| ==> Less(s[i], s[j])
  }

  // remove_duplicates

  /** The words `remove_duplicates` keeps: each word that differs from the last one kept. */
  function Heads(s: seq<Word>): seq<Word>
  {
    if s == [] then []
    else
      var kept := Heads(s[..|s| - 1]);
      if kept == [] || kept[|kept| - 1] != s[|s| - 1] then kept + [s[|s| - 1]] else kept
  }

  /** The last word kept is the last word of the list. */
  lemma HeadsLast(s: seq<Word>)
    requires s != []
    ensures Heads(s) != [] && Heads(s)[|Heads(s)| - 1] == s[|s| - 1]
  {
  }

  lemma {:induction false} HeadsElements(s: seq<Word>)
    ensures forall x :: x in Heads(s) <==> x in s
    decreases |s|
  {
    if s != [] {
      var front := s[..|s| - 1];
      HeadsElements(front);
      assert s == front + [s[|s| - 1]];
      if front != [] {
        HeadsLast(front);
      }
    }
  }

  lemma {:induction false} HeadsNoAdjacent(s: seq<Word>)
    ensures forall i :: 0 <= i < |Heads(s)| - 1 ==> Heads(s)[i] != Heads(s)[i + 1]
    decreases |s|
  {
    if s != [] {
      HeadsNoAdjacent(s[..|s| - 1]);
    }
  }

  lemma {:induction false} HeadsSubseq(s: seq<Word>)
    ensures IsSubseq(Heads(s), s)
    decreases |s|
  {
    if s != [] {
      var front, x := s[..|s| - 1], s[|s| - 1];
      HeadsSubseq(front);
      assert s == front + [x];
      var kept := Heads(front);
      IsSubseqSnoc(kept, front, x);
      if kept == [] || kept[|kept| - 1] != x {
        IsSubseqSnoc(kept + [x], front, x);
        assert (kept + [x])[..|kept + [x]| - 1] == kept;
      }
    }
  }

  /** On sorted input the kept words are strictly increasing. */
  lemma {:induction false} HeadsStrictlySorted(s: seq<Word>)
    requires Sorted(s)
    ensures StrictlySorted(Heads(s))
    decreases |s|
  {
    if s != [] {
      var front, x := s[..|s| - 1], s[|s| - 1];
      HeadsStrictlySorted(front);
      var kept := Heads(front);
      if kept != [] && kept[|kept| - 1] != x {
        HeadsLast(front);
        var last := kept[|kept| - 1];
        assert !Less(x, last);
        LessTotal(last, x);
        forall i, j | 0 <= i < j < |kept| + 1 ensures Less((kept + [x])[i], (kept + [x])[j]) {
          if j == |kept| && i < |kept| - 1 {
            LessTransitive(kept[i], last, x);
          }
        }
      }
    }
  }

  /** `remove_duplicates`: keeps a word when the result is empty or ends in a different
      word. */
  method RemoveDuplicates(list1: seq<Word>) returns (result: seq<Word>)
    ensures result == Heads(list1)
    ensures forall x :: x in result <==> x in list1
    ensures forall i :: 0 <= i < |result| - 1 ==> result[i] != result[i + 1]
    ensures IsSubseq(result, list1)
    ensures Sorted(list1) ==> StrictlySorted(result)
  {
    result := [];
    for k := 0 to |list1|
      invariant result == Heads(list1[..k])
    {
      var element := list1[k];
      assert list1[..k + 1][..k] == list1[..k];
      if result == [] || result[|result| - 1] != element {
        result := result + [element];
      }
    }
    assert list1[..|list1|] == list1;
    HeadsElements(list1);
    HeadsNoAdjacent(list1);
    HeadsSubseq(list1);
    if Sorted(list1) {
      HeadsStrictlySorted(list1);
    }
  }

  // intersect

  /** `intersect`: walks both lists with one index each, skipping the smaller word and
      keeping a word found at both indices. On sorted lists the result is sorted and holds
      exactly the words that occur in both. */
  method Intersect(list1: seq<Word>, list2: seq<Word>) returns (result: seq<Word>)
    ensures forall x :: x in result ==> x in list1 && x in list2
    ensures Sorted(list1) && Sorted(list2) ==> Sorted(result)
    ensures Sorted(list1) && Sorted(list2) ==>
      forall x :: x in list1 && x in list2 ==> x in result
  {
    result := [];
    var index1, index2 := 0, 0;
    ghost var sorted := Sorted(list1) && Sorted(list2);
    while index1 < |list1| && index2 < |list2|
      invariant 0 <= index1 <= |list1| && 0 <= index2 <= |list2|
      invariant forall x :: x in result ==> x in list1 && x in list2
      invariant sorted ==> Sorted(result)
      invariant sorted ==> forall y, k :: y in result && index1 <= k < |list1| ==> !Less(list1[k], y)
      invariant sorted ==> forall x :: x in list1 && x in list2 ==>
        x in result || (x in list1[index1..] && x in list2[index2..])
      decreases |list1| - index1 + |list2| - index2
    {
      var a, b := list1[index1], list2[index2];
      if Less(a, b) {
        if sorted {
          SkipSmaller(list1, list2, index1, index2, result);
        }
        index1 := index1 + 1;
      } else if Less(b, a) {
        if sorted {
          SkipSmaller(list2, list1, index2, index1, result);
          forall y, k | y in result && index1 <= k < |list1| ensures !Less(list1[k], y) {
          }
        }
        index2 := index2 + 1;
      } else {
        LessTotal(a, b);
        if sorted {
          KeepCommon(list1, list2, index1, index2, result);
        }
        result := result + [a];
        index1 := index1 + 1;
        index2 := index2 + 1;
      }
    }
  }

  /** Skipping `xs[i]`, which is below `ys[j]`, loses no common word. */
  lemma SkipSmaller(xs: seq<Word>, ys: seq<Word>, i: nat, j: nat, result: seq<Word>)
    requires Sorted(xs) && Sorted(ys) && i < |xs| && j < |ys| && Less(xs[i], ys[j])
    requires forall x :: x in xs && x in ys ==> x in result || (x in xs[i..] && x in ys[j..])
    ensures forall x :: x in xs && x in ys ==> x in result || (x in xs[i + 1..] && x in ys[j..])
  {
    BelowHeadNotIn(ys, j, xs[i]);
    forall x | x in xs && x in ys && x !in result
      ensures x in xs[i + 1..] && x in ys[j..]
    {
      assert x in xs[i..] && x in ys[j..];
      var k :| i <= k < |xs| && xs[k] == x;
      assert xs[i + 1..][k - (i + 1)] == x;
    }
  }

  /** A word below the head of a sorted list is not in it. */
  lemma BelowHeadNotIn(ys: seq<Word>, j: nat, x: Word)
    requires Sorted(ys) && j < |ys| && Less(x, ys[j])
    ensures x !in ys[j..]
  {
    forall m | j <= m < |ys| ensures ys[m] != x {
      if m == j {
        LessIrreflexive(x);
      }
    }
  }

  /** Keeping the common word `xs[i] == ys[j]` keeps the result sorted and below the rest. */
  lemma KeepCommon(xs: seq<Word>, ys: seq<Word>, i: nat, j: nat, result: seq<Word>)
    requires Sorted(xs) && Sorted(ys) && i < |xs| && j < |ys| && xs[i] == ys[j]
    requires Sorted(result)
    requires forall y, k :: y in result && i <= k < |xs| ==> !Less(xs[k], y)
    requires forall x :: x in xs && x in ys ==> x in result || (x in xs[i..] && x in ys[j..])
    ensures Sorted(result + [xs[i]])
    ensures forall y, k :: y in result + [xs[i]] && i + 1 <= k < |xs| ==> !Less(xs[k], y)
    ensures forall x :: x in xs && x in ys ==>
      x in result + [xs[i]] || (x in xs[i + 1..] && x in ys[j + 1..])
  {
    var r := result + [xs[i]];
    forall p, q | 0 <= p < q < |r| ensures !Less(r[q], r[p]) {
      if q == |result| {
        assert r[p] in result;
      }
    }
    forall y, k | y in r && i + 1 <= k < |xs| ensures !Less(xs[k], y) {
      if y !in result {
        assert y == xs[i];
      }
    }
    forall x | x in xs && x in ys && x !in r
      ensures x in xs[i + 1..] && x in ys[j + 1..]
    {
      var k :| i <= k < |xs| && xs[k] == x;
      var m :| j <= m < |ys| && ys[m] == x;
      assert k != i && m != j;
      assert xs[i + 1..][k - (i + 1)] == x;
      assert ys[j + 1..][m - (j + 1)] == x;
    }
  }

  // merge and merge_sort

  /** The merge of two lists: the smaller head first, the head of `l2` when neither is
      smaller. */
  function MergeOf(l1: seq<Word>, l2: seq<Word>): seq<Word>
    decreases |l1| + |l2|
  {
    if l1 == [] then l2
    else if l2 == [] then l1
    else if Less(l1[0], l2[0]) then [l1[0]] + MergeOf(l1[1..], l2)
    else [l2[0]] + MergeOf(l1, l2[1..])
  }

  lemma {:induction false} MergeOfPermutation(l1: seq<Word>, l2: seq<Word>)
    ensures multiset(MergeOf(l1, l2)) == multiset(l1) + multiset(l2)
    ensures |MergeOf(l1, l2)| == |l1| + |l2|
    decreases |l1| + |l2|
  {
    if l1 != [] && l2 != [] {
      if Less(l1[0], l2[0]) {
        MergeOfPermutation(l1[1..], l2);
        MergeOfTakesFirst(l1, l2);
        ConsMultiset(l1);
      } else {
        MergeOfPermutation(l1, l2[1..]);
        MergeOfTakesSecond(l1, l2);
        ConsMultiset(l2);
      }
    }
  }

  lemma ConsMultiset(s: seq<Word>)
    requires s != []
    ensures multiset(s) == multiset{s[0]} + multiset(s[1..])
  {
    assert s == [s[0]] + s[1..];
  }

  /** Every word of `s` is at least `x`. */
  predicate AllAtLeast(s: seq<Word>, x: Word)
  {
    forall k :: 0 <= k < |s| ==> !Less(s[k], x)
  }

  lemma {:induction false} MergeOfSorted(l1: seq<Word>, l2: seq<Word>)
    requires Sorted(l1) && Sorted(l2)
    ensures Sorted(MergeOf(l1, l2))
    decreases |l1| + |l2|
  {
    if l1 != [] && l2 != [] {
      if Less(l1[0], l2[0]) {
        MergeOfSorted(l1[1..], l2);
        SortedTailAtLeast(l1);
        forall k | 0 <= k < |l2| ensures !Less(l2[k], l1[0]) {
          if k > 0 {
            LessNotLess(l1[0], l2[0], l2[k]);
            LessAsymmetric(l1[0], l2[k]);
          } else {
            LessAsymmetric(l1[0], l2[0]);
          }
        }
        MergeAtLeast(l1[1..], l2, l1[0]);
        ConsSorted(l1[0], MergeOf(l1[1..], l2));
      } else {
        MergeOfSorted(l1, l2[1..]);
        SortedTailAtLeast(l2);
        forall k | 0 <= k < |l1| ensures !Less(l1[k], l2[0]) {
          if k > 0 {
            NotLessTransitive(l2[0], l1[0], l1[k]);
          }
        }
        MergeAtLeast(l1, l2[1..], l2[0]);
        ConsSorted(l2[0], MergeOf(l1, l2[1..]));
      }
    }
  }

  lemma LessAsymmetric(a: Word, b: Word)
    requires Less(a, b)
    ensures !Less(b, a)
  {
    if Less(b, a) {
      LessTransitive(a, b, a);
      LessIrreflexive(a);
    }
  }

  lemma SortedTailAtLeast(s: seq<Word>)
    requires Sorted(s) && s != []
    ensures AllAtLeast(s[1..], s[0])
  {
    forall k | 0 <= k < |s[1..]| ensures !Less(s[1..][k], s[0]) {
      assert s[1..][k] == s[k + 1];
    }
  }

  /** A merge of words that are all at least `x` has only words at least `x`. */
  lemma {:induction false} MergeAtLeast(a: seq<Word>, b: seq<Word>, x: Word)
    requires AllAtLeast(a, x) && AllAtLeast(b, x)
    ensures AllAtLeast(MergeOf(a, b), x)
    decreases |a| + |b|
  {
    if a != [] && b != [] {
      if Less(a[0], b[0]) {
        assert AllAtLeast(a[1..], x) by {
          forall k | 0 <= k < |a[1..]| ensures !Less(a[1..][k], x) {
            assert a[1..][k] == a[k + 1];
          }
        }
        MergeAtLeast(a[1..], b, x);
      } else {
        assert AllAtLeast(b[1..], x) by {
          forall k | 0 <= k < |b[1..]| ensures !Less(b[1..][k], x) {
            assert b[1..][k] == b[k + 1];
          }
        }
        MergeAtLeast(a, b[1..], x);
      }
    }
  }

  lemma ConsSorted(x: Word, s: seq<Word>)
    requires Sorted(s) && AllAtLeast(s, x)
    ensures Sorted([x] + s)
  {
    var t := [x] + s;
    forall i, j | 0 <= i < j < |t| ensures !Less(t[j], t[i]) {
      if i > 0 {
        assert t[i] == s[i - 1] && t[j] == s[j - 1];
      }
    }
  }

  lemma MergeOfTakesFirst(l1: seq<Word>, l2: seq<Word>)
    requires l1 != [] && (l2 == [] || Less(l1[0], l2[0]))
    ensures MergeOf(l1, l2) == [l1[0]] + MergeOf(l1[1..], l2)
  {
    if l2 == [] {
      assert MergeOf(l1[1..], l2) == l1[1..];
      assert l1 == [l1[0]] + l1[1..];
    }
  }

  lemma MergeOfTakesSecond(l1: seq<Word>, l2: seq<Word>)
    requires l2 != [] && (l1 == [] || !Less(l1[0], l2[0]))
    ensures MergeOf(l1, l2) == [l2[0]] + MergeOf(l1, l2[1..])
  {
    if l1 == [] {
      assert MergeOf(l1, l2[1..]) == l2[1..];
      assert l2 == [l2[0]] + l2[1..];
    }
  }

  /** `result` followed by the merge of what is left of both lists is the whole merge. */
  ghost predicate MergedSoFar(list1: seq<Word>, list2: seq<Word>, i: nat, j: nat, result: seq<Word>)
    requires i <= |list1| && j <= |list2|
  {
    result + MergeOf(list1[i..], list2[j..]) == MergeOf(list1, list2)
  }

  lemma MergeTakeFirst(list1: seq<Word>, list2: seq<Word>, i: nat, j: nat, result: seq<Word>)
    requires i < |list1| && j <= |list2| && MergedSoFar(list1, list2, i, j, result)
    requires j == |list2| || Less(list1[i], list2[j])
    ensures MergedSoFar(list1, list2, i + 1, j, result + [list1[i]])
  {
    MergeOfTakesFirst(list1[i..], list2[j..]);
    assert list1[i..][1..] == list1[i + 1..];
  }

  lemma MergeTakeSecond(list1: seq<Word>, list2: seq<Word>, i: nat, j: nat, result: seq<Word>)
    requires i <= |list1| && j < |list2| && MergedSoFar(list1, list2, i, j, result)
    requires i == |list1| || !Less(list1[i], list2[j])
    ensures MergedSoFar(list1, list2, i, j + 1, result + [list2[j]])
  {
    MergeOfTakesSecond(list1[i..], list2[j..]);
    assert list2[j..][1..] == list2[j + 1..];
  }

  lemma MergeDone(list1: seq<Word>, list2: seq<Word>, result: seq<Word>)
    requires MergedSoFar(list1, list2, |list1|, |list2|, result)
    ensures result == MergeOf(list1, list2)
  {
    assert list1[|list1|..] == [] && list2[|list2|..] == [];
  }

  /** `merge`: two indices walk `list1` and `list2`; the word of `list1` is taken when
      `list2` is used up or that word is smaller. */
  method Merge(list1: seq<Word>, list2: seq<Word>) returns (result: seq<Word>)
    ensures result == MergeOf(list1, list2)
    ensures |result| == |list1| + |list2|
    ensures multiset(result) == multiset(list1) + multiset(list2)
    ensures Sorted(list1) && Sorted(list2) ==> Sorted(result)
  {
    result := [];
    var index1, index2 := 0, 0;
    while index1 < |list1| || index2 < |list2|
      invariant 0 <= index1 <= |list1| && 0 <= index2 <= |list2|
      invariant MergedSoFar(list1, list2, index1, index2, result)
      decreases |list1| - index1 + |list2| - index2
    {
      if index2 >= |list2| || (index1 < |list1| && Less(list1[index1], list2[index2])) {
        MergeTakeFirst(list1, list2, index1, index2, result);
        result := result + [list1[index1]];
        index1 := index1 + 1;
      } else {
        MergeTakeSecond(list1, list2, index1, index2, result);
        result := result + [list2[index2]];
        index2 := index2 + 1;
      }
    }
    MergeDone(list1, list2, result);
    MergeOfPermutation(list1, list2);
    if Sorted(list1) && Sorted(list2) {
      MergeOfSorted(list1, list2);
    }
  }

  /** `merge_sort`: a list shorter than two is returned as it is; otherwise the merge of the
      sorted halves, split at `len / 2` (Python 2 integer division). */
  function MergeSort(list1: seq<Word>): (r: seq<Word>)
    ensures |list1| < 2 ==> r == list1
    ensures Sorted(r)
    ensures multiset(r) == multiset(list1)
    ensures |r| == |list1|
    decreases |list1|
  {
    if |list1| < 2 then list1
    else
      var left, right := list1[..|list1| / 2], list1[|list1| / 2..];
      assert list1 == left + right;
      var sortedLeft, sortedRight := MergeSort(left), MergeSort(right);
      MergeOfSorted(sortedLeft, sortedRight);
      MergeOfPermutation(sortedLeft, sortedRight);
      MergeOf(sortedLeft, sortedRight)
  }

  // gen_all_strings

  /** The strings made by inserting `ch` into `s` at each index `0..n-1`. */
  function InsertEach(s: Word, ch: char, n: nat): seq<Word>
    requires n <= |s| + 1
  {
    seq(n, k requires 0 <= k < n => s[..k] + [ch] + s[k..])
  }

  /** For every string of `strings` in turn, `ch` inserted at every index. */
  function Insertions(strings: seq<Word>, ch: char): seq<Word>
  {
    if strings == [] then []
    else
      var last := strings[|strings| - 1];
      Insertions(strings[..|strings| - 1], ch) + InsertEach(last, ch, |last| + 1)
  }

  /** The list `gen_all_strings` returns: the strings of the rest of the word, followed by
      every insertion of the first letter into each of them. */
  function AllStrings(word: Word): seq<Word>
    decreases |word|
  {
    if |word| == 0 then [""]
    else
      var restStrings := AllStrings(word[1..]);
      restStrings + Insertions(restStrings, word[0])
  }

  /** `gen_all_strings`: recursion on the rest of the word, then the insertions of the
      first letter, then `extend`. */
  method GenAllStrings(word: Word) returns (strings: seq<Word>)
    ensures strings == AllStrings(word)
    ensures |word| == 0 ==> strings == [""]
    ensures |word| > 0 ==> strings[..|AllStrings(word[1..])|] == AllStrings(word[1..])
    ensures forall s :: s in strings ==> multiset(s) <= multiset(word)
    ensures forall s: Word :: multiset(s) <= multiset(word) ==> s in strings
    decreases |word|
  {
    if |word| == 0 {
      return [""];
    }
    var first, rest := word[0], word[1..];
    var restStrings := GenAllStrings(rest);
    var result := InsertLetter(restStrings, first);
    restStrings := restStrings + result;
    strings := restStrings;
    AllStringsLetters(word);
    AllStringsComplete(word);
  }

  /** The two nested loops of `gen_all_strings`: for each string in turn, the letter is
      inserted at every index from the front to the back. */
  method InsertLetter(restStrings: seq<Word>, first: char) returns (result: seq<Word>)
    ensures result == Insertions(restStrings, first)
    ensures |result| == InsertionsCount(restStrings)
  {
    result := [];
    for i := 0 to |restStrings|
      invariant result == Insertions(restStrings[..i], first)
    {
      var str := restStrings[i];
      assert restStrings[..i + 1][..i] == restStrings[..i];
      for index := 0 to |str| + 1
        invariant result == Insertions(restStrings[..i], first) + InsertEach(str, first, index)
      {
        assert InsertEach(str, first, index + 1) ==
          InsertEach(str, first, index) + [str[..index] + [first] + str[index..]];
        result := result + [str[..index] + [first] + str[index..]];
      }
    }
    assert restStrings[..|restStrings|] == restStrings;
    InsertionsLength(restStrings, first);
  }

  /** One string for every string and every insertion index: the sum of the lengths plus
      one. */
  function InsertionsCount(strings: seq<Word>): nat
  {
    if strings == [] then 0
    else InsertionsCount(strings[..|strings| - 1]) + |strings[|strings| - 1]| + 1
  }

  lemma {:induction false} InsertionsLength(strings: seq<Word>, ch: char)
    ensures |Insertions(strings, ch)| == InsertionsCount(strings)
    decreases |strings|
  {
    if strings != [] {
      InsertionsLength(strings[..|strings| - 1], ch);
    }
  }

  lemma InsertEachLetters(s: Word, ch: char, n: nat, t: Word)
    requires n <= |s| + 1 && t in InsertEach(s, ch, n)
    ensures multiset(t) == multiset(s) + multiset{ch}
  {
    var k :| 0 <= k < n && InsertEach(s, ch, n)[k] == t;
    assert s == s[..k] + s[k..];
  }

  lemma {:induction false} InsertionsLetters(strings: seq<Word>, ch: char, t: Word)
    requires t in Insertions(strings, ch)
    ensures exists s :: s in strings && multiset(t) == multiset(s) + multiset{ch}
    decreases |strings|
  {
    var front, last := strings[..|strings| - 1], strings[|strings| - 1];
    if t in Insertions(front, ch) {
      InsertionsLetters(front, ch, t);
      var s :| s in front && multiset(t) == multiset(s) + multiset{ch};
      assert s in strings;
    } else {
      InsertEachLetters(last, ch, |last| + 1, t);
    }
  }

  /** Every string built from `word` uses each letter at most as often as `word` does. */
  lemma {:induction false} AllStringsLetters(word: Word)
    ensures forall s :: s in AllStrings(word) ==> multiset(s) <= multiset(word)
    decreases |word|
  {
    if |word| > 0 {
      var rest := word[1..];
      AllStringsLetters(rest);
      assert word == [word[0]] + rest;
      forall t | t in AllStrings(word) ensures multiset(t) <= multiset(word) {
        if t !in AllStrings(rest) {
          InsertionsLetters(AllStrings(rest), word[0], t);
        }
      }
    }
  }

  /** Inserting `ch` into a string of the list at an index up to its length gives a string
      of the insertions. */
  lemma {:induction false} InsertionsContain(strings: seq<Word>, ch: char, s: Word, k: nat)
    requires s in strings && k <= |s|
    ensures s[..k] + [ch] + s[k..] in Insertions(strings, ch)
    decreases |strings|
  {
    var front, last := strings[..|strings| - 1], strings[|strings| - 1];
    if s == last {
      assert InsertEach(last, ch, |last| + 1)[k] == s[..k] + [ch] + s[k..];
    } else {
      assert s in front;
      InsertionsContain(front, ch, s, k);
    }
  }

  /** Every string whose letters fit into `word` is built from `word`. */
  lemma {:induction false} AllStringsComplete(word: Word)
    ensures forall s: Word :: multiset(s) <= multiset(word) ==> s in AllStrings(word)
    decreases |word|
  {
    forall s: Word | multiset(s) <= multiset(word) ensures s in AllStrings(word) {
      Complete(word, s);
    }
  }

  lemma {:induction false} Complete(word: Word, s: Word)
    requires multiset(s) <= multiset(word)
    ensures s in AllStrings(word)
    decreases |word|
  {
    if |word| == 0 {
      assert |multiset(s)| == 0;
      assert s == "";
    } else {
      var first, rest := word[0], word[1..];
      assert multiset(word) == multiset(rest) + multiset{first} by {
        assert word == [first] + rest;
      }
      if multiset(s) <= multiset(rest) {
        Complete(rest, s);
      } else {
        OutsideRestIsFirst(multiset(s), multiset(rest), first);
        var k :| 0 <= k < |s| && s[k] == first;
        var shorter := s[..k] + s[k + 1..];
        RemoveAt(s, k, shorter);
        MultisetCancel(multiset(shorter), multiset(rest), first);
        Complete(rest, shorter);
        InsertionsContain(AllStrings(rest), first, shorter, k);
      }
    }
  }

  /** Removing the letter at `k` and inserting it there again gives the string back. */
  lemma RemoveAt(s: Word, k: nat, shorter: Word)
    requires k < |s| && shorter == s[..k] + s[k + 1..]
    ensures multiset(s) == multiset(shorter) + multiset{s[k]}
    ensures shorter[..k] + [s[k]] + shorter[k..] == s
  {
    assert s == s[..k] + [s[k]] + s[k + 1..];
    assert shorter[..k] == s[..k] && shorter[k..] == s[k + 1..];
  }

  /** A bag below `b` plus one `x` but not below `b` holds `x`. */
  lemma OutsideRestIsFirst(a: multiset<char>, b: multiset<char>, x: char)
    requires a <= b + multiset{x} && !(a <= b)
    ensures x in a
  {
    var y :| a[y] > b[y];
    assert a[y] <= (b + multiset{x})[y];
  }

  lemma MultisetCancel(a: multiset<char>, b: multiset<char>, x: char)
    requires a + multiset{x} <= b + multiset{x}
    ensures a <= b
  {
    forall y ensures a[y] <= b[y] {
      assert (a + multiset{x})[y] <= (b + multiset{x})[y];
    }
  }
}
