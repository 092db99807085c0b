/** Order-preserving subsequences, shared by the word list utilities and the dice holds. */
module SeqUtil {

  /** `a` is an order-preserving subsequence of `b`: `a` arises from `b` by dropping some
      elements and keeping the rest in their order. */
  predicate IsSubseq<T(==)>(a: seq<T>, b: seq<T>)
    decreases |b|
  {
    if a == [] then true
    else if b == [] then false
    else (a[|a| - 1] == b[|b| - 1] && IsSubseq(a[..|a| - 1], b[..|b| - 1])) ||
         IsSubseq(a, b[..|b| - 1])
  }

  lemma {:induction false} IsSubseqSelf<T>(a: seq<T>)
    ensures IsSubseq(a, a)
    decreases |a|
  {
    if a != [] {
      IsSubseqSelf(a[..|a| - 1]);
    }
  }

  lemma EmptyIsSubseq<T>(b: seq<T>)
    ensures IsSubseq([], b)
  {
  }

  /** Appending one element `x` to `b`: the subsequences of `b + [x]` are those of `b` and
      those of `b` followed by `x`. */
  lemma IsSubseqSnoc<T>(a: seq<T>, b: seq<T>, x: T)
    ensures IsSubseq(a, b + [x]) <==>
      IsSubseq(a, b) || (a != [] && a[|a| - 1] == x && IsSubseq(a[..|a| - 1], b))
  {
    assert (b + [x])[..|b + [x]| - 1] == b;
  }

  /** A subsequence keeps only elements of the sequence. */
  lemma {:induction false} IsSubseqElements<T>(a: seq<T>, b: seq<T>)
    requires IsSubseq(a, b)
    ensures forall x :: x in a ==> x in b
    decreases |b|
  {
    if a != [] {
      var b' := b[..|b| - 1];
      if a[|a| - 1] == b[|b| - 1] && IsSubseq(a[..|a| - 1], b') {
        IsSubseqElements(a[..|a| - 1], b');
        assert a == a[..|a| - 1] + [a[|a| - 1]];
        assert b == b' + [b[|b| - 1]];
      } else {
        IsSubseqElements(a, b');
        assert b == b' + [b[|b| - 1]];
      }
    }
  }

  /** A subsequence is never longer than the sequence. */
  lemma {:induction false} IsSubseqLength<T>(a: seq<T>, b: seq<T>)
    requires IsSubseq(a, b)
    ensures |a| <= |b|
    decreases |b|
  {
    if a != [] {
      if a[|a| - 1] == b[|b| - 1] && IsSubseq(a[..|a| - 1], b[..|b| - 1]) {
        IsSubseqLength(a[..|a| - 1], b[..|b| - 1]);
      } else {
        IsSubseqLength(a, b[..|b| - 1]);
      }
    }
  }
}
