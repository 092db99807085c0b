/** yahtzee.py: the enumerators of the Yahtzee planner. A hand or a hold is a tuple of die
    values, here a sequence of integers; a set of tuples is a set of sequences. */
module Yahtzee {
  import opened SeqUtil

  type Dice = seq<int>

  // gen_all_sequences

  /** One round of `gen_all_sequences`: every sequence of `partials` extended by every
      outcome. */
  function Extend(partials: set<Dice>, outcomes: seq<int>): set<Dice>
  {
    set p, i | p in partials && 0 <= i < |outcomes| :: p + [outcomes[i]]
  }

  /** The set after `length` rounds, starting from the set holding only the empty tuple. */
  function Sequences(outcomes: seq<int>, length: nat): set<Dice>
  {
    if length == 0 then {[]} else Extend(Sequences(outcomes, length - 1), outcomes)
  }

  /** The sequences of `length` elements, each of them one of the `outcomes`. */
  ghost predicate IsOutcomeSequence(s: Dice, outcomes: seq<int>, length: nat)
  {
    |s| == length && forall i :: 0 <= i < |s| ==> s[i] in outcomes
  }

  /** `gen_all_sequences`: `length` rounds, each building a new set from every partial
      sequence of the previous one followed by every outcome. */
  method GenAllSequences(outcomes: seq<int>, length: nat) returns (answerSet: set<Dice>)
    ensures answerSet == Sequences(outcomes, length)
    ensures length == 0 ==> answerSet == {[]}
    ensures forall s :: s in answerSet <==> IsOutcomeSequence(s, outcomes, length)
  {
    answerSet := {[]};
    for round := 0 to length
      invariant answerSet == Sequences(outcomes, round)
    {
      answerSet := NextRound(answerSet, outcomes);
    }
    SequencesMembership(outcomes, length);
  }

  /** The body of one round: every partial sequence of the set, taken in some order, with
      every outcome appended. */
  method NextRound(answerSet: set<Dice>, outcomes: seq<int>) returns (tempSet: set<Dice>)
    ensures tempSet == Extend(answerSet, outcomes)
  {
    tempSet := {};
    var remaining := answerSet;
    while remaining != {}
      invariant remaining <= answerSet
      invariant tempSet == Extend(answerSet - remaining, outcomes)
      decreases |remaining|
    {
      var partialSequence :| partialSequence in remaining;
      ghost var before := tempSet;
      for j := 0 to |outcomes|
        invariant tempSet == before + Appended(partialSequence, outcomes, j)
      {
        AppendedStep(partialSequence, outcomes, j);
        tempSet := tempSet + {partialSequence + [outcomes[j]]};
      }
      ExtendOne(answerSet, remaining, partialSequence, outcomes);
      remaining := remaining - {partialSequence};
    }
    assert answerSet - remaining == answerSet;
  }

  /** `p` followed by each of the first `n` outcomes. */
  function Appended(p: Dice, outcomes: seq<int>, n: nat): set<Dice>
    requires n <= |outcomes|
  {
    set i | 0 <= i < n :: p + [outcomes[i]]
  }

  lemma AppendedStep(p: Dice, outcomes: seq<int>, n: nat)
    requires n < |outcomes|
    ensures Appended(p, outcomes, n + 1) == Appended(p, outcomes, n) + {p + [outcomes[n]]}
  {
  }

  /** Moving one partial sequence from the remaining ones to the done ones adds its
      extensions to the round. */
  lemma ExtendOne(all: set<Dice>, remaining: set<Dice>, p: Dice, outcomes: seq<int>)
    requires remaining <= all && p in remaining
    ensures Extend(all - (remaining - {p}), outcomes) ==
      Extend(all - remaining, outcomes) + Appended(p, outcomes, |outcomes|)
  {
    assert all - (remaining - {p}) == (all - remaining) + {p};
  }

  /** The rounds produce exactly the sequences of the given length over the outcomes. */
  lemma {:induction false} SequencesMembership(outcomes: seq<int>, length: nat)
    ensures forall s :: s in Sequences(outcomes, length) <==> IsOutcomeSequence(s, outcomes, length)
  {
    if length > 0 {
      SequencesMembership(outcomes, length - 1);
      var previous := Sequences(outcomes, length - 1);
      forall s | IsOutcomeSequence(s, outcomes, length)
        ensures s in Sequences(outcomes, length)
      {
        var front := s[..length - 1];
        assert IsOutcomeSequence(front, outcomes, length - 1) by {
          forall i | 0 <= i < |front| ensures front[i] in outcomes {
            assert front[i] == s[i];
          }
        }
        var j :| 0 <= j < |outcomes| && outcomes[j] == s[length - 1];
        assert s == front + [outcomes[j]];
      }
      forall s | s in Sequences(outcomes, length)
        ensures IsOutcomeSequence(s, outcomes, length)
      {
        var p, i :| p in previous && 0 <= i < |outcomes| && s == p + [outcomes[i]];
        assert IsOutcomeSequence(p, outcomes, length - 1);
        forall m | 0 <= m < |s| ensures s[m] in outcomes {
          if m < |p| {
            assert s[m] == p[m];
          }
        }
      }
    }
  }

  // score

  /** How often `item` occurs in `hand`, Python's `hand.count(item)`. */
  function Count(hand: Dice, item: int): nat
  {
    multiset(hand)[item]
  }

  /** `score`: the largest `item * hand.count(item)` over the items of the hand. Python's
      `max` of an empty generator raises, so the hand must not be empty. */
  function Score(hand: Dice): (r: int)
    requires |hand| > 0
    ensures exists i :: 0 <= i < |hand| && r == hand[i] * Count(hand, hand[i])
    ensures forall i :: 0 <= i < |hand| ==> hand[i] * Count(hand, hand[i]) <= r
  {
    BestOf(hand, |hand|)
  }

  /** The largest `item * hand.count(item)` over the first `n` items. */
  function BestOf(hand: Dice, n: nat): (r: int)
    requires 0 < n <= |hand|
    ensures exists i :: 0 <= i < n && r == hand[i] * Count(hand, hand[i])
    ensures forall i :: 0 <= i < n ==> hand[i] * Count(hand, hand[i]) <= r
  {
    var value := hand[n - 1] * Count(hand, hand[n - 1]);
    if n == 1 then value
    else
      var best := BestOf(hand, n - 1);
      if value > best then value else best
  }

  /** A score is at least every non-negative die of the hand: that die occurs at least
      once. */
  lemma ScoreAtLeastDie(hand: Dice, i: nat)
    requires i < |hand| && hand[i] >= 0
    ensures Score(hand) >= hand[i]
  {
    assert hand[i] in multiset(hand);
    assert hand[i] * Count(hand, hand[i]) >= hand[i] * 1;
  }

  // gen_all_holds

  /** Every hold of `holds` followed by `item`. */
  function AppendEach(holds: seq<Dice>, item: int): seq<Dice>
  {
    seq(|holds|, i requires 0 <= i < |holds| => holds[i] + [item])
  }

  /** The list `gen_all_holds` builds before turning it into a set: for each item of the
      hand, the list so far followed by each of its holds extended by the item. */
  function HoldList(hand: Dice): seq<Dice>
  {
    if hand == [] then [[]]
    else
      var previous := HoldList(hand[..|hand| - 1]);
      previous + AppendEach(previous, hand[|hand| - 1])
  }

  /** `gen_all_holds`: the inner loop walks the list bound before `all_holds` is rebound
      by the concatenation, so each item doubles the list. */
  method GenAllHolds(hand: Dice) returns (holds: set<Dice>)
    ensures holds == set h | h in HoldList(hand)
    ensures forall h :: h in holds <==> IsSubseq(h, hand)
    ensures [] in holds && hand in holds
    ensures forall h :: h in holds ==> |h| <= |hand| && forall x :: x in h ==> x in hand
  {
    var allHolds: seq<Dice> := [[]];
    for k := 0 to |hand|
      invariant allHolds == HoldList(hand[..k])
    {
      var item := hand[k];
      assert hand[..k + 1][..k] == hand[..k];
      var iterated := allHolds;
      for j := 0 to |iterated|
        invariant allHolds == iterated + AppendEach(iterated[..j], item)
      {
        assert AppendEach(iterated[..j + 1], item) ==
          AppendEach(iterated[..j], item) + [iterated[j] + [item]];
        allHolds := allHolds + [iterated[j] + [item]];
      }
      assert iterated[..|iterated|] == iterated;
    }
    assert hand[..|hand|] == hand;
    holds := set h | h in allHolds;
    HoldListSubseq(hand);
    EmptyIsSubseq(hand);
    IsSubseqSelf(hand);
    forall h | h in holds
      ensures |h| <= |hand| && forall x :: x in h ==> x in hand
    {
      IsSubseqLength(h, hand);
      IsSubseqElements(h, hand);
    }
  }

  /** The holds are exactly the order-preserving subsequences of the hand. */
  lemma {:induction false} HoldListSubseq(hand: Dice)
    ensures forall h :: h in HoldList(hand) <==> IsSubseq(h, hand)
    decreases |hand|
  {
    if hand == [] {
      forall h ensures h in HoldList(hand) <==> IsSubseq(h, hand) {
        if h != [] {
          assert !IsSubseq(h, hand);
        }
      }
    } else {
      var front, item := hand[..|hand| - 1], hand[|hand| - 1];
      HoldListSubseq(front);
      assert hand == front + [item];
      var previous := HoldList(front);
      forall h ensures h in HoldList(hand) <==> IsSubseq(h, hand) {
        IsSubseqSnoc(h, front, item);
        if h in AppendEach(previous, item) {
          var i :| 0 <= i < |previous| && AppendEach(previous, item)[i] == h;
          assert h[..|h| - 1] == previous[i];
        }
        if h != [] && h[|h| - 1] == item && IsSubseq(h[..|h| - 1], front) {
          var i :| 0 <= i < |previous| && previous[i] == h[..|h| - 1];
          assert AppendEach(previous, item)[i] == h;
        }
      }
    }
  }

  function Pow2(n: nat): nat
  {
    if n == 0 then 1 else 2 * Pow2(n - 1)
  }

  /** The list has one hold for every subset of the hand's positions: `2^len(hand)`
      entries, duplicates included. */
  lemma {:induction false} HoldListLength(hand: Dice)
    ensures |HoldList(hand)| == Pow2(|hand|)
    decreases |hand|
  {
    if hand != [] {
      HoldListLength(hand[..|hand| - 1]);
    }
  }
}
