/** Camel cards: five-card hands are typed by how their cards group
    (five of a kind down to high card), ordered by type and then card by
    card, and each bid is weighted by its hand's rank.  In the second part
    'J' is a joker: it takes whatever card makes the hand strongest and
    ranks lowest on its own. */
module Day7 {
  import opened Common

  predicate IsCard(c: char)
  {
    c in "23456789TJQKA"
  }

  /** A card's rank: a digit its value, then T 10, J 11 (1 as a joker),
      Q 12, K 13, A 14.  Any other character has no rank. */
  function CardRank(card: char, withJoker: bool): (r: Option<nat>)
    ensures '0' <= card <= '9' ==> r == Some(card as nat - '0' as nat)
    ensures card == 'J' ==> r == Some(if withJoker then 1 else 11)
    ensures IsCard(card) ==> r.Some? && 1 <= r.value <= 14
    ensures r.Some? ==> r.value <= 14
  {
    if '0' <= card <= '9' then Some(card as nat - '0' as nat)
    else if card == 'T' then Some(10)
    else if card == 'J' then Some(if withJoker then 1 else 11)
    else if card == 'Q' then Some(12)
    else if card == 'K' then Some(13)
    else if card == 'A' then Some(14)
    else None
  }

  /** Different cards rank differently, and a joker ranks below every other
      card. */
  lemma RanksAreDistinct(a: char, b: char, withJoker: bool)
    requires IsCard(a) && IsCard(b) && a != b
    ensures CardRank(a, withJoker) != CardRank(b, withJoker)
    ensures withJoker && a == 'J' ==> CardRank(a, withJoker).value < CardRank(b, withJoker).value
  {
  }

  function Count(cards: seq<char>, c: char): nat
  {
    multiset(cards)[c]
  }

  /** The distinct cards appearing exactly `v` times. */
  function GroupSet(cards: seq<char>, v: nat): set<char>
  {
    set c | c in cards && Count(cards, c) == v
  }

  /** `grouping[v]` is how many distinct cards appear `v` times, for
      `v` in 0..5. */
  function Grouping(cards: seq<char>): (g: seq<nat>)
    ensures |g| == 6 && g[0] == 0
  {
    [0, |GroupSet(cards, 1)|, |GroupSet(cards, 2)|, |GroupSet(cards, 3)|,
     |GroupSet(cards, 4)|, |GroupSet(cards, 5)|]
  }

  /** No card appears more than five times, so every count has a slot. */
  predicate FitsGrouping(cards: seq<char>)
  {
    forall c :: c in cards ==> Count(cards, c) <= 5
  }

  /** The number of cards a grouping accounts for. */
  function Weight(g: seq<nat>): nat
    requires |g| == 6
  {
    g[1] + 2 * g[2] + 3 * g[3] + 4 * g[4] + 5 * g[5]
  }

  lemma CountAppend(cards: seq<char>, x: char, c: char)
    ensures Count(cards + [x], c) == Count(cards, c) + (if c == x then 1 else 0)
  {
    assert multiset(cards + [x]) == multiset(cards) + multiset{x};
  }

  /** Appending a card moves it from its count's group to the next one. */
  lemma GroupSetAppend(cards: seq<char>, x: char, v: nat)
    ensures var k := Count(cards, x);
            GroupSet(cards + [x], v)
            == if v == k + 1 then GroupSet(cards, v) + {x}
               else if v == k then GroupSet(cards, v) - {x}
               else GroupSet(cards, v)
  {
    var k := Count(cards, x);
    var after := GroupSet(cards + [x], v);
    var expected := if v == k + 1 then GroupSet(cards, v) + {x}
                    else if v == k then GroupSet(cards, v) - {x}
                    else GroupSet(cards, v);
    forall c
      ensures c in after <==> c in expected
    {
      CountAppend(cards, x, c);
      if c != x {
        assert c in cards + [x] <==> c in cards;
      } else {
        assert c in cards + [x];
      }
    }
  }

  /** The groups of a hand account for every card in it. */
  lemma {:induction false} GroupingWeighs(cards: seq<char>)
    requires FitsGrouping(cards)
    ensures Weight(Grouping(cards)) == |cards|
    decreases |cards|
  {
    if |cards| > 0 {
      var init := cards[..|cards| - 1];
      var x := cards[|cards| - 1];
      assert cards == init + [x];
      assert FitsGrouping(init) by {
        forall c | c in init
          ensures Count(init, c) <= 5
        {
          CountAppend(init, x, c);
        }
      }
      GroupingWeighs(init);
      CountAppend(init, x, x);
      WeightStep(init, x);
    }
  }

  /** One more card adds one to the weight: it leaves its old group for
      the next one up. */
  lemma WeightStep(init: seq<char>, x: char)
    requires Count(init, x) < 5
    ensures Weight(Grouping(init + [x])) == Weight(Grouping(init)) + 1
  {
    var k := Count(init, x);
    GroupSizeStep(init, x, 1);
    GroupSizeStep(init, x, 2);
    GroupSizeStep(init, x, 3);
    GroupSizeStep(init, x, 4);
    GroupSizeStep(init, x, 5);
  }

  lemma GroupSizeStep(init: seq<char>, x: char, v: nat)
    requires 1 <= v
    ensures var k := Count(init, x);
            |GroupSet(init + [x], v)|
            == |GroupSet(init, v)| + (if v == k + 1 then 1 else 0) - (if v == k then 1 else 0)
  {
    var k := Count(init, x);
    GroupSetAppend(init, x, v);
    if v == k + 1 {
      assert x !in GroupSet(init, v);
    } else if v == k {
      assert x in init by {
        assert multiset(init)[x] > 0;
      }
      assert x in GroupSet(init, v);
    }
  }

  function G(a: nat, b: nat, c: nat, d: nat, e: nat, f: nat): seq<nat>
  {
    [a, b, c, d, e, f]
  }

  /** The grouping the jokers can turn the hand into: each joker becomes
      the card that makes the strongest hand.  An impossible grouping
      raises. */
  function MorphJokers(g: seq<nat>, numJokers: nat): (r: Result<seq<nat>>)
    requires |g| == 6
    ensures r.Ok? ==> |r.value| == 6
    ensures numJokers == 0 || g[5] == 1 ==> r == Ok(g)
  {
    if numJokers == 0 || g[5] == 1 then Ok(g)
    else if g[4] == 1 || (g[3] == 1 && g[2] == 1) then Ok(G(0, 0, 0, 0, 0, 1))
    else if g[3] == 1 then Ok(G(0, 1, 0, 0, 1, 0))
    else if g[2] == 2 then Ok(if numJokers == 2 then G(0, 1, 0, 0, 1, 0) else G(0, 0, 1, 1, 0, 0))
    else if g[2] == 1 then Ok(G(0, 2, 0, 1, 0, 0))
    else if g[1] == 5 then Ok(G(0, 3, 1, 0, 0, 0))
    else Err("ValueError")
  }

  /** Seven for five of a kind down to one for high card. */
  function TypeOf(g: seq<nat>): Result<nat>
    requires |g| == 6
  {
    if g[5] == 1 then Ok(7)
    else if g[4] == 1 then Ok(6)
    else if g[3] == 1 && g[2] == 1 then Ok(5)
    else if g[3] == 1 then Ok(4)
    else if g[2] == 2 then Ok(3)
    else if g[2] == 1 then Ok(2)
    else if g[1] == 5 then Ok(1)
    else Err("ValueError")
  }

  function EvalHandType(cards: seq<char>, withJoker: bool): Result<nat>
  {
    if !FitsGrouping(cards) then Err("list index out of range")
    else
      var g := Grouping(cards);
      var morphed := if withJoker then MorphJokers(g, Count(cards, 'J')) else Ok(g);
      if morphed.Err? then Err(morphed.reason) else TypeOf(morphed.value)
  }

  /** The groupings that account for five cards are the seven hand shapes,
      and each has a type. */
  lemma FiveCardsHaveAType(g: seq<nat>)
    requires |g| == 6 && Weight(g) == 5
    ensures TypeOf(g).Ok? && 1 <= TypeOf(g).value <= 7
    ensures forall j: nat :: MorphJokers(g, j).Ok? && Weight(MorphJokers(g, j).value) == 5
  {
  }

  /** Any five-card hand has a type from 1 to 7, with or without jokers. */
  lemma FiveCardHandType(cards: seq<char>, withJoker: bool)
    requires |cards| == 5
    ensures EvalHandType(cards, withJoker).Ok?
    ensures 1 <= EvalHandType(cards, withJoker).value <= 7
  {
    assert FitsGrouping(cards) by {
      forall c | c in cards
        ensures Count(cards, c) <= 5
      {
        assert |multiset(cards)| == 5;
      }
    }
    GroupingWeighs(cards);
    var g := Grouping(cards);
    FiveCardsHaveAType(g);
    if withJoker {
      FiveCardsHaveAType(MorphJokers(g, Count(cards, 'J')).value);
    }
  }

  /** Jokers never make a hand weaker: the joker type is at least the type
      of the same cards read plainly, and equal to it without a 'J'. */
  lemma JokersNeverHurt(cards: seq<char>)
    requires EvalHandType(cards, true).Ok? && EvalHandType(cards, false).Ok?
    ensures EvalHandType(cards, true).value >= EvalHandType(cards, false).value
    ensures Count(cards, 'J') == 0 ==> EvalHandType(cards, true) == EvalHandType(cards, false)
  {
  }

  /** A hand: its bid, its cards and its type. */
  datatype Hand = Hand(bid: int, cards: seq<char>, handType: int)

  /** Card-by-card comparison of two rank sequences, as far as the shorter
      goes; a tie all the way raises, and comparing an unranked card with
      a different one fails on the subtraction. */
  function CompareRanks(cards1: seq<char>, cards2: seq<char>, withJoker: bool): Result<int>
    decreases |cards1|
  {
    if |cards1| == 0 || |cards2| == 0 then Err("ValueError")
    else
      var r1 := CardRank(cards1[0], withJoker);
      var r2 := CardRank(cards2[0], withJoker);
      if r1 != r2 then
        if r1.Some? && r2.Some? then Ok(r1.value - r2.value) else Err("TypeError")
      else CompareRanks(cards1[1..], cards2[1..], withJoker)
  }

  /** Negative when `hand1` ranks lower: by type first, then card by card. */
  function CompareHands(hand1: Hand, hand2: Hand, withJoker: bool): Result<int>
  {
    if hand1.handType != hand2.handType then Ok(hand1.handType - hand2.handType)
    else CompareRanks(hand1.cards, hand2.cards, withJoker)
  }

  lemma {:induction false} CompareRanksAntisymmetric(cards1: seq<char>, cards2: seq<char>, withJoker: bool)
    ensures CompareRanks(cards1, cards2, withJoker).Ok? <==> CompareRanks(cards2, cards1, withJoker).Ok?
    ensures CompareRanks(cards1, cards2, withJoker).Ok? ==>
      CompareRanks(cards1, cards2, withJoker).value == -CompareRanks(cards2, cards1, withJoker).value
    ensures CompareRanks(cards1, cards2, withJoker).Ok? ==> CompareRanks(cards1, cards2, withJoker).value != 0
    decreases |cards1|
  {
    if |cards1| > 0 && |cards2| > 0 && CardRank(cards1[0], withJoker) == CardRank(cards2[0], withJoker) {
      CompareRanksAntisymmetric(cards1[1..], cards2[1..], withJoker);
    }
  }

  /** Swapping the hands negates the comparison, and two hands never
      compare equal: they differ, or the comparison raises. */
  lemma CompareHandsAntisymmetric(hand1: Hand, hand2: Hand, withJoker: bool)
    ensures CompareHands(hand1, hand2, withJoker).Ok? <==> CompareHands(hand2, hand1, withJoker).Ok?
    ensures CompareHands(hand1, hand2, withJoker).Ok? ==>
      CompareHands(hand1, hand2, withJoker).value == -CompareHands(hand2, hand1, withJoker).value
      && CompareHands(hand1, hand2, withJoker).value != 0
  {
    CompareRanksAntisymmetric(hand1.cards, hand2.cards, withJoker);
  }

  predicate AllCards(cards: seq<char>)
  {
    forall k :: 0 <= k < |cards| ==> IsCard(cards[k])
  }

  /** Lexicographic order on card ranks, as far as the shorter goes. */
  predicate RanksLess(cards1: seq<char>, cards2: seq<char>, withJoker: bool)
    decreases |cards1|
  {
    |cards1| > 0 && |cards2| > 0
    && var r1 := CardRank(cards1[0], withJoker);
       var r2 := CardRank(cards2[0], withJoker);
       r1.Some? && r2.Some?
       && (r1.value < r2.value || (r1 == r2 && RanksLess(cards1[1..], cards2[1..], withJoker)))
  }

  /** The order the comparison sorts by: type, then ranks. */
  predicate HandLess(hand1: Hand, hand2: Hand, withJoker: bool)
  {
    hand1.handType < hand2.handType
    || (hand1.handType == hand2.handType && RanksLess(hand1.cards, hand2.cards, withJoker))
  }

  lemma {:induction false} CompareRanksIsLex(cards1: seq<char>, cards2: seq<char>, withJoker: bool)
    requires AllCards(cards1) && AllCards(cards2)
    ensures CompareRanks(cards1, cards2, withJoker).Ok? && CompareRanks(cards1, cards2, withJoker).value < 0
            <==> RanksLess(cards1, cards2, withJoker)
    decreases |cards1|
  {
    if |cards1| > 0 && |cards2| > 0 {
      assert IsCard(cards1[0]) && IsCard(cards2[0]);
      assert AllCards(cards1[1..]) && AllCards(cards2[1..]) by {
        forall k | 0 <= k < |cards1| - 1 ensures IsCard(cards1[1..][k]) {
          assert cards1[1..][k] == cards1[k + 1];
        }
        forall k | 0 <= k < |cards2| - 1 ensures IsCard(cards2[1..][k]) {
          assert cards2[1..][k] == cards2[k + 1];
        }
      }
      CompareRanksIsLex(cards1[1..], cards2[1..], withJoker);
    }
  }

  /** For hands of real cards the comparison is negative exactly when the
      first hand comes first in the type-then-ranks order. */
  lemma CompareHandsIsOrder(hand1: Hand, hand2: Hand, withJoker: bool)
    requires AllCards(hand1.cards) && AllCards(hand2.cards)
    ensures CompareHands(hand1, hand2, withJoker).Ok? && CompareHands(hand1, hand2, withJoker).value < 0
            <==> HandLess(hand1, hand2, withJoker)
  {
    CompareRanksIsLex(hand1.cards, hand2.cards, withJoker);
  }

  lemma {:induction false} RanksLessAsymmetric(cards1: seq<char>, cards2: seq<char>, withJoker: bool)
    ensures RanksLess(cards1, cards2, withJoker) ==> !RanksLess(cards2, cards1, withJoker)
    decreases |cards1|
  {
    if |cards1| > 0 && |cards2| > 0 {
      RanksLessAsymmetric(cards1[1..], cards2[1..], withJoker);
    }
  }

  /** Part of a hand's winnings: its bid times its place in the order. */
  function Winnings(sorted: seq<Hand>): int
  {
    if |sorted| == 0 then 0 else Winnings(sorted[..|sorted| - 1]) + |sorted| * sorted[|sorted| - 1].bid
  }

  /** A hand's rank: one more than the number of hands it beats. */
  function RankIn(hands: seq<Hand>, i: nat, withJoker: bool): nat
    requires i < |hands|
  {
    1 + |set j: nat | j < |hands| && HandLess(hands[j], hands[i], withJoker)|
  }

  function WinningsByRank(hands: seq<Hand>, n: nat, withJoker: bool): int
    requires n <= |hands|
  {
    if n == 0 then 0 else WinningsByRank(hands, n - 1, withJoker) + RankIn(hands, n - 1, withJoker) * hands[n - 1].bid
  }

  predicate SortedBy(hands: seq<Hand>, withJoker: bool)
  {
    forall i, j :: 0 <= i < j < |hands| ==> HandLess(hands[i], hands[j], withJoker)
  }

  /** In a strictly sorted list a hand's rank is its place. */
  lemma RankIsPlace(hands: seq<Hand>, i: nat, withJoker: bool)
    requires SortedBy(hands, withJoker) && i < |hands|
    ensures RankIn(hands, i, withJoker) == i + 1
  {
    var beaten := set j: nat | j < |hands| && HandLess(hands[j], hands[i], withJoker);
    forall j: nat | j < |hands|
      ensures j in beaten <==> j < i
    {
      if j > i {
        RanksLessAsymmetric(hands[i].cards, hands[j].cards, withJoker);
      } else if j == i {
        RanksLessAsymmetric(hands[i].cards, hands[i].cards, withJoker);
      }
    }
    assert beaten == Range(i);
  }

  /** The winnings of the sorted hands are each bid times the hand's rank,
      a sum that does not depend on how the list was put in order. */
  lemma {:induction false} WinningsAreRankWeighted(hands: seq<Hand>, n: nat, withJoker: bool)
    requires SortedBy(hands, withJoker) && n <= |hands|
    ensures Winnings(hands[..n]) == WinningsByRank(hands, n, withJoker)
    decreases n
  {
    if n > 0 {
      WinningsAreRankWeighted(hands, n - 1, withJoker);
      RankIsPlace(hands, n - 1, withJoker);
      assert hands[..n][..n - 1] == hands[..n - 1];
    }
  }
}
