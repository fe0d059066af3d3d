/** `cards_by_rank` (`rlcard/games/go_fish/utils.py`): group a list of cards
    by rank, each group in the order the cards came in. */
module FishUtils {
  import opened Cards

  /** `cards_by_rank`: walk the cards in order, appending each to its rank's list. */
  function CardsByRank(cards: seq<Card>): (m: map<Rank, seq<Card>>)
    decreases |cards|
  {
    if |cards| == 0 then map[]
    else
      var m := CardsByRank(cards[..|cards| - 1]);
      var c := cards[|cards| - 1];
      m[c.rank := (if c.rank in m then m[c.rank] else []) + [c]]
  }

  /** Reference definition: the cards of rank `r`, in input order. */
  function OfRank(cards: seq<Card>, r: Rank): seq<Card>
    decreases |cards|
  {
    if |cards| == 0 then []
    else
      var c := cards[|cards| - 1];
      OfRank(cards[..|cards| - 1], r) + (if c.rank == r then [c] else [])
  }

  /** The cards of rank `r` are exactly the input's cards of rank `r`. */
  lemma {:induction false} OfRankMembers(cards: seq<Card>, r: Rank)
    ensures forall c :: c in OfRank(cards, r) <==> c in cards && c.rank == r
    decreases |cards|
  {
    if |cards| > 0 {
      var init := cards[..|cards| - 1];
      OfRankMembers(init, r);
      assert cards == init + [cards[|cards| - 1]];
    }
  }

  /** Grouping distributes over concatenation, so each group keeps the input order. */
  lemma {:induction false} OfRankAppend(a: seq<Card>, b: seq<Card>, r: Rank)
    ensures OfRank(a + b, r) == OfRank(a, r) + OfRank(b, r)
    decreases |b|
  {
    if |b| > 0 {
      var init := b[..|b| - 1];
      assert (a + b)[..|a + b| - 1] == a + init;
      OfRankAppend(a, init, r);
    } else {
      assert a + b == a;
    }
  }

  /** Each group of `cards_by_rank` is the input's cards of that rank, in
      input order, and a rank has a group exactly when one of its cards occurs. */
  lemma {:induction false} CardsByRankGroups(cards: seq<Card>)
    ensures forall r: Rank :: r in CardsByRank(cards) <==> exists c :: c in cards && c.rank == r
    ensures forall r | r in CardsByRank(cards) :: CardsByRank(cards)[r] == OfRank(cards, r)
    ensures forall r | r in CardsByRank(cards) :: |CardsByRank(cards)[r]| > 0
    ensures forall r: Rank | r !in CardsByRank(cards) :: OfRank(cards, r) == []
    decreases |cards|
  {
    if |cards| > 0 {
      var init := cards[..|cards| - 1];
      var c := cards[|cards| - 1];
      CardsByRankGroups(init);
      assert cards == init + [c];
      forall r: Rank | exists x :: x in cards && x.rank == r
        ensures r in CardsByRank(cards)
      {
        var x :| x in cards && x.rank == r;
        if x != c {
          assert x in init;
        }
      }
    }
  }

  /** The total length of the groups, over the ranks from `k` up. */
  function LengthsFrom(m: map<Rank, seq<Card>>, k: nat): nat
    decreases 13 - k
  {
    if k >= 13 then 0
    else (if k in m then |m[k]| else 0) + LengthsFrom(m, k + 1)
  }

  /** Appending one card to one group adds one to the total from every rank at or below it. */
  lemma {:induction false} LengthsFromAppend(m: map<Rank, seq<Card>>, r: Rank, c: Card, k: nat)
    ensures LengthsFrom(m[r := (if r in m then m[r] else []) + [c]], k)
         == LengthsFrom(m, k) + (if k <= r then 1 else 0)
    decreases 13 - k
  {
    if k < 13 {
      LengthsFromAppend(m, r, c, k + 1);
    }
  }

  /** No card is lost or duplicated: the group lengths sum to the number of cards. */
  lemma {:induction false} CardsByRankSize(cards: seq<Card>)
    ensures LengthsFrom(CardsByRank(cards), 0) == |cards|
    decreases |cards|
  {
    if |cards| > 0 {
      var init := cards[..|cards| - 1];
      var c := cards[|cards| - 1];
      CardsByRankSize(init);
      LengthsFromAppend(CardsByRank(init), c.rank, c, 0);
    }
  }
}
