/** The public operations of the Go Fish knowledge tracker keep the invariant,
    never fail from a valid player, and do what their callers rely on. */
module FishTheorems {
  import opened Results
  import opened Cards
  import opened FishPlayer
  import opened FishKnowledge

  /** A fresh player knows nothing and has every rank in play. */
  lemma NewPlayerIsValid()
    ensures Valid(NewPlayer())
    ensures forall r: Rank :: r in NewPlayer().remaining
  {
  }

  /** An empty pass of the fixpoint means neither rule fired. */
  lemma SettledParts(p: Player)
    requires ToReveal(p) == Ok({})
    ensures Pooled(p) == {} && Eliminated(p) == {}
  {
  }

  /** When the matching rule does not fire, every possible set has two cards or more. */
  lemma PossibleSetsAreLarge(p: Player)
    requires Sound(p) && Pooled(p) == {}
    ensures forall r | r in p.possible :: |p.possible[r]| >= 2
  {
    forall r | r in p.possible ensures |p.possible[r]| >= 2 {
      var w :| w in CardsOfRank(p.possible[r] * p.concealed, r);
      assert r in SameSets(p, p.possible[r]);
      assert |p.possible[r]| <= 1 ==> w in Pooled(p);
    }
  }

  /** When the elimination rule does not fire, every concealed card has two
      candidate ranks or more, its own among them. */
  lemma CandidatesAreMany(p: Player)
    requires p.concealed <= p.hand && InPlay(p) && Sound(p) && Eliminated(p) == {}
    ensures forall c | c in p.concealed :: c.rank in Candidates(p, c) && |Candidates(p, c)| >= 2
  {
    forall c | c in p.concealed ensures c.rank in Candidates(p, c) && |Candidates(p, c)| >= 2 {
      if c.rank in p.notPossible {
        assert c !in CardsOfRank(p.notPossible[c.rank], c.rank);
      }
      assert c.rank in Candidates(p, c);
      assert c !in Eliminated(p);
    }
  }

  /** After the fixpoint no possible set is down to one card and every
      concealed card still has at least two candidate ranks, its own among them. */
  lemma SettledMeansUndetermined(p: Player)
    requires Coherent(p) && ToReveal(p) == Ok({})
    ensures forall r | r in p.possible :: |p.possible[r]| >= 2
    ensures forall c | c in p.concealed :: c.rank in Candidates(p, c) && |Candidates(p, c)| >= 2
  {
    SettledParts(p);
    PossibleSetsAreLarge(p);
    CandidatesAreMany(p);
  }

  /** `reveal_card` on a concealed card: the card becomes public, the hand is
      unchanged, nothing known is forgotten, and the fixpoint has settled. */
  lemma RevealCardIsSafe(p: Player, c: Card)
    requires Valid(p) && c in p.concealed
    ensures RevealCard(p, c).Ok?
    ensures var q := RevealCard(p, c).value;
      && Valid(q) && IsPublic(q, c) && q.hand == p.hand && KnownKept(p, q)
      && ToReveal(q) == Ok({})
  {
    RevealCardKeeps(p, c, {});
  }

  // ---------------------------------------------------------------------------
  // receive_cards
  // ---------------------------------------------------------------------------

  /** Adding a card changes only the cards of its own rank. */
  lemma CardsOfRankAdd(s: set<Card>, c: Card, r: Rank)
    ensures CardsOfRank(s + {c}, r) == if r == c.rank then CardsOfRank(s, r) + {c} else CardsOfRank(s, r)
  {
  }

  /** One more card of a rank, one more in its count. */
  lemma CountsAdd(hand: set<Card>, counts: map<Rank, int>, c: Card)
    requires CountsMatch(hand, counts) && c !in hand
    ensures CountsMatch(hand + {c}, counts[c.rank := CountOf(counts, c.rank) + 1])
  {
    var counts' := counts[c.rank := CountOf(counts, c.rank) + 1];
    forall r: Rank ensures CountOf(counts', r) == |CardsOfRank(hand + {c}, r)| {
      CardsOfRankAdd(hand, c, r);
      assert CountOf(counts, r) == |CardsOfRank(hand, r)|;
    }
  }

  /** `_add_card_to_hand` keeps the count of the card's rank right. */
  lemma AddCardCounted(p: Player, c: Card)
    requires Counted(p) && c !in p.hand
    ensures Counted(AddCard(p, c))
  {
    CountsAdd(p.hand, p.handByRank, c);
  }

  lemma AddCardSplit(p: Player, c: Card)
    requires HandSplit(p) && c !in p.hand
    ensures HandSplit(AddCard(p, c))
  {
  }

  lemma AddCardInPlay(p: Player, c: Card)
    requires InPlay(p) && c.rank in p.remaining
    ensures InPlay(AddCard(p, c))
  {
  }

  lemma AddCardSound(p: Player, c: Card)
    requires Sound(p)
    ensures Sound(AddCard(p, c))
  {
    var q := AddCard(p, c);
    forall r | r in q.possible ensures CardsOfRank(q.possible[r] * q.concealed, r) != {} {
      var w :| w in CardsOfRank(p.possible[r] * p.concealed, r);
      assert w in CardsOfRank(q.possible[r] * q.concealed, r);
    }
  }

  lemma AddCardTidy(p: Player, c: Card)
    requires TidyExcept(p, {})
    ensures TidyExcept(AddCard(p, c), {})
  {
  }

  /** `_add_card_to_hand` of a new card of a rank in play keeps the invariant. */
  lemma AddCardKeeps(p: Player, c: Card)
    requires Valid(p) && c !in p.hand && c.rank in p.remaining
    ensures Valid(AddCard(p, c))
  {
    AddCardSplit(p, c);
    AddCardInPlay(p, c);
    AddCardSound(p, c);
    AddCardTidy(p, c);
    AddCardCounted(p, c);
  }

  /** One card of the first loop of `receive_cards`: it joins the hand, and is
      public afterwards when received publicly. */
  lemma AddOneKeeps(p: Player, c: Card, public: bool)
    requires Valid(p) && c !in p.hand && c.rank in p.remaining
    ensures AddOne(p, c, public).Ok?
    ensures var q := AddOne(p, c, public).value;
      && Valid(q) && q.hand == p.hand + {c}
      && q.books == p.books && q.remaining == p.remaining
      && (forall x | IsPublic(p, x) :: IsPublic(q, x))
      && (public ==> IsPublic(q, c))
  {
    AddCardKeeps(p, c);
    if public {
      RevealCardIsSafe(AddCard(p, c), c);
    }
  }

  /** The first loop of `receive_cards`: every card lands in the hand, and is
      public afterwards when received publicly. */
  lemma {:induction false} AddCardsKeeps(p: Player, cards: seq<Card>, public: bool)
    requires Valid(p) && Distinct(cards)
    requires forall c | c in cards :: c !in p.hand && c.rank in p.remaining
    ensures AddCards(p, cards, public).Ok?
    ensures var q := AddCards(p, cards, public).value;
      && Valid(q) && q.hand == p.hand + Elements(cards)
      && q.books == p.books && q.remaining == p.remaining
      && (forall x | IsPublic(p, x) :: IsPublic(q, x))
      && (public ==> forall c | c in cards :: IsPublic(q, c))
    decreases |cards|
  {
    if |cards| > 0 {
      var c := cards[0];
      AddOneKeeps(p, c, public);
      var q1 := AddOne(p, c, public).value;
      DistinctTail(cards);
      AddCardsKeeps(q1, cards[1..], public);
      var q := AddCards(q1, cards[1..], public).value;
      ElementsCons(cards);
      if public {
        forall x | x in cards ensures IsPublic(q, x) {
          if x != c {
            assert x in cards[1..];
          }
        }
      }
    }
  }

  /** The ranks of which `held` has all four cards. */
  function FullRanks(held: set<Card>, among: set<Rank>): set<Rank> {
    set r | r in among && |CardsOfRank(held, r)| == 4
  }

  /** The ranks counted four times, from rank `k` upwards. */
  function FourCounts(p: Player, k: nat): set<Rank> {
    set r | r in p.handByRank && k <= r && p.handByRank[r] == 4
  }

  /** The cards of `s` whose rank is not in `ranks`. */
  function WithoutRanks(s: set<Card>, ranks: set<Rank>): set<Card> {
    set c | c in s && c.rank !in ranks
  }

  lemma WithoutRanksStep(s: set<Card>, k: Rank, ranks: set<Rank>)
    ensures WithoutRanks(s - CardsOfRank(s, k), ranks) == WithoutRanks(s, {k} + ranks)
  {
  }

  lemma FourCountsTake(p: Player, q: Player, k: Rank)
    requires k in p.handByRank && p.handByRank[k] == 4 && q.handByRank == p.handByRank[k := 0]
    ensures FourCounts(p, k) == {k} + FourCounts(q, k + 1)
  {
  }

  lemma FourCountsSkip(p: Player, k: Rank)
    requires !(k in p.handByRank && p.handByRank[k] == 4)
    ensures FourCounts(p, k) == FourCounts(p, k + 1)
  {
  }

  /** Counted four times means all four cards of a rank in play are held. */
  lemma FourCountsAreFull(p: Player)
    requires Counted(p) && InPlay(p)
    ensures FourCounts(p, 0) == FullRanks(p.hand, p.remaining)
  {
    forall r | r in FourCounts(p, 0) ensures r in FullRanks(p.hand, p.remaining) {
      assert CountOf(p.handByRank, r) == 4;
      var x :| x in CardsOfRank(p.hand, r);
    }
    forall r | r in FullRanks(p.hand, p.remaining) ensures r in FourCounts(p, 0) {
      assert CountOf(p.handByRank, r) == 4;
    }
  }

  /** One book of the book-extraction loop of `receive_cards`. */
  lemma BookKeeps(p: Player, r: Rank)
    requires Valid(p) && r in p.handByRank && p.handByRank[r] == 4
    ensures MarkBookCompleted(p.(books := p.books + {r}), r).Ok?
    ensures var q := MarkBookCompleted(p.(books := p.books + {r}), r).value;
      && Valid(q) && q.hand == p.hand - CardsOfRank(p.hand, r)
      && q.books == p.books + {r} && q.remaining == p.remaining - {r}
      && q.handByRank == p.handByRank[r := 0]
      && (forall x | IsPublic(p, x) && x.rank != r :: IsPublic(q, x))
  {
    FullRankInPlay(p, r);
    BooksFrame(p, p.books + {r});
    MarkBookCompletedKeeps(p.(books := p.books + {r}), r);
    MarkBookCompletedPublic(p.(books := p.books + {r}), r);
  }

  /** A rank counted four times is held, hence in play. */
  lemma FullRankInPlay(p: Player, r: Rank)
    requires Counted(p) && InPlay(p) && r in p.handByRank && p.handByRank[r] == 4
    ensures r in p.remaining
  {
    assert CountOf(p.handByRank, r) == 4;
    var x :| x in CardsOfRank(p.hand, r);
  }

  /** The books play no part in the invariant between books and play. */
  lemma BooksFrame(p: Player, books: set<Rank>)
    requires Coherent(p) && Counted(p) && TidyExcept(p, {})
    ensures var q := p.(books := books); Coherent(q) && Counted(q) && TidyExcept(q, {})
  {
  }

  /** The book-extraction loop of `receive_cards` never fails on a valid
      player: exactly the ranks counted four times become books, and the
      player stays valid. */
  lemma {:induction false} ExtractBooksKeeps(p: Player, k: nat, done: set<Rank>)
    requires k <= 13 && Valid(p)
    ensures ExtractBooks(p, k, done).Ok?
    ensures ExtractBooks(p, k, done).value.1 == done + FourCounts(p, k)
    ensures Valid(ExtractBooks(p, k, done).value.0)
    decreases 13 - k
  {
    if k < 13 {
      var r: Rank := k;
      if r in p.handByRank && p.handByRank[r] == 4 {
        BookKeeps(p, r);
        var q1 := MarkBookCompleted(p.(books := p.books + {r}), r).value;
        ExtractBooksKeeps(q1, k + 1, done + {r});
        FourCountsTake(p, q1, r);
      } else {
        ExtractBooksKeeps(p, k + 1, done);
        FourCountsSkip(p, r);
      }
    } else {
      assert FourCounts(p, k) == {};
    }
  }

  /** What the book-extraction loop does to the player: the ranks counted four
      times become books, leave play and leave the hand with their cards, and
      every other public card stays public. */
  lemma {:induction false} ExtractBooksFields(p: Player, k: nat, done: set<Rank>)
    requires k <= 13 && Valid(p)
    ensures ExtractBooks(p, k, done).Ok?
    ensures var q := ExtractBooks(p, k, done).value.0;
      && q.books == p.books + FourCounts(p, k)
      && q.remaining == p.remaining - FourCounts(p, k)
      && q.hand == WithoutRanks(p.hand, FourCounts(p, k))
      && (forall x | IsPublic(p, x) && x.rank !in FourCounts(p, k) :: IsPublic(q, x))
    decreases 13 - k
  {
    if k < 13 {
      var r: Rank := k;
      if r in p.handByRank && p.handByRank[r] == 4 {
        BookKeeps(p, r);
        var q1 := MarkBookCompleted(p.(books := p.books + {r}), r).value;
        ExtractBooksFields(q1, k + 1, done + {r});
        FourCountsTake(p, q1, r);
        BookThenLater(p, q1, ExtractBooks(q1, k + 1, done + {r}).value.0, r, FourCounts(q1, k + 1));
      } else {
        ExtractBooksFields(p, k + 1, done);
        FourCountsSkip(p, r);
      }
    } else {
      assert FourCounts(p, k) == {};
      assert WithoutRanks(p.hand, {}) == p.hand;
    }
  }

  /** One book followed by the later ones changes the fields as all of them at once. */
  lemma BookThenLater(p: Player, q1: Player, q: Player, r: Rank, later: set<Rank>)
    requires q1.books == p.books + {r} && q1.remaining == p.remaining - {r}
    requires q1.hand == p.hand - CardsOfRank(p.hand, r)
    requires forall x | IsPublic(p, x) && x.rank != r :: IsPublic(q1, x)
    requires q.books == q1.books + later && q.remaining == q1.remaining - later
    requires q.hand == WithoutRanks(q1.hand, later)
    requires forall x | IsPublic(q1, x) && x.rank !in later :: IsPublic(q, x)
    ensures q.books == p.books + ({r} + later) && q.remaining == p.remaining - ({r} + later)
    ensures q.hand == WithoutRanks(p.hand, {r} + later)
    ensures forall x | IsPublic(p, x) && x.rank !in {r} + later :: IsPublic(q, x)
  {
    WithoutRanksStep(p.hand, r, later);
  }

  /** When no rank from `k` upwards is counted four times, the book-extraction
      loop changes nothing. */
  lemma {:induction false} ExtractBooksNone(p: Player, k: nat, done: set<Rank>)
    requires k <= 13 && FourCounts(p, k) == {}
    ensures ExtractBooks(p, k, done) == Ok((p, done))
    decreases 13 - k
  {
    if k < 13 {
      var r: Rank := k;
      assert !(r in p.handByRank && p.handByRank[r] == 4) by {
        assert r !in FourCounts(p, k);
      }
      FourCountsSkip(p, r);
      ExtractBooksNone(p, k + 1, done);
    }
  }

  /** `receive_cards`: the received cards join the hand, exactly the ranks the
      hand now holds all four cards of become books, those cards leave the hand
      and their ranks leave play, and publicly received cards are public. */
  lemma ReceiveCardsKeeps(p: Player, cards: seq<Card>, public: bool)
    requires Valid(p) && Distinct(cards)
    requires forall c | c in cards :: c !in p.hand && c.rank in p.remaining
    ensures ReceiveCards(p, cards, public).Ok?
    ensures var q := ReceiveCards(p, cards, public).value.0;
      var completed := ReceiveCards(p, cards, public).value.1;
      var held := p.hand + Elements(cards);
      && Valid(q)
      && completed == FullRanks(held, p.remaining)
      && q.books == p.books + completed
      && q.remaining == p.remaining - completed
      && q.hand == WithoutRanks(held, completed)
      && (public ==> forall c | c in cards && c.rank !in completed :: IsPublic(q, c))
  {
    AddCardsKeeps(p, cards, public);
    var q0 := AddCards(p, cards, public).value;
    ExtractBooksKeeps(q0, 0, {});
    ExtractBooksFields(q0, 0, {});
    FourCountsAreFull(q0);
  }

  // ---------------------------------------------------------------------------
  // _clean_up_rank, mark_book_completed, remove_cards_of_rank
  // ---------------------------------------------------------------------------

  /** `_remove_card_from_hand` over distinct cards of one rank whose count
      covers them: each count is decremented, none is deleted. */
  lemma {:induction false} RemoveCardsOfOneRank(p: Player, cards: seq<Card>, r: Rank)
    requires Distinct(cards) && forall c | c in cards :: c in p.hand && c.rank == r
    requires r in p.handByRank ==> p.handByRank[r] >= |cards|
    ensures RemoveCards(p, cards).Ok?
    ensures var q := RemoveCards(p, cards).value;
      && q.hand == p.hand - Elements(cards)
      && q.concealed == p.concealed - Elements(cards)
      && q.handByRank == (if r in p.handByRank then p.handByRank[r := p.handByRank[r] - |cards|] else p.handByRank)
      && q.publicCards == p.publicCards && q.possible == p.possible && q.notPossible == p.notPossible
      && q.books == p.books && q.remaining == p.remaining
    decreases |cards|
  {
    if |cards| > 0 {
      var c := cards[0];
      var q1 := RemoveCard(p, c).value;
      DistinctTail(cards);
      RemoveCardsOfOneRank(q1, cards[1..], r);
      ElementsCons(cards);
    }
  }

  /** The `_clean_up_card` loop of `_clean_up_rank`, over cards that already
      left the concealed set. */
  lemma {:induction false} CleanUpCardsKeeps(p: Player, cards: seq<Card>, stale: set<Card>)
    requires Coherent(p) && forall c | c in cards :: c !in p.concealed
    ensures CleanUpCards(p, cards).Ok?
    ensures var q := CleanUpCards(p, cards).value;
      && Coherent(q) && Grows(p, q)
      && (TidyExcept(p, stale) ==> TidyExcept(q, stale - Elements(cards)))
    decreases |cards|
  {
    if |cards| > 0 {
      var c := cards[0];
      CleanUpCardKeeps(p, c, stale);
      var q1 := CleanUpCard(p, c).value;
      CleanUpCardsKeeps(q1, cards[1..], stale - {c});
      ElementsCons(cards);
      assert stale - {c} - Elements(cards[1..]) == stale - Elements(cards);
    }
  }

  /** The first half of `_clean_up_rank`: the keys of rank `r` are deleted and
      its cards leave the hand, with their count dropping to a lingering zero. */
  lemma StripRank(p: Player, r: Rank)
    requires CountOf(p.handByRank, r) == |CardsOfRank(p.hand, r)|
    ensures RemoveCards(Forget(p, r), Ordered(CardsOfRank(p.hand, r))).Ok?
    ensures var q := RemoveCards(Forget(p, r), Ordered(CardsOfRank(p.hand, r))).value;
      && q.hand == p.hand - CardsOfRank(p.hand, r)
      && q.concealed == p.concealed - CardsOfRank(p.hand, r)
      && q.publicCards == p.publicCards - {r}
      && q.possible == p.possible - {r} && q.notPossible == p.notPossible - {r}
      && q.books == p.books && q.remaining == p.remaining
      && q.handByRank == (if r in p.handByRank then p.handByRank[r := 0] else p.handByRank)
  {
    var removed := CardsOfRank(p.hand, r);
    var cards := Ordered(removed);
    assert Elements(cards) == removed;
    assert |cards| == CountOf(p.handByRank, r);
    var p0 := Forget(p, r);
    assert p0.handByRank == p.handByRank;
    RemoveCardsOfOneRank(p0, cards, r);
  }

  lemma RankRemovedSplit(p: Player, r: Rank, q: Player)
    requires HandSplit(p)
    requires q.hand == p.hand - CardsOfRank(p.hand, r) && q.concealed == p.concealed - CardsOfRank(p.hand, r)
    requires q.publicCards == p.publicCards - {r}
    ensures HandSplit(q)
  {
    forall x | x in q.hand && x !in q.concealed ensures IsPublic(q, x) {
      assert IsPublic(p, x);
    }
  }

  lemma RankRemovedInPlay(p: Player, r: Rank, q: Player)
    requires InPlay(p)
    requires q.hand == p.hand - CardsOfRank(p.hand, r) && p.remaining - {r} <= q.remaining
    requires q.publicCards == p.publicCards - {r}
    requires q.possible == p.possible - {r} && q.notPossible == p.notPossible - {r}
    ensures InPlay(q)
  {
  }

  lemma RankRemovedSound(p: Player, r: Rank, q: Player)
    requires Sound(p) && q.concealed == p.concealed - CardsOfRank(p.hand, r)
    requires q.possible == p.possible - {r} && q.notPossible == p.notPossible - {r}
    ensures Sound(q)
  {
    forall k | k in q.possible ensures CardsOfRank(q.possible[k] * q.concealed, k) != {} {
      var w :| w in CardsOfRank(p.possible[k] * p.concealed, k);
      assert w in CardsOfRank(q.possible[k] * q.concealed, k);
    }
  }

  lemma RankRemovedCounted(p: Player, r: Rank, q: Player)
    requires Counted(p) && q.hand == p.hand - CardsOfRank(p.hand, r)
    requires q.handByRank == (if r in p.handByRank then p.handByRank[r := 0] else p.handByRank)
    ensures Counted(q)
  {
    forall k: Rank ensures CountOf(q.handByRank, k) == |CardsOfRank(q.hand, k)| {
      if k == r {
        assert CardsOfRank(q.hand, k) == {};
      } else {
        assert CountOf(q.handByRank, k) == CountOf(p.handByRank, k);
        assert CardsOfRank(q.hand, k) == CardsOfRank(p.hand, k);
      }
    }
  }

  lemma RankRemovedTidy(p: Player, r: Rank, q: Player)
    requires TidyExcept(p, {}) && q.concealed == p.concealed - CardsOfRank(p.hand, r)
    requires q.possible == p.possible - {r} && q.notPossible == p.notPossible - {r}
    ensures TidyExcept(q, CardsOfRank(p.hand, r))
  {
  }

  /** After the first half of `_clean_up_rank` the invariant holds, except
      that the removed cards may still sit in the knowledge sets. */
  lemma StripRankKeeps(p: Player, r: Rank)
    requires Coherent(p.(remaining := p.remaining + {r})) && CountOf(p.handByRank, r) == |CardsOfRank(p.hand, r)| && TidyExcept(p, {})
    ensures RemoveCards(Forget(p, r), Ordered(CardsOfRank(p.hand, r))).Ok?
    ensures var q := RemoveCards(Forget(p, r), Ordered(CardsOfRank(p.hand, r))).value;
      Coherent(q) && TidyExcept(q, CardsOfRank(p.hand, r))
  {
    var pr := p.(remaining := p.remaining + {r});
    StripRank(p, r);
    var q := RemoveCards(Forget(p, r), Ordered(CardsOfRank(p.hand, r))).value;
    RankRemovedSplit(pr, r, q);
    RankRemovedInPlay(pr, r, q);
    RankRemovedSound(pr, r, q);
    RankRemovedTidy(p, r, q);
  }

  /** No public bucket or possible set survives for a rank the hand lacks. */
  lemma NoRankLeft(p: Player, r: Rank)
    requires HandSplit(p) && Sound(p) && CardsOfRank(p.hand, r) == {}
    ensures r !in p.publicCards && r !in p.possible
  {
  }

  /** `_clean_up_rank` never fails: the cards of rank `r` leave the hand and
      are returned, and the count of rank `r` drops to a lingering zero. */
  lemma CleanUpRankFields(p: Player, r: Rank)
    requires Coherent(p.(remaining := p.remaining + {r})) && Counted(p) && TidyExcept(p, {})
    ensures CleanUpRank(p, r).Ok?
    ensures var q := CleanUpRank(p, r).value.0;
      && CleanUpRank(p, r).value.1 == CardsOfRank(p.hand, r)
      && q.hand == p.hand - CardsOfRank(p.hand, r)
      && q.handByRank == (if r in p.handByRank then p.handByRank[r := 0] else p.handByRank)
      && q.books == p.books && q.remaining == p.remaining
  {
    CleanUpRankKeeps(p, r);
    var cards := Ordered(CardsOfRank(p.hand, r));
    StripRank(p, r);
    CleanUpCardsGrows(RemoveCards(Forget(p, r), cards).value, cards);
  }

  /** The `_clean_up_card` loop over every card just removed leaves nothing stale. */
  lemma CleanUpRemoved(p: Player, cards: seq<Card>, removed: set<Card>)
    requires Coherent(p) && TidyExcept(p, removed)
    requires Elements(cards) == removed && removed !! p.concealed
    ensures CleanUpCards(p, cards).Ok?
    ensures Coherent(CleanUpCards(p, cards).value) && TidyExcept(CleanUpCards(p, cards).value, {})
  {
    CleanUpCardsKeeps(p, cards, removed);
    assert removed - Elements(cards) == {};
  }

  /** `_clean_up_rank` keeps the knowledge coherent and tidy. */
  lemma CleanUpRankKeeps(p: Player, r: Rank)
    requires Coherent(p.(remaining := p.remaining + {r})) && CountOf(p.handByRank, r) == |CardsOfRank(p.hand, r)| && TidyExcept(p, {})
    ensures CleanUpRank(p, r).Ok?
    ensures var q := CleanUpRank(p, r).value.0;
      Coherent(q) && TidyExcept(q, {})
  {
    var removed := CardsOfRank(p.hand, r);
    var cards := Ordered(removed);
    StripRank(p, r);
    StripRankKeeps(p, r);
    CleanUpRemoved(RemoveCards(Forget(p, r), cards).value, cards, removed);
  }

  /** `_clean_up_rank` keeps `hand_by_rank` counting the hand. */
  lemma CleanUpRankCounted(p: Player, r: Rank)
    requires Coherent(p.(remaining := p.remaining + {r})) && Counted(p) && TidyExcept(p, {})
    ensures CleanUpRank(p, r).Ok? && Counted(CleanUpRank(p, r).value.0)
  {
    CleanUpRankFields(p, r);
    RankRemovedCounted(p, r, CleanUpRank(p, r).value.0);
  }

  /** After `_clean_up_rank` nothing public or possible is left of rank `r`,
      and the public cards of other ranks stay public. */
  lemma CleanUpRankForgets(p: Player, r: Rank)
    requires Coherent(p.(remaining := p.remaining + {r})) && Counted(p) && TidyExcept(p, {})
    ensures CleanUpRank(p, r).Ok?
    ensures var q := CleanUpRank(p, r).value.0;
      && r !in q.publicCards && r !in q.possible
      && (forall x | IsPublic(p, x) && x.rank != r :: IsPublic(q, x))
  {
    CleanUpRankKeeps(p, r);
    CleanUpRankFields(p, r);
    var q := CleanUpRank(p, r).value.0;
    assert CardsOfRank(q.hand, r) == {};
    NoRankLeft(q, r);
    PublicOthersKept(p, r);
  }

  /** Whatever `_clean_up_card` loop succeeds only adds knowledge. */
  lemma {:induction false} CleanUpCardsGrows(p: Player, cards: seq<Card>)
    ensures CleanUpCards(p, cards).Ok? ==> Grows(p, CleanUpCards(p, cards).value)
    decreases |cards|
  {
    if |cards| > 0 && CleanUpCard(p, cards[0]).Ok? {
      CleanUpCardsGrows(CleanUpCard(p, cards[0]).value, cards[1..]);
    }
  }

  /** The public cards of other ranks survive `_clean_up_rank`. */
  lemma PublicOthersKept(p: Player, r: Rank)
    requires Coherent(p.(remaining := p.remaining + {r})) && Counted(p) && TidyExcept(p, {})
    ensures CleanUpRank(p, r).Ok?
    ensures forall x | IsPublic(p, x) && x.rank != r :: IsPublic(CleanUpRank(p, r).value.0, x)
  {
    CleanUpRankKeeps(p, r);
    var cards := Ordered(CardsOfRank(p.hand, r));
    StripRank(p, r);
    var q1 := RemoveCards(Forget(p, r), cards).value;
    CleanUpCardsGrows(q1, cards);
  }

  /** `mark_book_completed`: rank `r` leaves play together with its cards. */
  lemma MarkBookCompletedKeeps(p: Player, r: Rank)
    requires Coherent(p) && Counted(p) && TidyExcept(p, {}) && r in p.remaining
    ensures MarkBookCompleted(p, r).Ok?
    ensures var q := MarkBookCompleted(p, r).value;
      && Coherent(q) && Counted(q) && TidyExcept(q, {})
      && q.hand == p.hand - CardsOfRank(p.hand, r)
      && q.remaining == p.remaining - {r} && q.books == p.books
      && q.handByRank == (if r in p.handByRank then p.handByRank[r := 0] else p.handByRank)
  {
    var p1 := p.(remaining := p.remaining - {r});
    assert p1.(remaining := p1.remaining + {r}) == p;
    CleanUpRankKeeps(p1, r);
    CleanUpRankFields(p1, r);
    CleanUpRankCounted(p1, r);
    SettleKeeps(CleanUpRank(p1, r).value.0, {});
  }

  /** The public cards of other ranks survive `mark_book_completed`. */
  lemma MarkBookCompletedPublic(p: Player, r: Rank)
    requires Coherent(p) && Counted(p) && TidyExcept(p, {}) && r in p.remaining
    ensures MarkBookCompleted(p, r).Ok?
    ensures forall x | IsPublic(p, x) && x.rank != r :: IsPublic(MarkBookCompleted(p, r).value, x)
  {
    var p1 := p.(remaining := p.remaining - {r});
    assert p1.(remaining := p1.remaining + {r}) == p;
    CleanUpRankKeeps(p1, r);
    PublicOthersKept(p1, r);
    SettleKeeps(CleanUpRank(p1, r).value.0, {});
  }

  /** Marking every concealed card as not of a rank the hand lacks keeps the invariant. */
  lemma MarkNotOfRankKeeps(p: Player, r: Rank)
    requires Coherent(p) && Counted(p) && TidyExcept(p, {})
    requires r in p.remaining && CardsOfRank(p.hand, r) == {}
    ensures var q := p.(notPossible := p.notPossible[r := p.concealed]);
      Coherent(q) && Counted(q) && TidyExcept(q, {})
  {
    assert CardsOfRank(p.concealed, r) == {};
  }

  /** The counts depend on the hand only. */
  lemma CountedSame(p: Player, q: Player)
    requires Counted(p) && q.hand == p.hand && q.handByRank == p.handByRank
    ensures Counted(q)
  {
  }

  /** The fixpoint run from a valid player does not fail, keeps the invariant
      and the hand, and forgets nothing. */
  lemma SettleValid(p: Player)
    requires Valid(p)
    ensures Settle(p).Ok?
    ensures var q := Settle(p).value;
      && Valid(q) && q.hand == p.hand && q.concealed <= p.concealed
      && q.books == p.books && q.remaining == p.remaining
      && KnownKept(p, q) && NotKept(p, q)
  {
    SettleKeeps(p, {});
    CountedSame(p, Settle(p).value);
  }

  /** `remove_cards_of_rank` for a rank in play: it returns exactly the cards of
      that rank, never raises, and leaves every remaining concealed card
      publicly marked as not of that rank. */
  lemma RemoveCardsOfRankKeeps(p: Player, r: Rank)
    requires Valid(p) && r in p.remaining
    ensures RemoveCardsOfRank(p, r).Ok?
    ensures var q := RemoveCardsOfRank(p, r).value.0;
      var removed := RemoveCardsOfRank(p, r).value.1;
      && removed == CardsOfRank(p.hand, r)
      && q.hand == p.hand - removed
      && Valid(q)
      && q.books == p.books && q.remaining == p.remaining
      && (forall c | c in q.concealed :: r in q.notPossible && c in q.notPossible[r])
  {
    assert p.(remaining := p.remaining + {r}) == p;
    CleanUpRankKeeps(p, r);
    CleanUpRankFields(p, r);
    CleanUpRankCounted(p, r);
    var q1 := CleanUpRank(p, r).value.0;
    assert CardsOfRank(q1.hand, r) == {};
    assert CardsOfRank(q1.concealed, r) == {};
    MarkNotOfRankKeeps(q1, r);
    var q2 := q1.(notPossible := q1.notPossible[r := q1.concealed]);
    SettleValid(q2);
    MarkSurvives(q2, Settle(q2).value, r);
  }

  /** A not-possible set covering every concealed card still covers them once
      fewer cards are concealed. */
  lemma MarkSurvives(p: Player, q: Player, r: Rank)
    requires NotKept(p, q) && q.concealed <= p.concealed
    requires r in p.notPossible && p.notPossible[r] == p.concealed
    ensures forall c | c in q.concealed :: r in q.notPossible && c in q.notPossible[r]
  {
    forall c | c in q.concealed ensures r in q.notPossible && c in q.notPossible[r] {
      assert c in p.notPossible[r];
    }
  }

  // ---------------------------------------------------------------------------
  // mark_rank_as_requested
  // ---------------------------------------------------------------------------

  /** The possible set `mark_rank_as_requested` records keeps the invariant. */
  lemma RequestedSetKeeps(p: Player, r: Rank)
    requires Valid(p) && CardsOfRank(p.hand, r) != {} && !Known(p, r)
    ensures var excluded := if r in p.notPossible then p.notPossible[r] else {};
      && excluded <= p.concealed
      && var q := p.(possible := p.possible[r := p.concealed - excluded]);
      Valid(q) && Known(q, r) && KnownKept(p, q)
  {
    var h :| h in CardsOfRank(p.hand, r);
    assert h in p.concealed;
    var excluded := if r in p.notPossible then p.notPossible[r] else {};
    assert h !in excluded;
    var q := p.(possible := p.possible[r := p.concealed - excluded]);
    assert h in CardsOfRank(q.possible[r] * q.concealed, r);
  }

  /** A player asking for a rank it holds: afterwards the rank is known, and
      nothing else changes in the hand or is forgotten. */
  lemma MarkRankAsRequestedKeeps(p: Player, r: Rank)
    requires Valid(p) && CardsOfRank(p.hand, r) != {}
    ensures MarkRankAsRequested(p, r).Ok?
    ensures var q := MarkRankAsRequested(p, r).value;
      Valid(q) && q.hand == p.hand && Known(q, r) && KnownKept(p, q)
  {
    if !Known(p, r) {
      RequestedSetKeeps(p, r);
      var excluded := if r in p.notPossible then p.notPossible[r] else {};
      SettleValid(p.(possible := p.possible[r := p.concealed - excluded]));
    }
  }

  /** Requesting the same rank twice is the same as requesting it once. */
  lemma MarkRankAsRequestedIsIdempotent(p: Player, r: Rank)
    requires Valid(p) && CardsOfRank(p.hand, r) != {}
    ensures MarkRankAsRequested(p, r).Ok?
    ensures MarkRankAsRequested(MarkRankAsRequested(p, r).value, r) == MarkRankAsRequested(p, r)
  {
    MarkRankAsRequestedKeeps(p, r);
  }
}
