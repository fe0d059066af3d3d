/** The Go Fish knowledge tracker (`rlcard/games/go_fish/player.py`).

    A player holds a hand split into public and concealed cards and three kinds
    of public knowledge per rank: the cards shown to be of the rank, "possible"
    sets (at least one member is of the rank) and "not possible" sets (no member
    is of the rank). Every mutation ends in a deduction fixpoint that reveals
    cards by elimination and by matching possible sets.

    Every operation is a pure function from the old player to the new one. What
    the Python code raises (a KeyError from `set.remove`, the IndexError of
    `combination[0]` on an empty combination, the explicit exception when a
    card is marked as not being of its own rank), and the one way its fixpoint
    would loop forever, are `Err` values; `FishKnowledge` proves that none of
    them happens from a well-formed player.

    Python visits dict keys in insertion order and set members in hash-table
    order; the model visits ranks in ascending order and cards in standard-deck
    order. */
module FishPlayer {
  import opened Results
  import opened Cards

  /** How an operation of the player can fail. */
  datatype Fault =
    | MissingCard       // `set.remove(card)` of a card that is not there
    | MissingRank       // `set.remove(rank)` of a rank that is not there
    | EmptyCombination  // `combination[0]` on the single empty combination of an empty possible set
    | MarkedOwnRank     // 'Attempted to mark a card as not being of its rank'
    | NoProgress        // the fixpoint selected cards but revealed none, so it would loop forever

  /** The state of a `GoFishPlayer`. */
  datatype Player = Player(
    hand: set<Card>,
    handByRank: map<Rank, int>,      // `hand_by_rank`
    concealed: set<Card>,            // `non_public_cards_in_hand`
    publicCards: map<Rank, set<Card>>,
    possible: map<Rank, set<Card>>,  // `public_possible_cards_of_rank`
    notPossible: map<Rank, set<Card>>, // `public_not_possible_cards_of_rank`
    books: set<Rank>,
    remaining: set<Rank>)            // `remaining_ranks`

  type Outcome = Result<Player, Fault>

  const AllRanks: set<Rank> := set r: int | 0 <= r < 13

  /** A fresh player: empty hand, no knowledge, every rank still in play. */
  function NewPlayer(): Player {
    Player({}, map[], {}, map[], map[], map[], {}, AllRanks)
  }

  /** The cards of rank `r` in `s`. */
  function CardsOfRank(s: set<Card>, r: Rank): set<Card> {
    set c | c in s && c.rank == r
  }

  /** The guard `rank in public_cards and card in public_cards[rank]`. */
  predicate IsPublic(p: Player, c: Card) {
    c.rank in p.publicCards && c in p.publicCards[c.rank]
  }

  /** `hand_by_rank.get(r, 0)`. */
  function CountOf(counts: map<Rank, int>, r: Rank): int {
    if r in counts then counts[r] else 0
  }

  /** `_add_card_to_hand`. */
  function AddCard(p: Player, c: Card): Player {
    p.(hand := p.hand + {c},
       concealed := p.concealed + {c},
       handByRank := p.handByRank[c.rank := CountOf(p.handByRank, c.rank) + 1])
  }

  /** `_remove_card_from_hand`: a count already at zero is deleted, not decremented. */
  function RemoveCard(p: Player, c: Card): Outcome {
    if c !in p.hand then Err(MissingCard)
    else
      var counts :=
        if c.rank !in p.handByRank then p.handByRank
        else if p.handByRank[c.rank] == 0 then p.handByRank - {c.rank}
        else p.handByRank[c.rank := p.handByRank[c.rank] - 1];
      Ok(p.(hand := p.hand - {c}, concealed := p.concealed - {c}, handByRank := counts))
  }

  // ---------------------------------------------------------------------------
  // Revealing cards and the deduction fixpoint. These call each other:
  //   reveal_card -> _reveal_card -> _clean_up_card -> reveal_card ...
  //   fixpoint    -> _reveal_card -> ...
  // Every reveal removes a card from the concealed set, which is the measure.
  // ---------------------------------------------------------------------------

  /** The first two loops of `_clean_up_card`: drop `c` from every possible and
      not-possible set, delete the possible sets left with exactly one card and
      the not-possible sets left empty. */
  function Pruned(p: Player, c: Card): (q: Player)
    ensures q.hand == p.hand && q.handByRank == p.handByRank && q.concealed == p.concealed
    ensures q.publicCards == p.publicCards && q.books == p.books && q.remaining == p.remaining
    ensures forall r | r in q.possible :: r in p.possible && c !in q.possible[r] && |q.possible[r]| != 1
    ensures forall r | r in q.notPossible :: r in p.notPossible && c !in q.notPossible[r] && q.notPossible[r] != {}
  {
    p.(possible := map r | r in p.possible && |p.possible[r] - {c}| != 1 :: p.possible[r] - {c},
       notPossible := map r | r in p.notPossible && p.notPossible[r] - {c} != {} :: p.notPossible[r] - {c})
  }

  /** The last card of every possible set that losing `c` leaves with one card:
      `_clean_up_card` queues these for revealing. */
  function Singles(p: Player, c: Card): set<Card> {
    set r, x | r in p.possible && x in p.possible[r] - {c} && |p.possible[r] - {c}| == 1 :: x
  }

  /** The ranks a card is proved not to be. */
  function NotRanks(p: Player, c: Card): set<Rank> {
    set r | r in p.notPossible && c in p.notPossible[r]
  }

  /** The ranks still open to a card: the remaining ranks minus those it is proved not to be. */
  function Candidates(p: Player, c: Card): set<Rank> {
    p.remaining - NotRanks(p, c)
  }

  /** First rule of the fixpoint: concealed cards left with a single candidate rank. */
  function Eliminated(p: Player): set<Card> {
    set c | c in p.concealed && |Candidates(p, c)| == 1
  }

  /** The ranks whose possible set is exactly `s`. */
  function SameSets(p: Player, s: set<Card>): set<Rank> {
    set r | r in p.possible && p.possible[r] == s
  }

  /** Second rule of the fixpoint: every card of a possible set of size k that
      k distinct ranks share. */
  function Pooled(p: Player): set<Card> {
    set r, c | r in p.possible && c in p.possible[r] && |SameSets(p, p.possible[r])| >= |p.possible[r]| :: c
  }

  /** One pass of `_reveal_cards_by_process_of_elimination` choosing what to reveal. */
  function ToReveal(p: Player): Result<set<Card>, Fault> {
    if exists c, r | c in p.concealed && r in p.notPossible && c in p.notPossible[r] :: r !in p.remaining then
      Err(MissingRank)
    else if exists r | r in p.possible :: p.possible[r] == {} then
      Err(EmptyCombination)
    else
      Ok(Eliminated(p) + Pooled(p))
  }

  /** `reveal_card`: reveal, then run the fixpoint. */
  function RevealCard(p: Player, c: Card): (r: Outcome)
    ensures r.Ok? ==> Grows(p, r.value) && c !in r.value.concealed
    decreases |p.concealed|, 4
  {
    var q :- RevealBare(p, c);
    Settle(q)
  }

  /** The first half of `_reveal_card`: move `c` from the concealed cards to
      its rank's public bucket and drop its rank's possible set if `c` is in it. */
  function Exposed(p: Player, c: Card): (q: Player)
    ensures q.hand == p.hand && q.handByRank == p.handByRank && q.concealed == p.concealed - {c}
    ensures q.books == p.books && q.remaining == p.remaining && q.notPossible == p.notPossible
    ensures IsPublic(q, c)
  {
    var bucket := if c.rank in p.publicCards then p.publicCards[c.rank] else {};
    var possible :=
      if c.rank in p.possible && c in p.possible[c.rank] then p.possible - {c.rank} else p.possible;
    p.(concealed := p.concealed - {c},
       publicCards := p.publicCards[c.rank := bucket + {c}],
       possible := possible)
  }

  /** `_reveal_card`: expose `c`, then clean up after it. */
  function RevealBare(p: Player, c: Card): (r: Outcome)
    ensures r.Ok? ==> Grows(p, r.value) && c in p.concealed && c !in r.value.concealed
    ensures r.Ok? ==> |r.value.concealed| < |p.concealed|
    decreases |p.concealed|, 1
  {
    if c !in p.concealed then Err(MissingCard)
    else
      var r := CleanUpCard(Exposed(p, c), c);
      assert r.Ok? ==> |r.value.concealed| <= |p.concealed - {c}| < |p.concealed|;
      r
  }

  /** `_clean_up_card`: prune `c` from the knowledge sets, then reveal the
      cards that pruning left alone in a possible set. */
  function CleanUpCard(p: Player, c: Card): (r: Outcome)
    ensures r.Ok? ==> Grows(p, r.value)
    decreases |p.concealed|, 6
  {
    RevealQueue(Pruned(p, c), Ordered(Singles(p, c)))
  }

  /** The last loop of `_clean_up_card`: `reveal_card` each queued card that is not yet public. */
  function RevealQueue(p: Player, queue: seq<Card>): (r: Outcome)
    ensures r.Ok? ==> Grows(p, r.value)
    decreases |p.concealed|, 5, |queue|
  {
    if |queue| == 0 then Ok(p)
    else
      var q :- if IsPublic(p, queue[0]) then Ok(p) else RevealCard(p, queue[0]);
      RevealQueue(q, queue[1..])
  }

  /** The loop of the fixpoint that applies one pass's choices with `_reveal_card`. */
  function RevealBatch(p: Player, batch: seq<Card>): (r: Outcome)
    ensures r.Ok? ==> Grows(p, r.value)
    decreases |p.concealed|, 2, |batch|
  {
    if |batch| == 0 then Ok(p)
    else
      var q :- if IsPublic(p, batch[0]) then Ok(p) else RevealBare(p, batch[0]);
      RevealBatch(q, batch[1..])
  }

  /** `_reveal_cards_by_process_of_elimination`: repeat passes until a pass
      selects nothing. A pass that selects cards but reveals none leaves the
      state unchanged, so Python would repeat it forever: `NoProgress`. */
  function Settle(p: Player): (r: Outcome)
    ensures r.Ok? ==> Grows(p, r.value)
    ensures r.Ok? ==> ToReveal(r.value) == Ok({})
    decreases |p.concealed|, 3
  {
    var batch :- ToReveal(p);
    if batch == {} then Ok(p)
    else
      var q :- RevealBatch(p, Ordered(batch));
      if |q.concealed| < |p.concealed| then Settle(q) else Err(NoProgress)
  }

  /** What every reveal keeps: the hand, its counts, the books and remaining
      ranks; the concealed cards only shrink and the public buckets only grow. */
  ghost predicate Grows(p: Player, q: Player) {
    && q.hand == p.hand && q.handByRank == p.handByRank
    && q.books == p.books && q.remaining == p.remaining
    && q.concealed <= p.concealed && |q.concealed| <= |p.concealed|
    && (forall r | r in p.publicCards :: r in q.publicCards && p.publicCards[r] <= q.publicCards[r])
  }

  // ---------------------------------------------------------------------------
  // The public operations.
  // ---------------------------------------------------------------------------

  /** The `_remove_card_from_hand` loop of `_clean_up_rank`, over the cards in order. */
  function RemoveCards(p: Player, cards: seq<Card>): Outcome
    decreases |cards|
  {
    if |cards| == 0 then Ok(p)
    else
      var q :- RemoveCard(p, cards[0]);
      RemoveCards(q, cards[1..])
  }

  /** The `_clean_up_card` loop of `_clean_up_rank`. */
  function CleanUpCards(p: Player, cards: seq<Card>): Outcome
    decreases |cards|
  {
    if |cards| == 0 then Ok(p)
    else
      var q :- CleanUpCard(p, cards[0]);
      CleanUpCards(q, cards[1..])
  }

  /** The start of `_clean_up_rank`: rank `r` is dropped from the public,
      possible and not-possible maps. */
  function Forget(p: Player, r: Rank): Player {
    p.(publicCards := p.publicCards - {r}, possible := p.possible - {r}, notPossible := p.notPossible - {r})
  }

  /** `_clean_up_rank`: forget rank `r` entirely and take its cards out of the
      hand; returns the new player and the removed cards. */
  function CleanUpRank(p: Player, r: Rank): Result<(Player, set<Card>), Fault> {
    var removed := CardsOfRank(p.hand, r);
    var q1 :- RemoveCards(Forget(p, r), Ordered(removed));
    var q2 :- CleanUpCards(q1, Ordered(removed));
    Ok((q2, removed))
  }

  /** `mark_book_completed`: rank `r` leaves play. */
  function MarkBookCompleted(p: Player, r: Rank): Outcome {
    if r !in p.remaining then Err(MissingRank)
    else
      var cleaned :- CleanUpRank(p.(remaining := p.remaining - {r}), r);
      Settle(cleaned.0)
  }

  /** The first loop of `receive_cards`: add each card, revealing it at once when `public`. */
  function AddCards(p: Player, cards: seq<Card>, public: bool): Outcome
    decreases |cards|
  {
    if |cards| == 0 then Ok(p)
    else
      var q :- AddOne(p, cards[0], public);
      AddCards(q, cards[1..], public)
  }

  /** One pass of the first loop of `receive_cards`. */
  function AddOne(p: Player, c: Card, public: bool): Outcome {
    var q := AddCard(p, c);
    if public then RevealCard(q, c) else Ok(q)
  }

  /** The book-extraction loop of `receive_cards`, from rank `r` upwards:
      every rank counted 4 times becomes a book. */
  function ExtractBooks(p: Player, r: nat, completed: set<Rank>): Result<(Player, set<Rank>), Fault>
    requires r <= 13
    decreases 13 - r
  {
    if r == 13 then Ok((p, completed))
    else if r in p.handByRank && p.handByRank[r] == 4 then
      var q :- MarkBookCompleted(p.(books := p.books + {r}), r);
      ExtractBooks(q, r + 1, completed + {r})
    else
      ExtractBooks(p, r + 1, completed)
  }

  /** `receive_cards`: the new player and the ranks it completed as books. */
  function ReceiveCards(p: Player, cards: seq<Card>, public: bool): Result<(Player, set<Rank>), Fault> {
    var q :- AddCards(p, cards, public);
    ExtractBooks(q, 0, {})
  }

  /** `remove_cards_of_rank`: hand over every card of rank `r`, and mark every
      card left concealed as not of rank `r`. */
  function RemoveCardsOfRank(p: Player, r: Rank): Result<(Player, set<Card>), Fault> {
    var cleaned :- CleanUpRank(p, r);
    var q := cleaned.0;
    if CardsOfRank(q.concealed, r) != {} then Err(MarkedOwnRank)
    else
      var settled :- Settle(q.(notPossible := q.notPossible[r := q.concealed]));
      Ok((settled, cleaned.1))
  }

  /** `mark_rank_as_requested`: asking for `r` shows that some concealed card,
      other than those proved not of rank `r`, is of rank `r`. */
  function MarkRankAsRequested(p: Player, r: Rank): Outcome {
    if r in p.possible || r in p.publicCards then Ok(p)
    else
      var excluded := if r in p.notPossible then p.notPossible[r] else {};
      if !(excluded <= p.concealed) then Err(MissingCard)
      else Settle(p.(possible := p.possible[r := p.concealed - excluded]))
  }
}
