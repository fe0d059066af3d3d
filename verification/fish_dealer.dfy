/** The Go Fish dealer (`rlcard/games/go_fish/dealer.py`): a standard deck,
    shuffled when the dealer is made, from whose end cards are dealt. */
module FishDealer {
  import opened Results
  import opened Cards
  import opened Decks
  import opened FishPlayer
  import opened FishKnowledge
  import opened FishTheorems

  /** `GoFishDealer`: the deck, its top at the end. */
  datatype Dealer = Dealer(deck: seq<Card>)

  /** Why `deal_card` fails: the deck is empty, or the player's `receive_cards` fails. */
  datatype DealFault = OutOfCards | Refused(fault: Fault)

  /** What `deal_card` leaves behind: the card, the books it completed, and the
      new dealer and player. */
  datatype Dealt = Dealt(card: Card, books: set<Rank>, dealer: Dealer, player: Player)

  /** `GoFishDealer(np_random)`: a standard deck, shuffled with the draws `picks`. */
  function NewDealer(picks: seq<nat>): Dealer {
    ShuffleDealer(Dealer(StandardDeck), picks)
  }

  /** `shuffle`. */
  function ShuffleDealer(d: Dealer, picks: seq<nat>): Dealer {
    Dealer(Shuffle(d.deck, picks))
  }

  /** A new dealer holds every card of the standard deck exactly once. */
  lemma NewDealerIsFullDeck(picks: seq<nat>)
    ensures multiset(NewDealer(picks).deck) == multiset(StandardDeck)
    ensures |NewDealer(picks).deck| == 52 && Distinct(NewDealer(picks).deck)
    ensures forall c: Card :: c in NewDealer(picks).deck
  {
    StandardDeckIsComplete();
    FullDeckShuffled(StandardDeck, picks);
  }

  /** `deal_card`: pop the last card and hand it to the player with
      `receive_cards([card], False)`; returns the card and the completed books. */
  function DealCard(d: Dealer, p: Player): (r: Result<Dealt, DealFault>)
    ensures |d.deck| == 0 ==> r == Err(OutOfCards)
    ensures r.Ok? ==> d.deck == r.value.dealer.deck + [r.value.card]
  {
    var popped := Pop(d.deck);
    if popped.Err? then Err(OutOfCards)
    else
      var (card, rest) := popped.value;
      match ReceiveCards(p, [card], false)
      case Err(f) => Err(Refused(f))
      case Ok((q, books)) => Ok(Dealt(card, books, Dealer(rest), q))
  }

  /** A card dealt without completing a book stays concealed. */
  lemma DealtConcealed(p: Player, c: Card)
    requires Valid(p) && c !in p.hand && c.rank in p.remaining
    requires ReceiveCards(p, [c], false).Ok? && ReceiveCards(p, [c], false).value.1 == {}
    ensures c in ReceiveCards(p, [c], false).value.0.concealed
  {
    assert Elements([c]) == {c};
    AddCardsKeeps(p, [c], false);
    ExtractBooksKeeps(AddCard(p, c), 0, {});
    assert AddCards(p, [c], false) == AddCards(AddCard(p, c), [], false);
    ExtractBooksNone(AddCard(p, c), 0, {});
  }

  /** From a valid player, dealing a card it does not hold, of a rank still in
      play, never fails: the card comes off the end of the deck, the rest of
      the deck is unchanged, the player stays valid, and the card joins the
      hand concealed unless it completes a book, which then leaves the hand. */
  lemma DealCardKeeps(d: Dealer, p: Player)
    requires Valid(p) && |d.deck| > 0
    requires d.deck[|d.deck| - 1] !in p.hand && d.deck[|d.deck| - 1].rank in p.remaining
    ensures DealCard(d, p).Ok?
    ensures var r := DealCard(d, p).value;
      var held := p.hand + {r.card};
      && r.card == d.deck[|d.deck| - 1] && r.dealer.deck == d.deck[..|d.deck| - 1]
      && Valid(r.player)
      && r.books == FullRanks(held, p.remaining)
      && r.player.books == p.books + r.books
      && r.player.remaining == p.remaining - r.books
      && r.player.hand == WithoutRanks(held, r.books)
      && (r.books == {} ==> r.card in r.player.concealed)
  {
    var c := d.deck[|d.deck| - 1];
    assert Elements([c]) == {c};
    ReceiveCardsKeeps(p, [c], false);
    if ReceiveCards(p, [c], false).value.1 == {} {
      DealtConcealed(p, c);
    }
  }
}
