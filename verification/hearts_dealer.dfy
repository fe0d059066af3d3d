/** The Hearts dealer (`rlcard/games/hearts/dealer.py`). Unlike the Go Fish
    dealer it has no deck until `shuffle` is called; `deal_card` pops the last
    card of the deck and gives it to the player. */
module HeartsDealer {
  import opened Results
  import opened Cards
  import opened Decks
  import opened HeartsPlayer

  /** `HeartsDealer`: `deck` is None while the attribute does not exist. */
  datatype Dealer = Dealer(deck: Option<seq<Card>>)

  /** Why dealing fails: there is no deck attribute yet (AttributeError), or
      the deck is empty (`pop` raises IndexError). */
  datatype DealerFault = NoDeck | DeckUsedUp

  /** `HeartsDealer(np_random)`: the constructor only keeps the random generator. */
  function NewDealer(): (d: Dealer)
    ensures d.deck.None?
  {
    Dealer(None)
  }

  /** `shuffle`: a fresh standard deck, shuffled with the draws `picks`. */
  function ShuffleDealer(d: Dealer, picks: seq<nat>): Dealer {
    Dealer(Some(Shuffle(StandardDeck, picks)))
  }

  /** After `shuffle` the deck holds every card of the standard deck exactly once. */
  lemma ShuffledIsFullDeck(d: Dealer, picks: seq<nat>)
    ensures ShuffleDealer(d, picks).deck.Some?
    ensures var x := ShuffleDealer(d, picks).deck.value;
      multiset(x) == multiset(StandardDeck) && |x| == 52 && Distinct(x) && forall c: Card :: c in x
  {
    StandardDeckIsComplete();
    FullDeckShuffled(StandardDeck, picks);
  }

  /** `deal_card`: pop the last card and give it to the player with `receive_card`. */
  function DealCard(d: Dealer, p: Player): Result<(Dealer, Player), DealerFault>
    requires forall s: Suit :: s in p.bySuit
  {
    match d.deck
    case None => Err(NoDeck)
    case Some(x) =>
      match Pop(x)
      case Err(_) => Err(DeckUsedUp)
      case Ok((c, rest)) => Ok((Dealer(Some(rest)), ReceiveCard(p, c)))
  }

  /** `deal_card` fails without a deck or on an empty one; otherwise the deck
      loses exactly its last card, which joins the player's hand and is
      counted under its suit, and nothing else about the player changes. */
  lemma DealCardPops(d: Dealer, p: Player)
    requires Counted(p)
    ensures d.deck.None? ==> DealCard(d, p) == Err(NoDeck)
    ensures d.deck == Some([]) ==> DealCard(d, p) == Err(DeckUsedUp)
    ensures d.deck.Some? && |d.deck.value| > 0 ==>
      var x := d.deck.value;
      var c := x[|x| - 1];
      && DealCard(d, p).Ok?
      && DealCard(d, p).value.0.deck == Some(x[..|x| - 1])
      && DealCard(d, p).value.1.hand == p.hand + {c}
      && (c !in p.hand ==> Counted(DealCard(d, p).value.1))
      && DealCard(d, p).value.1.(hand := p.hand, bySuit := p.bySuit) == p
  {
    if d.deck.Some? && |d.deck.value| > 0 {
      var x := d.deck.value;
      if x[|x| - 1] !in p.hand {
        ReceiveCardCounts(p, x[|x| - 1]);
      }
    }
  }
}
