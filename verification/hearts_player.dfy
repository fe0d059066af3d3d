/** A Hearts player (`rlcard/games/hearts/player.py`): the hand, a count of
    the hand's cards per suit, the suits the table knows the player is void
    of, the cards played and passed, and the round and game scores. */
module HeartsPlayer {
  import opened Results
  import opened Cards
  import opened Decks

  /** `HeartsPlayer`. `bySuit` and `voids` have a key for every suit. */
  datatype Player = Player(
    id: nat,
    hand: set<Card>,
    bySuit: map<Suit, int>,
    voids: map<Suit, bool>,
    played: set<Card>,
    passed: set<Card>,
    roundScore: int,
    gameScore: int)

  /** Why a player operation fails: `hand.remove` of a card not in the hand (KeyError). */
  datatype PlayerFault = NotInHand(card: Card)

  /** The cards of suit `s` in a hand. */
  function OfSuit(hand: set<Card>, s: Suit): set<Card> {
    set c | c in hand && c.suit == s
  }

  /** The per-suit counters agree with the hand and the void flags cover every suit. */
  ghost predicate Counted(p: Player) {
    && (forall s: Suit :: s in p.bySuit && p.bySuit[s] == |OfSuit(p.hand, s)|)
    && (forall s: Suit :: s in p.voids)
  }

  /** Every suit of the deck. */
  const AllSuits: set<Suit> := {Spades, Hearts, Diamonds, Clubs}

  lemma AllSuitsListed()
    ensures forall s: Suit :: s in AllSuits
  {
    forall s: Suit ensures s in AllSuits {
      match s
      case Spades =>
      case Hearts =>
      case Diamonds =>
      case Clubs =>
    }
  }

  /** `HeartsPlayer(player_id)`: empty hand, zero counters, no known voids, no score. */
  function NewPlayer(id: nat, gameScore: int): (p: Player)
    ensures Counted(p)
    ensures p.hand == {} && p.played == {} && p.passed == {} && p.roundScore == 0
    ensures forall s: Suit :: !p.voids[s]
  {
    AllSuitsListed();
    Player(id, {}, map s | s in AllSuits :: 0, map s | s in AllSuits :: false, {}, {}, 0, gameScore)
  }

  /** `receive_card`: add the card to the hand and count it under its suit. */
  function ReceiveCard(p: Player, c: Card): Player
    requires c.suit in p.bySuit
  {
    p.(hand := p.hand + {c}, bySuit := p.bySuit[c.suit := p.bySuit[c.suit] + 1])
  }

  /** `_remove_card_from_hand`: take the card out of the hand and uncount it. */
  function RemoveCard(p: Player, c: Card): (r: Result<Player, PlayerFault>)
    requires c.suit in p.bySuit
    ensures r.Ok? <==> c in p.hand
  {
    if c !in p.hand then Err(NotInHand(c))
    else Ok(p.(hand := p.hand - {c}, bySuit := p.bySuit[c.suit := p.bySuit[c.suit] - 1]))
  }

  /** `pass_card`. */
  function PassCard(p: Player, c: Card): Result<Player, PlayerFault>
    requires c.suit in p.bySuit
  {
    var q :- RemoveCard(p, c);
    Ok(q.(passed := q.passed + {c}))
  }

  /** `play_card`: a card off the led suit shows the player is void of that suit. */
  function PlayCard(p: Player, c: Card, lead: Suit): Result<Player, PlayerFault>
    requires c.suit in p.bySuit
  {
    var q :- RemoveCard(p, c);
    var q := q.(played := q.played + {c});
    if c.suit != lead then Ok(q.(voids := q.voids[lead := true])) else Ok(q)
  }

  /** `receive_trick`: the trick's points go to the round score and are returned. */
  function ReceiveTrick(p: Player, trick: seq<Card>): (Player, int) {
    var value := Points(trick);
    (p.(roundScore := p.roundScore + value), value)
  }

  /** `is_void_of_suit`. */
  predicate IsVoidOfSuit(p: Player, s: Suit)
    requires s in p.bySuit
  {
    p.bySuit[s] == 0
  }

  // ---------------------------------------------------------------------------
  // Properties.
  // ---------------------------------------------------------------------------

  /** Adding a card of suit `s` adds it to that suit's cards only. */
  lemma OfSuitAdd(hand: set<Card>, c: Card, s: Suit)
    ensures OfSuit(hand + {c}, s) == OfSuit(hand, s) + (if c.suit == s then {c} else {})
  {
  }

  /** Removing a card of suit `s` removes it from that suit's cards only. */
  lemma OfSuitRemove(hand: set<Card>, c: Card, s: Suit)
    ensures OfSuit(hand - {c}, s) == OfSuit(hand, s) - {c}
  {
  }

  /** Receiving a card the player does not hold keeps the counters right, and
      only the hand and its counters change. */
  lemma ReceiveCardCounts(p: Player, c: Card)
    requires Counted(p) && c !in p.hand
    ensures Counted(ReceiveCard(p, c))
    ensures ReceiveCard(p, c).hand == p.hand + {c}
    ensures ReceiveCard(p, c).(hand := p.hand, bySuit := p.bySuit) == p
  {
    var q := ReceiveCard(p, c);
    forall s: Suit ensures s in q.bySuit && q.bySuit[s] == |OfSuit(q.hand, s)| {
      OfSuitAdd(p.hand, c, s);
    }
  }

  /** Taking a card out keeps the counters right. */
  lemma RemoveCardCounts(p: Player, c: Card)
    requires Counted(p) && c in p.hand
    ensures RemoveCard(p, c).Ok? && Counted(RemoveCard(p, c).value)
    ensures RemoveCard(p, c).value.hand == p.hand - {c}
  {
    var q := RemoveCard(p, c).value;
    forall s: Suit ensures s in q.bySuit && q.bySuit[s] == |OfSuit(q.hand, s)| {
      OfSuitRemove(p.hand, c, s);
    }
  }

  /** `pass_card` fails exactly on a card not in the hand; otherwise the card
      moves from the hand to the passed cards and nothing else changes. */
  lemma PassCardMoves(p: Player, c: Card)
    requires Counted(p)
    ensures PassCard(p, c).Ok? <==> c in p.hand
    ensures PassCard(p, c).Ok? ==>
      var q := PassCard(p, c).value;
      && Counted(q)
      && q.hand == p.hand - {c} && q.passed == p.passed + {c}
      && q.(hand := p.hand, bySuit := p.bySuit, passed := p.passed) == p
  {
    if c in p.hand {
      RemoveCardCounts(p, c);
    }
  }

  /** `play_card` fails exactly on a card not in the hand; otherwise the card
      moves from the hand to the played cards, the void flag of the led suit
      is raised when the card is off suit, no flag is ever lowered, and
      nothing else changes. */
  lemma PlayCardMoves(p: Player, c: Card, lead: Suit)
    requires Counted(p)
    ensures PlayCard(p, c, lead).Ok? <==> c in p.hand
    ensures PlayCard(p, c, lead).Ok? ==>
      var q := PlayCard(p, c, lead).value;
      && Counted(q)
      && q.hand == p.hand - {c} && q.played == p.played + {c}
      && (forall s: Suit :: q.voids[s] == (p.voids[s] || (s == lead && c.suit != lead)))
      && q.(hand := p.hand, bySuit := p.bySuit, played := p.played, voids := p.voids) == p
  {
    if c in p.hand {
      RemoveCardCounts(p, c);
    }
  }

  /** A player is void of a suit exactly when the hand holds no card of it. */
  lemma VoidMeansNoCard(p: Player, s: Suit)
    requires Counted(p)
    ensures IsVoidOfSuit(p, s) <==> forall c | c in p.hand :: c.suit != s
  {
    if !IsVoidOfSuit(p, s) {
      assert OfSuit(p.hand, s) != {};
      var c :| c in OfSuit(p.hand, s);
    } else {
      assert OfSuit(p.hand, s) == {};
      forall c | c in p.hand ensures c.suit != s {
        assert c !in OfSuit(p.hand, s);
      }
    }
  }

  /** Taking two tricks one after the other scores the same as taking their
      cards as one trick: the round score is the points of every card taken. */
  lemma ReceiveTricksAdd(p: Player, a: seq<Card>, b: seq<Card>)
    ensures ReceiveTrick(ReceiveTrick(p, a).0, b).0 == ReceiveTrick(p, a + b).0
    ensures ReceiveTrick(p, a).1 + ReceiveTrick(ReceiveTrick(p, a).0, b).1 == ReceiveTrick(p, a + b).1
  {
    PointsAppend(a, b);
  }

  /** A trick of distinct cards is worth at most the 26 points of the whole deck. */
  lemma TrickWorthAtMost26(p: Player, trick: seq<Card>)
    requires Distinct(trick)
    ensures 0 <= ReceiveTrick(p, trick).1 <= 26
    ensures ReceiveTrick(p, trick).0.roundScore == p.roundScore + ReceiveTrick(p, trick).1
  {
    PointsOfDistinct(trick);
  }

  /** The points of a set of cards, taken in deck order from position `i`,
      are at most those of the deck from there. */
  lemma {:induction false} OrderedFromPoints(s: set<Card>, i: nat)
    requires i <= 52
    ensures Points(OrderedFrom(s, i)) <= Points(DeckFrom(i))
    decreases 52 - i
  {
    if i < 52 {
      var c := DeckCard(i);
      OrderedFromPoints(s, i + 1);
      PointsAppend(if c in s then [c] else [], OrderedFrom(s, i + 1));
      assert DeckFrom(i) == [c] + DeckFrom(i + 1);
      PointsAppend([c], DeckFrom(i + 1));
    }
  }

  /** Adding a card to a set adds its points to the set's deck-order listing
      from `i` on, if the card sits at or after position `i`. */
  lemma {:induction false} OrderedFromAdd(s: set<Card>, c: Card, i: nat)
    requires i <= 52 && c !in s
    ensures Points(OrderedFrom(s + {c}, i))
         == Points(OrderedFrom(s, i)) + (if DeckPosition(c) >= i then PointValue(c) else 0)
    decreases 52 - i
  {
    if i < 52 {
      var d := DeckCard(i);
      OrderedFromAdd(s, c, i + 1);
      PointsAppend(if d in s + {c} then [d] else [], OrderedFrom(s + {c}, i + 1));
      PointsAppend(if d in s then [d] else [], OrderedFrom(s, i + 1));
      PositionOfDeckCard(i);
      DeckCardAtPosition(c);
    }
  }

  /** The points of a set of cards. */
  function SetPoints(s: set<Card>): nat {
    Points(OrderedFrom(s, 0))
  }

  /** Cards without repetitions hold the points of their set. */
  lemma {:induction false} PointsOfElements(s: seq<Card>)
    requires Distinct(s)
    ensures Points(s) == SetPoints(Elements(s))
  {
    if |s| > 0 {
      DistinctTail(s);
      PointsOfElements(s[1..]);
      SetPointsAdd(s);
    } else {
      assert Elements(s) == {};
    }
  }

  lemma SetPointsAdd(s: seq<Card>)
    requires Distinct(s) && |s| > 0
    ensures SetPoints(Elements(s)) == PointValue(s[0]) + SetPoints(Elements(s[1..]))
  {
    var t := Elements(s[1..]);
    DistinctTail(s);
    ElementsCons(s);
    assert Elements(s) == t + {s[0]};
    OrderedFromAdd(t, s[0], 0);
  }

  /** Cards without repetitions hold at most the deck's 26 points. */
  lemma PointsOfDistinct(s: seq<Card>)
    requires Distinct(s)
    ensures Points(s) <= 26
  {
    PointsOfElements(s);
    OrderedFromPoints(Elements(s), 0);
    StandardDeckPoints();
  }
}
