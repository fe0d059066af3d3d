/** What a Hearts `step` does (`rlcard/games/hearts/game.py`, lines 84-157):
    the action space it reads cards from, the passing phase and the
    execution of the passes, and the tricks, their winner and the
    hearts-broken flag. */
module HeartsTricks {
  import opened Results
  import opened Cards
  import opened Decks
  import opened ActionSpaces
  import opened HeartsPlayer
  import opened HeartsGame
  import opened Arith

  // ---------------------------------------------------------------------------
  // The action space.
  // ---------------------------------------------------------------------------

  /** Different cards print differently. */
  lemma StrInjective(a: Card, b: Card)
    ensures Str(a) == Str(b) <==> a == b
  {
    ParseStr(a, Str(b));
    ParseStr(b, Str(b));
  }

  /** The strings of cards without repetitions have none, and each parses
      back to its card. */
  lemma StrsDistinct(cards: seq<Card>)
    requires Distinct(cards)
    ensures Distinct(Strs(cards))
    ensures forall i | 0 <= i < |cards| :: Parse(Strs(cards)[i]) == Some(cards[i])
  {
    forall i, j | 0 <= i < j < |cards| ensures Strs(cards)[i] != Strs(cards)[j] {
      StrInjective(cards[i], cards[j]);
    }
    forall i | 0 <= i < |cards| ensures Parse(Strs(cards)[i]) == Some(cards[i]) {
      ParseStr(cards[i], Str(cards[i]));
    }
  }

  /** `configure` and `get_num_actions`: 52 distinct actions, each indexed by
      its position, and each the string of the card at that position of the
      standard deck, which `step` reads back. */
  lemma ActionSpaceIsDeck()
    ensures |ActionList()| == NumActions && Distinct(ActionList())
    ensures ActionSpace(ActionList()).Keys == Elements(ActionList())
    ensures forall i | 0 <= i < NumActions :: ActionSpace(ActionList())[ActionList()[i]] == i
    ensures forall i | 0 <= i < NumActions :: Parse(ActionList()[i]) == Some(StandardDeck[i])
  {
    StandardDeckIsComplete();
    StrsDistinct(StandardDeck);
    ActionSpaceIndexes(ActionList());
  }

  // ---------------------------------------------------------------------------
  // The winner of a trick.
  // ---------------------------------------------------------------------------

  /** The loop of `step` keeps the index of the highest led-suit card seen so far. */
  lemma {:induction false} TopFromIsHighest(trick: seq<Card>, lead: Suit, i: nat, top: nat)
    requires top < i <= |trick| && trick[top].suit == lead
    requires forall j | 0 <= j < i && trick[j].suit == lead :: !Less(trick[top], trick[j])
    ensures trick[TopFrom(trick, lead, i, top)].suit == lead
    ensures forall j | 0 <= j < |trick| && trick[j].suit == lead :: !Less(trick[TopFrom(trick, lead, i, top)], trick[j])
    decreases |trick| - i
  {
    if i < |trick| {
      if Less(trick[top], trick[i]) && trick[i].suit == lead {
        forall j | 0 <= j < i + 1 && trick[j].suit == lead ensures !Less(trick[i], trick[j]) {
          LessIsStrictTotalOrder(trick[j], trick[top], trick[i]);
          LessIsStrictTotalOrder(trick[i], trick[j], trick[top]);
        }
        TopFromIsHighest(trick, lead, i + 1, i);
      } else {
        TopFromIsHighest(trick, lead, i + 1, top);
      }
    }
  }

  /** `top_index` points at a card of the led suit that no led-suit card of
      the trick beats. */
  lemma TopIndexIsHighest(trick: seq<Card>, lead: Suit)
    requires |trick| > 0 && trick[0].suit == lead
    ensures TopIndex(trick, lead) < |trick| && trick[TopIndex(trick, lead)].suit == lead
    ensures forall j | 0 <= j < |trick| && trick[j].suit == lead :: !Less(trick[TopIndex(trick, lead)], trick[j])
  {
    LessIsStrictTotalOrder(trick[0], trick[0], trick[0]);
    TopFromIsHighest(trick, lead, 1, 0);
  }

  // ---------------------------------------------------------------------------
  // Playing a card.
  // ---------------------------------------------------------------------------

  /** Playing fails exactly on a card not in the hand. Otherwise the card
      leaves the hand for the played cards, hearts are broken from now on if
      they were or the card breaks them, the trick grows by the card and the
      turn passes to the left while the trick is short of one card per
      player, and a full trick goes to the player `1 + top_index` seats to the
      left of the last player, who scores its points and leads next. */
  lemma PlayStepMoves(g: Game, card: Card)
    requires !g.passing && g.current < |g.players| && Keyed(g.players) && Counted(g.players[g.current])
    requires |g.trick| < |g.players|
    ensures PlayStep(g, card).Ok? <==> card in g.players[g.current].hand
    ensures PlayStep(g, card).Ok? ==>
      var h := PlayStep(g, card).value;
      var n := |g.players|;
      var trick := g.trick + [card];
      && h.broken == (g.broken || BreaksHearts(card))
      && h.cache.None? && !h.passing
      && (|trick| < n ==>
            && h.trick == trick && h.current == (g.current + 1) % n
            && h.players == g.players[g.current := PlayCard(g.players[g.current], card, trick[0].suit).value])
      && (|trick| == n ==> h.trick == [] && h.current == ToLeft(g.current, 1 + TopIndex(trick, trick[0].suit), n))
  {
  }

  /** The player who takes a full trick scores exactly its points; every
      other player is as the play left it. */
  lemma FullTrickScores(g: Game, card: Card)
    requires !g.passing && g.current < |g.players| && Keyed(g.players)
    requires |g.trick| + 1 == |g.players| && PlayStep(g, card).Ok?
    ensures var h := PlayStep(g, card).value;
      var trick := g.trick + [card];
      var played := g.players[g.current := PlayCard(g.players[g.current], card, trick[0].suit).value];
      && h.players[h.current].roundScore == played[h.current].roundScore + Points(trick)
      && h.players[h.current].hand == played[h.current].hand
      && forall i | 0 <= i < |g.players| && i != h.current :: h.players[i] == played[i]
  {
  }

  /** Seat bookkeeping of a trick: when the trick was led by `leader` and
      each play passed the turn one seat to the left, the next player sits
      `|trick|` seats left of the leader; the player completing the trick is
      followed by the leader again, and the winner `1 + top_index` seats to
      the left of the last player is the one who played the top card. */
  lemma TrickSeats(g: Game, card: Card, leader: nat)
    requires !g.passing && g.current < |g.players| && Keyed(g.players) && Counted(g.players[g.current])
    requires leader < |g.players| && |g.trick| < |g.players|
    requires g.current == (leader + |g.trick|) % |g.players|
    requires PlayStep(g, card).Ok?
    ensures var h := PlayStep(g, card).value;
      var n := |g.players|;
      var trick := g.trick + [card];
      && (|trick| < n ==> h.current == (leader + |h.trick|) % n)
      && (|trick| == n ==> h.current == (leader + TopIndex(trick, trick[0].suit)) % n)
  {
    var n := |g.players|;
    var trick := g.trick + [card];
    PlayStepMoves(g, card);
    if |trick| < n {
      ModPlus(leader + |g.trick|, 1, n);
    } else {
      var top := TopIndex(trick, trick[0].suit);
      ModPlus(leader + |g.trick|, 1 + top, n);
      assert leader + |g.trick| + 1 + top == leader + top + n;
      ModPlus(leader + top, n, n);
      ModSmall((leader + top) % n + n, n);
    }
  }

  // ---------------------------------------------------------------------------
  // Passing cards.
  // ---------------------------------------------------------------------------

  /** Passing fails exactly on a card not in the hand. Otherwise the card
      moves from the passer's hand to its passed cards, the count of passed
      cards goes up by one, every third pass moves the turn one seat to the
      left, and the phase ends after three passes per player, the passes
      then being executed; until then no other player changes. */
  lemma PassStepMoves(g: Game, card: Card)
    requires g.passing && g.current < |g.players| && Keyed(g.players) && Counted(g.players[g.current])
    ensures PassStep(g, card).Ok? <==> card in g.players[g.current].hand
    ensures PassStep(g, card).Ok? ==>
      var h := PassStep(g, card).value;
      var n := |g.players|;
      var passer := PassCard(g.players[g.current], card).value;
      && passer.hand == g.players[g.current].hand - {card}
      && passer.passed == g.players[g.current].passed + {card}
      && h.numPassed == g.numPassed + 1
      && h.current == (if h.numPassed % 3 == 0 then (g.current + 1) % n else g.current)
      && h.passing == (h.numPassed != 3 * n)
      && h.cache.None? && h.trick == g.trick && h.broken == g.broken && h.toLeft == g.toLeft
      && (h.passing ==> h.players == g.players[g.current := passer])
      && (!h.passing ==> h.players == ExecuteFrom(g.players[g.current := passer], g.toLeft, 0))
  {
    var p := g.players[g.current];
    PassCardMoves(p, card);
    if card in p.hand {
      var n := |g.players|;
      var passer := PassCard(p, card).value;
      var players := g.players[g.current := passer];
      var passed := g.numPassed + 1;
      var current := if passed % 3 == 0 then (g.current + 1) % n else g.current;
      if passed == 3 * n {
        assert PassStep(g, card) == Ok(g.(players := ExecuteFrom(players, g.toLeft, 0), numPassed := passed,
                                          passing := false, current := current, cache := None));
      } else {
        assert PassStep(g, card) == Ok(g.(players := players, numPassed := passed, current := current, cache := None));
      }
    }
  }

  /** The seat whose passes go to seat `t`. */
  function Source(t: nat, toLeft: nat, n: nat): (s: nat)
    requires n > 0 && toLeft < n
    ensures s < n
  {
    (t + n - toLeft) % n
  }

  /** Passing `toLeft` seats to the left is a one-to-one matching of seats:
      seat `s` passes to seat `t` exactly when `s` is the source of `t`. */
  lemma SourceMatches(s: nat, t: nat, toLeft: nat, n: nat)
    requires n > 0 && toLeft < n && s < n && t < n
    ensures ToLeft(s, toLeft, n) == t <==> s == Source(t, toLeft, n)
  {
    ModSmall(s + toLeft, n);
    ModSmall(t + n - toLeft, n);
  }

  /** The suit counters of a set received at once. */
  lemma OfSuitUnion(a: set<Card>, b: set<Card>, s: Suit)
    requires a !! b
    ensures |OfSuit(a + b, s)| == |OfSuit(a, s)| + |OfSuit(b, s)|
  {
    assert OfSuit(a + b, s) == OfSuit(a, s) + OfSuit(b, s);
    assert OfSuit(a, s) * OfSuit(b, s) == {};
  }

  /** Receiving, at once, cards the player does not hold keeps the counters
      right; only the hand and its counters change. */
  lemma ReceiveSetCounts(p: Player, cards: set<Card>)
    requires Counted(p) && cards !! p.hand
    ensures Counted(ReceiveSet(p, cards))
    ensures ReceiveSet(p, cards).hand == p.hand + cards
    ensures ReceiveSet(p, cards).(hand := p.hand, bySuit := p.bySuit) == p
  {
    var q := ReceiveSet(p, cards);
    forall s: Suit ensures s in q.bySuit && q.bySuit[s] == |OfSuit(q.hand, s)| {
      OfSuitUnion(p.hand, cards, s);
    }
  }

  /** Whatever order a `receive_card` loop takes distinct cards in, it ends
      where receiving the set of them at once does. */
  lemma {:induction false} ReceiveAllIsReceiveSet(p: Player, cards: seq<Card>)
    requires forall s: Suit :: s in p.bySuit
    requires Distinct(cards)
    ensures ReceiveAll(p, cards) == ReceiveSet(p, Elements(cards))
    decreases |cards|
  {
    if |cards| == 0 {
      var q := ReceiveSet(p, Elements(cards));
      assert Elements(cards) == {};
      assert q.bySuit == p.bySuit by {
        forall s | s in p.bySuit ensures q.bySuit[s] == p.bySuit[s] {
          assert OfSuit(Elements(cards), s) == {};
        }
      }
    } else {
      var c := cards[0];
      var rest := Elements(cards[1..]);
      var r := ReceiveCard(p, c);
      DistinctTail(cards);
      ElementsCons(cards);
      ReceiveAllIsReceiveSet(r, cards[1..]);
      assert c !in rest;
      ReceiveSetAfterCard(p, c, rest);
      assert ReceiveAll(p, cards) == ReceiveAll(r, cards[1..]);
      assert Elements(cards) == rest + {c};
    }
  }

  /** One card, then a set without it, is the set with it. */
  lemma ReceiveSetAfterCard(p: Player, c: Card, rest: set<Card>)
    requires forall s: Suit :: s in p.bySuit
    requires c !in rest
    ensures ReceiveSet(ReceiveCard(p, c), rest) == ReceiveSet(p, rest + {c})
  {
    var a := ReceiveSet(ReceiveCard(p, c), rest);
    var b := ReceiveSet(p, rest + {c});
    forall s | s in p.bySuit ensures a.bySuit[s] == b.bySuit[s] {
      CountAfterCard(p, c, rest, s);
    }
    assert a.bySuit == b.bySuit;
  }

  lemma CountAfterCard(p: Player, c: Card, rest: set<Card>, s: Suit)
    requires forall s: Suit :: s in p.bySuit
    requires c !in rest
    ensures ReceiveSet(ReceiveCard(p, c), rest).bySuit[s] == ReceiveSet(p, rest + {c}).bySuit[s]
  {
    OfSuitAdd(rest, c, s);
  }

  /** One round of the loop executing the passes: seat `i` gives its passed
      cards to seat `t`, and no other seat changes. */
  lemma ExecuteStep(players: seq<Player>, toLeft: nat, i: nat) returns (next: seq<Player>)
    requires Keyed(players) && toLeft < |players| && i < |players|
    ensures |next| == |players| && Keyed(next)
    ensures ExecuteFrom(players, toLeft, i) == ExecuteFrom(next, toLeft, i + 1)
    ensures var t := ToLeft(i, toLeft, |players|);
      && next[t].hand == players[t].hand + players[i].passed
      && next[t] == players[t].(hand := next[t].hand, bySuit := next[t].bySuit)
      && (Counted(players[t]) && players[i].passed !! players[t].hand ==> Counted(next[t]))
      && forall u | 0 <= u < |players| && u != t :: next[u] == players[u]
  {
    var t := ToLeft(i, toLeft, |players|);
    next := GiveTo(players, t, players[i].passed);
    if Counted(players[t]) && players[i].passed !! players[t].hand {
      ReceiveSetCounts(players[t], players[i].passed);
    }
  }

  /** Executing the passes from seat `i` on adds to each hand the cards
      passed by its source, if that source is at seat `i` or later; passed
      cards and everything else but the hands and counters stay as they were. */
  lemma ExecuteFromGives(players: seq<Player>, toLeft: nat, i: nat)
    requires Keyed(players) && toLeft < |players|
    ensures var r := ExecuteFrom(players, toLeft, i);
      forall t | 0 <= t < |players| ::
        && r[t].hand == players[t].hand
             + (if i <= Source(t, toLeft, |players|) then players[Source(t, toLeft, |players|)].passed else {})
        && r[t] == players[t].(hand := r[t].hand, bySuit := r[t].bySuit)
  {
    forall t | 0 <= t < |players|
      ensures var r := ExecuteFrom(players, toLeft, i);
        && r[t].hand == players[t].hand
             + (if i <= Source(t, toLeft, |players|) then players[Source(t, toLeft, |players|)].passed else {})
        && r[t] == players[t].(hand := r[t].hand, bySuit := r[t].bySuit)
    {
      ExecuteFromGivesAt(players, toLeft, i, t);
    }
  }

  /** `ExecuteFromGives` for the one seat `t`. */
  lemma {:induction false} ExecuteFromGivesAt(players: seq<Player>, toLeft: nat, i: nat, t: nat)
    requires Keyed(players) && toLeft < |players| && t < |players|
    ensures var r := ExecuteFrom(players, toLeft, i);
      var src := Source(t, toLeft, |players|);
      && r[t].hand == players[t].hand + (if i <= src then players[src].passed else {})
      && r[t] == players[t].(hand := r[t].hand, bySuit := r[t].bySuit)
    decreases |players| - i
  {
    var n := |players|;
    if i < n {
      var next := ExecuteStep(players, toLeft, i);
      ExecuteFromGivesAt(next, toLeft, i + 1, t);
      var src := Source(t, toLeft, n);
      SourceMatches(i, t, toLeft, n);
      assert next[src].passed == players[src].passed;
    } else {
      assert ExecuteFrom(players, toLeft, i) == players;
    }
  }

  /** Seat `s`'s passed cards are not in the hand of the seat they go to. */
  predicate PassFits(players: seq<Player>, toLeft: nat, s: nat)
    requires toLeft < |players| && s < |players|
  {
    players[s].passed !! players[ToLeft(s, toLeft, |players|)].hand
  }

  /** When no seat's passed cards are in the hand of the seat they go to,
      executing the passes keeps every counter right. */
  lemma ExecuteFromCounts(players: seq<Player>, toLeft: nat, i: nat)
    requires Keyed(players) && toLeft < |players|
    requires forall t | 0 <= t < |players| :: Counted(players[t])
    requires forall s | i <= s < |players| :: PassFits(players, toLeft, s)
    ensures forall t | 0 <= t < |players| :: Counted(ExecuteFrom(players, toLeft, i)[t])
  {
    forall t | 0 <= t < |players| ensures Counted(ExecuteFrom(players, toLeft, i)[t]) {
      ExecuteFromCountsAt(players, toLeft, i, t);
    }
  }

  /** `ExecuteFromCounts` for the one seat `t`. */
  lemma {:induction false} ExecuteFromCountsAt(players: seq<Player>, toLeft: nat, i: nat, t: nat)
    requires Keyed(players) && toLeft < |players| && t < |players|
    requires forall u | 0 <= u < |players| :: Counted(players[u])
    requires forall s | i <= s < |players| :: PassFits(players, toLeft, s)
    ensures Counted(ExecuteFrom(players, toLeft, i)[t])
    decreases |players| - i
  {
    if i < |players| {
      var next := ExecuteStepCounts(players, toLeft, i);
      ExecuteFromCountsAt(next, toLeft, i + 1, t);
    }
  }
  /** After one round of the loop the conditions of `ExecuteFromCounts` still hold. */
  lemma ExecuteStepCounts(players: seq<Player>, toLeft: nat, i: nat) returns (next: seq<Player>)
    requires Keyed(players) && toLeft < |players| && i < |players|
    requires forall t | 0 <= t < |players| :: Counted(players[t])
    requires forall s | i <= s < |players| :: PassFits(players, toLeft, s)
    ensures |next| == |players| && Keyed(next)
    ensures ExecuteFrom(players, toLeft, i) == ExecuteFrom(next, toLeft, i + 1)
    ensures forall t | 0 <= t < |players| :: Counted(next[t])
    ensures forall s | i + 1 <= s < |players| :: PassFits(next, toLeft, s)
  {
    var n := |players|;
    var t := ToLeft(i, toLeft, n);
    next := ExecuteStep(players, toLeft, i);
    assert PassFits(players, toLeft, i);
    assert Counted(next[t]);
    forall s | i + 1 <= s < n ensures PassFits(next, toLeft, s) {
      var u := ToLeft(s, toLeft, n);
      assert PassFits(players, toLeft, s);
      assert next[s].passed == players[s].passed;
      if u == t {
        SourceMatches(s, t, toLeft, n);
        SourceMatches(i, t, toLeft, n);
        assert false;
      }
      assert next[u] == players[u];
    }
  }
}
