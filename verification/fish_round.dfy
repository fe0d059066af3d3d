/** What a Go Fish game keeps true from `init_game` on: every player's
    tracker is valid, no card is in two places, and every card still in a
    hand or the deck is of a rank every player has in play. From such a game
    a legal action always plays a turn, and the turn keeps the game so. */
module FishRound {
  import opened Results
  import opened Cards
  import opened FishPlayer
  import opened FishKnowledge
  import opened FishTheorems
  import opened FishDealer
  import opened FishActions
  import opened FishGame
  import opened Arith

  /** Every player's tracker keeps its invariant. */
  ghost predicate AllValid(ps: seq<Player>) {
    forall i | 0 <= i < |ps| :: Valid(ps[i])
  }

  /** No card is in two places: two hands, a hand and the deck, the deck
      twice, or in transit and anywhere else. */
  ghost predicate Apart(ps: seq<Player>, deck: seq<Card>, loose: set<Card>) {
    && (forall i, j | 0 <= i < j < |ps| :: ps[i].hand !! ps[j].hand)
    && Distinct(deck)
    && loose !! Elements(deck)
    && (forall i | 0 <= i < |ps| :: ps[i].hand !! Elements(deck) && ps[i].hand !! loose)
  }

  /** Every card outside the books is of a rank that every player still has in play. */
  ghost predicate Live(ps: seq<Player>, deck: seq<Card>, loose: set<Card>) {
    && (forall i, j, c | 0 <= i < |ps| && 0 <= j < |ps| && c in ps[j].hand :: c.rank in ps[i].remaining)
    && (forall i, c | 0 <= i < |ps| && c in deck :: c.rank in ps[i].remaining)
    && (forall i, c | 0 <= i < |ps| && c in loose :: c.rank in ps[i].remaining)
  }

  /** The game's bookkeeping, with `loose` the cards in transit between
      seats (taken from one hand or the deck and not yet received). */
  ghost predicate Consistent(g: Game, loose: set<Card>) {
    AllValid(g.players) && Apart(g.players, g.dealer.deck, loose) && Live(g.players, g.dealer.deck, loose)
  }

  /** A game with nothing in transit. */
  ghost predicate Settled(g: Game) {
    Consistent(g, {})
  }

  /** The player `o` seats to the left, for `0 < o < n`, is never the asker. */
  lemma TargetIsOther(g: Game, o: nat)
    requires g.current < |g.players| && 0 < o < |g.players|
    ensures Target(g, o) != g.current
  {
    ModSmall(g.current + o, |g.players|);
  }

  // ---------------------------------------------------------------------------
  // Cards leaving and joining hands.
  // ---------------------------------------------------------------------------

  lemma SeatValid(ps: seq<Player>, t: nat, q: Player)
    requires AllValid(ps) && t < |ps| && Valid(q)
    ensures AllValid(ps[t := q])
  {
  }

  lemma RemoveApart(ps: seq<Player>, deck: seq<Card>, t: nat, q: Player, netted: set<Card>)
    requires Apart(ps, deck, {}) && t < |ps|
    requires netted <= ps[t].hand && q.hand == ps[t].hand - netted
    ensures Apart(ps[t := q], deck, netted)
  {
    var h := ps[t := q];
    forall i, j | 0 <= i < j < |ps| ensures h[i].hand !! h[j].hand {
      assert ps[i].hand !! ps[j].hand;
    }
    forall i | 0 <= i < |ps| ensures h[i].hand !! netted {
      if i < t {
        assert ps[i].hand !! ps[t].hand;
      } else if i > t {
        assert ps[t].hand !! ps[i].hand;
      }
    }
  }

  lemma RemoveLive(ps: seq<Player>, deck: seq<Card>, t: nat, q: Player, netted: set<Card>)
    requires Live(ps, deck, {}) && t < |ps|
    requires netted <= ps[t].hand && q.hand <= ps[t].hand && q.remaining == ps[t].remaining
    ensures Live(ps[t := q], deck, netted)
  {
    var h := ps[t := q];
    forall i, j, c | 0 <= i < |ps| && 0 <= j < |ps| && c in h[j].hand ensures c.rank in h[i].remaining {
      assert c in ps[j].hand;
    }
    forall i, c | 0 <= i < |ps| && c in netted ensures c.rank in h[i].remaining {
      assert c in ps[t].hand;
    }
  }

  /** `remove_cards_of_rank` on seat `t` puts exactly its cards of the rank in
      transit and keeps the bookkeeping. */
  lemma RemoveHolds(g: Game, t: nat, r: Rank)
    requires Settled(g) && t < |g.players| && r in g.players[t].remaining
    ensures RemoveCardsOfRank(g.players[t], r).Ok?
    ensures var (q, netted) := RemoveCardsOfRank(g.players[t], r).value;
      && netted == CardsOfRank(g.players[t].hand, r)
      && q.hand == g.players[t].hand - netted
      && q.books == g.players[t].books
      && Consistent(g.(players := g.players[t := q]), netted)
  {
    RemoveCardsOfRankKeeps(g.players[t], r);
    var (q, netted) := RemoveCardsOfRank(g.players[t], r).value;
    SeatValid(g.players, t, q);
    RemoveApart(g.players, g.dealer.deck, t, q, netted);
    RemoveLive(g.players, g.dealer.deck, t, q, netted);
  }

  /** A four-card rank of the `held` cards has no card anywhere else. */
  lemma BookIsWhole(held: set<Card>, r: Rank, c: Card)
    requires |CardsOfRank(held, r)| == 4 && c.rank == r
    ensures c in held
  {
    RankHasFourCards(r, CardsOfRank(held, r));
  }

  lemma AbsorbApart(ps: seq<Player>, deck: seq<Card>, loose: set<Card>, i: nat, q: Player)
    requires Apart(ps, deck, loose) && i < |ps|
    requires q.hand <= ps[i].hand + loose
    ensures Apart(ps[i := q], deck, {})
  {
    var h := ps[i := q];
    forall a, b | 0 <= a < b < |ps| ensures h[a].hand !! h[b].hand {
      assert ps[a].hand !! ps[b].hand;
      if a == i {
        assert ps[b].hand !! loose;
      } else if b == i {
        assert ps[a].hand !! loose;
      }
    }
  }

  lemma AbsorbLive(ps: seq<Player>, deck: seq<Card>, loose: set<Card>, i: nat, q: Player, completed: set<Rank>)
    requires Apart(ps, deck, loose) && Live(ps, deck, loose) && i < |ps|
    requires completed == FullRanks(ps[i].hand + loose, ps[i].remaining)
    requires q.remaining == ps[i].remaining - completed
    requires q.hand == WithoutRanks(ps[i].hand + loose, completed)
    ensures Live(ps[i := q], deck, {})
  {
    var held := ps[i].hand + loose;
    var h := ps[i := q];
    forall a, j, c | 0 <= a < |ps| && 0 <= j < |ps| && c in h[j].hand
      ensures c.rank in h[a].remaining
    {
      if a == i && c.rank in completed {
        BookIsWhole(held, c.rank, c);
        assert false;
      }
    }
    forall a, c | 0 <= a < |ps| && c in deck ensures c.rank in h[a].remaining {
      if a == i && c.rank in completed {
        BookIsWhole(held, c.rank, c);
        assert false;
      }
    }
  }

  /** Seat `i` taking in the cards in transit, completing the books
      `completed`, leaves nothing in transit and keeps the bookkeeping. */
  lemma AbsorbHolds(g: Game, loose: set<Card>, i: nat, q: Player, completed: set<Rank>)
    requires Consistent(g, loose) && i < |g.players|
    requires var p := g.players[i];
      && Valid(q)
      && completed == FullRanks(p.hand + loose, p.remaining)
      && q.remaining == p.remaining - completed
      && q.hand == WithoutRanks(p.hand + loose, completed)
    ensures Settled(g.(players := g.players[i := q]))
  {
    SeatValid(g.players, i, q);
    AbsorbApart(g.players, g.dealer.deck, loose, i, q);
    AbsorbLive(g.players, g.dealer.deck, loose, i, q, completed);
  }

  lemma PopApart(ps: seq<Player>, deck: seq<Card>)
    requires Apart(ps, deck, {}) && |deck| > 0
    ensures Apart(ps, deck[..|deck| - 1], {deck[|deck| - 1]})
  {
    var top := deck[|deck| - 1];
    var rest := deck[..|deck| - 1];
    assert deck == rest + [top];
    assert Elements(deck) == Elements(rest) + {top};
  }

  lemma PopLive(ps: seq<Player>, deck: seq<Card>)
    requires Live(ps, deck, {}) && |deck| > 0
    ensures Live(ps, deck[..|deck| - 1], {deck[|deck| - 1]})
  {
    var top := deck[|deck| - 1];
    forall i, c | 0 <= i < |ps| && c in deck[..|deck| - 1] ensures c.rank in ps[i].remaining {
      assert c in deck;
    }
  }

  /** Taking the top card off the deck puts it in transit. */
  lemma PopHolds(g: Game)
    requires Settled(g) && |g.dealer.deck| > 0
    ensures var deck := g.dealer.deck;
      Consistent(g.(dealer := Dealer(deck[..|deck| - 1])), {deck[|deck| - 1]})
  {
    PopApart(g.players, g.dealer.deck);
    PopLive(g.players, g.dealer.deck);
  }

  /** `deal_card` to seat `i` from a non-empty deck never fails: the top
      card goes to that seat, whose books can only grow, no other seat
      changes, and the bookkeeping is kept. */
  lemma DrawHolds(g: Game, i: nat)
    requires Settled(g) && i < |g.players| && |g.dealer.deck| > 0
    ensures Draw(g, i).Ok?
    ensures var (card, h) := Draw(g, i).value;
      && card == g.dealer.deck[|g.dealer.deck| - 1]
      && h.dealer.deck == g.dealer.deck[..|g.dealer.deck| - 1]
      && |h.players| == |g.players| && h.current == g.current
      && h.players == g.players[i := h.players[i]]
      && g.players[i].books <= h.players[i].books
      && Settled(h)
  {
    var deck := g.dealer.deck;
    var top := deck[|deck| - 1];
    assert top in Elements(deck);
    DealCardKeeps(g.dealer, g.players[i]);
    var d := DealCard(g.dealer, g.players[i]).value;
    PopHolds(g);
    var g1 := g.(dealer := Dealer(deck[..|deck| - 1]));
    AbsorbHolds(g1, {top}, i, d.player, d.books);
    assert g1.(players := g1.players[i := d.player]) == g.(players := g.players[i := d.player], dealer := d.dealer);
  }

  /** The asker catching the `netted` cards in transit never fails and keeps
      the turn. Every netted card of a rank it does not thereby complete is
      in its hand and public; a completed rank leaves its hand for its
      books; the deck and every other seat are unchanged. */
  lemma CatchReceives(g: Game, netted: set<Card>)
    requires Consistent(g, netted) && g.current < |g.players|
    ensures Catch(g, netted).Ok?
    ensures var h := Catch(g, netted).value.game;
      var p := g.players[g.current];
      var q := h.players[g.current];
      var completed := FullRanks(p.hand + netted, p.remaining);
      && Catch(g, netted).value.again
      && h.dealer == g.dealer && h.current == g.current
      && h.players == g.players[g.current := q]
      && q.books == p.books + completed
      && q.hand == WithoutRanks(p.hand + netted, completed)
      && (forall c | c in netted && c.rank !in completed :: c in q.hand && IsPublic(q, c))
      && Caught(p, q, netted)
      && Settled(h)
  {
    var p := g.players[g.current];
    var cards := Ordered(netted);
    assert Elements(cards) == netted;
    ReceiveCardsKeeps(p, cards, true);
    var (q, completed) := ReceiveCards(p, cards, true).value;
    AbsorbHolds(g, netted, g.current, q, completed);
  }

  // ---------------------------------------------------------------------------
  // The parts of a turn.
  // ---------------------------------------------------------------------------

  /** Fishing never fails and keeps the bookkeeping; the asker's books only grow. */
  lemma GoFishHolds(g: Game, rank: Rank)
    requires Settled(g) && g.current < |g.players|
    ensures GoFish(g, rank).Ok?
    ensures var h := GoFish(g, rank).value.game;
      Settled(h) && h.players == g.players[g.current := h.players[g.current]]
      && g.players[g.current].books <= h.players[g.current].books
  {
    if |g.dealer.deck| > 0 {
      DrawHolds(g, g.current);
    }
  }

  /** Refilling never fails and keeps the bookkeeping; the asker's books only grow. */
  lemma RefillHolds(t: Turn)
    requires Settled(t.game) && t.game.current < |t.game.players|
    ensures Refill(t).Ok?
    ensures var h := Refill(t).value.game;
      Settled(h) && h.players == t.game.players[t.game.current := h.players[t.game.current]]
      && t.game.players[t.game.current].books <= h.players[t.game.current].books
  {
    if t.again && t.game.players[t.game.current].hand == {} && |t.game.dealer.deck| > 0 {
      DrawHolds(t.game, t.game.current);
    }
  }

  /** Each of the `netted` cards asked for reached the asker `q` (who was
      `p` before): it is in `q`'s hand and public, or its rank is among
      `q`'s books; and `q`'s books only grew. */
  ghost predicate Caught(p: Player, q: Player, netted: set<Card>) {
    && p.books <= q.books
    && (forall c | c in netted :: c.rank in q.books || (c in q.hand && IsPublic(q, c)))
  }

  /** What the asker's response to the cards `netted` in transit leaves:
      the bookkeeping kept, no other seat changed, every netted card caught,
      and a catch keeping the turn unless the deck ran out. */
  ghost predicate Answered(g: Game, netted: set<Card>, turn: Turn)
    requires g.current < |g.players|
  {
    && Settled(turn.game)
    && |turn.game.players| == |g.players|
    && turn.game.players == g.players[g.current := turn.game.players[g.current]]
    && Caught(g.players[g.current], turn.game.players[g.current], netted)
    && (netted != {} ==> turn.again || g.dealer.deck == [])
  }

  /** Refilling after a catch that kept the turn answers the netted cards. */
  lemma RefillAnswers(g: Game, netted: set<Card>, caught: Turn)
    requires g.current < |g.players| && netted != {}
    requires caught.again && Settled(caught.game)
    requires caught.game.current == g.current && caught.game.dealer == g.dealer
    requires |caught.game.players| == |g.players|
    requires caught.game.players == g.players[g.current := caught.game.players[g.current]]
    requires Caught(g.players[g.current], caught.game.players[g.current], netted)
    ensures Refill(caught).Ok? && Answered(g, netted, Refill(caught).value)
  {
    RefillHolds(caught);
    var q1 := caught.game.players[g.current];
    if q1.hand != {} {
      assert Refill(caught) == Ok(caught);
    } else {
      var q := Refill(caught).value.game.players[g.current];
      forall c | c in netted ensures c.rank in q.books {
        assert c.rank in q1.books;
      }
    }
  }

  lemma CatchThenRefill(g: Game, netted: set<Card>)
    requires Consistent(g, netted) && g.current < |g.players| && netted != {}
    ensures Catch(g, netted).Ok? && Refill(Catch(g, netted).value).Ok?
    ensures Answered(g, netted, Refill(Catch(g, netted).value).value)
  {
    CatchReceives(g, netted);
    RefillAnswers(g, netted, Catch(g, netted).value);
  }

  lemma FishThenRefill(g: Game, rank: Rank)
    requires Settled(g) && g.current < |g.players|
    ensures GoFish(g, rank).Ok? && Refill(GoFish(g, rank).value).Ok?
    ensures Answered(g, {}, Refill(GoFish(g, rank).value).value)
  {
    GoFishHolds(g, rank);
    RefillHolds(GoFish(g, rank).value);
  }

  /** The asker's response to the cards in transit never fails and answers
      them: see `Answered`. */
  lemma RespondHolds(g: Game, netted: set<Card>, rank: Rank)
    requires Consistent(g, netted) && g.current < |g.players|
    ensures Respond(g, netted, rank).Ok? && Answered(g, netted, Respond(g, netted, rank).value)
  {
    if netted != {} {
      CatchThenRefill(g, netted);
    } else {
      FishThenRefill(g, rank);
    }
  }

  // ---------------------------------------------------------------------------
  // A whole turn.
  // ---------------------------------------------------------------------------

  /** What an ask of seat `t` for `rank` leaves, given the `turn` it ends in. */
  ghost predicate Asked(g: Game, t: nat, rank: Rank, turn: Turn)
    requires g.current < |g.players| && t < |g.players|
  {
    var netted := CardsOfRank(g.players[t].hand, rank);
    var h := turn.game;
    && |h.players| == |g.players|
    && h.players[t].hand == g.players[t].hand - netted
    && (forall j | 0 <= j < |g.players| && j != t && j != g.current :: h.players[j] == g.players[j])
    && Caught(g.players[g.current], h.players[g.current], netted)
    && (netted != {} ==> turn.again || g.dealer.deck == [])
    && Settled(h)
  }

  lemma AskFrame(g: Game, t: nat, rank: Rank, q: Player, turn: Turn)
    requires g.current < |g.players| && t < |g.players| && t != g.current
    requires q.hand == g.players[t].hand - CardsOfRank(g.players[t].hand, rank)
    requires Answered(g.(players := g.players[t := q]), CardsOfRank(g.players[t].hand, rank), turn)
    ensures Asked(g, t, rank, turn)
  {
  }

  /** Asking another seat for a rank the asker holds never fails. The target
      hands over exactly its cards of that rank; each of them ends in the
      asker's hand, public, or in the asker's books; a catch keeps the turn
      unless the deck is empty; no third seat changes; and the bookkeeping
      is kept. */
  lemma AskMoves(g: Game, o: nat, rank: Rank)
    requires Settled(g) && g.current < |g.players| && 0 < o < |g.players|
    requires CardsOfRank(g.players[g.current].hand, rank) != {}
    ensures Ask(g, o, rank).Ok? && Asked(g, Target(g, o), rank, Ask(g, o, rank).value)
  {
    var t := Target(g, o);
    TargetIsOther(g, o);
    var c0 :| c0 in CardsOfRank(g.players[g.current].hand, rank);
    assert rank in g.players[t].remaining;
    RemoveHolds(g, t, rank);
    var (q, netted) := RemoveCardsOfRank(g.players[t], rank).value;
    var g1 := g.(players := g.players[t := q]);
    RespondHolds(g1, netted, rank);
    AskAnswers(g, o, rank);
    AskFrame(g, t, rank, q, Respond(g1, netted, rank).value);
  }

  /** From a consistent game of at most ten players (more cannot be dealt),
      every legal action of the current player plays a turn, and the game
      stays consistent. */
  lemma LegalStepSucceeds(g: Game, a: string)
    requires Settled(g) && g.current < |g.players| <= 10
    requires a in LegalActions(g.players[g.current].hand, |g.players|)
    ensures Step(g, a).Ok? && Settled(Step(g, a).value)
  {
    var o, r := LegalActionOf(g.players[g.current].hand, |g.players|, a);
    DecodeAction(o, r);
    AskMoves(g, o, r);
  }

  // ---------------------------------------------------------------------------
  // init_game.
  // ---------------------------------------------------------------------------

  lemma DealEmpty(g: Game, k: nat, total: nat)
    requires |g.players| > 0 && k < total && g.dealer.deck == []
    ensures DealFrom(g, k, total).Err?
  {
    var i := k % |g.players|;
    assert Draw(g, i).Err?;
  }

  lemma DealOnce(g: Game, k: nat, total: nat) returns (g1: Game)
    requires Settled(g) && |g.players| > 0 && k < total && |g.dealer.deck| > 0
    ensures |g1.players| == |g.players| && Settled(g1)
    ensures |g1.dealer.deck| == |g.dealer.deck| - 1
    ensures DealFrom(g, k, total) == DealFrom(g1, k + 1, total)
  {
    var i := k % |g.players|;
    DrawHolds(g, i);
    g1 := Draw(g, i).value.1;
  }

  /** The dealing loop from deal `k` succeeds exactly when the deck holds
      the cards still to deal, and then keeps the bookkeeping. */
  lemma {:induction false} DealFromHolds(g: Game, k: nat, total: nat) returns (r: Result<Game, GameFault>)
    requires Settled(g) && |g.players| > 0 && k <= total
    ensures r == DealFrom(g, k, total)
    ensures r.Ok? <==> total - k <= |g.dealer.deck|
    ensures r.Ok? ==> Settled(r.value) && |r.value.dealer.deck| == |g.dealer.deck| - (total - k)
    decreases total - k, 1
  {
    if k >= total {
      r := Ok(g);
      assert r == DealFrom(g, k, total);
    } else if g.dealer.deck == [] {
      DealEmpty(g, k, total);
      r := DealFrom(g, k, total);
    } else {
      r := DealNext(g, k, total);
    }
  }

  lemma {:induction false} DealNext(g: Game, k: nat, total: nat) returns (r: Result<Game, GameFault>)
    requires Settled(g) && |g.players| > 0 && k < total && |g.dealer.deck| > 0
    ensures r == DealFrom(g, k, total)
    ensures r.Ok? <==> total - k <= |g.dealer.deck|
    ensures r.Ok? ==> Settled(r.value) && |r.value.dealer.deck| == |g.dealer.deck| - (total - k)
    decreases total - k, 0
  {
    var g1 := DealOnce(g, k, total);
    assert DealFrom(g, k, total) == DealFrom(g1, k + 1, total);
    r := DealFromHolds(g1, k + 1, total);
    assert r == DealFrom(g1, k + 1, total);
  }

  /** `init_game` succeeds exactly when the starting draw names a player and
      the deck can deal every hand (at most ten players). It then leaves
      `52 - Deals(n)` cards in the deck and a consistent game. */
  lemma InitGameDeals(n: nat, picks: seq<nat>, start: nat)
    ensures InitGame(n, picks, start).Ok? <==> start < n <= 10
    ensures InitGame(n, picks, start).Ok? ==>
      Settled(InitGame(n, picks, start).value) && |InitGame(n, picks, start).value.dealer.deck| == 52 - Deals(n)
  {
    if start < n {
      var g := FreshGame(n, picks, start);
      var r := DealFromHolds(g, 0, Deals(n));
      assert InitGame(n, picks, start) == r;
    }
  }

  /** The game `init_game` deals from: fresh players and a full deck. */
  lemma FreshGame(n: nat, picks: seq<nat>, start: nat) returns (g: Game)
    requires start < n
    ensures g == Game(seq(n, _ => NewPlayer()), NewDealer(picks), start)
    ensures Settled(g) && |g.dealer.deck| == 52
  {
    g := Game(seq(n, _ => NewPlayer()), NewDealer(picks), start);
    NewDealerIsFullDeck(picks);
    FreshSettled(g);
  }

  lemma FreshSettled(g: Game)
    requires forall i | 0 <= i < |g.players| :: g.players[i] == NewPlayer()
    requires Distinct(g.dealer.deck)
    ensures Settled(g)
  {
    var ps := g.players;
    NewPlayerIsValid();
    forall i | 0 <= i < |ps| ensures Valid(ps[i]) {
      assert ps[i] == NewPlayer();
    }
    forall i | 0 <= i < |ps| ensures ps[i].hand == {} {
      assert ps[i] == NewPlayer();
    }
    forall i, c | 0 <= i < |ps| && c in g.dealer.deck ensures c.rank in ps[i].remaining {
      assert ps[i] == NewPlayer();
    }
  }
}
