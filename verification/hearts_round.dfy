/** What a Hearts round keeps true from `init_game` on: every player has a
    counter and a void flag for every suit and its counters match its hand,
    no card is in two hands, and while passing no passed card is in a hand
    or passed twice. `step` keeps this, so when the last pass is executed
    no player receives a card it already holds. */
module HeartsRound {
  import opened Results
  import opened Cards
  import opened HeartsPlayer
  import opened HeartsGame
  import opened HeartsTricks
  import opened HeartsDeal

  /** No card is in two hands. */
  ghost predicate HandsApart(ps: seq<Player>) {
    forall i, j | 0 <= i < j < |ps| :: ps[i].hand !! ps[j].hand
  }

  /** No passed card is in a hand, and no card was passed by two players. */
  ghost predicate PassesApart(ps: seq<Player>) {
    && (forall i, j | 0 <= i < |ps| && 0 <= j < |ps| :: ps[i].passed !! ps[j].hand)
    && (forall i, j | 0 <= i < j < |ps| :: ps[i].passed !! ps[j].passed)
  }

  /** Every player's suit counters match its hand. */
  ghost predicate AllCounted(ps: seq<Player>) {
    forall i | 0 <= i < |ps| :: Counted(ps[i])
  }

  /** The bookkeeping of a round in play. */
  ghost predicate Sound(g: Game) {
    && 0 < |g.players|
    && g.toLeft < |g.players| && g.current < |g.players| && |g.trick| < |g.players|
    && Keyed(g.players) && AllCounted(g.players) && HandsApart(g.players)
    && (g.passing ==> PassesApart(g.players))
  }

  // ---------------------------------------------------------------------------
  // init_game.
  // ---------------------------------------------------------------------------

  /** `init_game` with at least one player deals a sound round. */
  lemma InitGameIsSound(n: nat, d: Draws)
    requires n > 0
    ensures InitGame(n, d).Ok? && Sound(InitGame(n, d).value)
  {
    InitGameDeals(n, d);
    InitGameHandsDisjoint(n, d);
    DealtIsSound(InitGame(n, d).value);
  }

  /** A freshly dealt round, with no trick and no passes, whose counters
      match the hands and whose hands share no card, is sound. */
  lemma DealtIsSound(g: Game)
    requires 0 < |g.players| && g.toLeft < |g.players| && g.current < |g.players| && g.trick == []
    requires forall i | 0 <= i < |g.players| :: Counted(g.players[i]) && g.players[i].passed == {}
    requires forall i, j, c | 0 <= i < j < |g.players| && c in g.players[i].hand :: c !in g.players[j].hand
    ensures Sound(g)
  {
    forall i, j | 0 <= i < j < |g.players| ensures g.players[i].hand !! g.players[j].hand {
      forall c | c in g.players[i].hand ensures c !in g.players[j].hand { }
    }
  }

  // ---------------------------------------------------------------------------
  // Seats changing.
  // ---------------------------------------------------------------------------

  lemma CountedUpdate(ps: seq<Player>, i: nat, q: Player)
    requires AllCounted(ps) && Keyed(ps) && i < |ps| && Counted(q)
    ensures AllCounted(ps[i := q]) && Keyed(ps[i := q])
  {
  }

  /** A card leaving one hand keeps the hands apart. */
  lemma LeaveApart(ps: seq<Player>, i: nat, q: Player)
    requires HandsApart(ps) && i < |ps| && q.hand <= ps[i].hand
    ensures HandsApart(ps[i := q])
  {
    var h := ps[i := q];
    forall a, b | 0 <= a < b < |ps| ensures h[a].hand !! h[b].hand {
      assert ps[a].hand !! ps[b].hand;
    }
  }

  /** Passing a card from the hand keeps the passes apart. */
  lemma PassApart(ps: seq<Player>, i: nat, q: Player, card: Card)
    requires HandsApart(ps) && PassesApart(ps) && i < |ps| && card in ps[i].hand
    requires q.hand == ps[i].hand - {card} && q.passed == ps[i].passed + {card}
    ensures HandsApart(ps[i := q]) && PassesApart(ps[i := q])
  {
    var h := ps[i := q];
    LeaveApart(ps, i, q);
    forall a, b | 0 <= a < |ps| && 0 <= b < |ps| ensures h[a].passed !! h[b].hand {
      assert ps[a].passed !! ps[b].hand;
      if a == i && b != i {
        if i < b {
          assert ps[i].hand !! ps[b].hand;
        } else {
          assert ps[b].hand !! ps[i].hand;
        }
      }
    }
    forall a, b | 0 <= a < b < |ps| ensures h[a].passed !! h[b].passed {
      assert ps[a].passed !! ps[b].passed;
      if a == i {
        assert ps[b].passed !! ps[i].hand;
      } else if b == i {
        assert ps[a].passed !! ps[i].hand;
      }
    }
  }

  /** Passed cards are apart from every hand, in particular from the hand
      they are passed to. */
  lemma PassesFit(ps: seq<Player>, toLeft: nat)
    requires PassesApart(ps) && toLeft < |ps|
    ensures forall s | 0 <= s < |ps| :: PassFits(ps, toLeft, s)
  {
    forall s | 0 <= s < |ps| ensures PassFits(ps, toLeft, s) {
      assert ps[s].passed !! ps[ToLeft(s, toLeft, |ps|)].hand;
    }
  }

  /** Executing the passes of players whose passes are apart keeps the hands apart. */
  lemma ExecuteApart(ps: seq<Player>, toLeft: nat)
    requires Keyed(ps) && HandsApart(ps) && PassesApart(ps) && toLeft < |ps|
    ensures HandsApart(ExecuteFrom(ps, toLeft, 0))
  {
    var r := ExecuteFrom(ps, toLeft, 0);
    ExecuteFromGives(ps, toLeft, 0);
    forall a, b | 0 <= a < b < |ps| ensures r[a].hand !! r[b].hand {
      ReceivedApart(ps, toLeft, a, b);
    }
  }

  /** Two seats' hands after the passes: each is its own hand plus the cards
      passed by its source, and the two sources differ. */
  lemma ReceivedApart(ps: seq<Player>, toLeft: nat, a: nat, b: nat)
    requires HandsApart(ps) && PassesApart(ps) && toLeft < |ps| && a < b < |ps|
    ensures var n := |ps|;
      (ps[a].hand + ps[Source(a, toLeft, n)].passed) !! (ps[b].hand + ps[Source(b, toLeft, n)].passed)
  {
    var n := |ps|;
    var sa := Source(a, toLeft, n);
    var sb := Source(b, toLeft, n);
    assert ps[a].hand !! ps[b].hand;
    assert ps[sa].passed !! ps[b].hand && ps[sb].passed !! ps[a].hand;
    SourceMatches(sa, a, toLeft, n);
    SourceMatches(sb, b, toLeft, n);
    if sa < sb {
      assert ps[sa].passed !! ps[sb].passed;
    } else if sb < sa {
      assert ps[sb].passed !! ps[sa].passed;
    }
  }

  /** The winner of a trick changes only its round score. */
  lemma ScoreKeeps(ps: seq<Player>, w: nat, q: Player)
    requires AllCounted(ps) && Keyed(ps) && HandsApart(ps) && w < |ps|
    requires q == ps[w].(roundScore := q.roundScore)
    ensures AllCounted(ps[w := q]) && Keyed(ps[w := q]) && HandsApart(ps[w := q])
  {
    LeaveApart(ps, w, q);
  }

  // ---------------------------------------------------------------------------
  // step.
  // ---------------------------------------------------------------------------

  /** A pass keeps the round sound; the last of the `3 * n` passes executes
      them all, each player receiving cards it does not hold. */
  lemma PassKeepsSound(g: Game, card: Card)
    requires Sound(g) && g.passing && PassStep(g, card).Ok?
    ensures Sound(PassStep(g, card).value)
    ensures !PassStep(g, card).value.passing ==>
      var ps := g.players[g.current := PassCard(g.players[g.current], card).value];
      forall s | 0 <= s < |ps| :: PassFits(ps, g.toLeft, s)
  {
    var n := |g.players|;
    var p := g.players[g.current];
    PassStepMoves(g, card);
    PassCardMoves(p, card);
    var q := PassCard(p, card).value;
    var ps := g.players[g.current := q];
    CountedUpdate(g.players, g.current, q);
    PassApart(g.players, g.current, q, card);
    PassesFit(ps, g.toLeft);
    var h := PassStep(g, card).value;
    if !h.passing {
      ExecuteFromCounts(ps, g.toLeft, 0);
      ExecuteApart(ps, g.toLeft);
    }
  }

  /** A play keeps the round sound, whether it continues the trick or
      completes it and gives it to its winner. */
  lemma PlayKeepsSound(g: Game, card: Card)
    requires Sound(g) && !g.passing && PlayStep(g, card).Ok?
    ensures Sound(PlayStep(g, card).value)
  {
    var n := |g.players|;
    var p := g.players[g.current];
    PlayStepMoves(g, card);
    var trick := g.trick + [card];
    var lead := trick[0].suit;
    PlayCardMoves(p, card, lead);
    var q := PlayCard(p, card, lead).value;
    var ps := g.players[g.current := q];
    CountedUpdate(g.players, g.current, q);
    LeaveApart(g.players, g.current, q);
    if |trick| == n {
      var winner := ToLeft(g.current, 1 + TopIndex(trick, lead), n);
      var w := ReceiveTrick(ps[winner], trick).0;
      ScoreKeeps(ps, winner, w);
      assert PlayStep(g, card).value.players == ps[winner := w];
    }
  }

  /** `step` keeps the round sound. */
  lemma StepKeepsSound(g: Game, action: string)
    requires Sound(g) && Step(g, action).Ok?
    ensures Sound(Step(g, action).value)
  {
    var card := Parse(action).value;
    if g.passing {
      PassKeepsSound(g, card);
    } else {
      PlayKeepsSound(g, card);
    }
  }

  /** A sequence of `step` calls, stopping at the first failure. */
  function Run(g: Game, actions: seq<string>): (r: Result<Game, GameFault>)
    requires Keyed(g.players)
    ensures r.Ok? ==> Keyed(r.value.players)
    decreases |actions|
  {
    if |actions| == 0 then Ok(g)
    else
      var h :- Step(g, actions[0]);
      Run(h, actions[1..])
  }

  /** Every round reached by `step` calls from a sound one is sound. */
  lemma {:induction false} RunKeepsSound(g: Game, actions: seq<string>)
    requires Sound(g) && Run(g, actions).Ok?
    ensures Sound(Run(g, actions).value)
    decreases |actions|
  {
    if |actions| > 0 {
      StepKeepsSound(g, actions[0]);
      RunKeepsSound(Step(g, actions[0]).value, actions[1..]);
    }
  }
}
