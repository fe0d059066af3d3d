/** The deal of a Hearts round (`init_game`, lines 49-55 of
    `rlcard/games/hearts/game.py`): as written it reads the deck of a dealer
    that was never shuffled and fails; once the dealer is shuffled, card
    number `k` off the deck goes to player `k % n`, the hands are disjoint and
    their suit counters are right. */
module HeartsDeal {
  import opened Results
  import opened Cards
  import opened Decks
  import opened HeartsPlayer
  import opened HeartsDealer
  import opened HeartsGame

  /** The cards that player `i` gets when the deck `x` is dealt from its end,
      the first card popped being card number `counter`. */
  function Share(x: seq<Card>, counter: nat, n: nat, i: nat): set<Card>
    requires n > 0
    decreases |x|
  {
    if |x| == 0 then {}
    else (if counter % n == i then {x[|x| - 1]} else {}) + Share(x[..|x| - 1], counter + 1, n, i)
  }

  /** Card number `k` popped off the deck is in the share of player `(counter + k) % n`. */
  lemma {:induction false} ShareHas(x: seq<Card>, counter: nat, n: nat, k: nat)
    requires n > 0 && k < |x|
    ensures x[|x| - 1 - k] in Share(x, counter, n, (counter + k) % n)
    decreases k
  {
    if k > 0 {
      ShareHas(x[..|x| - 1], counter + 1, n, k - 1);
    }
  }

  /** Every card of a share was popped as some card number `k` with `(counter + k) % n == i`. */
  lemma {:induction false} ShareFrom(x: seq<Card>, counter: nat, n: nat, i: nat, c: Card) returns (k: nat)
    requires n > 0 && c in Share(x, counter, n, i)
    ensures k < |x| && x[|x| - 1 - k] == c && (counter + k) % n == i
    decreases |x|
  {
    if counter % n == i && c == x[|x| - 1] {
      k := 0;
    } else {
      var j := ShareFrom(x[..|x| - 1], counter + 1, n, i, c);
      k := j + 1;
    }
  }

  /** Player `q` is player `p` with the cards `cards` added to the hand and
      counted, and nothing else changed. */
  ghost predicate Got(p: Player, q: Player, cards: set<Card>) {
    && Counted(q)
    && q.hand == p.hand + cards
    && q.(hand := p.hand, bySuit := p.bySuit) == p
  }

  /** Dealing a deck without repetitions to players that hold none of its
      cards succeeds, uses the deck up, and gives each player its share, with
      every counter right and nothing else about the players changed. */
  lemma {:induction false} DealLoopShares(players: seq<Player>, x: seq<Card>, counter: nat)
    requires |players| > 0 && Keyed(players) && Distinct(x)
    requires forall i | 0 <= i < |players| :: Counted(players[i])
    requires forall i, k | 0 <= i < |players| && 0 <= k < |x| :: x[k] !in players[i].hand
    ensures DealLoop(players, Dealer(Some(x)), counter).Ok?
    ensures DealLoop(players, Dealer(Some(x)), counter).value.1.deck == Some([])
    ensures var q := DealLoop(players, Dealer(Some(x)), counter).value.0;
      forall i | 0 <= i < |players| :: Got(players[i], q[i], Share(x, counter, |players|, i))
    decreases |x|
  {
    var n := |players|;
    if |x| > 0 {
      var c := x[|x| - 1];
      var rest := x[..|x| - 1];
      var t := counter % n;
      DealCardPops(Dealer(Some(x)), players[t]);
      var p := DealCard(Dealer(Some(x)), players[t]).value.1;
      var mid := players[t := p];
      assert DealLoop(players, Dealer(Some(x)), counter) == DealLoop(mid, Dealer(Some(rest)), counter + 1);
      DealLoopStep(players, x, counter);
      DealLoopShares(mid, rest, counter + 1);
      var q := DealLoop(mid, Dealer(Some(rest)), counter + 1).value.0;
      forall i | 0 <= i < n ensures Got(players[i], q[i], Share(x, counter, n, i)) {
        assert Share(x, counter, n, i) == (if t == i then {c} else {}) + Share(rest, counter + 1, n, i);
      }
    }
  }

  /** After one card is dealt, the rest of the deck again meets the
      conditions of the deal. */
  lemma DealLoopStep(players: seq<Player>, x: seq<Card>, counter: nat)
    requires |players| > 0 && Keyed(players) && Distinct(x) && |x| > 0
    requires forall i | 0 <= i < |players| :: Counted(players[i])
    requires forall i, k | 0 <= i < |players| && 0 <= k < |x| :: x[k] !in players[i].hand
    ensures var t := counter % |players|;
      var p := ReceiveCard(players[t], x[|x| - 1]);
      var mid := players[t := p];
      var rest := x[..|x| - 1];
      && Keyed(mid) && Distinct(rest)
      && (forall i | 0 <= i < |mid| :: Counted(mid[i]))
      && (forall i, k | 0 <= i < |mid| && 0 <= k < |rest| :: rest[k] !in mid[i].hand)
  {
    var n := |players|;
    var c := x[|x| - 1];
    var rest := x[..|x| - 1];
    var t := counter % n;
    assert c !in players[t].hand;
    ReceiveCardCounts(players[t], c);
    var mid := players[t := ReceiveCard(players[t], c)];
    assert Distinct(rest);
    forall i, k | 0 <= i < n && 0 <= k < |rest| ensures rest[k] !in mid[i].hand {
      assert rest[k] == x[k] && x[k] != c;
    }
  }

  /** As written, `init_game` never shuffles the dealer, so reading its deck fails. */
  lemma InitGameAsWrittenFails(n: nat, d: Draws)
    ensures InitGameAsWritten(n, d) == Err(Dealing(NoDeck))
  {
  }

  /** Setting up from a deck without repetitions deals all of it: each new
      player's hand is its share, with the counters right and nothing played,
      passed or scored yet. */
  lemma SetupShares(n: nat, d: Draws, x: seq<Card>)
    requires n > 0 && Distinct(x)
    ensures Setup(n, d, Dealer(Some(x))).Ok?
    ensures Setup(n, d, Dealer(Some(x))).value.dealer.deck == Some([])
    ensures var q := Setup(n, d, Dealer(Some(x))).value.players;
      forall i | 0 <= i < n :: q[i].hand == Share(x, 0, n, i)
    ensures var q := Setup(n, d, Dealer(Some(x))).value.players;
      forall i | 0 <= i < n ::
        && Counted(q[i])
        && q[i].played == {} && q[i].passed == {} && q[i].roundScore == 0
        && q[i].gameScore == ScoreDraw(d, i)
  {
    var players := NewPlayers(n, d);
    DealLoopShares(players, x, 0);
    var q := Setup(n, d, Dealer(Some(x))).value.players;
    forall i | 0 <= i < n
      ensures q[i].hand == Share(x, 0, n, i) && Counted(q[i])
      ensures q[i].played == {} && q[i].passed == {} && q[i].roundScore == 0 && q[i].gameScore == ScoreDraw(d, i)
    {
      var p := players[i];
      assert p.hand == {} && p.played == {} && p.passed == {} && p.roundScore == 0 && p.gameScore == ScoreDraw(d, i);
      assert Got(p, q[i], Share(x, 0, n, i));
    }
  }

  /** Setting up from a deck without repetitions puts card number `k` off
      the deck in the hand of player `k % n`, with the counters right, nothing
      played, passed or scored yet, no trick, hearts unbroken, and cards to
      pass exactly when the passing distance is not zero. */
  lemma SetupDeals(n: nat, d: Draws, x: seq<Card>)
    requires n > 0 && Distinct(x)
    ensures Setup(n, d, Dealer(Some(x))).Ok?
    ensures var g := Setup(n, d, Dealer(Some(x))).value;
      && |g.players| == n && g.dealer.deck == Some([])
      && (forall i | 0 <= i < n ::
            && Counted(g.players[i])
            && g.players[i].played == {} && g.players[i].passed == {} && g.players[i].roundScore == 0
            && g.players[i].gameScore == ScoreDraw(d, i))
      && g.trick == [] && !g.broken && g.numPassed == 0
      && g.passing == (g.toLeft > 0) && g.toLeft < n
    ensures forall k | 0 <= k < |x| :: x[|x| - 1 - k] in Setup(n, d, Dealer(Some(x))).value.players[k % n].hand
  {
    SetupShares(n, d, x);
    var q := Setup(n, d, Dealer(Some(x))).value.players;
    forall k | 0 <= k < |x| ensures x[|x| - 1 - k] in q[k % n].hand {
      ShareHas(x, 0, n, k);
    }
  }

  /** Setting up from a deck without repetitions deals no card to two players. */
  lemma SetupHandsDisjoint(n: nat, d: Draws, x: seq<Card>)
    requires n > 0 && Distinct(x)
    ensures Setup(n, d, Dealer(Some(x))).Ok?
    ensures var ps := Setup(n, d, Dealer(Some(x))).value.players;
      forall i, j, c | 0 <= i < j < n && c in ps[i].hand :: c !in ps[j].hand
  {
    SetupShares(n, d, x);
    var q := Setup(n, d, Dealer(Some(x))).value.players;
    forall i, j, c | 0 <= i < j < n && c in q[i].hand ensures c !in q[j].hand {
      if c in q[j].hand {
        var a := ShareFrom(x, 0, n, i, c);
        var b := ShareFrom(x, 0, n, j, c);
      }
    }
  }

  /** The shuffled round starts with the deck used up, the counters right,
      nothing played, passed or scored yet, no trick, hearts unbroken, and
      cards to pass exactly when the passing distance is not zero. */
  lemma InitGameDeals(n: nat, d: Draws)
    requires n > 0
    ensures InitGame(n, d).Ok?
    ensures var g := InitGame(n, d).value;
      && |g.players| == n && g.dealer.deck == Some([])
      && (forall i | 0 <= i < n ::
            && Counted(g.players[i])
            && g.players[i].played == {} && g.players[i].passed == {} && g.players[i].roundScore == 0
            && g.players[i].gameScore == ScoreDraw(d, i))
      && g.trick == [] && !g.broken && g.numPassed == 0
      && g.passing == (g.toLeft > 0) && g.toLeft < n
  {
    ShuffledIsFullDeck(NewDealer(), d.shuffle);
    var x := Shuffle(StandardDeck, d.shuffle);
    assert InitGame(n, d) == Setup(n, d, Dealer(Some(x)));
    SetupDeals(n, d, x);
  }

  /** In the shuffled round, card number `k` off the deck is in the hand of
      player `k % n`. */
  lemma InitGameRoundRobin(n: nat, d: Draws, k: nat)
    requires n > 0 && k < 52
    ensures InitGame(n, d).Ok? && |Shuffle(StandardDeck, d.shuffle)| == 52
    ensures Shuffle(StandardDeck, d.shuffle)[51 - k] in InitGame(n, d).value.players[k % n].hand
  {
    ShuffledIsFullDeck(NewDealer(), d.shuffle);
    var x := Shuffle(StandardDeck, d.shuffle);
    assert InitGame(n, d) == Setup(n, d, Dealer(Some(x)));
    SetupRoundRobin(n, d, x, k);
  }

  lemma SetupRoundRobin(n: nat, d: Draws, x: seq<Card>, k: nat)
    requires n > 0 && Distinct(x) && |x| == 52 && k < 52
    ensures Setup(n, d, Dealer(Some(x))).Ok?
    ensures x[51 - k] in Setup(n, d, Dealer(Some(x))).value.players[k % n].hand
  {
    SetupDeals(n, d, x);
    assert x[|x| - 1 - k] in Setup(n, d, Dealer(Some(x))).value.players[k % n].hand;
  }

  /** In the shuffled round no card is dealt to two players. */
  lemma InitGameHandsDisjoint(n: nat, d: Draws)
    requires n > 0
    ensures InitGame(n, d).Ok?
    ensures var ps := InitGame(n, d).value.players;
      forall i, j, c | 0 <= i < j < n && c in ps[i].hand :: c !in ps[j].hand
  {
    ShuffledIsFullDeck(NewDealer(), d.shuffle);
    var x := Shuffle(StandardDeck, d.shuffle);
    assert InitGame(n, d) == Setup(n, d, Dealer(Some(x)));
    SetupHandsDisjoint(n, d, x);
  }
}
