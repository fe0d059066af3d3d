/** The Go Fish turn engine (`rlcard/games/go_fish/game.py`): dealing the
    opening hands, one turn of asking, catching or fishing, passing the turn to
    the next player who holds cards, and the end-of-game test and payoffs.

    As written, `step` keeps a `known_hand` count the player class does not
    have (`StepAsWritten`) and reads `.rank` off the `(card, books)` pair
    `deal_card` returns; `Step` drops the count and reads the rank of the
    pair's card. */
module FishGame {
  import opened Results
  import opened Cards
  import opened FishPlayer
  import opened FishDealer
  import opened FishActions

  /** A `GoFishGame` between `init_game` calls: the players, the dealer and
      whose turn it is. `num_players` is `|players|`. */
  datatype Game = Game(players: seq<Player>, dealer: Dealer, current: nat)

  /** How a call on the game fails. */
  datatype GameFault =
    | BadAction               // `int(action[0])` or `action[2]` cannot be read
    | NoSuchPlayer            // an index outside the player list
    | DeckEmpty               // `deck.pop()` on an empty deck
    | PlayerFailed(fault: Fault)
    | NoKnownHand             // `player.known_hand`, an attribute players do not have

  /** A turn in progress: the game and whether the asker goes again
      (`not next_players_turn`). */
  datatype Turn = Turn(game: Game, again: bool)

  /** `hand_size` of `init_game`. */
  function HandSize(n: nat): nat {
    if n >= 4 then 5 else 7
  }

  /** How many cards `init_game` deals to `n` players: `hand_size` each. */
  function Deals(n: nat): (k: nat)
    ensures k == HandSize(n) * n
  {
    if n >= 4 then 5 * n else 7 * n
  }

  /** `dealer.deal_card(players[i])` on the game: the card drawn and the new game. */
  function Draw(g: Game, i: nat): (r: Result<(Card, Game), GameFault>)
    requires i < |g.players|
    ensures |g.dealer.deck| == 0 ==> r == Err(DeckEmpty)
    ensures r.Ok? ==> |r.value.1.players| == |g.players| && r.value.1.current == g.current
    ensures r.Ok? ==> g.dealer.deck == r.value.1.dealer.deck + [r.value.0]
  {
    match DealCard(g.dealer, g.players[i])
    case Err(OutOfCards) => Err(DeckEmpty)
    case Err(Refused(f)) => Err(PlayerFailed(f))
    case Ok(d) => Ok((d.card, g.(players := g.players[i := d.player], dealer := d.dealer)))
  }

  // ---------------------------------------------------------------------------
  // init_game
  // ---------------------------------------------------------------------------

  /** The dealing loop of `init_game` from deal number `k`: deal `k` goes to
      player `k % n`, until `total` cards are dealt. */
  function DealFrom(g: Game, k: nat, total: nat): (r: Result<Game, GameFault>)
    requires |g.players| > 0
    ensures r.Ok? ==> |r.value.players| == |g.players| && r.value.current == g.current
    decreases total - k
  {
    if k >= total then Ok(g)
    else
      var (_, g1) :- Draw(g, k % |g.players|);
      DealFrom(g1, k + 1, total)
  }

  /** `init_game` with `n` players, the shuffle draws `picks`, and `start`, the
      draw of `np_random.randint(n)` choosing who plays first. A draw outside
      0 to `n - 1`, the only possibility when `n == 0`, is `NoSuchPlayer`. */
  function InitGame(n: nat, picks: seq<nat>, start: nat): (r: Result<Game, GameFault>)
    ensures r.Ok? ==> |r.value.players| == n && r.value.current == start < n
  {
    if start >= n then Err(NoSuchPlayer)
    else
      var g := Game(seq(n, _ => NewPlayer()), NewDealer(picks), start);
      DealFrom(g, 0, Deals(n))
  }

  // ---------------------------------------------------------------------------
  // step
  // ---------------------------------------------------------------------------

  /** The asker catches the `netted` cards: they are received publicly, in
      standard-deck order, and the turn is kept. */
  function Catch(g: Game, netted: set<Card>): (r: Result<Turn, GameFault>)
    requires g.current < |g.players|
    ensures r.Ok? ==> r.value.again && r.value.game.dealer == g.dealer && r.value.game.current == g.current
    ensures r.Ok? ==> |r.value.game.players| == |g.players|
  {
    match ReceiveCards(g.players[g.current], Ordered(netted), true)
    case Err(f) => Err(PlayerFailed(f))
    case Ok((q, _)) => Ok(Turn(g.(players := g.players[g.current := q]), true))
  }

  /** Go fish: draw a card if there is one; drawing the requested rank keeps the turn. */
  function GoFish(g: Game, rank: Rank): (r: Result<Turn, GameFault>)
    requires g.current < |g.players|
    ensures |g.dealer.deck| == 0 ==> r == Ok(Turn(g, false))
    ensures |g.dealer.deck| > 0 && r.Ok? ==>
      var drawn := g.dealer.deck[|g.dealer.deck| - 1];
      r.value.again == (drawn.rank == rank) && r.value.game.dealer.deck == g.dealer.deck[..|g.dealer.deck| - 1]
    ensures r.Ok? ==> |r.value.game.players| == |g.players| && r.value.game.current == g.current
  {
    if |g.dealer.deck| == 0 then Ok(Turn(g, false))
    else
      var (card, g1) :- Draw(g, g.current);
      Ok(Turn(g1, card.rank == rank))
  }

  /** A kept turn with an empty hand draws a card if there is one, and passes otherwise. */
  function Refill(t: Turn): (r: Result<Turn, GameFault>)
    requires t.game.current < |t.game.players|
    ensures !(t.again && t.game.players[t.game.current].hand == {}) ==> r == Ok(t)
    ensures t.again && t.game.players[t.game.current].hand == {} && |t.game.dealer.deck| == 0 ==>
      r == Ok(Turn(t.game, false))
    ensures t.again && |t.game.dealer.deck| > 0 && r.Ok? ==> r.value.again
    ensures r.Ok? ==> var d := r.value.game.dealer.deck;
      |t.game.dealer.deck| - 1 <= |d| <= |t.game.dealer.deck| && d == t.game.dealer.deck[..|d|]
    ensures r.Ok? ==> |r.value.game.players| == |t.game.players| && r.value.game.current == t.game.current
  {
    if !t.again || t.game.players[t.game.current].hand != {} then Ok(t)
    else if |t.game.dealer.deck| == 0 then Ok(Turn(t.game, false))
    else
      var (_, g1) :- Draw(t.game, t.game.current);
      Ok(Turn(g1, true))
  }

  /** The seat `j + 1` places to the left of seat `cur`. */
  function Seat(cur: nat, j: nat, n: nat): (k: nat)
    requires n > 0
    ensures k < n
  {
    (cur + 1 + j) % n
  }

  /** The search of the next player from candidate `i`: the first of seats
      `Seat(cur, i, n)`, `Seat(cur, i + 1, n)`, ..., short of `cur` itself,
      whose hand is not empty. */
  function NextFrom(players: seq<Player>, cur: nat, i: nat): (k: nat)
    requires cur < |players|
    ensures k < |players|
    decreases |players| - i
  {
    if i + 1 >= |players| then cur
    else
      var c := Seat(cur, i, |players|);
      if players[c].hand != {} then c else NextFrom(players, cur, i + 1)
  }

  /** The turn-passing loop of `step`. */
  function NextPlayer(players: seq<Player>, cur: nat): nat
    requires cur < |players|
  {
    NextFrom(players, cur, 0)
  }

  /** What follows the target's answer: a catch of the `netted` cards keeps
      the turn, a miss fishes, and a kept turn with an empty hand refills it.
      A miss with nothing left to fish ends the turn. */
  function Respond(g: Game, netted: set<Card>, rank: Rank): (r: Result<Turn, GameFault>)
    requires g.current < |g.players|
    ensures r.Ok? ==> |r.value.game.players| == |g.players| && r.value.game.current == g.current
    ensures r.Ok? ==>
      var d := r.value.game.dealer.deck;
      |g.dealer.deck| - 2 <= |d| <= |g.dealer.deck| && d == g.dealer.deck[..|d|]
    ensures netted == {} && |g.dealer.deck| == 0 ==> r == Ok(Turn(g, false))
  {
    var asked :- if netted != {} then Catch(g, netted) else GoFish(g, rank);
    Refill(asked)
  }

  /** The player `o` seats to the left of the asker: `(current + o) % n`. */
  function Target(g: Game, o: nat): (t: nat)
    requires |g.players| > 0
    ensures t < |g.players|
  {
    (g.current + o) % |g.players|
  }

  /** The asking part of `step`: the player `o` seats to the left of the
      asker hands over its cards of `rank`, and the asker responds. */
  function Ask(g: Game, o: nat, rank: Rank): (r: Result<Turn, GameFault>)
    requires g.current < |g.players|
  {
    var t := Target(g, o);
    match RemoveCardsOfRank(g.players[t], rank)
    case Err(f) => Err(PlayerFailed(f))
    case Ok((q, netted)) => Respond(g.(players := g.players[t := q]), netted, rank)
  }

  /** `step(action)`. The target is `players[(current + o) % n]`; the asker is
      read after the target has handed its cards over, so asking oneself sees
      one's own hand without the rank. */
  function Step(g: Game, a: string): (r: Result<Game, GameFault>)
    ensures r.Ok? ==> |r.value.players| == |g.players| && r.value.current < |g.players|
  {
    match Decode(a)
    case Err(_) => Err(BadAction)
    case Ok((o, rank)) =>
      if g.current >= |g.players| then Err(NoSuchPlayer)
      else
        var turn :- Ask(g, o, rank);
        if turn.again then Ok(turn.game)
        else Ok(turn.game.(current := NextPlayer(turn.game.players, g.current)))
  }

  /** `step` as written: once the action has been read, `player.known_hand`
      is looked up, and `GoFishPlayer` has no such attribute, so no turn is
      ever played. `Step` is the turn the rest of `step` describes. */
  function StepAsWritten(g: Game, a: string): (r: Result<Game, GameFault>)
    ensures r.Err?
    ensures g.current < |g.players| && Decode(a).Ok? ==> r == Err(NoKnownHand)
  {
    if g.current >= |g.players| then Err(NoSuchPlayer)
    else if |a| < 3 || !IsDigit(a[0]) then Err(BadAction)
    else Err(NoKnownHand)
  }

  /** Every action `configure` lists fails in `step` as written. */
  lemma StepAsWrittenRejectsEveryAsk(g: Game, o: nat, r: Rank)
    requires g.current < |g.players| && o < 10
    ensures StepAsWritten(g, Action(o, r)) == Err(NoKnownHand)
  {
    DecodeAction(o, r);
  }

  /** A turn played by `Step`: the cards drawn come off the top of the deck,
      at most two of them (one fished, one to refill an emptied hand); the
      turn stays with the asker or passes on by `NextPlayer`; and a miss with
      nothing left to fish always passes it. */
  lemma StepPlaysATurn(g: Game, a: string, o: nat, rank: Rank)
    requires Decode(a) == Ok((o, rank)) && Step(g, a).Ok?
    ensures g.current < |g.players|
    ensures var h := Step(g, a).value;
      && |g.dealer.deck| - 2 <= |h.dealer.deck| <= |g.dealer.deck|
      && h.dealer.deck == g.dealer.deck[..|h.dealer.deck|]
      && (h.current == g.current || h.current == NextPlayer(h.players, g.current))
    ensures var t := Target(g, o);
      var h := Step(g, a).value;
      && RemoveCardsOfRank(g.players[t], rank).Ok?
      && (RemoveCardsOfRank(g.players[t], rank).value.1 == {} && |g.dealer.deck| == 0 ==>
            h.current == NextPlayer(h.players, g.current) && h.dealer.deck == [])
  {
    var turn := Ask(g, o, rank).value;
    AskPlays(g, o, rank);
  }

  /** The asking part of a turn (the target's answer, then the asker's
      response) keeps the asker's seat and takes at most two cards off the
      top of the deck; a miss with nothing to fish ends the turn. */
  lemma AskPlays(g: Game, o: nat, rank: Rank)
    requires g.current < |g.players| && Ask(g, o, rank).Ok?
    ensures var h := Ask(g, o, rank).value.game;
      && |h.players| == |g.players| && h.current == g.current
      && |g.dealer.deck| - 2 <= |h.dealer.deck| <= |g.dealer.deck|
      && h.dealer.deck == g.dealer.deck[..|h.dealer.deck|]
    ensures var t := Target(g, o);
      && RemoveCardsOfRank(g.players[t], rank).Ok?
      && (RemoveCardsOfRank(g.players[t], rank).value.1 == {} && |g.dealer.deck| == 0 ==>
            !Ask(g, o, rank).value.again && Ask(g, o, rank).value.game.dealer.deck == [])
  {
    AskAnswers(g, o, rank);
  }

  lemma AskAnswers(g: Game, o: nat, rank: Rank)
    requires g.current < |g.players|
    ensures var t := Target(g, o);
      var answer := RemoveCardsOfRank(g.players[t], rank);
      && (Ask(g, o, rank).Ok? ==> answer.Ok?)
      && (answer.Ok? ==> Ask(g, o, rank) == Respond(g.(players := g.players[t := answer.value.0]), answer.value.1, rank))
  {
  }

  // ---------------------------------------------------------------------------
  // is_over, get_payoffs
  // ---------------------------------------------------------------------------

  /** The loop of `is_over` from player `i`. */
  function NoHandFrom(players: seq<Player>, i: nat): (over: bool)
    ensures over <==> forall j | i <= j < |players| :: players[j].hand == {}
    decreases |players| - i
  {
    if i >= |players| then true
    else if players[i].hand != {} then false
    else NoHandFrom(players, i + 1)
  }

  /** `is_over`: every hand is empty. */
  function IsOver(g: Game): bool {
    NoHandFrom(g.players, 0)
  }

  /** The first loop of `get_payoffs` over players `i..`: the top book count
      so far, starting at 0, and how many players reached it. */
  function Tally(players: seq<Player>, i: nat, top: nat, count: nat): (nat, nat)
    decreases |players| - i
  {
    if i >= |players| then (top, count)
    else
      var score := |players[i].books|;
      if score > top then Tally(players, i + 1, score, 1)
      else if score == top then Tally(players, i + 1, top, count + 1)
      else Tally(players, i + 1, top, count)
  }

  /** `get_payoffs`. */
  function Payoffs(players: seq<Player>): (r: seq<int>)
    ensures |r| == |players|
  {
    var (top, count) := Tally(players, 0, 0, 0);
    seq(|players|, i requires 0 <= i < |players| =>
      if |players[i].books| == top then (if count == 1 then 1 else 0) else -1)
  }

  // ---------------------------------------------------------------------------
  // What the turn rules promise.
  // ---------------------------------------------------------------------------

  /** The search from `i` skips `j - i` candidates with empty hands and then
      returns the first candidate with cards, or `cur` when all `n - 1` are empty. */
  lemma {:induction false} NextFromIsFirst(players: seq<Player>, cur: nat, i: nat) returns (j: nat)
    requires cur < |players|
    ensures i <= j
    ensures forall l | i <= l < j && l < |players| - 1 :: players[Seat(cur, l, |players|)].hand == {}
    ensures j < |players| - 1 ==>
      NextFrom(players, cur, i) == Seat(cur, j, |players|) && players[Seat(cur, j, |players|)].hand != {}
    ensures j >= |players| - 1 ==> NextFrom(players, cur, i) == cur
    decreases |players| - i
  {
    if i + 1 >= |players| {
      j := i;
    } else if players[Seat(cur, i, |players|)].hand != {} {
      j := i;
    } else {
      j := NextFromIsFirst(players, cur, i + 1);
    }
  }

  /** On a pass the turn goes to the first of the next `n - 1` seats, in order,
      whose player holds cards; when none does, it stays put. */
  lemma NextPlayerIsFirst(players: seq<Player>, cur: nat) returns (j: nat)
    requires cur < |players|
    ensures forall l | 0 <= l < j && l < |players| - 1 :: players[Seat(cur, l, |players|)].hand == {}
    ensures j < |players| - 1 ==>
      NextPlayer(players, cur) == Seat(cur, j, |players|) && players[Seat(cur, j, |players|)].hand != {}
    ensures j >= |players| - 1 ==> NextPlayer(players, cur) == cur
  {
    j := NextFromIsFirst(players, cur, 0);
  }

  /** The largest book count among players `i..`, and at least `top`. */
  function MaxBooks(players: seq<Player>, i: nat, top: nat): (m: nat)
    ensures m >= top && forall j | i <= j < |players| :: |players[j].books| <= m
    ensures m == top || exists j :: i <= j < |players| && |players[j].books| == m
    decreases |players| - i
  {
    if i >= |players| then top
    else MaxBooks(players, i + 1, if |players[i].books| > top then |players[i].books| else top)
  }

  /** How many of players `i..` have exactly `v` books. */
  function CountWith(players: seq<Player>, i: nat, v: nat): nat
    decreases |players| - i
  {
    if i >= |players| then 0
    else (if |players[i].books| == v then 1 else 0) + CountWith(players, i + 1, v)
  }

  /** Every player from `i` on with `v` books is counted, and two such make two. */
  lemma {:induction false} CountWithAtLeast(players: seq<Player>, i: nat, v: nat, a: nat, b: nat)
    requires i <= a < |players| && |players[a].books| == v
    requires b == a || (i <= b < |players| && |players[b].books| == v)
    ensures CountWith(players, i, v) >= (if a == b then 1 else 2)
    decreases |players| - i
  {
    if i < a && i < b {
      CountWithAtLeast(players, i + 1, v, a, b);
    } else if a != b && i == a {
      CountWithAtLeast(players, i + 1, v, b, b);
    } else if a != b && i == b {
      CountWithAtLeast(players, i + 1, v, a, a);
    }
  }

  /** The tally from `i` ends on the top count and the number of players on it. */
  lemma {:induction false} TallyCounts(players: seq<Player>, i: nat, top: nat, count: nat)
    ensures Tally(players, i, top, count).0 == MaxBooks(players, i, top)
    ensures Tally(players, i, top, count).1 ==
      (if MaxBooks(players, i, top) == top then count else 0) + CountWith(players, i, MaxBooks(players, i, top))
    decreases |players| - i
  {
    if i < |players| {
      var score := |players[i].books|;
      if score > top {
        TallyCounts(players, i + 1, score, 1);
      } else if score == top {
        TallyCounts(players, i + 1, top, count + 1);
      } else {
        TallyCounts(players, i + 1, top, count);
      }
    }
  }

  /** `get_payoffs`: a sole leader in books gets 1, leaders tied at the top
      get 0, and everyone behind a leader gets -1. */
  lemma PayoffsMeaning(players: seq<Player>, i: nat)
    requires i < |players|
    ensures Payoffs(players)[i] == 1 <==> forall j | 0 <= j < |players| && j != i :: |players[j].books| < |players[i].books|
    ensures Payoffs(players)[i] == -1 <==> exists j :: 0 <= j < |players| && |players[j].books| > |players[i].books|
  {
    var m := MaxBooks(players, 0, 0);
    TallyCounts(players, 0, 0, 0);
    var mine := |players[i].books|;
    if mine == m {
      CountWithAtLeast(players, 0, m, i, i);
      if !(forall j | 0 <= j < |players| && j != i :: |players[j].books| < mine) {
        var j :| 0 <= j < |players| && j != i && |players[j].books| >= mine;
        CountWithAtLeast(players, 0, m, i, j);
      } else if CountWith(players, 0, m) != 1 {
        CountWithOnly(players, 0, m, i);
      }
    } else {
      var j :| 0 <= j < |players| && |players[j].books| == m;
    }
  }

  /** When player `a` alone among `i..` has `v` books, the count is one. */
  lemma {:induction false} CountWithOnly(players: seq<Player>, i: nat, v: nat, a: nat)
    requires i <= a < |players| && |players[a].books| == v
    requires forall j | i <= j < |players| && j != a :: |players[j].books| != v
    ensures CountWith(players, i, v) == 1
    decreases |players| - i
  {
    if i < a {
      CountWithOnly(players, i + 1, v, a);
    } else {
      CountWithNone(players, i + 1, v);
    }
  }

  lemma {:induction false} CountWithNone(players: seq<Player>, i: nat, v: nat)
    requires forall j | i <= j < |players| :: |players[j].books| != v
    ensures CountWith(players, i, v) == 0
    decreases |players| - i
  {
    if i < |players| {
      CountWithNone(players, i + 1, v);
    }
  }
}
