/** The Hearts round (`rlcard/games/hearts/game.py`): the action space of the
    52 card strings, the deal, the passing phase, the tricks with the
    hearts-broken rule, the legal plays, the end of the round and its payoffs.
    The random draws of `init_game` are a parameter. */
module HeartsGame {
  import opened Results
  import opened Cards
  import opened Decks
  import opened ActionSpaces
  import opened HeartsPlayer
  import opened HeartsDealer

  // ---------------------------------------------------------------------------
  // The action space (`configure`, `get_num_actions`).
  // ---------------------------------------------------------------------------

  /** The string of each card. */
  function Strs(cards: seq<Card>): (r: seq<string>)
    ensures |r| == |cards| && forall i | 0 <= i < |cards| :: r[i] == Str(cards[i])
  {
    seq(|cards|, i requires 0 <= i < |cards| => Str(cards[i]))
  }

  /** `action_list`: the string of every card of the standard deck, in deck order. */
  function ActionList(): seq<string> {
    Strs(StandardDeck)
  }

  /** `get_num_actions`. */
  const NumActions: nat := 52

  // ---------------------------------------------------------------------------
  // The state of a round.
  // ---------------------------------------------------------------------------

  /** `HeartsGame` after `init_game`. The suit of the current trick is not
      stored: it is the suit of the trick's first card, which is what the
      game's `current_trick_suit` always holds. `cache` is the legal-action
      list kept while `_legal_actions_dirty` is false. */
  datatype Game = Game(
    players: seq<Player>,
    dealer: Dealer,
    trick: seq<Card>,
    broken: bool,
    toLeft: nat,
    numPassed: nat,
    passing: bool,
    current: nat,
    cache: Option<seq<string>>)

  /** The random draws of `init_game`: a game score per player
      (`randrange(100)`), the passing distance and the starting player
      (`randrange(n)`), and the draws of the shuffle. A missing score draw reads 0. */
  datatype Draws = Draws(scores: seq<nat>, toLeft: nat, starting: nat, shuffle: seq<nat>)

  /** Why a call fails: no players (`counter % 0` or `randrange(0)`), the
      dealer's failure, an action that is not a card string (IndexError or
      ValueError), a current player that does not exist (IndexError), or a
      card that is not in the hand (KeyError). */
  datatype GameFault =
    | NoPlayers
    | Dealing(dealerFault: DealerFault)
    | BadAction
    | NoSuchPlayer
    | Refused(fault: PlayerFault)

  /** `current_trick_suit`: None between tricks, else the suit led. */
  function TrickSuit(g: Game): (r: Option<Suit>)
    ensures r.None? <==> |g.trick| == 0
  {
    if |g.trick| == 0 then None else Some(g.trick[0].suit)
  }

  /** Every player has a counter and a void flag for every suit. */
  predicate Keyed(players: seq<Player>) {
    forall i, s: Suit | 0 <= i < |players| :: s in players[i].bySuit && s in players[i].voids
  }

  // ---------------------------------------------------------------------------
  // `init_game`.
  // ---------------------------------------------------------------------------

  function ScoreDraw(d: Draws, i: nat): int {
    if i < |d.scores| then d.scores[i] % 100 else 0
  }

  /** The players of a new round, with their drawn game scores. */
  function NewPlayers(n: nat, d: Draws): (ps: seq<Player>)
    ensures |ps| == n && Keyed(ps)
    ensures forall i | 0 <= i < n :: ps[i] == NewPlayer(i, ScoreDraw(d, i))
  {
    seq(n, i requires 0 <= i => NewPlayer(i, ScoreDraw(d, i)))
  }

  /** The deal loop of `init_game`: while the deck is not empty, card number
      `counter` goes to player `counter % n`. */
  function DealLoop(players: seq<Player>, dealer: Dealer, counter: nat): (r: Result<(seq<Player>, Dealer), GameFault>)
    requires Keyed(players)
    ensures r.Ok? ==> |r.value.0| == |players| && Keyed(r.value.0)
    decreases if dealer.deck.Some? then |dealer.deck.value| else 0
  {
    match dealer.deck
    case None => Err(Dealing(NoDeck))
    case Some(x) =>
      if |x| == 0 then Ok((players, dealer))
      else if |players| == 0 then Err(NoPlayers)
      else
        var t := counter % |players|;
        match DealCard(dealer, players[t])
        case Err(f) => Err(Dealing(f))
        case Ok((d, p)) => DealLoop(players[t := p], d, counter + 1)
  }

  /** The rest of `init_game` once a dealer exists: deal, then draw the
      passing distance and the starting player. */
  function Setup(n: nat, d: Draws, dealer: Dealer): (r: Result<Game, GameFault>)
    ensures r.Ok? ==> |r.value.players| == n && r.value.current < n
  {
    var (players, dealer) :- DealLoop(NewPlayers(n, d), dealer, 0);
    if n == 0 then Err(NoPlayers)
    else
      var toLeft := d.toLeft % n;
      Ok(Game(players, dealer, [], false, toLeft, 0, toLeft > 0, d.starting % n, None))
  }

  /** `init_game` as written: the dealer is made but never shuffled, so the
      deal loop reads a deck that does not exist. */
  function InitGameAsWritten(n: nat, d: Draws): Result<Game, GameFault> {
    Setup(n, d, NewDealer())
  }

  /** `init_game` with the dealer shuffled before the deal, as the loop
      reading `dealer.deck` needs. */
  function InitGame(n: nat, d: Draws): Result<Game, GameFault> {
    Setup(n, d, ShuffleDealer(NewDealer(), d.shuffle))
  }

  // ---------------------------------------------------------------------------
  // `step`.
  // ---------------------------------------------------------------------------

  /** `(id + k) % n`, the player `k` seats to the left (`_get_player_num_to_left`). */
  function ToLeft(id: nat, k: nat, n: nat): (r: nat)
    requires n > 0
    ensures r < n
  {
    (id + k) % n
  }

  /** The cards a player receives, one `receive_card` each, in deck order. */
  function ReceiveAll(p: Player, cards: seq<Card>): (q: Player)
    requires forall s: Suit :: s in p.bySuit
    ensures forall s: Suit :: s in q.bySuit
    ensures q == p.(hand := q.hand, bySuit := q.bySuit)
    decreases |cards|
  {
    if |cards| == 0 then p else ReceiveAll(ReceiveCard(p, cards[0]), cards[1..])
  }

  /** A set of cards received at once: each joins the hand and is counted
      once under its suit, whatever order `receive_card` takes them in. */
  function ReceiveSet(p: Player, cards: set<Card>): (q: Player)
    requires forall s: Suit :: s in p.bySuit
    ensures forall s: Suit :: s in q.bySuit
  {
    p.(hand := p.hand + cards, bySuit := map s | s in p.bySuit :: p.bySuit[s] + |OfSuit(cards, s)|)
  }

  /** Player `t` receives the cards. */
  function GiveTo(players: seq<Player>, t: nat, cards: set<Card>): (r: seq<Player>)
    requires Keyed(players) && t < |players|
    ensures |r| == |players| && Keyed(r)
  {
    players[t := ReceiveSet(players[t], cards)]
  }

  /** The loop executing the passes: each player from `i` on gives its passed
      cards to the player `toLeft` seats to its left. */
  function ExecuteFrom(players: seq<Player>, toLeft: nat, i: nat): (r: seq<Player>)
    requires Keyed(players)
    ensures |r| == |players| && Keyed(r)
    decreases |players| - i
  {
    if i >= |players| then players
    else ExecuteFrom(GiveTo(players, ToLeft(i, toLeft, |players|), players[i].passed), toLeft, i + 1)
  }

  /** The index of the highest card of suit `lead` in the trick, from
      position `i` on, `top` being the best so far (the loop of `step`). */
  function TopFrom(trick: seq<Card>, lead: Suit, i: nat, top: nat): (r: nat)
    requires top < |trick| && i <= |trick|
    ensures r < |trick|
    decreases |trick| - i
  {
    if i == |trick| then top
    else if Less(trick[top], trick[i]) && trick[i].suit == lead then TopFrom(trick, lead, i + 1, i)
    else TopFrom(trick, lead, i + 1, top)
  }

  /** `top_index` of a full trick. */
  function TopIndex(trick: seq<Card>, lead: Suit): nat
    requires |trick| > 0
  {
    TopFrom(trick, lead, 1, 0)
  }

  /** A player's failure as the game's. */
  function Lift(r: Result<Player, PlayerFault>): Result<Player, GameFault> {
    match r
    case Err(f) => Err(Refused(f))
    case Ok(p) => Ok(p)
  }

  /** `step(action)` during the passing phase. */
  function PassStep(g: Game, card: Card): (r: Result<Game, GameFault>)
    requires g.passing && g.current < |g.players| && Keyed(g.players)
    ensures r.Ok? ==> |r.value.players| == |g.players| && r.value.current < |g.players| && Keyed(r.value.players)
  {
    var n := |g.players|;
    var p :- Lift(PassCard(g.players[g.current], card));
    var players := g.players[g.current := p];
    var passed := g.numPassed + 1;
    var current := if passed % 3 == 0 then (g.current + 1) % n else g.current;
    if passed == 3 * n then
      Ok(g.(players := ExecuteFrom(players, g.toLeft, 0), numPassed := passed,
            passing := false, current := current, cache := None))
    else
      Ok(g.(players := players, numPassed := passed, current := current, cache := None))
  }

  /** `step(action)` once passing is over: play the card to the trick. */
  function PlayStep(g: Game, card: Card): (r: Result<Game, GameFault>)
    requires !g.passing && g.current < |g.players| && Keyed(g.players)
    ensures r.Ok? ==> |r.value.players| == |g.players| && r.value.current < |g.players| && Keyed(r.value.players)
  {
    var n := |g.players|;
    var trick := g.trick + [card];
    var lead := trick[0].suit;
    var p :- Lift(PlayCard(g.players[g.current], card, lead));
    var players := g.players[g.current := p];
    var broken := g.broken || BreaksHearts(card);
    if |trick| == n then
      var winner := ToLeft(g.current, 1 + TopIndex(trick, lead), n);
      var (w, _) := ReceiveTrick(players[winner], trick);
      Ok(g.(players := players[winner := w], trick := [], broken := broken, current := winner, cache := None))
    else
      Ok(g.(players := players, trick := trick, broken := broken, current := (g.current + 1) % n, cache := None))
  }

  /** `step(action)`: read the card `Card(action[1], action[0])`, then pass or play it. */
  function Step(g: Game, action: string): (r: Result<Game, GameFault>)
    requires Keyed(g.players)
    ensures r.Ok? ==> |r.value.players| == |g.players| && r.value.current < |g.players| && Keyed(r.value.players)
  {
    if g.current >= |g.players| then Err(NoSuchPlayer)
    else
      match Parse(action)
      case None => Err(BadAction)
      case Some(card) => if g.passing then PassStep(g, card) else PlayStep(g, card)
  }

  // ---------------------------------------------------------------------------
  // Legal actions.
  // ---------------------------------------------------------------------------

  /** `playable_cards` of `_get_legal_actions` for player `id`. */
  function Playable(g: Game, id: nat): set<Card>
    requires id < |g.players| && Keyed(g.players)
  {
    var p := g.players[id];
    if g.passing then p.hand
    else if |g.trick| == 0 then
      var open := set c | c in p.hand && (g.broken || !IsAHeart(c));
      if |open| == 0 then p.hand else open
    else if !IsVoidOfSuit(p, g.trick[0].suit) then set c | c in p.hand && c.suit == g.trick[0].suit
    else p.hand
  }

  /** `k` copies of a list, one after the other. */
  function Repeat(s: seq<string>, k: nat): (r: seq<string>)
    ensures |r| == k * |s|
  {
    if k == 0 then [] else s + Repeat(s, k - 1)
  }

  /** `k` copies of the strings of a set of cards, in deck order. */
  function Listing(cards: set<Card>, k: nat): seq<string> {
    Repeat(Strs(Ordered(cards)), k)
  }

  /** The list `_get_legal_actions` builds: every playable card's string, once
      for each of the `n - 1` other players. */
  function LegalList(g: Game, id: nat): seq<string>
    requires id < |g.players| && Keyed(g.players)
  {
    Listing(Playable(g, id), |g.players| - 1)
  }

  /** `_get_legal_actions(player_id)`: the cached list while it is fresh,
      whoever asks, else a new list for `player_id`, which is then cached. */
  function GetLegalActions(g: Game, id: nat): (Result<(seq<string>, Game), GameFault>)
    requires Keyed(g.players)
  {
    if g.cache.Some? then Ok((g.cache.value, g))
    else if id >= |g.players| then Err(NoSuchPlayer)
    else
      var a := LegalList(g, id);
      Ok((a, g.(cache := Some(a))))
  }

  // ---------------------------------------------------------------------------
  // End of the round.
  // ---------------------------------------------------------------------------

  /** The loop of `is_over` from player `i`: false at the first player holding cards. */
  predicate HandsEmptyFrom(players: seq<Player>, i: nat)
    decreases |players| - i
  {
    i >= |players| || (|players[i].hand| == 0 && HandsEmptyFrom(players, i + 1))
  }

  /** `is_over`. */
  predicate IsOver(g: Game) {
    HandsEmptyFrom(g.players, 0)
  }

  /** The first loop of `get_payoffs`: does some player from `i` on have 26 points? */
  predicate ControlFrom(players: seq<Player>, i: nat)
    decreases |players| - i
  {
    i < |players| && (players[i].roundScore == 26 || ControlFrom(players, i + 1))
  }

  /** The second and third loops of `get_payoffs`, for one round score. */
  function Payoff(score: int, control: bool, training: bool): int {
    var p := if control then (if score == 26 then 0 else 26) else score;
    if training then 26 - p else p
  }

  /** `get_payoffs(is_training)`. */
  function Payoffs(players: seq<Player>, training: bool): (r: seq<int>)
    ensures |r| == |players|
  {
    var control := ControlFrom(players, 0);
    seq(|players|, i requires 0 <= i < |players| => Payoff(players[i].roundScore, control, training))
  }
}
