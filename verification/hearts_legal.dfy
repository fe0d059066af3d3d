/** What a Hearts player may play, what the state tells the player, and how
    a round ends and pays (`rlcard/games/hearts/game.py`, lines 183-308). */
module HeartsLegal {
  import opened Results
  import opened Cards
  import opened Decks
  import opened HeartsPlayer
  import opened HeartsGame
  import opened HeartsTricks

  // ---------------------------------------------------------------------------
  // The playable cards.
  // ---------------------------------------------------------------------------

  /** Every card of the hand is a heart. */
  predicate OnlyHearts(hand: set<Card>) {
    forall d | d in hand :: IsAHeart(d)
  }

  /** The hand holds no card of suit `s`. */
  predicate NoneOfSuit(hand: set<Card>, s: Suit) {
    forall d | d in hand :: d.suit != s
  }

  /** The playable cards are cards of the hand, and there are some exactly
      when the hand is not empty; while passing, the whole hand is playable. */
  lemma PlayableInHand(g: Game, id: nat)
    requires id < |g.players| && Keyed(g.players) && Counted(g.players[id])
    ensures Playable(g, id) <= g.players[id].hand
    ensures Playable(g, id) == {} <==> g.players[id].hand == {}
    ensures g.passing ==> Playable(g, id) == g.players[id].hand
  {
    var p := g.players[id];
    if !g.passing && |g.trick| > 0 {
      var lead := g.trick[0].suit;
      VoidMeansNoCard(p, lead);
      if !IsVoidOfSuit(p, lead) {
        var c :| c in p.hand && c.suit == lead;
        assert c in Playable(g, id);
      }
    }
  }

  /** On a lead, a card of the hand is playable when hearts are broken, when
      it is not a heart, or when the hand holds nothing but hearts. */
  lemma PlayableOnLead(g: Game, id: nat)
    requires id < |g.players| && Keyed(g.players)
    requires !g.passing && |g.trick| == 0
    ensures forall c: Card :: c in Playable(g, id) <==>
      c in g.players[id].hand && (g.broken || !IsAHeart(c) || OnlyHearts(g.players[id].hand))
  {
    var h := g.players[id].hand;
    var open := set c | c in h && (g.broken || !IsAHeart(c));
    if |open| > 0 {
      var d :| d in open;
      assert !OnlyHearts(h) || g.broken;
    } else {
      assert open == {};
      forall d | d in h ensures IsAHeart(d) {
        assert d !in open;
      }
    }
  }

  /** Following a trick, a card of the hand is playable when it follows the
      led suit, or when the hand holds no card of that suit. */
  lemma PlayableOnFollow(g: Game, id: nat)
    requires id < |g.players| && Keyed(g.players) && Counted(g.players[id])
    requires !g.passing && |g.trick| > 0
    ensures forall c: Card :: c in Playable(g, id) <==>
      c in g.players[id].hand && (c.suit == g.trick[0].suit || NoneOfSuit(g.players[id].hand, g.trick[0].suit))
  {
    var p := g.players[id];
    VoidMeansNoCard(p, g.trick[0].suit);
  }

  // ---------------------------------------------------------------------------
  // The legal-action list.
  // ---------------------------------------------------------------------------

  /** A repeated list holds the elements of the list, if repeated at all. */
  lemma {:induction false} RepeatMembers(s: seq<string>, k: nat)
    ensures forall x :: x in Repeat(s, k) <==> k > 0 && x in s
  {
    if k > 0 {
      RepeatMembers(s, k - 1);
    }
  }

  /** A repeated list holds each element as often as the list does, times the repeats. */
  lemma {:induction false} RepeatCount(s: seq<string>, k: nat, x: string)
    ensures multiset(Repeat(s, k))[x] == k * multiset(s)[x]
  {
    if k > 0 {
      RepeatCount(s, k - 1, x);
      assert multiset(Repeat(s, k)) == multiset(s) + multiset(Repeat(s, k - 1));
      assert k * multiset(s)[x] == multiset(s)[x] + (k - 1) * multiset(s)[x];
    }
  }

  /** The strings of distinct cards list exactly the strings of those cards. */
  lemma StrsMembers(cards: seq<Card>)
    requires Distinct(cards)
    ensures forall c: Card :: Str(c) in Strs(cards) <==> c in cards
  {
    var strs := Strs(cards);
    forall c: Card ensures Str(c) in strs <==> c in cards {
      if Str(c) in strs {
        var j :| 0 <= j < |strs| && strs[j] == Str(c);
        StrInjective(c, cards[j]);
      }
      if c in cards {
        var j :| 0 <= j < |cards| && cards[j] == c;
        assert strs[j] == Str(c);
      }
    }
  }

  /** `k` copies of the strings of distinct cards: each card's string is
      listed `k` times, and every entry parses to one of the cards. */
  lemma RepeatedStrs(cards: seq<Card>, k: nat)
    requires Distinct(cards)
    ensures var list := Repeat(Strs(cards), k);
      && |list| == k * |cards|
      && (forall c: Card :: Str(c) in list <==> c in cards && k > 0)
      && (forall c | c in cards :: multiset(list)[Str(c)] == k)
      && (forall i | 0 <= i < |list| ::
            Parse(list[i]).Some? && Parse(list[i]).value in cards && list[i] == Str(Parse(list[i]).value))
  {
    var strs := Strs(cards);
    var list := Repeat(strs, k);
    StrsDistinct(cards);
    StrsMembers(cards);
    RepeatMembers(strs, k);
    MultiplicityOne(strs);
    forall c | c in cards ensures multiset(list)[Str(c)] == k {
      RepeatCount(strs, k, Str(c));
    }
    forall i | 0 <= i < |list|
      ensures Parse(list[i]).Some? && Parse(list[i]).value in cards && list[i] == Str(Parse(list[i]).value)
    {
      assert list[i] in strs;
      var j :| 0 <= j < |strs| && strs[j] == list[i];
    }
  }

  /** The list `_get_legal_actions` builds from the set of playable cards,
      for `k` other players: a card's string is listed exactly when the card
      is playable and there is another player, it is listed `k` times, and
      every entry is the string of a playable card. */
  lemma ListedSet(cards: set<Card>, k: nat)
    ensures |Listing(cards, k)| == k * |cards|
    ensures forall c: Card :: Str(c) in Listing(cards, k) <==> c in cards && k > 0
    ensures forall c | c in cards :: multiset(Listing(cards, k))[Str(c)] == k
    ensures var list := Listing(cards, k);
      forall i | 0 <= i < |list| ::
        Parse(list[i]).Some? && Parse(list[i]).value in cards && list[i] == Str(Parse(list[i]).value)
  {
    var s := Ordered(cards);
    RepeatedStrs(s, k);
    assert forall c :: c in s <==> c in cards;
  }

  /** While the cached list is fresh, whoever asks gets it and nothing
      changes. Otherwise the list of the asking player is built, which fails
      for a player who does not exist, and cached, so that the next query, by
      any player, returns it again. */
  lemma LegalActionsCached(g: Game, id: nat, other: nat)
    requires Keyed(g.players)
    ensures g.cache.Some? ==> GetLegalActions(g, id) == Ok((g.cache.value, g))
    ensures g.cache.None? && id >= |g.players| ==> GetLegalActions(g, id) == Err(NoSuchPlayer)
    ensures g.cache.None? && id < |g.players| ==>
      && GetLegalActions(g, id).Ok?
      && var (a, h) := GetLegalActions(g, id).value;
      && a == LegalList(g, id)
      && h.cache == Some(a) && h.(cache := None) == g
      && GetLegalActions(h, other) == Ok((a, h))
  {
  }

  // ---------------------------------------------------------------------------
  // The hints of `get_state`.
  // ---------------------------------------------------------------------------

  /** `is_lead`: the player leads the next trick. */
  predicate IsLead(g: Game) {
    !g.passing && TrickSuit(g).None?
  }

  /** `can_sluff`: the player may play off the led suit. */
  predicate CanSluff(g: Game)
    requires g.current < |g.players| && Keyed(g.players)
  {
    !g.passing && TrickSuit(g).Some? && IsVoidOfSuit(g.players[g.current], TrickSuit(g).value)
  }

  /** When the current player can sluff, every card of the hand is playable,
      and the player holds no card of the led suit; a player who leads may
      play any card but a heart unless hearts are broken or there is nothing
      else. */
  lemma HintsMeaning(g: Game)
    requires g.current < |g.players| && Keyed(g.players) && Counted(g.players[g.current])
    ensures CanSluff(g) ==>
      && Playable(g, g.current) == g.players[g.current].hand
      && NoneOfSuit(g.players[g.current].hand, g.trick[0].suit)
    ensures IsLead(g) ==> forall c: Card :: c in Playable(g, g.current) <==>
      c in g.players[g.current].hand && (g.broken || !IsAHeart(c) || OnlyHearts(g.players[g.current].hand))
  {
    if CanSluff(g) {
      VoidMeansNoCard(g.players[g.current], g.trick[0].suit);
    }
    if IsLead(g) {
      PlayableOnLead(g, g.current);
    }
  }

  // ---------------------------------------------------------------------------
  // A step as a whole.
  // ---------------------------------------------------------------------------

  /** `step` succeeds exactly on the string of a card in the current
      player's hand; once hearts are broken they stay broken, and a played
      card that is a heart or the queen of spades breaks them. The cached
      legal actions are always dropped. */
  lemma StepMeaning(g: Game, action: string)
    requires Keyed(g.players) && |g.trick| < |g.players|
    requires g.current < |g.players| ==> Counted(g.players[g.current])
    ensures Step(g, action).Ok? <==>
      g.current < |g.players| && Parse(action).Some? && Parse(action).value in g.players[g.current].hand
    ensures Step(g, action).Ok? ==>
      && Step(g, action).value.cache.None?
      && Step(g, action).value.broken == (g.broken || (!g.passing && BreaksHearts(Parse(action).value)))
    ensures g.current >= |g.players| ==> Step(g, action) == Err(NoSuchPlayer)
    ensures g.current < |g.players| && Parse(action).None? ==> Step(g, action) == Err(BadAction)
  {
    if g.current < |g.players| && Parse(action).Some? {
      var card := Parse(action).value;
      if g.passing {
        PassStepMoves(g, card);
      } else {
        PlayStepMoves(g, card);
      }
    }
  }

  // ---------------------------------------------------------------------------
  // The end of the round.
  // ---------------------------------------------------------------------------

  /** The loop of `is_over` from player `i` answers whether every hand from there on is empty. */
  lemma {:induction false} HandsEmptyFromMeaning(players: seq<Player>, i: nat)
    ensures HandsEmptyFrom(players, i) <==> forall j | i <= j < |players| :: players[j].hand == {}
    decreases |players| - i
  {
    if i < |players| {
      HandsEmptyFromMeaning(players, i + 1);
    }
  }

  /** `is_over` holds exactly when every hand is empty. */
  lemma IsOverMeaning(g: Game)
    ensures IsOver(g) <==> forall j | 0 <= j < |g.players| :: g.players[j].hand == {}
  {
    HandsEmptyFromMeaning(g.players, 0);
  }

  /** Some player has taken all 26 points. */
  predicate ShotTheMoon(players: seq<Player>) {
    exists j | 0 <= j < |players| :: players[j].roundScore == 26
  }

  /** The first loop of `get_payoffs` from player `i` finds a player from there on with 26 points. */
  lemma {:induction false} ControlFromMeaning(players: seq<Player>, i: nat)
    ensures ControlFrom(players, i) <==> exists j | i <= j < |players| :: players[j].roundScore == 26
    decreases |players| - i
  {
    if i < |players| {
      ControlFromMeaning(players, i + 1);
      if ControlFrom(players, i) && players[i].roundScore != 26 {
        var j :| i + 1 <= j < |players| && players[j].roundScore == 26;
      }
    }
  }

  /** `get_payoffs`: when a player shot the moon, that player gets 0 and
      every other player 26; otherwise each player gets the round score.
      Training turns each payoff `p` into `26 - p`. */
  lemma PayoffsMeaning(players: seq<Player>, training: bool)
    ensures forall i | 0 <= i < |players| ::
      var score := players[i].roundScore;
      var plain := if ShotTheMoon(players) then (if score == 26 then 0 else 26) else score;
      Payoffs(players, training)[i] == if training then 26 - plain else plain
  {
    ControlFromMeaning(players, 0);
  }

  /** After a moon shot the shooter's payoff is 0 (26 in training) and
      every player short of 26 points gets 26 (0 in training). */
  lemma MoonShotPayoffs(players: seq<Player>, j: nat)
    requires j < |players| && players[j].roundScore == 26
    ensures Payoffs(players, false)[j] == 0 && Payoffs(players, true)[j] == 26
    ensures forall i | 0 <= i < |players| && players[i].roundScore != 26 ::
      Payoffs(players, false)[i] == 26 && Payoffs(players, true)[i] == 0
  {
    ControlFromMeaning(players, 0);
  }
}
