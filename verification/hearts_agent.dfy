/** The Hearts rule agent (`HeartsRuleAgentV1` in
    `rlcard/models/hearts_rule_models.py`): a fixed preference order for the
    cards to pass and to sluff, the lowest card on the lead, the highest card
    when last to a trick without points, and otherwise the highest card that
    stays under the top card of the trick. */
module HeartsAgent {
  import opened Results
  import opened Cards
  import opened HeartsPlayer
  import opened HeartsGame
  import opened HeartsTricks
  import opened HeartsLegal

  /** Both preference orders after their first three entries: from the ace
      of hearts down to the two of hearts. */
  const OrderRest: seq<string> :=
    ["AH", "KH", "QH", "AD", "AC", "JH", "KD", "KC", "TH", "QD"] +
    ["QC", "9H", "JD", "JC", "8H", "TD", "TC", "7H", "9D", "9C", "6H", "8D", "8C"] +
    ["7D", "7C", "6D", "6C", "5D", "5C", "4D", "4C", "3D", "3C", "2D", "2C", "JS"] +
    ["TS", "9S", "8S", "7S", "6S", "5S", "4S", "3S", "2S", "5H", "4H", "3H", "2H"]

  /** `PASS_ORDER`: the order in which the agent likes to pass cards, most
      wanted first. */
  const PassOrder: seq<string> := ["AS", "KS", "QS"] + OrderRest

  /** `SLUFF_ORDER`: the order in which the agent likes to sluff cards. */
  const SluffOrder: seq<string> := ["QS", "AS", "KS"] + OrderRest

  /** Where each card sits in `PassOrder`, by suit and rank index. */
  const PassSpots: seq<seq<nat>> := [
    [47, 46, 45, 44, 43, 42, 41, 40, 39, 38, 2, 1, 0],
    [51, 50, 49, 48, 23, 20, 17, 14, 11, 8, 5, 4, 3],
    [36, 34, 32, 30, 28, 26, 24, 21, 18, 15, 12, 9, 6],
    [37, 35, 33, 31, 29, 27, 25, 22, 19, 16, 13, 10, 7]
  ]

  /** Each card's string sits in `PassOrder` where `PassSpots` says. */
  lemma PassSpotHolds(s: Suit, r: Rank)
    ensures PassSpots[SuitIndex(s)][r] < |PassOrder|
    ensures PassOrder[PassSpots[SuitIndex(s)][r]] == Str(Card(s, r))
  {
    assert r == 0 || r == 1 || r == 2 || r == 3 || r == 4 || r == 5 || r == 6
      || r == 7 || r == 8 || r == 9 || r == 10 || r == 11 || r == 12;
    match s
    case Spades =>
    case Hearts =>
    case Diamonds =>
    case Clubs =>
  }

  /** The sluffing order is the passing order with the queen of spades moved to the front. */
  lemma SluffOrderMovesTheQueen()
    ensures PassOrder[2] == "QS"
    ensures SluffOrder == [PassOrder[2]] + PassOrder[..2] + PassOrder[3..]
  {
    assert PassOrder[3..] == OrderRest;
  }

  lemma InBothOrders(c: Card)
    ensures Str(c) in PassOrder && Str(c) in SluffOrder
  {
    PassSpotHolds(c.suit, c.rank);
    SluffOrderMovesTheQueen();
    var k := PassSpots[SuitIndex(c.suit)][c.rank];
    if k < 2 {
      assert SluffOrder[k + 1] == PassOrder[k];
    } else if k > 2 {
      assert SluffOrder[k] == PassOrder[k];
    } else {
      assert SluffOrder[0] == PassOrder[2];
    }
  }

  /** 52 entries naming all 52 cards name each once. */
  lemma CoverIsDistinct(xs: seq<string>)
    requires |xs| == 52 && forall d: Card :: Str(d) in xs
    ensures Distinct(xs)
  {
    var names := Strs(StandardDeck);
    StandardDeckIsComplete();
    StrsDistinct(StandardDeck);
    DistinctSize(names);
    forall x | x in Elements(names) ensures x in Elements(xs) {
      var i :| 0 <= i < |names| && names[i] == x;
    }
    SubsetSize(Elements(names), Elements(xs));
    FullIsDistinct(xs);
  }

  /** Both preference orders list the strings of the 52 cards, each exactly once. */
  lemma OrdersListEveryCard(c: Card)
    ensures |PassOrder| == 52 && |SluffOrder| == 52
    ensures Distinct(PassOrder) && Distinct(SluffOrder)
    ensures Str(c) in PassOrder && Str(c) in SluffOrder
  {
    forall d: Card ensures Str(d) in PassOrder && Str(d) in SluffOrder {
      InBothOrders(d);
    }
    CoverIsDistinct(PassOrder);
    CoverIsDistinct(SluffOrder);
  }

  // ---------------------------------------------------------------------------
  // What the agent reads, and how it fails.
  // ---------------------------------------------------------------------------

  /** Why the agent fails where Python raises: no legal action (IndexError, or
      ValueError from `np.argmin`), an action missing from a preference order
      (`list.index` raises ValueError), an action that does not start with a
      rank letter (IndexError or ValueError), or an empty trick where the led
      suit is read (IndexError). */
  datatype AgentFault = NoLegalAction | NotInOrder(action: string) | NotACard(action: string) | NoTrick

  /** The six entries `step` reads from its state: `raw_legal_actions`,
      `passing_cards`, `can_sluff`, `is_lead`, `trick`, and the number of
      `game_scores`, one per player. All six are read from one view, as the
      Go Fish agents read `raw_obs`. */
  datatype View = View(legal: seq<string>, passing: bool, canSluff: bool, isLead: bool, trick: seq<Card>, scores: nat)

  /** The view of the current player: the hints `get_state` computes
      (rlcard/games/hearts/game.py:260-273), with the legal action strings
      given. No single dict of the program holds all six entries: `get_state`
      has no `raw_legal_actions`, and the environment keeps the hints under
      `raw_obs`. */
  function ViewOf(g: Game, legal: seq<string>): (v: View)
    requires g.current < |g.players| && Keyed(g.players)
    ensures v.isLead <==> !g.passing && |g.trick| == 0
    ensures v.canSluff ==> !g.passing && |g.trick| > 0
  {
    View(legal, g.passing, CanSluff(g), IsLead(g), g.trick, |g.players|)
  }

  // ---------------------------------------------------------------------------
  // `_pick_best_action_from_order`.
  // ---------------------------------------------------------------------------

  /** `order.index(a)`: None where Python raises ValueError. */
  function IndexOf(order: seq<string>, a: string): (r: Option<nat>)
    ensures r.None? <==> a !in order
    ensures r.Some? ==> r.value < |order| && order[r.value] == a
    ensures r.Some? ==> forall k | 0 <= k < r.value :: order[k] != a
  {
    if |order| == 0 then None
    else if order[0] == a then Some(0)
    else
      assert a in order <==> a in order[1..] by {
        assert forall x | x in order :: x == order[0] || x in order[1..];
      }
      match IndexOf(order[1..], a)
      case None => None
      case Some(k) => Some(k + 1)
  }

  /** The loop that looks every legal action up in `order`; it stops at the
      first action that is missing. */
  function Positions(legal: seq<string>, order: seq<string>): (r: Result<seq<nat>, AgentFault>)
    ensures r.Ok? <==> forall i | 0 <= i < |legal| :: legal[i] in order
    ensures r.Ok? ==> |r.value| == |legal| && forall i | 0 <= i < |legal| :: IndexOf(order, legal[i]) == Some(r.value[i])
  {
    if |legal| == 0 then Ok([])
    else
      match IndexOf(order, legal[0])
      case None => Err(NotInOrder(legal[0]))
      case Some(k) =>
        var rest :- Positions(legal[1..], order);
        assert forall i | 1 <= i < |legal| :: legal[i] == legal[1..][i - 1];
        Ok([k] + rest)
  }

  /** The first position of the least entry from `i` on, `best` being the
      first position of the least entry before `i`. */
  function ArgMinFrom(xs: seq<nat>, i: nat, best: nat): (j: nat)
    requires best < i <= |xs|
    requires forall k | 0 <= k < i :: xs[best] <= xs[k]
    requires forall k | 0 <= k < best :: xs[k] > xs[best]
    ensures j < |xs|
    ensures forall k | 0 <= k < |xs| :: xs[j] <= xs[k]
    ensures forall k | 0 <= k < j :: xs[k] > xs[j]
    decreases |xs| - i
  {
    if i == |xs| then best
    else if xs[i] < xs[best] then ArgMinFrom(xs, i + 1, i)
    else ArgMinFrom(xs, i + 1, best)
  }

  /** `np.argmin`: the first position of the least entry. */
  function ArgMin(xs: seq<nat>): (j: nat)
    requires |xs| > 0
    ensures j < |xs|
    ensures forall k | 0 <= k < |xs| :: xs[j] <= xs[k]
    ensures forall k | 0 <= k < j :: xs[k] > xs[j]
  {
    ArgMinFrom(xs, 1, 0)
  }

  /** `_pick_best_action_from_order(legal_actions, order)`. */
  function BestFromOrder(legal: seq<string>, order: seq<string>): Result<string, AgentFault> {
    var positions :- Positions(legal, order);
    if |positions| == 0 then Err(NoLegalAction) else Ok(legal[ArgMin(positions)])
  }

  /** The first entry of `order` that is a legal action. */
  function FirstIn(order: seq<string>, legal: seq<string>): Option<string> {
    if |order| == 0 then None
    else if order[0] in legal then Some(order[0])
    else FirstIn(order[1..], legal)
  }

  lemma {:induction false} FirstInAt(order: seq<string>, legal: seq<string>, m: nat)
    requires m < |order| && order[m] in legal
    requires forall k | 0 <= k < m :: order[k] !in legal
    ensures FirstIn(order, legal) == Some(order[m])
  {
    if m > 0 {
      assert order[0] !in legal;
      FirstInAt(order[1..], legal, m - 1);
    }
  }

  /** Picking from a preference order fails exactly when there is no legal
      action or one of them is not in the order; otherwise it picks the legal
      action that comes first in the order. */
  lemma BestFromOrderMeaning(legal: seq<string>, order: seq<string>)
    ensures BestFromOrder(legal, order).Ok? <==> |legal| > 0 && forall i | 0 <= i < |legal| :: legal[i] in order
    ensures |legal| == 0 ==> BestFromOrder(legal, order) == Err(NoLegalAction)
    ensures BestFromOrder(legal, order).Ok? ==>
      BestFromOrder(legal, order).value in legal && FirstIn(order, legal) == Some(BestFromOrder(legal, order).value)
  {
    var r := Positions(legal, order);
    if r.Ok? && |legal| > 0 {
      var positions := r.value;
      var j := ArgMin(positions);
      var m := positions[j];
      forall k | 0 <= k < m ensures order[k] !in legal {
        forall i | 0 <= i < |legal| ensures legal[i] != order[k] {
          assert m <= positions[i];
        }
      }
      FirstInAt(order, legal, m);
    }
  }

  // ---------------------------------------------------------------------------
  // `_pick_lowest_action`, `_pick_highest_action` and
  // `_pick_highest_action_below_rank`.
  // ---------------------------------------------------------------------------

  /** `Card.valid_rank.index(action[0])`: the rank of an action's first letter,
      an error where Python raises IndexError or ValueError. */
  function RankOf(a: string): (r: Result<Rank, AgentFault>)
    ensures r.Ok? <==> |a| > 0 && a[0] in RankLetters
    ensures r.Ok? ==> RankLetter(r.value) == a[0]
  {
    if |a| == 0 then Err(NotACard(a))
    else
      match RankOfLetter(a[0])
      case None => Err(NotACard(a))
      case Some(k) => Ok(k)
  }

  /** The ranks of the legal actions, in order; the first action without a
      rank letter is the error. The three loops of the agent read the ranks in
      this order and raise at the same action. */
  function Ranks(legal: seq<string>): (r: Result<seq<Rank>, AgentFault>)
    ensures r.Ok? <==> forall i | 0 <= i < |legal| :: |legal[i]| > 0 && legal[i][0] in RankLetters
    ensures r.Ok? ==> |r.value| == |legal| && forall i | 0 <= i < |legal| :: RankLetter(r.value[i]) == legal[i][0]
  {
    if |legal| == 0 then Ok([])
    else
      assert forall i | 1 <= i < |legal| :: legal[i] == legal[1..][i - 1];
      var k :- RankOf(legal[0]);
      var rest :- Ranks(legal[1..]);
      Ok([k] + rest)
  }

  /** Rank `x` is strictly better than rank `y`: higher, or lower. */
  predicate Better(x: Rank, y: Rank, higher: bool) {
    if higher then x > y else x < y
  }

  /** Position `j` has the best rank of all, and every position before it is strictly worse. */
  predicate FirstBest(ranks: seq<Rank>, j: nat, higher: bool) {
    && j < |ranks|
    && (forall k | 0 <= k < |ranks| :: !Better(ranks[k], ranks[j], higher))
    && (forall k | 0 <= k < j :: Better(ranks[j], ranks[k], higher))
  }

  /** The loop from position `i` on, `best` being the position kept so far:
      move on only to a strictly better rank. */
  function PickFrom(ranks: seq<Rank>, higher: bool, i: nat, best: nat): (j: nat)
    requires best < i <= |ranks|
    ensures j < |ranks|
    decreases |ranks| - i
  {
    if i == |ranks| then best
    else if Better(ranks[i], ranks[best], higher) then PickFrom(ranks, higher, i + 1, i)
    else PickFrom(ranks, higher, i + 1, best)
  }

  /** `_pick_lowest_action` (`higher` false) and `_pick_highest_action`
      (`higher` true): start from the first action and move on to a later one
      only when its rank is strictly better. */
  function PickByRank(legal: seq<string>, higher: bool): Result<string, AgentFault> {
    if |legal| == 0 then Err(NoLegalAction)
    else
      var ranks :- Ranks(legal);
      Ok(legal[PickFrom(ranks, higher, 1, 0)])
  }

  /** The loop keeps the first position of the best rank seen so far. */
  lemma {:induction false} PickFromFinds(ranks: seq<Rank>, higher: bool, i: nat, best: nat)
    requires best < i <= |ranks|
    requires forall k | 0 <= k < i :: !Better(ranks[k], ranks[best], higher)
    requires forall k | 0 <= k < best :: Better(ranks[best], ranks[k], higher)
    ensures FirstBest(ranks, PickFrom(ranks, higher, i, best), higher)
    decreases |ranks| - i
  {
    if i < |ranks| {
      if Better(ranks[i], ranks[best], higher) {
        PickFromFinds(ranks, higher, i + 1, i);
      } else {
        PickFromFinds(ranks, higher, i + 1, best);
      }
    }
  }

  /** Picking by rank fails exactly when there is no legal action or one does
      not start with a rank letter; otherwise it picks the first action of the
      lowest (or highest) rank. */
  lemma PickByRankMeaning(legal: seq<string>, higher: bool)
    ensures PickByRank(legal, higher).Ok? <==> |legal| > 0 && Ranks(legal).Ok?
    ensures |legal| == 0 ==> PickByRank(legal, higher) == Err(NoLegalAction)
    ensures PickByRank(legal, higher).Ok? ==>
      exists j | 0 <= j < |legal| :: legal[j] == PickByRank(legal, higher).value && FirstBest(Ranks(legal).value, j, higher)
  {
    if |legal| > 0 && Ranks(legal).Ok? {
      var ranks := Ranks(legal).value;
      PickFromFinds(ranks, higher, 1, 0);
      var j := PickFrom(ranks, higher, 1, 0);
      assert legal[j] == PickByRank(legal, higher).value;
    }
  }

  /** The loop of `_pick_highest_action_below_rank` from position `i` on,
      `best` being the position kept so far. */
  function BelowFrom(ranks: seq<Rank>, bound: Rank, i: nat, best: Option<nat>): (r: Option<nat>)
    requires i <= |ranks| && (best.Some? ==> best.value < i)
    ensures r.Some? ==> r.value < |ranks|
    decreases |ranks| - i
  {
    if i == |ranks| then best
    else if ranks[i] < bound && (best.None? || ranks[i] > ranks[best.value]) then BelowFrom(ranks, bound, i + 1, Some(i))
    else BelowFrom(ranks, bound, i + 1, best)
  }

  /** `_pick_highest_action_below_rank(legal_actions, rank)`. */
  function PickBelow(legal: seq<string>, bound: Rank): Result<Option<string>, AgentFault> {
    var ranks :- Ranks(legal);
    var j := BelowFrom(ranks, bound, 0, None);
    Ok(if j.None? then None else Some(legal[j.value]))
  }

  /** Position `j` ranks below `bound`, no position below `bound` outranks
      it, and every position before it that ranks below `bound` ranks
      strictly lower. */
  predicate FirstHighestBelow(ranks: seq<Rank>, j: nat, bound: Rank) {
    && j < |ranks| && ranks[j] < bound
    && (forall k | 0 <= k < |ranks| && ranks[k] < bound :: ranks[k] <= ranks[j])
    && (forall k | 0 <= k < j && ranks[k] < bound :: ranks[k] < ranks[j])
  }

  lemma {:induction false} BelowFromFinds(ranks: seq<Rank>, bound: Rank, i: nat, best: Option<nat>)
    requires i <= |ranks|
    requires best.None? ==> forall k | 0 <= k < i :: ranks[k] >= bound
    requires best.Some? ==> best.value < i && ranks[best.value] < bound
    requires best.Some? ==> forall k | 0 <= k < i && ranks[k] < bound :: ranks[k] <= ranks[best.value]
    requires best.Some? ==> forall k | 0 <= k < best.value && ranks[k] < bound :: ranks[k] < ranks[best.value]
    ensures var r := BelowFrom(ranks, bound, i, best);
      && (r.None? <==> forall k | 0 <= k < |ranks| :: ranks[k] >= bound)
      && (r.Some? ==> FirstHighestBelow(ranks, r.value, bound))
    decreases |ranks| - i
  {
    if i < |ranks| {
      if ranks[i] < bound && (best.None? || ranks[i] > ranks[best.value]) {
        BelowFromFinds(ranks, bound, i + 1, Some(i));
      } else {
        BelowFromFinds(ranks, bound, i + 1, best);
      }
    }
  }

  /** Picking below a rank fails exactly when an action does not start with
      a rank letter; otherwise it finds nothing exactly when no action ranks
      below the bound, and else the first action of the highest rank below it. */
  lemma PickBelowMeaning(legal: seq<string>, bound: Rank)
    ensures PickBelow(legal, bound).Ok? <==> Ranks(legal).Ok?
    ensures PickBelow(legal, bound).Ok? ==>
      (PickBelow(legal, bound).value.None? <==> forall k | 0 <= k < |legal| :: Ranks(legal).value[k] >= bound)
    ensures PickBelow(legal, bound).Ok? && PickBelow(legal, bound).value.Some? ==>
      exists j | 0 <= j < |legal| ::
        legal[j] == PickBelow(legal, bound).value.value && FirstHighestBelow(Ranks(legal).value, j, bound)
  {
    if Ranks(legal).Ok? {
      var ranks := Ranks(legal).value;
      BelowFromFinds(ranks, bound, 0, None);
      var r := BelowFrom(ranks, bound, 0, None);
      if r.Some? {
        assert legal[r.value] == PickBelow(legal, bound).value.value;
      }
    }
  }

  // ---------------------------------------------------------------------------
  // Reading the trick.
  // ---------------------------------------------------------------------------

  /** `_trick_contains_hearts_or_the_queen`. */
  function TrickHasPoints(trick: seq<Card>): bool {
    if |trick| == 0 then false else BreaksHearts(trick[0]) || TrickHasPoints(trick[1..])
  }

  /** A trick holds a heart or the queen of spades exactly when it is worth points. */
  lemma {:induction false} TrickHasPointsMeaning(trick: seq<Card>)
    ensures TrickHasPoints(trick) <==> exists i | 0 <= i < |trick| :: BreaksHearts(trick[i])
    ensures TrickHasPoints(trick) <==> Points(trick) > 0
  {
    if |trick| > 0 {
      TrickHasPointsMeaning(trick[1..]);
      assert forall i | 1 <= i < |trick| :: trick[i] == trick[1..][i - 1];
    }
  }

  /** The loop of `_get_highest_rank_of_lead_suit_in_trick` from card `i` on,
      `top` being the highest led card so far. */
  function HighestFrom(trick: seq<Card>, lead: Suit, i: nat, top: Card): Card
    decreases |trick| - i
  {
    if i >= |trick| then top
    else if trick[i].suit == lead && Less(top, trick[i]) then HighestFrom(trick, lead, i + 1, trick[i])
    else HighestFrom(trick, lead, i + 1, top)
  }

  /** `_get_highest_rank_of_lead_suit_in_trick`. */
  function HighestLeadRank(trick: seq<Card>): Result<Rank, AgentFault> {
    if |trick| == 0 then Err(NoTrick) else Ok(HighestFrom(trick, trick[0].suit, 1, trick[0]).rank)
  }

  /** The agent's scan and the game's scan for the trick winner keep the same card. */
  lemma {:induction false} HighestFromIsTop(trick: seq<Card>, lead: Suit, i: nat, top: nat)
    requires top < |trick| && i <= |trick|
    ensures HighestFrom(trick, lead, i, trick[top]) == trick[TopFrom(trick, lead, i, top)]
    decreases |trick| - i
  {
    if i < |trick| {
      if trick[i].suit == lead && Less(trick[top], trick[i]) {
        HighestFromIsTop(trick, lead, i + 1, i);
      } else {
        HighestFromIsTop(trick, lead, i + 1, top);
      }
    }
  }

  /** The agent reads the rank of the card that is winning the trick so far:
      a led-suit card that no led-suit card of the trick outranks. */
  lemma HighestLeadRankMeaning(trick: seq<Card>)
    ensures HighestLeadRank(trick).Ok? <==> |trick| > 0
    ensures |trick| > 0 ==> HighestLeadRank(trick).value == trick[TopIndex(trick, trick[0].suit)].rank
    ensures |trick| > 0 ==>
      && (exists j | 0 <= j < |trick| :: trick[j].suit == trick[0].suit && trick[j].rank == HighestLeadRank(trick).value)
      && (forall j | 0 <= j < |trick| && trick[j].suit == trick[0].suit :: trick[j].rank <= HighestLeadRank(trick).value)
  {
    if |trick| > 0 {
      var lead := trick[0].suit;
      HighestFromIsTop(trick, lead, 1, 0);
      TopIndexIsHighest(trick, lead);
      var t := TopIndex(trick, lead);
      forall j | 0 <= j < |trick| && trick[j].suit == lead ensures trick[j].rank <= trick[t].rank {
        assert !Less(trick[t], trick[j]);
      }
    }
  }

  // ---------------------------------------------------------------------------
  // `step`.
  // ---------------------------------------------------------------------------

  /** `HeartsRuleAgentV1.step(state)`. */
  function Step(v: View): Result<string, AgentFault> {
    if v.passing then BestFromOrder(v.legal, PassOrder)
    else if v.canSluff then BestFromOrder(v.legal, SluffOrder)
    else if v.isLead then PickByRank(v.legal, false)
    else if |v.trick| == v.scores - 1 && !TrickHasPoints(v.trick) then PickByRank(v.legal, true)
    else
      var top :- HighestLeadRank(v.trick);
      var below :- PickBelow(v.legal, top);
      if below.Some? then Ok(below.value) else PickByRank(v.legal, false)
  }

  /** The agent only ever answers with one of its legal actions. */
  lemma StepIsLegal(v: View)
    ensures Step(v).Ok? ==> Step(v).value in v.legal
  {
    if v.passing {
      BestFromOrderMeaning(v.legal, PassOrder);
    } else if v.canSluff {
      BestFromOrderMeaning(v.legal, SluffOrder);
    } else if v.isLead {
      PickByRankMeaning(v.legal, false);
    } else if |v.trick| == v.scores - 1 && !TrickHasPoints(v.trick) {
      PickByRankMeaning(v.legal, true);
    } else if |v.trick| > 0 {
      HighestLeadRankMeaning(v.trick);
      PickBelowMeaning(v.legal, HighestLeadRank(v.trick).value);
      PickByRankMeaning(v.legal, false);
    }
  }

  /** Every legal action is the string of a card. */
  predicate CardStrings(legal: seq<string>) {
    forall i | 0 <= i < |legal| :: Parse(legal[i]).Some? && legal[i] == Str(Parse(legal[i]).value)
  }

  /** Given card strings to choose from and hints that agree with the trick
      the way `get_state` builds them, the agent never fails. */
  lemma StepSucceeds(v: View)
    requires |v.legal| > 0 && CardStrings(v.legal)
    requires !v.passing && !v.isLead ==> |v.trick| > 0
    ensures Step(v).Ok?
  {
    forall i | 0 <= i < |v.legal|
      ensures v.legal[i] in PassOrder && v.legal[i] in SluffOrder && |v.legal[i]| > 0 && v.legal[i][0] in RankLetters
    {
      var c := Parse(v.legal[i]).value;
      OrdersListEveryCard(c);
      assert v.legal[i][0] == RankLetters[c.rank];
    }
    if v.passing {
      BestFromOrderMeaning(v.legal, PassOrder);
    } else if v.canSluff {
      BestFromOrderMeaning(v.legal, SluffOrder);
    } else if v.isLead {
      PickByRankMeaning(v.legal, false);
    } else if |v.trick| == v.scores - 1 && !TrickHasPoints(v.trick) {
      PickByRankMeaning(v.legal, true);
    } else if |v.trick| > 0 {
      HighestLeadRankMeaning(v.trick);
      PickBelowMeaning(v.legal, HighestLeadRank(v.trick).value);
      PickByRankMeaning(v.legal, false);
    }
  }

  /** What the agent plays: while passing, the legal card first in the passing
      order; when it can sluff, the one first in the sluffing order; on the
      lead, the first of the lowest rank; last to a trick without points, the
      first of the highest rank; otherwise the first of the highest rank that
      stays under the trick's top card, or failing that the first of the
      lowest rank. */
  lemma StepMeaning(v: View)
    requires Step(v).Ok?
    ensures v.passing ==> FirstIn(PassOrder, v.legal) == Some(Step(v).value)
    ensures !v.passing && v.canSluff ==> FirstIn(SluffOrder, v.legal) == Some(Step(v).value)
    ensures !v.passing && !v.canSluff && v.isLead ==>
      && Ranks(v.legal).Ok?
      && exists j | 0 <= j < |v.legal| :: v.legal[j] == Step(v).value && FirstBest(Ranks(v.legal).value, j, false)
    ensures !v.passing && !v.canSluff && !v.isLead && |v.trick| == v.scores - 1 && !TrickHasPoints(v.trick) ==>
      && Ranks(v.legal).Ok?
      && exists j | 0 <= j < |v.legal| :: v.legal[j] == Step(v).value && FirstBest(Ranks(v.legal).value, j, true)
    ensures !v.passing && !v.canSluff && !v.isLead && !(|v.trick| == v.scores - 1 && !TrickHasPoints(v.trick)) ==>
      && |v.trick| > 0 && Ranks(v.legal).Ok?
      && var top := v.trick[TopIndex(v.trick, v.trick[0].suit)].rank;
         var ranks := Ranks(v.legal).value;
         exists j | 0 <= j < |v.legal| :: v.legal[j] == Step(v).value &&
           if exists k | 0 <= k < |v.legal| :: ranks[k] < top
           then FirstHighestBelow(ranks, j, top)
           else FirstBest(ranks, j, false)
  {
    if v.passing {
      BestFromOrderMeaning(v.legal, PassOrder);
    } else if v.canSluff {
      BestFromOrderMeaning(v.legal, SluffOrder);
    } else if v.isLead {
      PickByRankMeaning(v.legal, false);
    } else if |v.trick| == v.scores - 1 && !TrickHasPoints(v.trick) {
      PickByRankMeaning(v.legal, true);
    } else if |v.trick| > 0 {
      HighestLeadRankMeaning(v.trick);
      PickBelowMeaning(v.legal, HighestLeadRank(v.trick).value);
      PickByRankMeaning(v.legal, false);
    }
  }

  /** On the list `_get_legal_actions` builds from a non-empty set of
      playable cards for `k > 0` other players, the agent reading the view
      of that list never fails and answers with a listed action. */
  lemma StepOnListing(g: Game, cards: set<Card>, k: nat)
    requires g.current < |g.players| && Keyed(g.players)
    requires cards != {} && k > 0
    ensures Step(ViewOf(g, Listing(cards, k))).Ok?
    ensures Step(ViewOf(g, Listing(cards, k))).value in Listing(cards, k)
  {
    ListedSet(cards, k);
    var v := ViewOf(g, Listing(cards, k));
    StepSucceeds(v);
    StepIsLegal(v);
  }
}
