/** The Go Fish action strings (`rlcard/games/go_fish/game.py`): the action
    "o-r" asks the player `o` seats to the left for rank letter `r`. `configure`
    lists every action, `step` decodes one, and `_get_legal_actions` lists the
    ones the current hand allows. */
module FishActions {
  import opened Results
  import opened Cards
  import opened FishPlayer
  import opened ActionSpaces

  // ---------------------------------------------------------------------------
  // Decimal numerals, as written by `'{}'.format(n)` and read by `int(ch)`.
  // ---------------------------------------------------------------------------

  predicate IsDigit(ch: char) {
    '0' <= ch <= '9'
  }

  function DigitChar(d: nat): (ch: char)
    requires d < 10
    ensures IsDigit(ch)
  {
    (48 + d) as char
  }

  function DigitValue(ch: char): (d: nat)
    requires IsDigit(ch)
    ensures d < 10 && DigitChar(d) == ch
  {
    (ch as int) - 48
  }

  /** `'{}'.format(k)`: the decimal numeral of `k`, without leading zeros. */
  function Numeral(k: nat): (s: string)
    ensures |s| >= 1 && forall i | 0 <= i < |s| :: IsDigit(s[i])
    decreases k
  {
    if k < 10 then [DigitChar(k)] else Numeral(k / 10) + [DigitChar(k % 10)]
  }

  /** The value of a string of digits. */
  function NumeralValue(s: string): nat
    requires forall i | 0 <= i < |s| :: IsDigit(s[i])
    decreases |s|
  {
    if |s| == 0 then 0 else NumeralValue(s[..|s| - 1]) * 10 + DigitValue(s[|s| - 1])
  }

  /** Reading a numeral back gives the number it was written from. */
  lemma {:induction false} NumeralRoundTrip(k: nat)
    ensures NumeralValue(Numeral(k)) == k
    decreases k
  {
    if k >= 10 {
      NumeralRoundTrip(k / 10);
      var s := Numeral(k);
      assert s[..|s| - 1] == Numeral(k / 10);
    }
  }

  /** Numerals of different numbers differ. */
  lemma NumeralInjective(a: nat, b: nat)
    ensures Numeral(a) == Numeral(b) <==> a == b
  {
    if Numeral(a) == Numeral(b) {
      NumeralRoundTrip(a);
      NumeralRoundTrip(b);
    }
  }

  // ---------------------------------------------------------------------------
  // The action space (`configure`, `get_num_actions`).
  // ---------------------------------------------------------------------------

  /** `'{}-{}'.format(o, rank)`. */
  function Action(o: nat, r: Rank): string {
    Numeral(o) + "-" + [RankLetter(r)]
  }

  /** An action string names its offset and its rank. */
  lemma ActionInjective(o1: nat, r1: Rank, o2: nat, r2: Rank)
    ensures Action(o1, r1) == Action(o2, r2) <==> o1 == o2 && r1 == r2
  {
    if Action(o1, r1) == Action(o2, r2) {
      var a := Action(o1, r1);
      LettersRoundTrip(r1, Spades);
      LettersRoundTrip(r2, Spades);
      assert RankLetter(r1) == a[|a| - 1] == RankLetter(r2);
      assert Numeral(o1) == a[..|a| - 2] == Numeral(o2);
      NumeralInjective(o1, o2);
    }
  }

  /** The thirteen requests of one offset, in rank order. */
  function OffsetActions(o: nat): (s: seq<string>)
    ensures |s| == 13 && forall r: Rank :: s[r] == Action(o, r)
  {
    seq(13, (i: int) requires 0 <= i < 13 => Action(o, i))
  }

  /** The loop of `configure` from `player_num == k`. */
  function ActionsFrom(k: nat, n: nat): seq<string>
    decreases n - k
  {
    if k + 1 >= n then [] else OffsetActions(k + 1) + ActionsFrom(k + 1, n)
  }

  /** `action_list` for `n` players. */
  function ActionList(n: nat): seq<string> {
    ActionsFrom(0, n)
  }

  /** `get_num_actions`. */
  function NumActions(n: int): int {
    (n - 1) * 13
  }

  /** The action at position `i` of the loop from `k` asks offset
      `k + i / 13 + 1` for rank `i % 13`. */
  lemma {:induction false} ActionsFromShape(k: nat, n: nat)
    requires k < n
    ensures |ActionsFrom(k, n)| == (n - 1 - k) * 13
    ensures forall i | 0 <= i < |ActionsFrom(k, n)| :: ActionsFrom(k, n)[i] == Action(k + i / 13 + 1, i % 13)
    decreases n - k
  {
    if k + 1 < n {
      ActionsFromShape(k + 1, n);
      var s := ActionsFrom(k, n);
      forall i | 0 <= i < |s| ensures s[i] == Action(k + i / 13 + 1, i % 13) {
        if i >= 13 {
          assert s[i] == ActionsFrom(k + 1, n)[i - 13];
          assert (i - 13) / 13 == i / 13 - 1 && (i - 13) % 13 == i % 13;
        }
      }
    }
  }

  /** The action list has `get_num_actions` entries: offsets 1 to `n - 1`,
      each with the thirteen ranks in order. */
  lemma ActionListShape(n: nat)
    requires n >= 1
    ensures |ActionList(n)| == NumActions(n)
    ensures forall i | 0 <= i < |ActionList(n)| :: ActionList(n)[i] == Action(i / 13 + 1, i % 13)
  {
    ActionsFromShape(0, n);
  }

  /** No action is listed twice. */
  lemma ActionListDistinct(n: nat)
    requires n >= 1
    ensures Distinct(ActionList(n))
  {
    ActionListShape(n);
    var s := ActionList(n);
    forall i, j | 0 <= i < j < |s| ensures s[i] != s[j] {
      if s[i] == s[j] {
        ActionInjective(i / 13 + 1, i % 13, j / 13 + 1, j % 13);
        DivModUnique(i, j);
        assert false;
      }
    }
  }

  lemma DivModUnique(i: nat, j: nat)
    requires i / 13 == j / 13 && i % 13 == j % 13
    ensures i == j
  {
  }

  /** The action space of the game: every listed action maps to its position. */
  lemma GameActionSpace(n: nat)
    requires n >= 1
    ensures ActionSpace(ActionList(n)).Keys == Elements(ActionList(n))
    ensures forall i | 0 <= i < |ActionList(n)| :: ActionSpace(ActionList(n))[ActionList(n)[i]] == i
  {
    ActionListDistinct(n);
    ActionSpaceIndexes(ActionList(n));
  }

  // ---------------------------------------------------------------------------
  // Decoding an action in `step`.
  // ---------------------------------------------------------------------------

  /** Why `step` cannot read its action. */
  datatype ActionFault = Unreadable

  /** `int(action[0])` and `action[2]` of `step`: the offset digit and the rank
      letter. An empty or short string (IndexError), a first character that is
      not a digit (ValueError) or a third one that is not a rank letter is `Unreadable`. */
  function Decode(a: string): (r: Result<(nat, Rank), ActionFault>)
    ensures r.Ok? <==> |a| >= 3 && IsDigit(a[0]) && RankOfLetter(a[2]).Some?
    ensures r.Ok? ==> r.value.0 < 10 && DigitChar(r.value.0) == a[0] && RankLetter(r.value.1) == a[2]
  {
    if |a| < 3 || !IsDigit(a[0]) then Err(Unreadable)
    else
      match RankOfLetter(a[2])
      case None => Err(Unreadable)
      case Some(r) => Ok((DigitValue(a[0]), r))
  }

  /** Every action of an offset below ten decodes to its offset and rank. */
  lemma DecodeAction(o: nat, r: Rank)
    requires o < 10
    ensures Decode(Action(o, r)) == Ok((o, r))
  {
    LettersRoundTrip(r, Spades);
  }

  // ---------------------------------------------------------------------------
  // Legal actions (`_get_legal_actions`).
  // ---------------------------------------------------------------------------

  /** The ranks of the hand from rank `k` up, ascending. */
  function RanksFrom(hand: set<Card>, k: nat): (rs: seq<Rank>)
    requires k <= 13
    ensures forall r: Rank :: r in rs <==> k <= r && CardsOfRank(hand, r) != {}
    ensures forall i, j | 0 <= i < j < |rs| :: rs[i] < rs[j]
    ensures forall i | 0 <= i < |rs| :: k <= rs[i]
    decreases 13 - k
  {
    if k == 13 then []
    else (if CardsOfRank(hand, k) != {} then [k as Rank] else []) + RanksFrom(hand, k + 1)
  }

  /** `player_hand_ranks`: the distinct ranks in the hand. */
  function HandRanks(hand: set<Card>): seq<Rank> {
    RanksFrom(hand, 0)
  }

  /** The requests of one offset, one per rank of the hand. */
  function OffsetRequests(o: nat, ranks: seq<Rank>): (s: seq<string>)
    ensures |s| == |ranks| && forall i | 0 <= i < |ranks| :: s[i] == Action(o, ranks[i])
  {
    seq(|ranks|, i requires 0 <= i < |ranks| => Action(o, ranks[i]))
  }

  /** The loop of `_get_legal_actions` from `i == k`. */
  function LegalFrom(ranks: seq<Rank>, k: nat, n: nat): seq<string>
    decreases n - k
  {
    if k + 1 >= n then [] else OffsetRequests(k + 1, ranks) + LegalFrom(ranks, k + 1, n)
  }

  /** `_get_legal_actions` for a hand, with `n` players. */
  function LegalActions(hand: set<Card>, n: nat): seq<string> {
    LegalFrom(HandRanks(hand), 0, n)
  }

  /** The loop from `k` lists `|ranks|` requests for each offset `k + 1` to `n - 1`. */
  lemma {:induction false} LegalFromSize(ranks: seq<Rank>, k: nat, n: nat)
    ensures k + 1 >= n ==> |LegalFrom(ranks, k, n)| == 0
    ensures k + 1 < n ==> |LegalFrom(ranks, k, n)| == (n - 1 - k) * |ranks|
    decreases n - k
  {
    if k + 1 < n {
      LegalFromSize(ranks, k + 1, n);
      assert (n - 1 - k) * |ranks| == |ranks| + (n - 1 - (k + 1)) * |ranks|;
    }
  }

  /** The loop from `k` lists the request of every offset `k + 1` to `n - 1` for every given rank. */
  lemma {:induction false} LegalFromHas(ranks: seq<Rank>, k: nat, n: nat, o: nat, r: Rank)
    requires k < o < n && r in ranks
    ensures Action(o, r) in LegalFrom(ranks, k, n)
    decreases n - k
  {
    if o == k + 1 {
      var i :| 0 <= i < |ranks| && ranks[i] == r;
      assert OffsetRequests(k + 1, ranks)[i] == Action(o, r);
    } else {
      LegalFromHas(ranks, k + 1, n, o, r);
    }
  }

  /** Everything the loop from `k` lists is such a request. */
  lemma {:induction false} LegalFromOnly(ranks: seq<Rank>, k: nat, n: nat, a: string) returns (o: nat, r: Rank)
    requires a in LegalFrom(ranks, k, n)
    ensures k < o < n && r in ranks && a == Action(o, r)
    decreases n - k
  {
    var head := OffsetRequests(k + 1, ranks);
    if a in head {
      var i :| 0 <= i < |head| && head[i] == a;
      o, r := k + 1, ranks[i];
    } else {
      o, r := LegalFromOnly(ranks, k + 1, n, a);
    }
  }

  /** Every request of an offset 1 to `n - 1` for a rank of the hand is legal. */
  lemma LegalActionsMembers(hand: set<Card>, n: nat)
    ensures forall o: nat, r: Rank | 0 < o < n && CardsOfRank(hand, r) != {} :: Action(o, r) in LegalActions(hand, n)
  {
    forall o: nat, r: Rank | 0 < o < n && CardsOfRank(hand, r) != {} ensures Action(o, r) in LegalActions(hand, n) {
      LegalFromHas(HandRanks(hand), 0, n, o, r);
    }
  }

  /** There are `|HandRanks(hand)|` legal actions per offset. */
  lemma LegalActionsCount(hand: set<Card>, n: nat)
    requires n >= 1
    ensures |LegalActions(hand, n)| == (n - 1) * |HandRanks(hand)|
  {
    LegalFromSize(HandRanks(hand), 0, n);
    if n == 1 {
      assert (n - 1) * |HandRanks(hand)| == 0;
    }
  }

  /** A player with an empty hand has no legal action. */
  lemma LegalActionsEmpty(hand: set<Card>, n: nat)
    requires hand == {}
    ensures LegalActions(hand, n) == []
  {
    assert HandRanks(hand) == [] by {
      if |HandRanks(hand)| > 0 {
        assert false;
      }
    }
    LegalFromNone(0, n);
  }

  lemma {:induction false} LegalFromNone(k: nat, n: nat)
    ensures LegalFrom([], k, n) == []
    decreases n - k
  {
    if k + 1 < n {
      LegalFromNone(k + 1, n);
    }
  }

  /** Every legal action asks an offset 1 to `n - 1` for a rank of the hand. */
  lemma LegalActionOf(hand: set<Card>, n: nat, a: string) returns (o: nat, r: Rank)
    requires a in LegalActions(hand, n)
    ensures 0 < o < n && CardsOfRank(hand, r) != {} && a == Action(o, r)
  {
    o, r := LegalFromOnly(HandRanks(hand), 0, n, a);
  }

  /** Every legal action is in the action space, so looking it up never fails. */
  lemma LegalActionListed(hand: set<Card>, n: nat, a: string)
    requires a in LegalActions(hand, n)
    ensures a in ActionList(n)
  {
    var o, r := LegalActionOf(hand, n, a);
    ActionListShape(n);
    var i := (o - 1) * 13 + r;
    assert i / 13 + 1 == o && i % 13 == r;
    assert i < |ActionList(n)|;
    assert ActionList(n)[i] == Action(i / 13 + 1, i % 13);
  }
}
