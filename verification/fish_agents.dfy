/** The Go Fish rule agents (`rlcard/models/go_fish_rule_models.py`).

    Each agent reads a raw observation and answers with an action string
    "o-r". Version 1 asks an opponent known to show a rank it holds, version 2
    first tries to complete a book and otherwise asks for the rank it has most
    of, version 3 asks for the action of highest expected yield.

    `np.random.choice` is modelled by `Choose`, whose `pick` parameter stands
    for the random draw: every candidate is the answer for some pick. The
    observation keys the agents read are an input here (`View`). Python visits
    dict keys in insertion order; the model visits ranks in ascending order. */
module FishAgents {
  import opened Results
  import opened Cards
  import opened FishPlayer
  import opened FishActions

  /** Why an agent raises. */
  datatype AgentFault =
    | EmptyChoice      // `np.random.choice` of an empty list or range (ValueError)
    | NoSuchPlayer     // an index past `public_cards` or the expected-value list (IndexError)
    | UnknownQuantity  // a count other than 1, 2 or 3 used as a bucket key (KeyError)
    | NoSuchRank       // a rank missing from an expected-value dict (KeyError)
    | UnreadableAction // `int(action[0])` or `action[2]` of a malformed action
    | NothingToAsk     // `raise 'error'` once every bucket is empty

  /** The parts of the raw observation the agents read. */
  datatype View = View(
    legal: seq<string>,                  // `raw_legal_actions`
    hand: seq<Card>,                     // `player_hand`, in iteration order
    handByRank: map<Rank, int>,          // `current_player_hand_by_rank`
    publicCounts: seq<map<Rank, int>>,   // `public_cards`: per player to the left, rank -> shown count
    expected: seq<map<Rank, real>>)      // `players_rank_expected_values`, for offsets 1, 2, ...

  // ---------------------------------------------------------------------------
  // Random choice.
  // ---------------------------------------------------------------------------

  /** `np.random.choice(xs)`, the draw being `pick`. */
  function Choose<T>(xs: seq<T>, pick: nat): (r: Result<T, AgentFault>)
    ensures r.Ok? <==> |xs| > 0
    ensures r.Err? ==> r.error == EmptyChoice
    ensures r.Ok? ==> r.value in xs
  {
    if |xs| == 0 then Err(EmptyChoice) else Ok(xs[pick % |xs|])
  }

  /** Every candidate is chosen by some draw. */
  lemma ChooseReaches<T>(xs: seq<T>, x: T) returns (pick: nat)
    requires x in xs
    ensures Choose(xs, pick) == Ok(x)
  {
    var i :| 0 <= i < |xs| && xs[i] == x;
    pick := i;
  }

  /** `range(1, n)`: the opponents, by their offset to the left. */
  function Opponents(n: nat): (os: seq<nat>)
    ensures forall o :: o in os <==> 1 <= o < n
  {
    var os := seq(if n >= 1 then n - 1 else 0, i requires i >= 0 => i + 1);
    forall o | 1 <= o < n ensures o in os {
      assert os[o - 1] == o;
    }
    os
  }

  // ---------------------------------------------------------------------------
  // Known requests (version 1) and book requests (version 2).
  // ---------------------------------------------------------------------------

  /** Opponent `o` shows rank `r` in `public_cards`, and, when `held` is
      given, shows exactly as many as complete a book with the `held` cards. */
  predicate Targets(pub: seq<map<Rank, int>>, o: nat, r: Rank, held: Option<int>) {
    && 1 <= o < |pub|
    && r in pub[o]
    && (held.Some? ==> pub[o][r] + held.value == 4)
  }

  /** The loop over `target_player_index` from `o`: the first opponent targeted for `r`. */
  function FirstTarget(pub: seq<map<Rank, int>>, r: Rank, held: Option<int>, o: nat): (t: Option<nat>)
    requires o >= 1
    ensures t.Some? ==> o <= t.value && Targets(pub, t.value, r, held)
    ensures t.Some? ==> forall j | o <= j < t.value :: !Targets(pub, j, r, held)
    ensures t.None? ==> forall j | o <= j :: !Targets(pub, j, r, held)
    decreases |pub| - o
  {
    if o >= |pub| then None
    else if Targets(pub, o, r, held) then Some(o)
    else FirstTarget(pub, r, held, o + 1)
  }

  /** Version 1's rule from hand position `i`: the position of the first hand
      card whose rank some opponent shows, with the first such opponent. */
  function KnownRequest(hand: seq<Card>, pub: seq<map<Rank, int>>, i: nat): (k: Option<(nat, nat)>)
    requires i <= |hand|
    ensures k.Some? ==> i <= k.value.0 < |hand|
    decreases |hand| - i
  {
    if i == |hand| then None
    else
      match FirstTarget(pub, hand[i].rank, None, 1)
      case Some(o) => Some((i, o))
      case None => KnownRequest(hand, pub, i + 1)
  }

  /** Version 1's rule asks for the first hand card, in iteration order, that
      some opponent shows the rank of, and of the first such opponent; it
      asks nothing exactly when no opponent shows a rank of the hand. */
  lemma {:induction false} KnownRequestIsFirst(hand: seq<Card>, pub: seq<map<Rank, int>>, i: nat)
    requires i <= |hand|
    ensures var k := KnownRequest(hand, pub, i);
      k.None? <==> forall j, o | i <= j < |hand| :: !Targets(pub, o, hand[j].rank, None)
    ensures var k := KnownRequest(hand, pub, i);
      k.Some? ==>
        && i <= k.value.0 < |hand|
        && Targets(pub, k.value.1, hand[k.value.0].rank, None)
        && (forall j, o | i <= j < k.value.0 :: !Targets(pub, o, hand[j].rank, None))
        && (forall o: nat | o < k.value.1 :: !Targets(pub, o, hand[k.value.0].rank, None))
    decreases |hand| - i
  {
    if i < |hand| && FirstTarget(pub, hand[i].rank, None, 1).None? {
      KnownRequestIsFirst(hand, pub, i + 1);
    }
  }

  /** The ranks in the order the model visits the keys of a rank map. */
  function RankOrder(): (rs: seq<Rank>)
    ensures |rs| == 13 && forall r: Rank :: rs[r] == r
    ensures forall r: Rank :: r in rs
  {
    var rs := seq(13, i requires 0 <= i < 13 => i);
    forall r: Rank ensures rs[r] == r && r in rs {
      assert rs[r] == r;
    }
    rs
  }

  /** Version 2's book rule over the ranks `rs`: the position in `rs` of the
      first rank of `hand_by_rank` that, with the cards some opponent shows,
      makes a book, and the first such opponent. */
  function BookRequest(byRank: map<Rank, int>, pub: seq<map<Rank, int>>, rs: seq<Rank>): (k: Option<(nat, nat)>)
    ensures k.Some? ==> k.value.0 < |rs|
  {
    if |rs| == 0 then None
    else
      var t := if rs[0] in byRank then FirstTarget(pub, rs[0], Some(byRank[rs[0]]), 1) else None;
      match t
      case Some(o) => Some((0, o))
      case None =>
        match BookRequest(byRank, pub, rs[1..])
        case Some((j, o)) => Some((j + 1, o))
        case None => None
  }

  /** Opponent `o` shows what completes a book of rank `r` held in `byRank`. */
  predicate Completes(byRank: map<Rank, int>, pub: seq<map<Rank, int>>, o: nat, r: Rank) {
    r in byRank && Targets(pub, o, r, Some(byRank[r]))
  }

  /** Version 2's book rule asks for the first rank of `rs` that completes a
      book with an opponent's shown cards, of the first such opponent; it
      asks nothing exactly when no rank does. */
  lemma {:induction false} BookRequestIsFirst(byRank: map<Rank, int>, pub: seq<map<Rank, int>>, rs: seq<Rank>)
    ensures var k := BookRequest(byRank, pub, rs);
      k.None? <==> forall j, o | 0 <= j < |rs| :: !Completes(byRank, pub, o, rs[j])
    ensures var k := BookRequest(byRank, pub, rs);
      k.Some? ==>
        && Completes(byRank, pub, k.value.1, rs[k.value.0])
        && (forall j, o | 0 <= j < k.value.0 :: !Completes(byRank, pub, o, rs[j]))
        && (forall o: nat | o < k.value.1 :: !Completes(byRank, pub, o, rs[k.value.0]))
    decreases |rs|
  {
    if |rs| > 0 {
      var t := if rs[0] in byRank then FirstTarget(pub, rs[0], Some(byRank[rs[0]]), 1) else None;
      assert forall o :: Completes(byRank, pub, o, rs[0]) ==> t.Some?;
      if t.None? {
        var tail := rs[1..];
        BookRequestIsFirst(byRank, pub, tail);
        var k' := BookRequest(byRank, pub, tail);
        if k'.None? {
          assert BookRequest(byRank, pub, rs) == None;
          forall j, o | 0 <= j < |rs| ensures !Completes(byRank, pub, o, rs[j]) {
            if j > 0 {
              assert rs[j] == tail[j - 1];
            }
          }
        } else {
          assert BookRequest(byRank, pub, rs) == Some((k'.value.0 + 1, k'.value.1));
          assert rs[k'.value.0 + 1] == tail[k'.value.0];
          assert Completes(byRank, pub, k'.value.1, rs[k'.value.0 + 1]);
          forall j, o | 0 <= j < k'.value.0 + 1 ensures !Completes(byRank, pub, o, rs[j]) {
            if j > 0 {
              assert rs[j] == tail[j - 1];
            }
          }
        }
      } else {
        assert Completes(byRank, pub, t.value, rs[0]);
      }
    }
  }

  // ---------------------------------------------------------------------------
  // Asking for the rank held most (version 2).
  // ---------------------------------------------------------------------------

  /** Every count is a key of `OrderedDict({3: [], 2: [], 1: []})`. */
  predicate Bucketable(counts: map<Rank, int>) {
    forall r | r in counts :: 1 <= counts[r] <= 3
  }

  /** The ranks of `rs` whose count is `q`, in order: one bucket of `..._by_quantity`. */
  function Bucket(counts: map<Rank, int>, q: int, rs: seq<Rank>): (b: seq<Rank>)
    ensures forall s: Rank :: s in b <==> s in rs && s in counts && counts[s] == q
  {
    if |rs| == 0 then []
    else (if rs[0] in counts && counts[rs[0]] == q then [rs[0]] else []) + Bucket(counts, q, rs[1..])
  }

  /** The count of the first non-empty bucket, visiting counts 3, 2, 1. */
  function Level(counts: map<Rank, int>): int {
    if Bucket(counts, 3, RankOrder()) != [] then 3
    else if Bucket(counts, 2, RankOrder()) != [] then 2
    else 1
  }

  /** The first non-empty bucket (or the empty last one). */
  function TopBucket(counts: map<Rank, int>): seq<Rank> {
    Bucket(counts, Level(counts), RankOrder())
  }

  /** One bucketing pass of version 2 over `counts`, with `n` entries in
      `public_cards`: a random rank of the first non-empty bucket, asked of a
      random opponent, or `None` when every bucket is empty. */
  function AskMost(counts: map<Rank, int>, n: nat, pickRank: nat, pickPlayer: nat): Result<Option<string>, AgentFault> {
    if !Bucketable(counts) then Err(UnknownQuantity)
    else
      var b := TopBucket(counts);
      if b == [] then Ok(None)
      else
        var rank :- Choose(b, pickRank);
        var o :- Choose(Opponents(n), pickPlayer);
        Ok(Some(Action(o, rank)))
  }

  /** A rank held most often. */
  ghost predicate MostHeld(counts: map<Rank, int>, r: Rank) {
    r in counts && forall s | s in counts :: counts[s] <= counts[r]
  }

  /** When no bucket above `q` is filled, a filled bucket `q` holds exactly
      the ranks held most often. */
  lemma BucketIsMostHeld(counts: map<Rank, int>, q: int, r: Rank)
    requires Bucketable(counts) && 1 <= q <= 3 && Bucket(counts, q, RankOrder()) != []
    requires q < 3 ==> Bucket(counts, 3, RankOrder()) == []
    requires q < 2 ==> Bucket(counts, 2, RankOrder()) == []
    ensures r in Bucket(counts, q, RankOrder()) <==> MostHeld(counts, r)
  {
    var t := Bucket(counts, q, RankOrder())[0];
    assert t in Bucket(counts, q, RankOrder());
    forall s | s in counts ensures counts[s] <= q {
      if counts[s] == 3 {
        assert s in Bucket(counts, 3, RankOrder());
      } else if counts[s] == 2 {
        assert s in Bucket(counts, 2, RankOrder());
      }
    }
  }

  /** The first non-empty bucket holds exactly the ranks held most often. */
  lemma TopBucketIsMostHeld(counts: map<Rank, int>)
    requires Bucketable(counts)
    ensures forall r: Rank :: r in TopBucket(counts) <==> MostHeld(counts, r)
  {
    var q := Level(counts);
    if Bucket(counts, q, RankOrder()) != [] {
      forall r: Rank ensures r in TopBucket(counts) <==> MostHeld(counts, r) {
        BucketIsMostHeld(counts, q, r);
      }
    }
  }

  /** Every bucket is empty only when the map is. */
  lemma TopBucketEmpty(counts: map<Rank, int>)
    requires Bucketable(counts)
    ensures TopBucket(counts) == [] <==> counts.Keys == {}
  {
    var q := Level(counts);
    if Bucket(counts, q, RankOrder()) != [] {
      var t := Bucket(counts, q, RankOrder())[0];
      assert t in Bucket(counts, q, RankOrder());
    }
  }

  /** A bucketing pass fails on a count outside 1 to 3; otherwise it asks
      nothing of an empty map, raises when there is no opponent, and else
      asks an opponent for a rank held most often. */
  lemma AskMostMeaning(counts: map<Rank, int>, n: nat, pickRank: nat, pickPlayer: nat)
    ensures AskMost(counts, n, pickRank, pickPlayer) == Err(UnknownQuantity) <==> !Bucketable(counts)
    ensures Bucketable(counts) ==> (AskMost(counts, n, pickRank, pickPlayer) == Ok(None) <==> counts.Keys == {})
    ensures Bucketable(counts) && counts.Keys != {} ==> (AskMost(counts, n, pickRank, pickPlayer).Ok? <==> n >= 2)
    ensures var a := AskMost(counts, n, pickRank, pickPlayer);
      a.Ok? && a.value.Some? ==> exists o: nat, r: Rank :: 1 <= o < n && MostHeld(counts, r) && a.value.value == Action(o, r)
  {
    if Bucketable(counts) {
      TopBucketIsMostHeld(counts);
      TopBucketEmpty(counts);
      var b := TopBucket(counts);
      if b != [] && n >= 2 {
        var rank := Choose(b, pickRank).value;
        var o := Choose(Opponents(n), pickPlayer).value;
        assert 1 <= o < n && MostHeld(counts, rank);
      }
    }
  }

  /** Every opponent and every rank held most often are asked for by some draws. */
  lemma AskMostReaches(counts: map<Rank, int>, n: nat, o: nat, r: Rank) returns (pickRank: nat, pickPlayer: nat)
    requires Bucketable(counts) && MostHeld(counts, r) && 1 <= o < n
    ensures AskMost(counts, n, pickRank, pickPlayer) == Ok(Some(Action(o, r)))
  {
    TopBucketIsMostHeld(counts);
    pickRank := ChooseReaches(TopBucket(counts), r);
    pickPlayer := ChooseReaches(Opponents(n), o);
  }

  // ---------------------------------------------------------------------------
  // Expected yields (version 3).
  // ---------------------------------------------------------------------------

  /** Python's `xs[i]` for a list of length `len`: a negative index counts from the end. */
  function PyIndex(len: nat, i: int): (k: Option<nat>)
    ensures k.Some? <==> -(len as int) <= i < len
    ensures k.Some? ==> k.value < len && (k.value == i || k.value == len + i)
  {
    if 0 <= i < len then Some(i)
    else if -(len as int) <= i < 0 then Some(len + i)
    else None
  }

  /** `players_rank_expected_values[int(a[0]) - 1][a[2]]`. */
  function Expected(ev: seq<map<Rank, real>>, a: string): (r: Result<real, AgentFault>)
  {
    if |a| == 0 || !IsDigit(a[0]) then Err(UnreadableAction)
    else
      match PyIndex(|ev|, DigitValue(a[0]) - 1)
      case None => Err(NoSuchPlayer)
      case Some(k) =>
        if |a| < 3 then Err(UnreadableAction)
        else
          match RankOfLetter(a[2])
          case None => Err(NoSuchRank)
          case Some(rank) => if rank in ev[k] then Ok(ev[k][rank]) else Err(NoSuchRank)
  }

  /** The expected yield of an action of the game. */
  lemma ExpectedOfAction(ev: seq<map<Rank, real>>, o: nat, r: Rank)
    requires 1 <= o <= |ev| && o < 10 && r in ev[o - 1]
    ensures Expected(ev, Action(o, r)) == Ok(ev[o - 1][r])
  {
    DecodeAction(o, r);
  }

  /** The expected yields of all legal actions, or the first error. */
  function Yields(ev: seq<map<Rank, real>>, legal: seq<string>): (r: Result<seq<real>, AgentFault>)
    ensures r.Ok? ==> |r.value| == |legal| && forall i | 0 <= i < |legal| :: Expected(ev, legal[i]) == Ok(r.value[i])
    ensures r.Err? ==> exists i | 0 <= i < |legal| :: Expected(ev, legal[i]).Err?
  {
    if |legal| == 0 then Ok([])
    else
      var y :- Expected(ev, legal[0]);
      var ys :- Yields(ev, legal[1..]);
      assert forall i | 1 <= i < |legal| :: legal[i] == legal[1..][i - 1];
      Ok([y] + ys)
  }

  /** The loop of version 3 from action `i`, with the best yield `top` seen
      so far and the actions `acc` attaining it. */
  function TopFrom(legal: seq<string>, ys: seq<real>, i: nat, top: real, acc: seq<string>): seq<string>
    requires |ys| == |legal| && i <= |legal|
    decreases |legal| - i
  {
    if i == |legal| then acc
    else
      var top', acc' := if ys[i] > top then ys[i] else top, if ys[i] > top then [] else acc;
      TopFrom(legal, ys, i + 1, top', if ys[i] == top' then acc' + [legal[i]] else acc')
  }

  /** The larger of `top` and every yield from `i` on. */
  function Peak(ys: seq<real>, i: nat, top: real): (m: real)
    requires i <= |ys|
    ensures m >= top
    decreases |ys| - i
  {
    if i == |ys| then top else Peak(ys, i + 1, if ys[i] > top then ys[i] else top)
  }

  /** The peak bounds every yield from `i` on and is `top` or one of them. */
  lemma {:induction false} PeakIsMax(ys: seq<real>, i: nat, top: real)
    requires i <= |ys|
    ensures forall j | i <= j < |ys| :: ys[j] <= Peak(ys, i, top)
    ensures Peak(ys, i, top) == top || exists j | i <= j < |ys| :: ys[j] == Peak(ys, i, top)
    decreases |ys| - i
  {
    if i < |ys| {
      PeakIsMax(ys, i + 1, if ys[i] > top then ys[i] else top);
    }
  }

  /** The actions from `i` on whose yield is `m`, in order. */
  function Attaining(legal: seq<string>, ys: seq<real>, i: nat, m: real): seq<string>
    requires |ys| == |legal| && i <= |legal|
    decreases |legal| - i
  {
    if i == |legal| then []
    else (if ys[i] == m then [legal[i]] else []) + Attaining(legal, ys, i + 1, m)
  }

  /** `Attaining` lists the actions from `i` on whose yield is `m`. */
  lemma {:induction false} AttainingMembers(legal: seq<string>, ys: seq<real>, i: nat, m: real)
    requires |ys| == |legal| && i <= |legal|
    ensures forall a :: a in Attaining(legal, ys, i, m) <==> exists j | i <= j < |legal| :: legal[j] == a && ys[j] == m
    decreases |legal| - i
  {
    if i < |legal| {
      AttainingMembers(legal, ys, i + 1, m);
    }
  }

  /** What the loop from `i` returns, by `TopFromAttains`. */
  ghost predicate Gathers(legal: seq<string>, ys: seq<real>, i: nat, top: real, acc: seq<string>)
    requires |ys| == |legal| && i <= |legal|
  {
    var m := Peak(ys, i, top);
    TopFrom(legal, ys, i, top, acc) == (if m == top then acc else []) + Attaining(legal, ys, i, m)
  }

  /** A yield above the best so far restarts the gathered list with its action. */
  lemma GathersAfterRise(legal: seq<string>, ys: seq<real>, i: nat, top: real, acc: seq<string>)
    requires |ys| == |legal| && i < |legal| && ys[i] > top
    requires Gathers(legal, ys, i + 1, ys[i], [legal[i]])
    ensures Gathers(legal, ys, i, top, acc)
  {
    var m := Peak(ys, i, top);
    var here := if ys[i] == m then [legal[i]] else [];
    var rest := Attaining(legal, ys, i + 1, m);
    assert Attaining(legal, ys, i, m) == here + rest;
    var x := [legal[i]];
    assert [] + x == x;
    assert TopFrom(legal, ys, i, top, acc) == TopFrom(legal, ys, i + 1, ys[i], x);
    assert m == Peak(ys, i + 1, ys[i]);
    assert m != top;
    assert [] + (here + rest) == here + rest;
  }

  /** A yield not above the best so far is gathered when it equals it. */
  lemma GathersAfterNoRise(legal: seq<string>, ys: seq<real>, i: nat, top: real, acc: seq<string>)
    requires |ys| == |legal| && i < |legal| && ys[i] <= top
    requires Gathers(legal, ys, i + 1, top, if ys[i] == top then acc + [legal[i]] else acc)
    ensures Gathers(legal, ys, i, top, acc)
  {
    var m := Peak(ys, i, top);
    var here := if ys[i] == m then [legal[i]] else [];
    var rest := Attaining(legal, ys, i + 1, m);
    assert Attaining(legal, ys, i, m) == here + rest;
    var acc' := if ys[i] == top then acc + [legal[i]] else acc;
    assert TopFrom(legal, ys, i, top, acc) == TopFrom(legal, ys, i + 1, top, acc');
    assert m == Peak(ys, i + 1, top);
    if m == top {
      assert acc' == acc + here;
      assert acc' + rest == acc + (here + rest);
    } else {
      assert here == [];
      assert [] + (here + rest) == [] + rest;
    }
  }

  /** The loop keeps what it has gathered when nothing later beats `top`,
      and otherwise keeps exactly the later actions attaining the best yield. */
  lemma {:induction false} TopFromAttains(legal: seq<string>, ys: seq<real>, i: nat, top: real, acc: seq<string>)
    requires |ys| == |legal| && i <= |legal|
    ensures var m := Peak(ys, i, top);
      TopFrom(legal, ys, i, top, acc) == (if m == top then acc else []) + Attaining(legal, ys, i, m)
    decreases |legal| - i
  {
    if i < |legal| {
      if ys[i] > top {
        TopFromAttains(legal, ys, i + 1, ys[i], [legal[i]]);
        GathersAfterRise(legal, ys, i, top, acc);
      } else {
        TopFromAttains(legal, ys, i + 1, top, if ys[i] == top then acc + [legal[i]] else acc);
        GathersAfterNoRise(legal, ys, i, top, acc);
      }
    }
  }

  /** `top_actions`: the legal actions whose yield is the best one, or zero
      when every yield is lower, in their order. */
  function TopActions(legal: seq<string>, ys: seq<real>): (s: seq<string>)
    requires |ys| == |legal|
  {
    TopFrom(legal, ys, 0, 0.0, [])
  }

  /** The best yield counted by version 3: the largest yield, or zero. */
  ghost predicate IsBest(ys: seq<real>, m: real) {
    && m >= 0.0
    && (forall j | 0 <= j < |ys| :: ys[j] <= m)
    && (m == 0.0 || exists j | 0 <= j < |ys| :: ys[j] == m)
  }

  /** `top_actions` holds exactly the legal actions of the best yield. */
  lemma TopActionsAttainBest(legal: seq<string>, ys: seq<real>)
    requires |ys| == |legal|
    ensures IsBest(ys, Peak(ys, 0, 0.0))
    ensures forall a :: a in TopActions(legal, ys) <==>
      exists j | 0 <= j < |legal| :: legal[j] == a && ys[j] == Peak(ys, 0, 0.0)
  {
    TopFromAttains(legal, ys, 0, 0.0, []);
    PeakIsMax(ys, 0, 0.0);
    AttainingMembers(legal, ys, 0, Peak(ys, 0, 0.0));
    assert [] + Attaining(legal, ys, 0, Peak(ys, 0, 0.0)) == Attaining(legal, ys, 0, Peak(ys, 0, 0.0));
  }

  // ---------------------------------------------------------------------------
  // The three agents.
  // ---------------------------------------------------------------------------

  /** `GoFishRuleAgentV1.step`. */
  function StepV1(v: View, pick: nat): Result<string, AgentFault> {
    match KnownRequest(v.hand, v.publicCounts, 0)
    case Some((i, o)) => Ok(Action(o, v.hand[i].rank))
    case None => Choose(v.legal, pick)
  }

  /** `GoFishRuleAgentV2.step`. */
  function StepV2(v: View, pickRank: nat, pickPlayer: nat): Result<string, AgentFault> {
    var n := |v.publicCounts|;
    match BookRequest(v.handByRank, v.publicCounts, RankOrder())
    case Some((j, o)) => Ok(Action(o, RankOrder()[j]))
    case None =>
      if n == 0 then Err(NoSuchPlayer)
      else
        var shown :- AskMost(v.publicCounts[0], n, pickRank, pickPlayer);
        if shown.Some? then Ok(shown.value)
        else
          var held :- AskMost(v.handByRank, n, pickRank, pickPlayer);
          if held.Some? then Ok(held.value) else Err(NothingToAsk)
  }

  /** `GoFishRuleAgentV3.step`. */
  function StepV3(v: View, pick: nat): Result<string, AgentFault> {
    var ys :- Yields(v.expected, v.legal);
    Choose(TopActions(v.legal, ys), pick)
  }

  /** Version 1 asks for the first hand card that an opponent shows the rank
      of, of the first such opponent; when there is none, it answers a random
      legal action, any of which some draw gives, and raises only when there
      is no legal action. */
  lemma StepV1Meaning(v: View, pick: nat)
    ensures var k := KnownRequest(v.hand, v.publicCounts, 0);
      k.Some? ==> exists i, o | 0 <= i < |v.hand| ::
        && StepV1(v, pick) == Ok(Action(o, v.hand[i].rank))
        && Targets(v.publicCounts, o, v.hand[i].rank, None)
        && (forall j, p | 0 <= j < i :: !Targets(v.publicCounts, p, v.hand[j].rank, None))
        && (forall p: nat | p < o :: !Targets(v.publicCounts, p, v.hand[i].rank, None))
    ensures (forall j, o | 0 <= j < |v.hand| :: !Targets(v.publicCounts, o, v.hand[j].rank, None)) ==>
      && (StepV1(v, pick).Ok? <==> |v.legal| > 0)
      && (StepV1(v, pick).Ok? ==> StepV1(v, pick).value in v.legal)
      && (forall a | a in v.legal :: exists p: nat :: StepV1(v, p) == Ok(a))
  {
    KnownRequestIsFirst(v.hand, v.publicCounts, 0);
    if KnownRequest(v.hand, v.publicCounts, 0).None? {
      forall a | a in v.legal ensures exists p: nat :: StepV1(v, p) == Ok(a) {
        var p := ChooseReaches(v.legal, a);
        assert StepV1(v, p) == Ok(a);
      }
    }
  }

  /** Asking an opponent for a rank of the hand is legal. */
  lemma AskedIsLegal(hand: set<Card>, n: nat, o: nat, r: Rank)
    requires 0 < o < n && CardsOfRank(hand, r) != {}
    ensures Action(o, r) in LegalActions(hand, n)
  {
    LegalActionsMembers(hand, n);
  }

  /** When the legal actions are those of a hand holding every card the
      agent iterates over, among at least as many players as `public_cards`
      lists, version 1 answers a legal action, and fails only when the hand
      is empty or there is no opponent. */
  lemma StepV1IsLegal(v: View, hand: set<Card>, n: nat, pick: nat)
    requires v.legal == LegalActions(hand, n) && |v.publicCounts| <= n
    requires forall i | 0 <= i < |v.hand| :: v.hand[i] in hand
    ensures StepV1(v, pick).Ok? ==> StepV1(v, pick).value in v.legal
    ensures StepV1(v, pick).Ok? <==> hand != {} && n >= 2
  {
    var k := KnownRequest(v.hand, v.publicCounts, 0);
    if k.Some? {
      var i, o := k.value.0, k.value.1;
      var r := v.hand[i].rank;
      KnownRequestIsFirst(v.hand, v.publicCounts, 0);
      assert Targets(v.publicCounts, o, r, None);
      assert v.hand[i] in CardsOfRank(hand, r);
      AskedIsLegal(hand, n, o, r);
      assert StepV1(v, pick) == Ok(Action(o, r));
    } else if hand == {} {
      LegalActionsEmpty(hand, n);
    } else if n < 2 {
      LegalFromSize(HandRanks(hand), 0, n);
    } else {
      var c :| c in hand;
      assert c in CardsOfRank(hand, c.rank);
      AskedIsLegal(hand, n, 1, c.rank);
    }
  }

  /** Version 2 asks for the lowest rank that completes a book with the
      cards an opponent shows, of the first such opponent. */
  lemma StepV2Book(v: View, pickRank: nat, pickPlayer: nat)
    ensures var k := BookRequest(v.handByRank, v.publicCounts, RankOrder());
      k.None? <==> forall r: Rank, o :: !Completes(v.handByRank, v.publicCounts, o, r)
    ensures var k := BookRequest(v.handByRank, v.publicCounts, RankOrder());
      k.Some? ==> exists r: Rank, o: nat ::
        && StepV2(v, pickRank, pickPlayer) == Ok(Action(o, r))
        && Completes(v.handByRank, v.publicCounts, o, r)
        && (forall s: Rank, p | s < r :: !Completes(v.handByRank, v.publicCounts, p, s))
        && (forall p: nat | p < o :: !Completes(v.handByRank, v.publicCounts, p, r))
  {
    var rs := RankOrder();
    BookRequestIsFirst(v.handByRank, v.publicCounts, rs);
    var k := BookRequest(v.handByRank, v.publicCounts, rs);
    if k.None? {
      forall r: Rank, o ensures !Completes(v.handByRank, v.publicCounts, o, r) {
        assert rs[r] == r;
      }
    } else {
      var j, o := k.value.0, k.value.1;
      var r: Rank := rs[j];
      assert r == j;
      assert Completes(v.handByRank, v.publicCounts, o, r);
      forall s: Rank, p | s < r ensures !Completes(v.handByRank, v.publicCounts, p, s) {
        assert rs[s] == s;
      }
      assert StepV2(v, pickRank, pickPlayer) == Ok(Action(o, r));
    }
  }

  /** Without a book to complete, version 2 asks a random opponent for a
      rank it shows most of, or, showing none, for a rank it holds most of;
      with nothing shown or held it raises. */
  lemma StepV2Most(v: View, pickRank: nat, pickPlayer: nat)
    requires BookRequest(v.handByRank, v.publicCounts, RankOrder()).None?
    ensures var a := StepV2(v, pickRank, pickPlayer);
      var n := |v.publicCounts|;
      a.Ok? ==>
        && n >= 2
        && Bucketable(v.publicCounts[0])
        && (v.publicCounts[0].Keys == {} ==> Bucketable(v.handByRank))
        && (exists o: nat, r: Rank :: 1 <= o < n && a.value == Action(o, r) &&
              (MostHeld(v.publicCounts[0], r) || (v.publicCounts[0].Keys == {} && MostHeld(v.handByRank, r))))
    ensures var n := |v.publicCounts|;
      n > 0 && Bucketable(v.publicCounts[0]) && Bucketable(v.handByRank) ==>
        (StepV2(v, pickRank, pickPlayer) == Err(NothingToAsk) <==> v.publicCounts[0].Keys == {} && v.handByRank.Keys == {})
  {
    var n := |v.publicCounts|;
    if n > 0 {
      AskMostMeaning(v.publicCounts[0], n, pickRank, pickPlayer);
      AskMostMeaning(v.handByRank, n, pickRank, pickPlayer);
    }
  }

  /** When every rank `hand_by_rank` counts as held and every rank the
      player shows are in its hand, no opponent shows a whole book, and there
      are at least as many players as `public_cards` lists, version 2 answers
      a legal action. */
  lemma StepV2IsLegal(v: View, hand: set<Card>, n: nat, pickRank: nat, pickPlayer: nat)
    requires v.legal == LegalActions(hand, n) && |v.publicCounts| <= n
    requires forall r | r in v.handByRank && v.handByRank[r] > 0 :: CardsOfRank(hand, r) != {}
    requires |v.publicCounts| > 0 ==> forall r | r in v.publicCounts[0] :: CardsOfRank(hand, r) != {}
    requires forall o, r | 1 <= o < |v.publicCounts| && r in v.publicCounts[o] :: v.publicCounts[o][r] < 4
    ensures StepV2(v, pickRank, pickPlayer).Ok? ==> StepV2(v, pickRank, pickPlayer).value in v.legal
  {
    if BookRequest(v.handByRank, v.publicCounts, RankOrder()).Some? {
      BookAskIsLegal(v, hand, n, pickRank, pickPlayer);
    } else {
      MostAskIsLegal(v, hand, n, pickRank, pickPlayer);
    }
  }

  /** A book request of version 2 is legal. */
  lemma BookAskIsLegal(v: View, hand: set<Card>, n: nat, pickRank: nat, pickPlayer: nat)
    requires v.legal == LegalActions(hand, n) && |v.publicCounts| <= n
    requires forall r | r in v.handByRank && v.handByRank[r] > 0 :: CardsOfRank(hand, r) != {}
    requires forall o, r | 1 <= o < |v.publicCounts| && r in v.publicCounts[o] :: v.publicCounts[o][r] < 4
    requires BookRequest(v.handByRank, v.publicCounts, RankOrder()).Some?
    ensures StepV2(v, pickRank, pickPlayer).Ok? && StepV2(v, pickRank, pickPlayer).value in v.legal
  {
    var pub := v.publicCounts;
    var rs := RankOrder();
    BookRequestIsFirst(v.handByRank, pub, rs);
    var k := BookRequest(v.handByRank, pub, rs).value;
    var r, o := rs[k.0], k.1;
    assert StepV2(v, pickRank, pickPlayer) == Ok(Action(o, r));
    assert Completes(v.handByRank, pub, o, r) && pub[o][r] < 4;
    AskedIsLegal(hand, n, o, r);
  }

  /** A request of version 2 for a rank shown or held most is legal. */
  lemma MostAskIsLegal(v: View, hand: set<Card>, n: nat, pickRank: nat, pickPlayer: nat)
    requires v.legal == LegalActions(hand, n) && |v.publicCounts| <= n
    requires forall r | r in v.handByRank && v.handByRank[r] > 0 :: CardsOfRank(hand, r) != {}
    requires |v.publicCounts| > 0 ==> forall r | r in v.publicCounts[0] :: CardsOfRank(hand, r) != {}
    requires BookRequest(v.handByRank, v.publicCounts, RankOrder()).None?
    ensures StepV2(v, pickRank, pickPlayer).Ok? ==> StepV2(v, pickRank, pickPlayer).value in v.legal
  {
    var pub := v.publicCounts;
    var a := StepV2(v, pickRank, pickPlayer);
    if a.Ok? {
      StepV2Most(v, pickRank, pickPlayer);
      var o: nat, r: Rank :| 1 <= o < |pub| && a.value == Action(o, r) &&
        (MostHeld(pub[0], r) || (pub[0].Keys == {} && MostHeld(v.handByRank, r)));
      if !MostHeld(pub[0], r) {
        assert v.handByRank[r] > 0;
      }
      AskedIsLegal(hand, n, o, r);
    }
  }

  /** Version 3 answers an action of the best yield, where yields below
      zero never count; any such action is the answer for some draw; it
      raises when a yield cannot be read, or when no legal action reaches
      the best yield. */
  lemma StepV3Meaning(v: View, pick: nat)
    ensures Yields(v.expected, v.legal).Err? ==> StepV3(v, pick).Err?
    ensures var y := Yields(v.expected, v.legal);
      y.Ok? ==>
        && IsBest(y.value, Peak(y.value, 0, 0.0))
        && (StepV3(v, pick).Ok? <==> exists j | 0 <= j < |v.legal| :: y.value[j] == Peak(y.value, 0, 0.0))
        && (StepV3(v, pick).Ok? ==>
              StepV3(v, pick).value in v.legal && Expected(v.expected, StepV3(v, pick).value) == Ok(Peak(y.value, 0, 0.0)))
        && (forall j | 0 <= j < |v.legal| && y.value[j] == Peak(y.value, 0, 0.0) ::
              exists p: nat :: StepV3(v, p) == Ok(v.legal[j]))
  {
    var y := Yields(v.expected, v.legal);
    if y.Ok? {
      var ys := y.value;
      var m := Peak(ys, 0, 0.0);
      TopActionsAttainBest(v.legal, ys);
      var top := TopActions(v.legal, ys);
      if StepV3(v, pick).Ok? {
        var a := StepV3(v, pick).value;
        assert a in top;
        var j :| 0 <= j < |v.legal| && v.legal[j] == a && ys[j] == m;
      }
      forall j | 0 <= j < |v.legal| && ys[j] == m ensures exists p: nat :: StepV3(v, p) == Ok(v.legal[j]) {
        var p := ChooseReaches(top, v.legal[j]);
        assert StepV3(v, p) == Ok(v.legal[j]);
      }
    }
  }
}
