/** What the Go Fish knowledge tracker keeps true, and why none of its
    failure paths is reachable from a well-formed player.

    `Coherent` is the invariant that holds at every call inside the reveal
    cascade; `Valid` adds that the counts by rank are right, that the
    knowledge sets mention only concealed cards and that completed books are
    out of play, which holds between the public operations. */
module FishKnowledge {
  import opened Results
  import opened Cards
  import opened FishPlayer

  // ---------------------------------------------------------------------------
  // Invariants
  // ---------------------------------------------------------------------------

  /** The hand is the concealed cards plus the public buckets; each bucket is
      non-empty and holds shown cards of its own rank. */
  ghost predicate HandSplit(p: Player) {
    && p.concealed <= p.hand
    && (forall r, c | r in p.publicCards && c in p.publicCards[r] :: c.rank == r && c in p.hand && c !in p.concealed)
    && (forall c | c in p.hand && c !in p.concealed :: IsPublic(p, c))
    && (forall r | r in p.publicCards :: p.publicCards[r] != {})
  }

  /** `counts` counts `hand` by rank; an entry may linger at zero. */
  ghost predicate CountsMatch(hand: set<Card>, counts: map<Rank, int>) {
    forall r: Rank {:trigger CountOf(counts, r)} :: CountOf(counts, r) == |CardsOfRank(hand, r)|
  }

  /** `hand_by_rank` counts the hand by rank. */
  ghost predicate Counted(p: Player) {
    CountsMatch(p.hand, p.handByRank)
  }

  /** Only ranks still in play appear in the hand and in the knowledge maps. */
  ghost predicate InPlay(p: Player) {
    && (forall c | c in p.hand :: c.rank in p.remaining)
    && p.publicCards.Keys <= p.remaining
    && p.possible.Keys <= p.remaining
    && p.notPossible.Keys <= p.remaining
  }

  /** The public knowledge is true: every possible set of rank `r` holds a
      concealed card of rank `r`, and no not-possible set of rank `r` holds one. */
  ghost predicate Sound(p: Player) {
    && (forall r | r in p.possible :: CardsOfRank(p.possible[r] * p.concealed, r) != {})
    && (forall r | r in p.notPossible :: CardsOfRank(p.notPossible[r], r) == {})
  }

  /** The invariant at every step of the reveal cascade, which never changes
      the hand, its counts or the ranks in play. */
  ghost predicate Coherent(p: Player) {
    HandSplit(p) && InPlay(p) && Sound(p)
  }

  /** The knowledge sets mention only concealed cards, apart from `stale` ones
      that have left the hand and are still to be cleaned up. */
  ghost predicate TidyExcept(p: Player, stale: set<Card>) {
    && (forall r | r in p.possible :: p.possible[r] <= p.concealed + stale)
    && (forall r | r in p.notPossible :: p.notPossible[r] <= p.concealed + stale)
  }

  /** The invariant between public operations. */
  ghost predicate Valid(p: Player) {
    Coherent(p) && Counted(p) && TidyExcept(p, {}) && p.books !! p.remaining
  }

  /** Rank `r` has a possible set or public cards: what makes a repeated request for it a no-op. */
  predicate Known(p: Player, r: Rank) {
    r in p.possible || r in p.publicCards
  }

  ghost predicate KnownKept(p: Player, q: Player) {
    forall r | Known(p, r) :: Known(q, r)
  }

  /** While a card stays concealed, what is known about the ranks it is not is never forgotten. */
  ghost predicate NotKept(p: Player, q: Player) {
    forall k, c | k in p.notPossible && c in p.notPossible[k] && c in q.concealed ::
      k in q.notPossible && c in q.notPossible[k]
  }

  /** What a step of the reveal cascade guarantees beyond `Grows`. */
  ghost predicate Kept(p: Player, q: Player, stale: set<Card>) {
    && Coherent(q) && KnownKept(p, q) && NotKept(p, q)
    && (TidyExcept(p, stale) ==> TidyExcept(q, stale))
  }

  // ---------------------------------------------------------------------------
  // Small facts
  // ---------------------------------------------------------------------------

  lemma SingletonMembers<T>(s: set<T>, a: T, b: T)
    requires |s| == 1 && a in s && b in s
    ensures a == b
  {
    if a != b {
      assert {a, b} <= s;
      SubsetSize({a, b}, s);
    }
  }

  /** The set of ranks of some cards is no larger than the set of cards. */
  lemma {:induction false} RanksSize(w: set<Card>)
    ensures |set c | c in w :: c.rank| <= |w|
    decreases w
  {
    if w != {} {
      var x :| x in w;
      RanksSize(w - {x});
      assert (set c | c in w :: c.rank) <= (set c | c in w - {x} :: c.rank) + {x.rank};
      SubsetSize(set c | c in w :: c.rank, (set c | c in w - {x} :: c.rank) + {x.rank});
    }
  }

  // ---------------------------------------------------------------------------
  // The two deduction rules are sound
  // ---------------------------------------------------------------------------

  /** First rule: a concealed card with one candidate rank is of that rank. */
  lemma EliminationIsSound(p: Player, c: Card)
    requires Coherent(p) && c in Eliminated(p)
    ensures Candidates(p, c) == {c.rank}
  {
    if c.rank in p.notPossible {
      assert c !in CardsOfRank(p.notPossible[c.rank], c.rank);
    }
    assert c.rank in Candidates(p, c);
    forall r | r in Candidates(p, c) ensures r == c.rank {
      SingletonMembers(Candidates(p, c), r, c.rank);
    }
  }

  /** Second rule: when k ranks share a possible set of k cards, those cards
      are all concealed and each is of one of those ranks (a pigeonhole). */
  lemma MatchingPoolIsSound(p: Player, r: Rank)
    requires Sound(p) && r in p.possible
    requires |SameSets(p, p.possible[r])| >= |p.possible[r]|
    ensures p.possible[r] <= p.concealed
    ensures forall c | c in p.possible[r] :: c.rank in SameSets(p, p.possible[r])
  {
    var s := p.possible[r];
    var ranks := SameSets(p, s);
    var w := set c | c in s && c in p.concealed && c.rank in ranks;
    forall k | k in ranks ensures k in (set c | c in w :: c.rank) {
      var x :| x in CardsOfRank(p.possible[k] * p.concealed, k);
      assert x in w;
    }
    SubsetSize(ranks, set c | c in w :: c.rank);
    RanksSize(w);
    SubsetSize(w, s);
  }

  /** Under the invariant a pass of the fixpoint never raises, and everything
      it selects is concealed. */
  lemma ToRevealIsSafe(p: Player)
    requires Coherent(p)
    ensures ToReveal(p).Ok? && ToReveal(p).value <= p.concealed
  {
    forall r | r in p.possible ensures p.possible[r] != {} {
      assert CardsOfRank(p.possible[r] * p.concealed, r) != {};
    }
    forall c | c in Pooled(p) ensures c in p.concealed {
      var r :| r in p.possible && c in p.possible[r] && |SameSets(p, p.possible[r])| >= |p.possible[r]|;
      MatchingPoolIsSound(p, r);
    }
  }

  // ---------------------------------------------------------------------------
  // The reveal cascade keeps the invariant and never fails
  // ---------------------------------------------------------------------------

  lemma ExposedKeeps(p: Player, c: Card, stale: set<Card>)
    requires Coherent(p) && c in p.concealed
    ensures Coherent(Exposed(p, c)) && KnownKept(p, Exposed(p, c)) && NotKept(p, Exposed(p, c))
    ensures TidyExcept(p, stale) ==> TidyExcept(Exposed(p, c), stale + {c})
  {
    ExposedSplit(p, c);
    ExposedIsSound(p, c);
  }

  lemma ExposedSplit(p: Player, c: Card)
    requires HandSplit(p) && InPlay(p) && c in p.concealed
    ensures HandSplit(Exposed(p, c)) && InPlay(Exposed(p, c))
  {
    var e := Exposed(p, c);
    forall x | x in e.hand && x !in e.concealed ensures IsPublic(e, x) {
      if x != c {
        assert IsPublic(p, x);
      }
    }
  }

  lemma ExposedIsSound(p: Player, c: Card)
    requires Sound(p) && c in p.concealed
    ensures Sound(Exposed(p, c))
  {
    var e := Exposed(p, c);
    forall r | r in e.possible ensures CardsOfRank(e.possible[r] * e.concealed, r) != {} {
      var w :| w in CardsOfRank(p.possible[r] * p.concealed, r);
      assert w != c;
      assert w in CardsOfRank(e.possible[r] * e.concealed, r);
    }
  }

  lemma PrunedKeeps(p: Player, c: Card, stale: set<Card>)
    requires Coherent(p) && c !in p.concealed
    ensures Coherent(Pruned(p, c)) && NotKept(p, Pruned(p, c))
    ensures TidyExcept(p, stale) ==> TidyExcept(Pruned(p, c), stale - {c})
    ensures Singles(p, c) <= p.concealed
    ensures forall r | r in p.possible && r !in Pruned(p, c).possible :: CardsOfRank(Singles(p, c), r) != {}
  {
    PrunedSplit(p, c);
    PrunedIsSound(p, c);
    PrunedNotKept(p, c);
    if TidyExcept(p, stale) {
      PrunedTidy(p, c, stale);
    }
    SinglesAreConcealed(p, c);
    SinglesCoverDropped(p, c);
  }

  lemma PrunedSplit(p: Player, c: Card)
    requires HandSplit(p) && InPlay(p)
    ensures HandSplit(Pruned(p, c)) && InPlay(Pruned(p, c))
  {
  }

  lemma PrunedTidy(p: Player, c: Card, stale: set<Card>)
    requires TidyExcept(p, stale)
    ensures TidyExcept(Pruned(p, c), stale - {c})
  {
  }

  lemma PrunedIsSound(p: Player, c: Card)
    requires Sound(p) && c !in p.concealed
    ensures Sound(Pruned(p, c))
  {
    var q := Pruned(p, c);
    forall r | r in q.possible ensures CardsOfRank(q.possible[r] * q.concealed, r) != {} {
      var w :| w in CardsOfRank(p.possible[r] * p.concealed, r);
      assert w in CardsOfRank(q.possible[r] * q.concealed, r);
    }
  }

  lemma PrunedNotKept(p: Player, c: Card)
    requires c !in p.concealed
    ensures NotKept(p, Pruned(p, c))
  {
    var q := Pruned(p, c);
    forall k, x | k in p.notPossible && x in p.notPossible[k] && x in q.concealed
      ensures k in q.notPossible && x in q.notPossible[k]
    {
      assert x in p.notPossible[k] - {c};
    }
  }

  lemma SinglesAreConcealed(p: Player, c: Card)
    requires Sound(p) && c !in p.concealed
    ensures Singles(p, c) <= p.concealed
  {
    forall x | x in Singles(p, c) ensures x in p.concealed {
      var r :| r in p.possible && x in p.possible[r] - {c} && |p.possible[r] - {c}| == 1;
      var w :| w in CardsOfRank(p.possible[r] * p.concealed, r);
      SingletonMembers(p.possible[r] - {c}, w, x);
    }
  }

  lemma SinglesCoverDropped(p: Player, c: Card)
    requires Sound(p) && c !in p.concealed
    ensures forall r | r in p.possible && r !in Pruned(p, c).possible :: CardsOfRank(Singles(p, c), r) != {}
  {
    forall r | r in p.possible && r !in Pruned(p, c).possible ensures CardsOfRank(Singles(p, c), r) != {} {
      var w :| w in CardsOfRank(p.possible[r] * p.concealed, r);
      assert w in p.possible[r] - {c};
      assert w in Singles(p, c);
    }
  }

  lemma NotKeptTrans(p: Player, q: Player, u: Player)
    requires NotKept(p, q) && NotKept(q, u) && u.concealed <= q.concealed
    ensures NotKept(p, u)
  {
  }

  lemma ChainKept(p: Player, q: Player, u: Player)
    requires KnownKept(p, q) && KnownKept(q, u) && u.concealed <= q.concealed
    requires NotKept(p, q) && NotKept(q, u)
    ensures KnownKept(p, u) && NotKept(p, u)
  {
  }

  lemma KeptRefl(p: Player, stale: set<Card>)
    requires Coherent(p)
    ensures Kept(p, p, stale)
  {
  }

  lemma KeptTrans(p: Player, q: Player, u: Player, stale: set<Card>)
    requires Grows(q, u) && Kept(p, q, stale) && Kept(q, u, stale)
    ensures Kept(p, u, stale)
  {
    ChainKept(p, q, u);
  }

  /** A larger allowance of stale cards is a weaker requirement. */
  lemma TidyMonotone(p: Player, s: set<Card>, t: set<Card>)
    requires TidyExcept(p, s) && s <= t
    ensures TidyExcept(p, t)
  {
  }

  /** If `s[0]` is public in `q`, the rest of `s` is public in `u`, and `u`
      grew from `q`, all of `s` is public in `u`. */
  lemma AllPublic(q: Player, u: Player, s: seq<Card>)
    requires |s| > 0 && IsPublic(q, s[0]) && Grows(q, u)
    requires forall x | x in s[1..] :: IsPublic(u, x)
    ensures forall x | x in s :: IsPublic(u, x)
  {
    forall x | x in s ensures IsPublic(u, x) {
      if x != s[0] {
        assert x in s[1..];
      }
    }
  }

  /** `reveal_card` on a concealed card never fails, makes the card public and
      keeps the invariant and everything known. */
  lemma RevealCardKeeps(p: Player, c: Card, stale: set<Card>)
    requires Coherent(p) && c in p.concealed
    ensures RevealCard(p, c).Ok?
    ensures Kept(p, RevealCard(p, c).value, stale) && IsPublic(RevealCard(p, c).value, c)
    decreases |p.concealed|, 4
  {
    RevealBareKeeps(p, c, stale);
    var q := RevealBare(p, c).value;
    SettleKeeps(q, stale);
    KeptTrans(p, q, Settle(q).value, stale);
  }

  lemma RevealBareKeeps(p: Player, c: Card, stale: set<Card>)
    requires Coherent(p) && c in p.concealed
    ensures RevealBare(p, c).Ok?
    ensures Kept(p, RevealBare(p, c).value, stale) && IsPublic(RevealBare(p, c).value, c)
    decreases |p.concealed|, 1
  {
    var e := Exposed(p, c);
    ExposedKeeps(p, c, stale);
    CleanUpCardKeeps(e, c, stale + {c});
    var u := CleanUpCard(e, c).value;
    assert RevealBare(p, c) == Ok(u);
    ChainKept(p, e, u);
    if TidyExcept(p, stale) {
      TidyMonotone(u, stale + {c} - {c}, stale);
    }
  }

  /** `_clean_up_card` after a card left the concealed set never fails, keeps
      the invariant and everything known, and the card is no longer stale. */
  lemma CleanUpCardKeeps(p: Player, c: Card, stale: set<Card>)
    requires Coherent(p) && c !in p.concealed
    ensures CleanUpCard(p, c).Ok?
    ensures Coherent(CleanUpCard(p, c).value)
    ensures KnownKept(p, CleanUpCard(p, c).value) && NotKept(p, CleanUpCard(p, c).value)
    ensures TidyExcept(p, stale) ==> TidyExcept(CleanUpCard(p, c).value, stale - {c})
    decreases |p.concealed|, 6
  {
    var q := Pruned(p, c);
    var queue := Ordered(Singles(p, c));
    PrunedKeeps(p, c, stale);
    RevealQueueKeeps(q, queue, stale - {c});
    var u := RevealQueue(q, queue).value;
    assert CleanUpCard(p, c) == Ok(u);
    forall r | Known(p, r) ensures Known(u, r) {
      if r in p.publicCards || r in q.possible {
        assert Known(q, r);
      } else {
        var x :| x in CardsOfRank(Singles(p, c), r);
        assert x in queue;
      }
    }
    NotKeptTrans(p, q, u);
  }

  lemma RevealQueueKeeps(p: Player, queue: seq<Card>, stale: set<Card>)
    requires Coherent(p) && forall x | x in queue :: x in p.hand
    ensures RevealQueue(p, queue).Ok? && Kept(p, RevealQueue(p, queue).value, stale)
    ensures forall x | x in queue :: IsPublic(RevealQueue(p, queue).value, x)
    decreases |p.concealed|, 5, |queue|
  {
    if |queue| == 0 {
      KeptRefl(p, stale);
    } else {
      var x := queue[0];
      var q := p;
      if !IsPublic(p, x) {
        RevealCardKeeps(p, x, stale);
        q := RevealCard(p, x).value;
      } else {
        KeptRefl(p, stale);
      }
      RevealQueueKeeps(q, queue[1..], stale);
      var u := RevealQueue(q, queue[1..]).value;
      KeptTrans(p, q, u, stale);
      AllPublic(q, u, queue);
    }
  }

  lemma RevealBatchKeeps(p: Player, batch: seq<Card>, stale: set<Card>)
    requires Coherent(p) && forall x | x in batch :: x in p.hand
    ensures RevealBatch(p, batch).Ok? && Kept(p, RevealBatch(p, batch).value, stale)
    ensures forall x | x in batch :: IsPublic(RevealBatch(p, batch).value, x)
    decreases |p.concealed|, 2, |batch|
  {
    if |batch| == 0 {
      KeptRefl(p, stale);
    } else {
      var x := batch[0];
      if IsPublic(p, x) {
        RevealBatchKeeps(p, batch[1..], stale);
        AllPublic(p, RevealBatch(p, batch[1..]).value, batch);
      } else {
        RevealBatchHidden(p, batch, stale);
      }
    }
  }

  /** The step of `RevealBatchKeeps` whose first card is still to be revealed. */
  lemma RevealBatchHidden(p: Player, batch: seq<Card>, stale: set<Card>)
    requires Coherent(p) && forall x | x in batch :: x in p.hand
    requires |batch| > 0 && !IsPublic(p, batch[0])
    ensures RevealBatch(p, batch).Ok? && Kept(p, RevealBatch(p, batch).value, stale)
    ensures forall x | x in batch :: IsPublic(RevealBatch(p, batch).value, x)
    decreases |p.concealed|, 2, |batch|, 0
  {
    var x := batch[0];
    RevealBareKeeps(p, x, stale);
    var q := RevealBare(p, x).value;
    RevealBatchKeeps(q, batch[1..], stale);
    var u := RevealBatch(q, batch[1..]).value;
    KeptTrans(p, q, u, stale);
    AllPublic(q, u, batch);
  }

  /** The fixpoint terminates without failing and keeps the invariant. */
  lemma SettleKeeps(p: Player, stale: set<Card>)
    requires Coherent(p)
    ensures Settle(p).Ok? && Kept(p, Settle(p).value, stale)
    decreases |p.concealed|, 3, 1
  {
    ToRevealIsSafe(p);
    if ToReveal(p).value == {} {
      KeptRefl(p, stale);
    } else {
      PassMakesProgress(p, stale);
      var q := RevealBatch(p, Ordered(ToReveal(p).value)).value;
      SettleKeeps(q, stale);
      KeptTrans(p, q, Settle(q).value, stale);
    }
  }

  /** A pass that selects cards reveals at least one still-concealed card, so
      the fixpoint never spins without progress. */
  lemma PassMakesProgress(p: Player, stale: set<Card>)
    requires Coherent(p) && ToReveal(p).Ok? && ToReveal(p).value != {}
    ensures RevealBatch(p, Ordered(ToReveal(p).value)).Ok?
    ensures Kept(p, RevealBatch(p, Ordered(ToReveal(p).value)).value, stale)
    ensures |RevealBatch(p, Ordered(ToReveal(p).value)).value.concealed| < |p.concealed|
    decreases |p.concealed|, 3, 0
  {
    ToRevealIsSafe(p);
    var order := Ordered(ToReveal(p).value);
    RevealBatchKeeps(p, order, stale);
    var q := RevealBatch(p, order).value;
    var x := order[0];
    assert IsPublic(q, x);
    assert x in p.concealed && x !in q.concealed;
    SubsetSize(q.concealed, p.concealed);
  }
}
