/** What both dealers do with their deck: shuffle it with the random generator
    (`np_random.shuffle`) and pop cards off its end (`deck.pop()`). The random
    draws of the shuffle are a parameter. */
module Decks {
  import opened Results
  import opened Cards

  /** The one way a deck operation fails: `pop` from an empty list. */
  datatype DeckFault = EmptyDeck

  /** Exchange the cards at positions `i` and `j`. */
  function Swap(d: seq<Card>, i: nat, j: nat): (r: seq<Card>)
    requires i < |d| && j < |d|
    ensures |r| == |d| && r[i] == d[j] && r[j] == d[i]
    ensures forall k | 0 <= k < |d| && k != i && k != j :: r[k] == d[k]
  {
    d[i := d[j]][j := d[i]]
  }

  /** A swap neither loses nor duplicates a card. */
  lemma SwapIsPermutation(d: seq<Card>, i: nat, j: nat)
    requires i < |d| && j < |d|
    ensures multiset(Swap(d, i, j)) == multiset(d)
  {
    var e := d[i := d[j]];
    assert multiset(e) == multiset(d) - multiset{d[i]} + multiset{d[j]};
    assert multiset(e[j := d[i]]) == multiset(e) - multiset{e[j]} + multiset{d[i]};
  }

  /** `np_random.shuffle`, the Fisher-Yates shuffle: for `i` from the last
      position down to 1, swap position `i` with a position drawn from 0..i.
      `picks[i]` is the draw for position `i`, reduced modulo `i + 1`; a
      missing draw leaves the position in place. */
  function Shuffle(d: seq<Card>, picks: seq<nat>): seq<Card> {
    ShuffleDown(d, |d| - 1, picks)
  }

  /** The shuffle loop from position `i` down to 1. */
  function ShuffleDown(d: seq<Card>, i: int, picks: seq<nat>): seq<Card>
    requires i < |d|
    decreases i
  {
    if i <= 0 then d
    else
      var j := if i < |picks| then picks[i] % (i + 1) else i;
      ShuffleDown(Swap(d, i, j), i - 1, picks)
  }

  /** The shuffled deck holds exactly the cards of the deck it started from. */
  lemma {:induction false} ShuffleDownIsPermutation(d: seq<Card>, i: int, picks: seq<nat>)
    requires i < |d|
    ensures multiset(ShuffleDown(d, i, picks)) == multiset(d)
    decreases i
  {
    if i > 0 {
      var j := if i < |picks| then picks[i] % (i + 1) else i;
      SwapIsPermutation(d, i, j);
      ShuffleDownIsPermutation(Swap(d, i, j), i - 1, picks);
    }
  }

  /** Whatever the draws, a shuffle is a permutation: same cards, same length,
      still without repetitions when the deck had none. */
  lemma ShuffleIsPermutation(d: seq<Card>, picks: seq<nat>)
    ensures multiset(Shuffle(d, picks)) == multiset(d)
    ensures |Shuffle(d, picks)| == |d|
    ensures Elements(Shuffle(d, picks)) == Elements(d)
    ensures Distinct(d) ==> Distinct(Shuffle(d, picks))
  {
    var r := Shuffle(d, picks);
    ShuffleDownIsPermutation(d, |d| - 1, picks);
    assert |r| == |multiset(r)| == |multiset(d)| == |d|;
    assert forall c :: c in r <==> c in multiset(r);
    assert forall c :: c in d <==> c in multiset(d);
    if Distinct(d) {
      MultiplicityOne(d);
      forall i, j | 0 <= i < j < |r| ensures r[i] != r[j] {
        if r[i] == r[j] {
          Repeated(r, i, j);
          assert false;
        }
      }
    }
  }

  /** Shuffling a deck that holds every card once yields such a deck again. */
  lemma FullDeckShuffled(d: seq<Card>, picks: seq<nat>)
    requires |d| == 52 && Distinct(d) && forall c: Card :: d[DeckPosition(c)] == c
    ensures multiset(Shuffle(d, picks)) == multiset(d)
    ensures |Shuffle(d, picks)| == 52 && Distinct(Shuffle(d, picks))
    ensures forall c: Card :: c in Shuffle(d, picks)
  {
    ShuffleIsPermutation(d, picks);
    forall c: Card ensures c in Shuffle(d, picks) {
      assert d[DeckPosition(c)] == c;
      assert c in Elements(d);
    }
  }

  /** In a sequence without repetitions every element occurs once. */
  lemma {:induction false} MultiplicityOne<T>(d: seq<T>)
    requires Distinct(d)
    ensures forall c | c in d :: multiset(d)[c] == 1
  {
    if |d| > 0 {
      DistinctTail(d);
      MultiplicityOne(d[1..]);
      assert d == [d[0]] + d[1..];
      assert multiset(d) == multiset{d[0]} + multiset(d[1..]);
    }
  }

  /** An element found at two positions occurs at least twice. */
  lemma Repeated(d: seq<Card>, i: nat, j: nat)
    requires i < j < |d| && d[i] == d[j]
    ensures multiset(d)[d[i]] >= 2
  {
    assert d == d[..i] + [d[i]] + d[i + 1..j] + [d[j]] + d[j + 1..];
    assert multiset(d) == multiset(d[..i]) + multiset{d[i]} + multiset(d[i + 1..j]) + multiset{d[j]} + multiset(d[j + 1..]);
  }

  /** `deck.pop()`: the last card and the deck without it. */
  function Pop(d: seq<Card>): (r: Result<(Card, seq<Card>), DeckFault>)
    ensures r.Ok? <==> |d| > 0
    ensures r.Ok? ==> d == r.value.1 + [r.value.0]
  {
    if |d| == 0 then Err(EmptyDeck) else Ok((d[|d| - 1], d[..|d| - 1]))
  }
}
