/** The card value type shared by both games (`rlcard/games/base.py`): a suit and
    a rank, ordered by rank first and suit second, hashed to
    `rank index + 100 * suit index`, printed as rank+suit, and worth Hearts
    points. Also the standard 52-card deck the dealers start from. */
module Cards {
  import opened Results

  /** The four suits of the deck, in the order of `Card.valid_suit`. */
  datatype Suit = Spades | Hearts | Diamonds | Clubs

  /** Index of a rank in `Card.valid_rank` = "23456789TJQKA": 0 is the two, 12 the ace. */
  type Rank = r: int | 0 <= r < 13

  const SuitLetters: string := "SHDC"
  const RankLetters: string := "23456789TJQKA"

  /** Position of the suit in `Card.valid_suit`. */
  function SuitIndex(s: Suit): (i: nat)
    ensures i < |SuitLetters|
  {
    match s
    case Spades => 0
    case Hearts => 1
    case Diamonds => 2
    case Clubs => 3
  }

  function SuitLetter(s: Suit): char {
    SuitLetters[SuitIndex(s)]
  }

  function RankLetter(r: Rank): char {
    RankLetters[r]
  }

  /** `Card.valid_suit.index(ch)` for a one-letter suit: None where Python
      raises ValueError. */
  function SuitOfLetter(ch: char): (r: Option<Suit>)
    ensures r.None? <==> ch !in SuitLetters
    ensures r.Some? ==> SuitLetter(r.value) == ch
  {
    match ch
    case 'S' => Some(Spades)
    case 'H' => Some(Hearts)
    case 'D' => Some(Diamonds)
    case 'C' => Some(Clubs)
    case _ => None
  }

  /** `Card.valid_rank.index(ch)`: None where Python raises ValueError. */
  function RankOfLetter(ch: char): (r: Option<Rank>)
    ensures r.None? ==> ch !in RankLetters
    ensures r.Some? ==> RankLetter(r.value) == ch
  {
    match ch
    case '2' => Some(0)
    case '3' => Some(1)
    case '4' => Some(2)
    case '5' => Some(3)
    case '6' => Some(4)
    case '7' => Some(5)
    case '8' => Some(6)
    case '9' => Some(7)
    case 'T' => Some(8)
    case 'J' => Some(9)
    case 'Q' => Some(10)
    case 'K' => Some(11)
    case 'A' => Some(12)
    case _ => None
  }

  /** Every rank letter and every suit letter names exactly one rank or suit. */
  lemma LettersRoundTrip(r: Rank, s: Suit)
    ensures RankOfLetter(RankLetter(r)) == Some(r)
    ensures SuitOfLetter(SuitLetter(s)) == Some(s)
  {
    if r < 4 {
      assert r == 0 || r == 1 || r == 2 || r == 3;
    } else if r < 8 {
      assert r == 4 || r == 5 || r == 6 || r == 7;
    } else {
      assert r == 8 || r == 9 || r == 10 || r == 11 || r == 12;
    }
  }

  /** A playing card. Python's `__eq__` compares rank and suit, which is
      exactly structural equality of this datatype. */
  datatype Card = Card(suit: Suit, rank: Rank)

  /** `Card(suit, rank)`: the constructor looks both letters up to compute the
      hash, so an unknown letter raises ValueError (None here). */
  function MakeCard(suit: char, rank: char): (r: Option<Card>)
    ensures r.Some? <==> suit in SuitLetters && rank in RankLetters
    ensures r.Some? ==> SuitLetter(r.value.suit) == suit && RankLetter(r.value.rank) == rank
  {
    var s :- SuitOfLetter(suit);
    var k :- RankOfLetter(rank);
    Some(Card(s, k))
  }

  /** `Card.__eq__`. */
  predicate Equal(a: Card, b: Card)
    ensures Equal(a, b) <==> a == b
  {
    a.rank == b.rank && a.suit == b.suit
  }

  /** A single number that orders cards the way `__lt__` does. */
  function Key(c: Card): nat {
    c.rank * 4 + SuitIndex(c.suit)
  }

  /** `Card.__lt__`: compare rank indexes, and suit indexes when the ranks tie. */
  predicate Less(a: Card, b: Card)
    ensures Less(a, b) <==> Key(a) < Key(b)
  {
    if a.rank == b.rank then SuitIndex(a.suit) < SuitIndex(b.suit) else a.rank < b.rank
  }

  /** `__lt__` is a strict total order on cards. */
  lemma LessIsStrictTotalOrder(a: Card, b: Card, c: Card)
    ensures !Less(a, a)
    ensures Less(a, b) ==> !Less(b, a)
    ensures Less(a, b) && Less(b, c) ==> Less(a, c)
    ensures a != b ==> Less(a, b) || Less(b, a)
  {
    if a != b {
      if a.rank == b.rank {
        assert a.suit != b.suit;
      }
    }
  }

  /** `Card.__hash__`. */
  function Hash(c: Card): nat {
    c.rank + 100 * SuitIndex(c.suit)
  }

  /** Different cards never share a hash. */
  lemma HashIsInjective(a: Card, b: Card)
    ensures Hash(a) == Hash(b) <==> a == b
  {
    if Hash(a) == Hash(b) {
      assert Hash(a) % 100 == a.rank && Hash(b) % 100 == b.rank;
      assert SuitIndex(a.suit) == SuitIndex(b.suit);
    }
  }

  /** `Card.__str__`: rank letter then suit letter, as in "QS". */
  function Str(c: Card): string {
    [RankLetter(c.rank), SuitLetter(c.suit)]
  }

  /** `Card.get_index`: suit letter then rank letter, as in "SQ". */
  function IndexString(c: Card): (s: string)
    ensures |s| == 2 && s[0] == Str(c)[1] && s[1] == Str(c)[0]
  {
    [SuitLetter(c.suit), RankLetter(c.rank)]
  }

  /** `Card(s[1], s[0])`, the way the Hearts game turns an action string back
      into a card: None where Python raises IndexError or ValueError. */
  function Parse(s: string): Option<Card> {
    if |s| < 2 then None else MakeCard(s[1], s[0])
  }

  /** Parsing undoes printing, and a string parses only to the card that
      prints as its first two letters. */
  lemma ParseStr(c: Card, s: string)
    ensures Parse(Str(c)) == Some(c)
    ensures Parse(s) == Some(c) ==> s[..2] == Str(c)
  {
    LettersRoundTrip(c.rank, c.suit);
  }

  predicate IsAHeart(c: Card) {
    c.suit == Hearts
  }

  predicate IsTheQueen(c: Card) {
    c.suit == Spades && c.rank == 10
  }

  /** `breaks_hearts`: playing the card breaks hearts. */
  predicate BreaksHearts(c: Card) {
    IsAHeart(c) || IsTheQueen(c)
  }

  /** `point_value`: 13 for the queen of spades, 1 for a heart, else 0. */
  function PointValue(c: Card): (p: nat)
    ensures p > 0 <==> BreaksHearts(c)
    ensures p <= 13
  {
    if IsTheQueen(c) then 13 else if IsAHeart(c) then 1 else 0
  }

  /** Total point value of a sequence of cards. */
  function Points(cards: seq<Card>): nat {
    if |cards| == 0 then 0 else PointValue(cards[0]) + Points(cards[1..])
  }

  lemma {:induction false} PointsAppend(a: seq<Card>, b: seq<Card>)
    ensures Points(a + b) == Points(a) + Points(b)
  {
    if |a| > 0 {
      assert (a + b)[0] == a[0];
      assert (a + b)[1..] == a[1..] + b;
      PointsAppend(a[1..], b);
    } else {
      assert a + b == b;
    }
  }

  const Suits: seq<Suit> := [Spades, Hearts, Diamonds, Clubs]

  /** The i-th card of `init_standard_deck`: suits S, H, D, C in turn, each
      running A, 2, ..., K. */
  function DeckCard(i: nat): Card
    requires i < 52
  {
    Card(Suits[i / 13], (i % 13 + 12) % 13)
  }

  /** Cards `i`, `i + 1`, ..., 51 of the standard deck. */
  function DeckFrom(i: nat): (r: seq<Card>)
    requires i <= 52
    ensures |r| == 52 - i
    ensures forall j | 0 <= j < |r| :: r[j] == DeckCard(i + j)
    decreases 52 - i
  {
    if i == 52 then [] else [DeckCard(i)] + DeckFrom(i + 1)
  }

  /** `init_standard_deck()`. */
  const StandardDeck: seq<Card> := DeckFrom(0)

  /** Where a card sits in the standard deck. */
  function DeckPosition(c: Card): (i: nat)
    ensures i < 52
  {
    SuitIndex(c.suit) * 13 + (c.rank + 1) % 13
  }

  lemma DivMod13(q: int, m: int)
    requires 0 <= q && 0 <= m < 13
    ensures (q * 13 + m) / 13 == q && (q * 13 + m) % 13 == m
  {
  }

  /** The standard deck holds every card exactly once, at `DeckPosition`. */
  lemma StandardDeckIsComplete()
    ensures |StandardDeck| == 52
    ensures forall c: Card :: StandardDeck[DeckPosition(c)] == c
    ensures forall i | 0 <= i < 52 :: DeckPosition(StandardDeck[i]) == i
    ensures forall i, j | 0 <= i < j < 52 :: StandardDeck[i] != StandardDeck[j]
  {
    forall c: Card ensures StandardDeck[DeckPosition(c)] == c {
      DeckCardAtPosition(c);
    }
    forall i | 0 <= i < 52 ensures DeckPosition(StandardDeck[i]) == i {
      PositionOfDeckCard(i);
    }
  }

  lemma DeckCardAtPosition(c: Card)
    ensures DeckCard(DeckPosition(c)) == c
  {
    var m := (c.rank + 1) % 13;
    DivMod13(SuitIndex(c.suit), m);
    assert Suits[SuitIndex(c.suit)] == c.suit;
    assert (m + 12) % 13 == c.rank;
  }

  lemma PositionOfDeckCard(i: nat)
    requires i < 52
    ensures DeckPosition(DeckCard(i)) == i
  {
    var q, m := i / 13, i % 13;
    assert SuitIndex(Suits[q]) == q;
    var r := (m + 12) % 13;
    assert (r + 1) % 13 == m;
  }

  /** Points held by cards `i`, ..., 51 of the standard deck: the queen of
      spades sits at position 11 and the hearts at positions 13 to 25. */
  lemma {:induction false} DeckPointsFrom(i: nat)
    requires i <= 52
    ensures Points(DeckFrom(i)) == (if i <= 11 then 13 else 0) + (if i <= 13 then 13 else if i <= 26 then 26 - i else 0)
    decreases 52 - i
  {
    if i < 52 {
      DeckPointsFrom(i + 1);
      assert DeckFrom(i)[1..] == DeckFrom(i + 1);
      DeckCardPoints(i);
    }
  }

  lemma DeckCardPoints(i: nat)
    requires i < 52
    ensures PointValue(DeckCard(i)) == if i == 11 then 13 else if 13 <= i < 26 then 1 else 0
  {
    var q := i / 13;
    assert q == 0 || q == 1 || q == 2 || q == 3;
    assert IsAHeart(DeckCard(i)) <==> q == 1;
    assert q == 0 ==> i % 13 == i;
  }

  /** The standard deck carries 26 Hearts points: 13 hearts and the queen of spades. */
  lemma StandardDeckPoints()
    ensures Points(StandardDeck) == 26
  {
    DeckPointsFrom(0);
  }

  /** The four cards of one rank. */
  function RankCards(r: Rank): set<Card> {
    {Card(Spades, r), Card(Hearts, r), Card(Diamonds, r), Card(Clubs, r)}
  }

  /** A rank has four cards, and a set holding four cards of one rank holds all of them. */
  lemma RankHasFourCards(r: Rank, s: set<Card>)
    ensures |RankCards(r)| == 4
    ensures forall c: Card :: c in RankCards(r) <==> c.rank == r
    ensures (forall c | c in s :: c.rank == r) ==> |s| <= 4 && (|s| == 4 ==> s == RankCards(r))
  {
    forall c: Card ensures c in RankCards(r) <==> c.rank == r {
      match c.suit
      case Spades =>
      case Hearts =>
      case Diamonds =>
      case Clubs =>
    }
    if forall c | c in s :: c.rank == r {
      assert s <= RankCards(r);
      SubsetSize(s, RankCards(r));
    }
  }

  /** A subset is no larger than its superset, and equal to it when as large. */
  lemma {:induction false} SubsetSize<T>(a: set<T>, b: set<T>)
    requires a <= b
    ensures |a| <= |b|
    ensures |a| == |b| ==> a == b
    decreases b
  {
    if b != {} {
      var x :| x in b;
      SubsetSize(a - {x}, b - {x});
      if x in a {
        assert |a - {x}| == |a| - 1;
        assert a == (a - {x}) + {x} && b == (b - {x}) + {x};
      } else {
        assert a - {x} == a;
      }
    }
  }

  /** No element occurs twice. */
  predicate Distinct<T(==)>(xs: seq<T>) {
    forall i, j | 0 <= i < j < |xs| :: xs[i] != xs[j]
  }

  /** The set of elements of a sequence. */
  function Elements<T>(xs: seq<T>): set<T> {
    set x | x in xs
  }

  lemma ElementsCons<T>(xs: seq<T>)
    requires |xs| > 0
    ensures Elements(xs) == {xs[0]} + Elements(xs[1..])
  {
    assert forall x | x in xs :: x == xs[0] || x in xs[1..];
  }

  /** The tail of a sequence without repetitions has none and lacks the head. */
  lemma DistinctTail<T>(xs: seq<T>)
    requires Distinct(xs) && |xs| > 0
    ensures Distinct(xs[1..]) && xs[0] !in Elements(xs[1..])
  {
    assert forall j | 0 <= j < |xs| - 1 :: xs[1..][j] == xs[j + 1] != xs[0];
  }

  /** A sequence without repetitions is as long as the set of its elements. */
  lemma {:induction false} DistinctSize<T>(xs: seq<T>)
    requires Distinct(xs)
    ensures |set x | x in xs| == |xs|
  {
    if |xs| > 0 {
      DistinctSize(xs[1..]);
      assert (set x | x in xs) == {xs[0]} + (set x | x in xs[1..]);
      assert xs[0] !in (set x | x in xs[1..]);
    }
  }

  /** A sequence has at most as many different elements as entries. */
  lemma {:induction false} ElementsBound<T>(xs: seq<T>)
    ensures |Elements(xs)| <= |xs|
  {
    if |xs| > 0 {
      ElementsCons(xs);
      ElementsBound(xs[1..]);
    }
  }

  /** A sequence with as many different elements as entries has no repetition. */
  lemma {:induction false} FullIsDistinct<T>(xs: seq<T>)
    requires |Elements(xs)| >= |xs|
    ensures Distinct(xs)
  {
    if |xs| > 0 {
      var tail := xs[1..];
      ElementsCons(xs);
      ElementsBound(tail);
      if xs[0] in Elements(tail) {
        assert false;
      }
      FullIsDistinct(tail);
      forall i, j | 0 <= i < j < |xs| ensures xs[i] != xs[j] {
        assert xs[j] == tail[j - 1];
        if i > 0 {
          assert xs[i] == tail[i - 1];
        }
      }
    }
  }

  /** The members of `s` from deck position `i` on, in standard-deck order. */
  function OrderedFrom(s: set<Card>, i: nat): (r: seq<Card>)
    requires i <= 52
    ensures forall c :: c in r <==> c in s && DeckPosition(c) >= i
    ensures forall j, k | 0 <= j < k < |r| :: DeckPosition(r[j]) < DeckPosition(r[k])
    decreases 52 - i
  {
    if i == 52 then []
    else
      var c := DeckCard(i);
      PositionOfDeckCard(i);
      forall d: Card | DeckPosition(d) == i ensures d == c {
        DeckCardAtPosition(d);
      }
      (if c in s then [c] else []) + OrderedFrom(s, i + 1)
  }

  /** The members of a set of cards in standard-deck order: the order in which
      the model visits a set. */
  function Ordered(s: set<Card>): (r: seq<Card>)
    ensures forall c {:trigger c in r} :: c in r <==> c in s
    ensures Distinct(r) && |r| == |s|
  {
    var r := OrderedFrom(s, 0);
    DistinctSize(r);
    assert (set x | x in r) == s;
    r
  }
}
