# rlcard card-game rules in Dafny

This project models the rule engines of two card games in rlcard, Go Fish and
Hearts, and proves properties of the model. The parts modelled are:

- **Cards and decks.** The `Card` value type of `rlcard/games/base.py` covers
  ordering, equality, the hash, the string forms and Hearts point values. Both
  dealers shuffle and pop the deck.
- **The Go Fish player.** This is the knowledge tracker of
  `rlcard/games/go_fish/player.py`. A hand is split into public and concealed
  cards, with three kinds of public knowledge per rank:
  - the cards shown to be of the rank;
  - "possible" sets, where at least one card is of the rank;
  - "not possible" sets, where no card is of the rank.

  Every mutation ends in the deduction fixpoint
  `_reveal_cards_by_process_of_elimination`.
- **The Go Fish game.** This covers the action list and its decoding, the legal
  actions, the deal and one turn: ask, catch or go fish, refill an empty hand,
  then pass the turn to the next player who holds cards. It also covers the end
  test and the payoffs.
- **The Hearts game.** This covers the action space of 52 card strings, the
  round-robin deal, the passing phase and the trick rules:
  - follow suit;
  - the hearts-broken rule;
  - the trick winner.

  It also covers the cached legal plays, the end test and the shoot-the-moon
  payoffs.
- **The rule agents.** These are the Go Fish rule agents V1, V2 and V3, and the
  Hearts rule agent.

Every operation is a pure function from the old state to the new one. What
the Python code raises is an `Err` value of a `Result`. Examples are a
`KeyError` from `set.remove`, the `IndexError` of `deck.pop()`, and the
explicit exception of `remove_cards_of_rank`. The lemmas say when each error
happens, and prove the Go Fish player's internal failures unreachable from a
well-formed player. The Go Fish tracker's invariant is `FishKnowledge.Valid`:

- the hand is the concealed cards plus the public buckets;
- `hand_by_rank` counts the hand, and an entry may linger at zero;
- each possible set holds a concealed card of its rank;
- no not-possible set holds a card of its rank;
- the knowledge sets mention only concealed cards;
- books are out of play.

Python visits dict keys in insertion order and set members in hash-table
order. The model visits ranks in ascending order and cards in standard-deck
order (`Cards.Ordered`).

Two game-level invariants tie the players together:

- `FishRound.Settled` holds for a Go Fish game when:
  - every tracker is valid;
  - no card is in two hands, or in a hand and the deck;
  - the deck has no repeats;
  - every card outside the books is of a rank that every player still has in play.

  `init_game` establishes it, and every legal `step` keeps it.
- `HeartsRound.Sound` holds for a Hearts round when:
  - every suit counter matches its hand;
  - no card is in two hands;
  - while passing, no passed card is in a hand or passed twice.

  `init_game` establishes it, and `step` keeps it.

The files are:

| file | what it models |
|---|---|
| `results.dfy` | `Option` and `Result` |
| `cards.dfy` | `Card` and the standard deck |
| `decks.dfy` | shuffle and pop |
| `action_spaces.dfy` | action-to-index maps |
| `fish_utils.dfy` | `cards_by_rank` |
| `fish_player.dfy` | the Go Fish player |
| `fish_knowledge.dfy` | the tracker's invariants |
| `fish_theorems.dfy` | the public operations of the Go Fish player |
| `fish_dealer.dfy` | the Go Fish dealer |
| `fish_actions.dfy` | action strings and legal actions |
| `fish_game.dfy` | the Go Fish game |
| `fish_round.dfy` | what a Go Fish game keeps true from `init_game` on |
| `fish_agents.dfy` | the Go Fish rule agents |
| `hearts_player.dfy` | the Hearts player |
| `hearts_dealer.dfy` | the Hearts dealer |
| `hearts_game.dfy` | the Hearts game |
| `hearts_tricks.dfy` | passing and tricks |
| `hearts_legal.dfy` | legal plays, end and payoffs |
| `hearts_deal.dfy` | the deal |
| `hearts_round.dfy` | what a Hearts round keeps true from `init_game` on |
| `hearts_agent.dfy` | the Hearts rule agent |
| `arith.dfy` | facts about `%` and `*` |

## Model

| member | source | states |
|---|---|---|
| Cards.SuitOfLetter | rlcard/games/base.py:25 | A suit letter is read back to the suit it names; a letter naming no suit is the error `valid_suit.index` raises |
| Cards.RankOfLetter | rlcard/games/base.py:25 | A rank letter is read back to the rank it names; only a letter naming no rank is an error |
| Cards.LettersRoundTrip | rlcard/games/base.py:13-14 | Reading the letter of any rank or suit gives that rank or suit back |
| Cards.MakeCard | rlcard/games/base.py:16-25 | Building a card succeeds exactly when both letters are valid, and the card carries those letters |
| Cards.Equal | rlcard/games/base.py:34-39 | Two cards are equal exactly when they are the same card (same rank and same suit) |
| Cards.Less | rlcard/games/base.py:27-32 | `__lt__` orders cards by rank index first and by suit index on a tie |
| Cards.LessIsStrictTotalOrder | rlcard/games/base.py:27-32 | `__lt__` is irreflexive, asymmetric and transitive, and any two different cards are comparable |
| Cards.HashIsInjective | rlcard/games/base.py:41-42 | Two cards have the same hash exactly when they are the same card |
| Cards.IndexString | rlcard/games/base.py:54-60 | `get_index` is the two letters of `str(card)` in the other order, suit first |
| Cards.ParseStr | rlcard/games/base.py:44-50 | Reading `str(card)` back as `Card(s[1], s[0])` gives the same card, and a string reads as a card only if it starts with that card's string |
| Cards.PointValue | rlcard/games/base.py:62-76 | A card is worth points exactly when it breaks hearts (a heart or the queen of spades), and at most 13 |
| Cards.StandardDeckIsComplete | rlcard/games/go_fish/dealer.py:10 | The deck the dealers start from has 52 cards: every card exactly once, at its deck position |
| Cards.StandardDeckPoints | rlcard/games/base.py:71-76 | The whole deck is worth 26 points |
| Cards.RankHasFourCards | rlcard/games/go_fish/player.py:40-41 | A rank has exactly four cards, and a set of four cards of one rank is all of them |
| Decks.ShuffleIsPermutation | rlcard/games/go_fish/dealer.py:13-18 | Whatever the random draws, the shuffled deck has the same cards as before, with the same multiplicities, and no repeats if there were none |
| Decks.FullDeckShuffled | rlcard/games/hearts/dealer.py:14-17 | Shuffling a deck that holds each card once gives such a deck again |
| Decks.Pop | rlcard/games/go_fish/dealer.py:26 | `pop` succeeds exactly on a non-empty deck; the deck is the rest followed by the popped card |
| ActionSpaces.ActionSpaceIndexes | rlcard/games/go_fish/game.py:21-25 | For a list without repeats, the action space has exactly the listed actions as keys and maps each one to its position |
| FishUtils.CardsByRankGroups | rlcard/games/go_fish/utils.py:3-8 | A rank is a key exactly when one of its cards occurs; its group is the input's cards of that rank, in input order, and is never empty |
| FishUtils.OfRankMembers | rlcard/games/go_fish/utils.py:5-7 | A group holds exactly the input's cards of its rank |
| FishUtils.CardsByRankSize | rlcard/games/go_fish/utils.py:3-8 | The group lengths sum to the number of input cards, so no card is lost or duplicated |
| FishDealer.NewDealerIsFullDeck | rlcard/games/go_fish/dealer.py:6-18 | Whatever the shuffle, a new dealer's deck holds every card of the standard deck exactly once |
| FishDealer.DealCard | rlcard/games/go_fish/dealer.py:20-28 | Dealing from an empty deck fails; a dealt card is the deck's last card, and the rest of the deck is left as it was |
| FishDealer.DealtConcealed | rlcard/games/go_fish/dealer.py:27 | A dealt card that completes no book reaches the player concealed |
| FishDealer.DealCardKeeps | rlcard/games/go_fish/dealer.py:20-28 | Dealing to a valid player a card it lacks, of a rank in play, never fails; the player stays valid, and the returned books are exactly the ranks it now holds all four cards of, which leave play and the hand |
| FishPlayer.Pruned | rlcard/games/go_fish/player.py:210-226 | Pruning a card keeps the hand and what is public; the card leaves every possible and not-possible set, no possible set of one card and no empty not-possible set remains, and no set is created |
| FishPlayer.Exposed | rlcard/games/go_fish/player.py:107-123 | The revealed card leaves the concealed cards and becomes public; hand, counts, books and not-possible sets do not change |
| FishPlayer.RevealBare | rlcard/games/go_fish/player.py:107-126 | A successful `_reveal_card` was of a concealed card and strictly shrinks the concealed cards; nothing public is lost and the hand is unchanged |
| FishPlayer.RevealCard | rlcard/games/go_fish/player.py:103-105 | After a successful `reveal_card` the card is no longer concealed, the hand is unchanged and nothing public is lost |
| FishPlayer.Settle | rlcard/games/go_fish/player.py:160-203 | When the fixpoint returns, one more pass would select nothing, the hand is unchanged and nothing public is lost |
| FishKnowledge.EliminationIsSound | rlcard/games/go_fish/player.py:165-171 | A concealed card that elimination leaves with one candidate rank is of exactly that rank |
| FishKnowledge.MatchingPoolIsSound | rlcard/games/go_fish/player.py:174-192 | When `k` ranks share one possible set of `k` cards, every card of the set is concealed and is of one of those ranks (a pigeonhole argument) |
| FishKnowledge.ToRevealIsSafe | rlcard/games/go_fish/player.py:160-192 | Under the invariant a pass never raises (no empty combination is indexed), and it selects only concealed cards |
| FishKnowledge.RevealCardKeeps | rlcard/games/go_fish/player.py:103-105 | `reveal_card` of a concealed card never fails, makes the card public, keeps the invariant and forgets nothing known |
| FishKnowledge.CleanUpCardKeeps | rlcard/games/go_fish/player.py:206-232 | `_clean_up_card` of a card that left the concealed cards never fails, keeps the invariant, and forgets nothing known about the cards still concealed |
| FishKnowledge.SettleKeeps | rlcard/games/go_fish/player.py:160-203 | The fixpoint terminates without failing and keeps the invariant |
| FishKnowledge.PassMakesProgress | rlcard/games/go_fish/player.py:194-203 | A pass that selects cards reveals at least one still-concealed card, so the concealed count strictly drops and the loop cannot spin |
| FishTheorems.NewPlayerIsValid | rlcard/games/go_fish/player.py:6-22 | A new player satisfies the invariant |
| FishTheorems.SettledMeansUndetermined | rlcard/games/go_fish/player.py:160-203 | After the fixpoint no possible set has fewer than two cards, and every concealed card still has at least two candidate ranks, its own among them |
| FishTheorems.RevealCardIsSafe | rlcard/games/go_fish/player.py:103-105 | Revealing a concealed card of a valid player keeps it valid; the card is public, the hand is unchanged, nothing known is forgotten, and the fixpoint has settled |
| FishTheorems.AddCardsKeeps | rlcard/games/go_fish/player.py:32-36 | Every received card joins the hand, and with `public` it is public afterwards; the player stays valid and what was public stays public |
| FishTheorems.ExtractBooksFields | rlcard/games/go_fish/player.py:38-48 | The ranks counted four times become books and leave play, their cards leave the hand, and the other public cards stay public |
| FishTheorems.ReceiveCardsKeeps | rlcard/games/go_fish/player.py:29-48 | `receive_cards` never fails on a valid player. The books it returns are exactly the ranks the hand now holds all four cards of, which join the books and leave play along with their cards. The player stays valid, and publicly received cards of other ranks are public |
| FishTheorems.CleanUpRankFields | rlcard/games/go_fish/player.py:133-158 | `_clean_up_rank` returns exactly the hand's cards of the rank, which leave the hand, and the rank's count drops to a lingering zero |
| FishTheorems.CleanUpRankForgets | rlcard/games/go_fish/player.py:139-147 | Afterwards the rank has no public bucket and no possible set, and public cards of other ranks stay public |
| FishTheorems.MarkBookCompletedKeeps | rlcard/games/go_fish/player.py:128-131 | `mark_book_completed` takes the rank out of play together with its cards and keeps the invariant |
| FishTheorems.RemoveCardsOfRankKeeps | rlcard/games/go_fish/player.py:55-72 | `remove_cards_of_rank` of a rank in play never raises (the line-68 exception is unreachable). It returns exactly the hand's cards of that rank and keeps the rest of the hand and the invariant. Every card still concealed is publicly marked as not of that rank |
| FishTheorems.MarkRankAsRequestedKeeps | rlcard/games/go_fish/player.py:85-101 | Asking for a rank one holds keeps the player valid and the hand unchanged; the rank is known afterwards and nothing known is forgotten |
| FishTheorems.MarkRankAsRequestedIsIdempotent | rlcard/games/go_fish/player.py:88-90 | Requesting the same rank twice is the same as requesting it once |
| FishTheorems.SettleValid | rlcard/games/go_fish/player.py:160-203 | The fixpoint run from a valid player never fails; it keeps the player valid, keeps the hand and forgets nothing |
| FishActions.NumeralRoundTrip | rlcard/games/go_fish/game.py:23 | Reading the decimal numeral `'{}'.format(k)` back gives `k` |
| FishActions.ActionInjective | rlcard/games/go_fish/game.py:23 | Two action strings are equal exactly when offset and rank are |
| FishActions.ActionListShape | rlcard/games/go_fish/game.py:21-25 | The action list has `get_num_actions` entries; position `i` asks offset `i / 13 + 1` for rank `i % 13` |
| FishActions.ActionListDistinct | rlcard/games/go_fish/game.py:21-25 | No action is listed twice |
| FishActions.GameActionSpace | rlcard/games/go_fish/game.py:19-25 | The action space maps exactly the listed actions, each to its position |
| FishActions.Decode | rlcard/games/go_fish/game.py:62-64 | Reading an action succeeds exactly when it has a digit first and a rank letter third, and yields that digit and rank |
| FishActions.DecodeAction | rlcard/games/go_fish/game.py:62-64 | Every action of an offset below ten reads back as its offset and rank |
| FishActions.LegalActionsMembers | rlcard/games/go_fish/game.py:145-159 | Each request of an offset 1 to `n - 1` for a rank of the hand is legal |
| FishActions.LegalActionOf | rlcard/games/go_fish/game.py:145-159 | Every legal action asks an offset 1 to `n - 1` for a rank of the hand |
| FishActions.LegalActionsCount | rlcard/games/go_fish/game.py:145-159 | There are `n - 1` legal actions per distinct rank of the hand |
| FishActions.LegalActionsEmpty | rlcard/games/go_fish/game.py:145-159 | An empty hand has no legal action |
| FishActions.LegalActionListed | rlcard/games/go_fish/game.py:145-159 | Every legal action is in the action list, so looking it up never fails |
| FishGame.InitGame | rlcard/games/go_fish/game.py:27-49 | A started game has `n` players and the drawn starting player, which is one of them |
| FishGame.GoFish | rlcard/games/go_fish/game.py:79-95 | With an empty deck nothing is drawn and the turn passes. Otherwise the deck's last card is drawn, and the turn is kept exactly when that card has the requested rank |
| FishGame.Catch | rlcard/games/go_fish/game.py:74-77 | A catch keeps the turn and leaves the deck alone |
| FishGame.Refill | rlcard/games/go_fish/game.py:97-104 | Only a kept turn with an empty hand changes anything. With cards left it draws one and keeps the turn; with none the turn passes |
| FishGame.Respond | rlcard/games/go_fish/game.py:71-104 | After the target's answer the asker keeps the seat and at most two cards leave the top of the deck; a miss with an empty deck passes the turn and changes nothing |
| FishGame.StepAsWritten | rlcard/games/go_fish/game.py:61-69 | As written, `step` never plays a turn: once the action is read, the missing `known_hand` attribute is the error |
| FishGame.StepAsWrittenRejectsEveryAsk | rlcard/games/go_fish/game.py:68-69 | Every action `configure` lists fails in `step` as written |
| FishGame.StepPlaysATurn | rlcard/games/go_fish/game.py:51-116 | A turn that plays asked player `(current + o) % n`, whose `remove_cards_of_rank` answered. At most two cards leave the top of the deck. The turn stays or passes to the next player with cards, and a miss with an empty deck always passes it |
| FishRound.RemoveHolds | rlcard/games/go_fish/game.py:71 | In a consistent game, the target's `remove_cards_of_rank` for a rank it still has in play never fails. It hands over exactly its cards of that rank, keeps its books, and leaves the game consistent with those cards in transit |
| FishRound.DrawHolds | rlcard/games/go_fish/dealer.py:20-28 | In a consistent game, `deal_card` from a non-empty deck never fails. The deck's last card goes to that seat, whose books can only grow; no other seat changes, and the game stays consistent |
| FishRound.CatchReceives | rlcard/games/go_fish/game.py:74-77 | Catching the netted cards never fails and keeps the turn. Each netted card of a rank not thereby completed is in the asker's hand and public; completed ranks go from the hand to the books; the deck and every other seat are unchanged |
| FishRound.RespondHolds | rlcard/games/go_fish/game.py:74-104 | The asker's response to the cards netted never fails. Each netted card reaches the asker's hand (public) or books, the asker's books only grow, a catch keeps the turn unless the deck is empty, no other seat changes, and the game stays consistent |
| FishRound.AskMoves | rlcard/games/go_fish/game.py:61-104 | Asking another seat for a rank the asker holds never fails. The target loses exactly its cards of that rank, each of which reaches the asker's hand (public) or books. A catch keeps the turn unless the deck is empty, no third seat changes, and the game stays consistent |
| FishRound.LegalStepSucceeds | rlcard/games/go_fish/game.py:51-116 | In a consistent game of at most ten players, every legal action of the current player plays a turn, and the game stays consistent |
| FishRound.DealFromHolds | rlcard/games/go_fish/game.py:39-44 | The dealing loop succeeds exactly when the deck holds the cards still to deal; it then uses up that many cards and keeps the game consistent |
| FishRound.InitGameDeals | rlcard/games/go_fish/game.py:27-49 | `init_game` succeeds exactly when the drawn starting seat is a player and there are at most ten players. It then leaves `52 - Deals(n)` cards in the deck and a consistent game: no card in two places, and every tracker's invariant holding |
| FishGame.NextPlayerIsFirst | rlcard/games/go_fish/game.py:106-114 | On a pass the turn goes to the first of the next `n - 1` seats, in cyclic order, whose player holds cards; when none does it stays put |
| FishGame.NoHandFrom | rlcard/games/go_fish/game.py:218-228 | `is_over` holds exactly when every hand is empty |
| FishGame.PayoffsMeaning | rlcard/games/go_fish/game.py:201-215 | A player gets 1 exactly when it has strictly more books than every other player, and -1 exactly when someone has more books; tied leaders get 0 |
| FishAgents.Choose | rlcard/models/go_fish_rule_models.py:38 | `np.random.choice` fails exactly on an empty list and otherwise picks a member |
| FishAgents.ChooseReaches | rlcard/models/go_fish_rule_models.py:38 | Every member of the list is the choice for some draw |
| FishAgents.KnownRequestIsFirst | rlcard/models/go_fish_rule_models.py:29-33 | The rule asks for the first hand card whose rank some opponent shows, of the first such opponent; it finds nothing exactly when no opponent shows a rank of the hand |
| FishAgents.StepV1Meaning | rlcard/models/go_fish_rule_models.py:17-39 | V1 asks for the first hand card an opponent shows the rank of, of the first such opponent. Otherwise it answers a legal action, any legal action for some draw, and fails only when there is none |
| FishAgents.StepV1IsLegal | rlcard/models/go_fish_rule_models.py:17-39 | For the legal actions of a hand, V1 answers one of them, and it answers exactly when the hand is not empty and there is an opponent |
| FishAgents.BookRequestIsFirst | rlcard/models/go_fish_rule_models.py:99-104 | The book rule asks for the first rank whose held count plus an opponent's shown count is four, of the first such opponent; it finds nothing exactly when no such pair exists |
| FishAgents.StepV2Book | rlcard/models/go_fish_rule_models.py:98-104 | V2 asks for the lowest rank that completes a book with an opponent's shown cards, of the first such opponent |
| FishAgents.TopBucketIsMostHeld | rlcard/models/go_fish_rule_models.py:107-114 | The first non-empty quantity bucket (3, then 2, then 1) holds exactly the ranks of the largest count |
| FishAgents.AskMostMeaning | rlcard/models/go_fish_rule_models.py:106-124 | A bucketing pass fails on a count outside 1 to 3, and asks nothing of an empty map. With no opponent it raises. Otherwise it asks an opponent for a rank of the largest count |
| FishAgents.AskMostReaches | rlcard/models/go_fish_rule_models.py:110-114 | Every opponent and every rank of the largest count are asked for under some draws |
| FishAgents.StepV2Most | rlcard/models/go_fish_rule_models.py:106-127 | Without a book to complete, V2 asks an opponent for a rank it shows most of, or, showing nothing, for one it holds most of; it raises exactly when it shows and holds nothing |
| FishAgents.StepV2IsLegal | rlcard/models/go_fish_rule_models.py:86-127 | When its counts describe its hand and no opponent shows a whole book, V2 answers one of the hand's legal actions |
| FishAgents.TopActionsAttainBest | rlcard/models/go_fish_rule_models.py:186-198 | `top_actions` holds exactly the legal actions whose expected yield is the maximum, with yields below zero never counting |
| FishAgents.StepV3Meaning | rlcard/models/go_fish_rule_models.py:176-201 | V3 fails when a yield cannot be read. Otherwise it answers exactly when some action attains the best non-negative yield, and then answers a legal action of that yield. Each such action is the answer for some draw |
| HeartsPlayer.NewPlayer | rlcard/games/hearts/player.py:6-19 | A new player has an empty hand, zero suit counters, no known voids, nothing played or passed and no round score |
| HeartsPlayer.ReceiveCardCounts | rlcard/games/hearts/player.py:21-23 | Receiving a new card adds it to the hand and keeps the suit counters right; nothing else changes |
| HeartsPlayer.RemoveCardCounts | rlcard/games/hearts/player.py:35-37 | Removing a held card takes it out of the hand and keeps the suit counters right |
| HeartsPlayer.PassCardMoves | rlcard/games/hearts/player.py:25-27 | `pass_card` fails exactly on a card not in the hand; otherwise the card moves from the hand to the passed cards and nothing else changes |
| HeartsPlayer.PlayCardMoves | rlcard/games/hearts/player.py:29-33 | `play_card` fails exactly on a card not in the hand. Otherwise the card moves from the hand to the played cards. Only the void flag of the led suit can change, from false to true, and only on an off-suit play |
| HeartsPlayer.VoidMeansNoCard | rlcard/games/hearts/player.py:46-47 | `is_void_of_suit` holds exactly when the hand has no card of the suit |
| HeartsPlayer.ReceiveTricksAdd | rlcard/games/hearts/player.py:39-44 | Taking two tricks one after the other scores and returns what taking their cards as one trick does |
| HeartsPlayer.TrickWorthAtMost26 | rlcard/games/hearts/player.py:39-44 | A trick of distinct cards is worth between 0 and 26 points, and the round score grows by exactly the returned value |
| HeartsDealer.NewDealer | rlcard/games/hearts/dealer.py:6-9 | A new dealer has no deck yet |
| HeartsDealer.ShuffledIsFullDeck | rlcard/games/hearts/dealer.py:11-17 | After `shuffle` the deck holds every card of the standard deck exactly once |
| HeartsDealer.DealCardPops | rlcard/games/hearts/dealer.py:19-26 | Dealing fails without a deck or with an empty one. Otherwise the deck loses exactly its last card, which joins the player's hand, and only the hand and its counters change |
| HeartsTricks.StrInjective | rlcard/games/hearts/game.py:24-27 | Different cards have different strings |
| HeartsTricks.ActionSpaceIsDeck | rlcard/games/hearts/game.py:24-27 | There are 52 distinct actions (`get_num_actions`). Each maps to its position, and each is the string of the deck card at that position |
| HeartsTricks.TopIndexIsHighest | rlcard/games/hearts/game.py:123-129 | The trick's top index points at a card of the led suit that no led-suit card of the trick beats |
| HeartsTricks.PlayStepMoves | rlcard/games/hearts/game.py:106-140 | Playing fails exactly on a card not in the hand. Afterwards hearts are broken if they were or the card breaks them, and the cache is dropped. An incomplete trick moves the turn one seat on; a full trick is cleared and the turn goes to `(last + 1 + top_index) % n` |
| HeartsTricks.TrickSeats | rlcard/games/hearts/game.py:122-140 | When each play moved the turn one seat on from the trick's leader, a full trick is won by the leader's seat plus the top index: the player of the highest led-suit card |
| HeartsTricks.FullTrickScores | rlcard/games/hearts/game.py:130-133 | The player who takes a full trick scores exactly its points; every other player is as the play left it |
| HeartsTricks.PassStepMoves | rlcard/games/hearts/game.py:89-104 | Passing fails exactly on a card not in the hand; otherwise the card moves to the passed cards and the count grows by one. Every third pass moves the turn on, and after `3n` passes the phase ends and the passes are executed |
| HeartsTricks.SourceMatches | rlcard/games/hearts/game.py:101-104 | Passing `k` seats to the left pairs seats one to one: seat `s` passes to seat `t` exactly when `s` is the source of `t` |
| HeartsTricks.ReceiveAllIsReceiveSet | rlcard/games/hearts/game.py:103-104 | Whatever order a loop receives distinct cards in, it ends where receiving them as one set does |
| HeartsTricks.ExecuteFromGives | rlcard/games/hearts/game.py:101-104 | Executing the passes adds to each hand exactly the cards its source passed, and changes nothing else about the player but the suit counters |
| HeartsTricks.ExecuteFromCounts | rlcard/games/hearts/game.py:101-104 | When no passed card is already in the receiver's hand, executing the passes keeps every suit counter right |
| HeartsLegal.PlayableInHand | rlcard/games/hearts/game.py:196-210 | Playable cards are cards of the hand, some exist exactly when the hand is not empty, and while passing the whole hand is playable |
| HeartsLegal.PlayableOnLead | rlcard/games/hearts/game.py:199-204 | On a lead a held card is playable exactly when hearts are broken, it is not a heart, or the hand holds only hearts |
| HeartsLegal.PlayableOnFollow | rlcard/games/hearts/game.py:205-210 | When following, a held card is playable exactly when it follows the led suit or the hand has none of that suit |
| HeartsLegal.ListedSet | rlcard/games/hearts/game.py:212-215 | The legal list names exactly the playable cards (when there is another player), each `n - 1` times, and every entry reads back as a playable card |
| HeartsLegal.LegalActionsCached | rlcard/games/hearts/game.py:186-219 | A fresh cache is returned to whoever asks, unchanged. Otherwise the asking player's list is built, which fails for a missing player, and cached, so the next query by any player gets it again |
| HeartsLegal.HintsMeaning | rlcard/games/hearts/game.py:266-267 | A player who can sluff holds nothing of the led suit and may play any card; a player on lead may play exactly what the lead rule allows |
| HeartsLegal.StepMeaning | rlcard/games/hearts/game.py:74-142 | `step` succeeds exactly on the string of a card in the current player's hand. It always drops the cached legal actions. Hearts stay broken, and a played heart or queen of spades breaks them |
| HeartsLegal.IsOverMeaning | rlcard/games/hearts/game.py:299-308 | `is_over` holds exactly when every hand is empty |
| HeartsLegal.ControlFromMeaning | rlcard/games/hearts/game.py:281-285 | The control test finds exactly a player with 26 points |
| HeartsLegal.PayoffsMeaning | rlcard/games/hearts/game.py:277-297 | With a moon shot the shooter gets 0 and everyone else 26, otherwise each player gets the round score; training turns each payoff `p` into `26 - p` |
| HeartsLegal.MoonShotPayoffs | rlcard/games/hearts/game.py:287-295 | After a moon shot a player on 26 gets 0 (26 in training) and every other player 26 (0 in training) |
| HeartsDeal.InitGameAsWrittenFails | rlcard/games/hearts/game.py:50-55 | As written, `init_game` reads the deck of a dealer that was never shuffled, so it always fails |
| HeartsDeal.DealLoopShares | rlcard/games/hearts/game.py:51-55 | Dealing a deck without repeats to players who hold none of its cards succeeds and uses the deck up. Each player gets its share (the cards whose deal number, counted from `counter`, is its seat modulo `n`), with counters right |
| HeartsDeal.SetupDeals | rlcard/games/hearts/game.py:36-64 | Setting up from a deck without repeats deals card number `k` to player `k % n`. The round starts with counters right and nothing played, passed or scored, no trick and hearts unbroken. Cards are passed exactly when the passing distance is not zero |
| HeartsDeal.InitGameDeals | rlcard/games/hearts/game.py:36-64 | With the deck shuffled first, a round of `n > 0` players always starts, with the whole deck dealt and the round state above |
| HeartsDeal.InitGameRoundRobin | rlcard/games/hearts/game.py:51-55 | In the shuffled round card number `k` off the deck is in the hand of player `k % n` |
| HeartsDeal.InitGameHandsDisjoint | rlcard/games/hearts/game.py:51-55 | In the shuffled round no card is dealt to two players |
| HeartsRound.InitGameIsSound | rlcard/games/hearts/game.py:36-64 | `init_game` deals a sound round: every suit counter matches its hand, no card is in two hands, and nothing is passed yet |
| HeartsRound.PassKeepsSound | rlcard/games/hearts/game.py:89-104 | A pass keeps the round sound. At the last of the `3n` passes no passed card is already in the hand it is passed to, so executing the passes keeps the hands disjoint and the counters right |
| HeartsRound.PlayKeepsSound | rlcard/games/hearts/game.py:106-140 | A play keeps the round sound, whether it continues the trick or completes it and gives it to its winner |
| HeartsRound.StepKeepsSound | rlcard/games/hearts/game.py:74-142 | `step` keeps the round sound |
| HeartsRound.RunKeepsSound | rlcard/games/hearts/game.py:74-142 | Every round reached from a sound one by `step` calls is sound |
| HeartsAgent.SluffOrderMovesTheQueen | rlcard/models/hearts_rule_models.py:8-20 | The sluffing order is the passing order with the queen of spades moved to the front |
| HeartsAgent.OrdersListEveryCard | rlcard/models/hearts_rule_models.py:8-20 | Both preference orders have 52 entries with no repeats, and every card's string is in both |
| HeartsAgent.IndexOf | rlcard/models/hearts_rule_models.py:72 | `order.index(a)` fails exactly when `a` is not in the order; otherwise it is the first position holding `a` |
| HeartsAgent.ArgMin | rlcard/models/hearts_rule_models.py:73 | `np.argmin` is the first position of the least entry |
| HeartsAgent.BestFromOrderMeaning | rlcard/models/hearts_rule_models.py:69-74 | Picking from an order fails exactly when there is no legal action or one is missing from the order; otherwise it is the legal action that comes first in the order |
| HeartsAgent.RankOf | rlcard/models/hearts_rule_models.py:93 | An action's rank is read from its first letter, and fails exactly when that letter names no rank |
| HeartsAgent.PickByRankMeaning | rlcard/models/hearts_rule_models.py:91-111 | The lowest or highest pick fails exactly when there is no action or one has no rank letter; otherwise it is the first action of the least or greatest rank |
| HeartsAgent.PickBelowMeaning | rlcard/models/hearts_rule_models.py:113-122 | Picking below a rank fails exactly when an action has no rank letter. Otherwise it finds nothing exactly when no action ranks below the bound, and else the first action of the highest rank below it |
| HeartsAgent.TrickHasPointsMeaning | rlcard/models/hearts_rule_models.py:76-80 | A trick holds a heart or the queen of spades exactly when it is worth points |
| HeartsAgent.HighestLeadRankMeaning | rlcard/models/hearts_rule_models.py:82-89 | The rank read is that of the card winning the trick so far (the game's own top card); it is the rank of a led-suit card and no led-suit card ranks higher |
| HeartsAgent.StepIsLegal | rlcard/models/hearts_rule_models.py:30-62 | The agent only ever answers one of its legal actions |
| HeartsAgent.StepSucceeds | rlcard/models/hearts_rule_models.py:30-62 | Given card strings to choose from and hints that agree with the trick, the agent never fails |
| HeartsAgent.StepMeaning | rlcard/models/hearts_rule_models.py:40-62 | The agent's choice follows this priority: (1) while passing, the card first in the passing order; (2) when it can sluff, the card first in the sluffing order; (3) on the lead, the first lowest card; (4) last to a trick without points, the first highest card; (5) otherwise the first highest card below the trick's top card, or else the first lowest card |
| HeartsAgent.StepOnListing | rlcard/games/hearts/game.py:212-219 | On the list the game builds from a non-empty set of playable cards, the agent reading the view of that list never fails and answers a listed action |

## Left out

- Randomness:
  - The shuffles of both dealers (`np_random.shuffle`) are modelled as a list of draws that drives swaps. Any draws give a permutation.
  - `random.randrange` in Hearts `init_game` and `np_random.randint` in Go Fish `init_game` become parameters.
  - `np.random.choice` in the Go Fish agents becomes a `pick` parameter. `ChooseReaches`, `AskMostReaches` and `StepV3Meaning` show that every candidate is reachable.
- `init_standard_deck` (from `rlcard.utils`) is not part of this model. It is taken to be the 52 cards of suits S, H, D, C times the 13 ranks, in suit-major order. The joker suits `BJ` and `RJ` of `valid_suit` never occur in such a deck and are not modelled.
- Iteration order: dict and set iteration follows ascending rank and standard-deck order, not CPython's hash-table order. Where the order can matter, the lemmas state "the first in that order". That applies to V1's and V2's rule scans and the order of revealing cards.
- Debug output and the rest of the library are left out: `_print` and `debug`, the environments under `rlcard/envs` (numpy encoders), the human agents and the example scripts (console I/O), and the DQN agent and training (torch).
- `get_state` of both games is left out, as are the `eval_step` and `*Model` wrappers of the agents. For the Hearts state, only the entries the agent reads are modelled, in `HeartsAgent.ViewOf`.
- Agent observations: the Go Fish agents read observation keys that Go Fish `get_state` does not produce, such as `public_cards`, `current_player_hand_by_rank` and `players_rank_expected_values`. They are an input to the model (`FishAgents.View`).
- Expected yields: V3's expected yields are Dafny `real` numbers, not floating point.
- Agent errors: ValueError, IndexError and KeyError become values of `AgentFault`. V2's `raise 'error'` becomes `NothingToAsk`.
- Evaluation order: the agents compute every rank or yield before choosing. Python raises at the first unreadable action, and the model fails on the same inputs, though it may name a later action.
- Go Fish `step` reads one offset digit (`int(action[0])`), so offsets of ten or more are not decoded. That would need eleven or more players, which a 52-card deal does not allow.
- Decoding a Go Fish action whose third letter is not a rank letter is an error here. Python would instead look the letter up as a rank and find no cards.
- The `known_hand` bookkeeping of Go Fish `step` is dropped, since the player class has no such attribute (see Findings). Go Fish `get_state` reads `player.known_hand` too (rlcard/games/go_fish/game.py:182), so as written `init_game`, which returns `get_state` (:49), also raises before any `step`; `get_state` is not modelled. The `.rank` of the fished `(card, books)` pair is read as the rank of its card. As written, `step` never calls `mark_rank_as_requested` and never announces completed books to the other players. The model does the same.
- Hearts `configure` and `_get_legal_actions` read `card.str`, which `Card` does not define. The model reads it as `str(card)`.
- The legal-action cache ignores the asking player, as written: `HeartsLegal.LegalActionsCached` states this behaviour.
- HeartsAgent.StepOnListing: the agent is modelled on a `View` holding all six entries it reads, as the Go Fish agents read `state['raw_obs']`. As written it reads `raw_legal_actions` and the hints from the top level of one dict (rlcard/models/hearts_rule_models.py:38-54). No dict the program builds has both: `get_state` has no `raw_legal_actions` (rlcard/games/hearts/game.py:260-273), and the environment nests the hints under `raw_obs` (rlcard/envs/hearts.py:61-63). So as written the agent raises KeyError at line 38 or line 41 on every state, and the promise that it never fails holds for the view only.
- FishGame.InitGame: states the player count and the starting seat, not the hand sizes dealt. A book can complete during the deal, so the hand sizes are not fixed. `FishRound.InitGameDeals` states when the deal succeeds and what it keeps.
- FishGame.StepPlaysATurn: assumes the turn played and states the seat, the deck and the miss case, not which cards move. `FishRound.LegalStepSucceeds` states when a turn plays, and `FishRound.AskMoves` states which cards move.
- FishGame.Catch: states only the kept turn and the untouched deck. `FishRound.CatchReceives` states where the caught cards go, for a consistent game.

## Findings

| source | as written | input that shows it | evidently intended | confidence | as-written member | corrected member |
|---|---|---|---|---|---|---|
| rlcard/games/hearts/game.py:50-55 | `init_game` creates `Dealer(self.np_random)` and reads `self.dealer.deck`, but `HeartsDealer` creates its deck only in `shuffle`, which is never called | any `init_game`, e.g. four players | shuffle the new dealer before dealing, as the Go Fish dealer does in its constructor | high; not executed | HeartsDeal.InitGameAsWrittenFails | HeartsDeal.InitGameDeals |
| rlcard/games/go_fish/game.py:68-69 | `step` reads and writes `player.known_hand`, which `GoFishPlayer` does not define (and `get_state` reads it at :182) | action "1-2" in a two-player game | drop the `known_hand` count; the player tracks public knowledge itself | high; not executed | FishGame.StepAsWrittenRejectsEveryAsk | FishGame.StepPlaysATurn |
