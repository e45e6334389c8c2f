# Bridge trick play, modelled in Dafny

A model of the play phase of a four-player, Bridge-style card game. It covers
two parts of the program:

- the **player's hand** (`Player.java`): sorted once when the cards are dealt,
  searched linearly with `find`, and shrunk with `playCard`, which copies the
  hand into a new array one shorter and keeps the remaining cards in order;
- the **trick** (`Bridge.java`): the follow-suit rule (`followsSuit`,
  `playable`) and the `trick` loop. That loop starts at the leading seat and
  steps `i = (i+1) % 4` for as long as `i != (first+4) % 4 || lead == null`.
  Each seat is asked for cards until it enters a playable one. The seat then
  plays it with `find` followed by `playCard`, and the first card played
  becomes the lead.

Modules, one per component:

| file | module | contents |
|---|---|---|
| `options.dfy` | `Options` | `Option`, standing for a Java reference that may be `null` |
| `cards.dfy` | `Cards` | `Card(rank, suit)` with suits 0..3; the card order as an abstract total preorder; `Sorted`, `NoDuplicates` |
| `seats.dfy` | `Seats` | seats `NORTH`..`WEST` = 0..3, the successor `(s+1) % 4`, and the order of turns in a trick |
| `hands.dfy` | `Hands` | `Player(hand)`, construction with sorting, `CardAt`, `Find`, `PlayCard`, and facts about removing a card |
| `rules.dfy` | `Rules` | `FollowsSuit`, `HasSuit`, `Playable` |
| `tricks.dfy` | `Tricks` | the reference definition of a trick, the method with the program's loop header, and the proof that they agree and that every completed trick is legal |

The card class is not part of this model. A card is an immutable value
`Card(rank: int, suit: Suit)`, compared structurally, with `Suit` the integers
0..3. `Rules.FollowSuitExamples` takes them to be clubs, diamonds, hearts and
spades in that order. The card's natural ordering is also unknown. Every ordering statement is
therefore made for an arbitrary relation `le` that is total and transitive
(`Cards.TotalPreorder`).

`Player.hasSuit` is called by `playable`, but `Player.java` does not define it. The model assumes it means "some card in the hand has that suit"
(`Rules.HasSuit`). `Rules.Playable` is a function, so checking a card leaves
the hand unchanged, as `playable` does.

The operator at the console is replaced by a finite **script** of candidate
cards. The script is read in order across all four seats. A candidate that is
not playable is rejected, and the next one is read, as the program re-prompts.
If the script runs out, the outcome is `InputExhausted(seat)`. This outcome only
exists in the model: the program would wait at the console.

`Tricks.PlayTrick` keeps the loop header of `trick`. It computes
`(first+4) % 4` once before the loop, because `first` does not change inside it.
The locals of `trick` (the hands, `lead`, `played`, and the unread input) are
held together in one `TrickState` value. A separate reference definition,
`Tricks.TrickFrom`, goes round the table by counting turns `k = 0..3` from
`first` instead of testing the header. The method is proved to agree with it.

`trick` returns the constant 0 (North) as its winner, and the model does the
same. The model does not compute a winning card.

## Model

| member | source | states |
|---|---|---|
| `Hands.NewPlayer` | Player.java:9-12 | the new hand holds exactly the dealt cards, as a multiset and in number, sorted ascending under any total card order |
| `Hands.SortCards` | Player.java:11 | the sort stand-in returns a permutation of its input that is sorted under the given total order |
| `Hands.CardAt` | Player.java:20 | returns the card at `pos`; `find` locates that card at `pos` or earlier, and exactly at `pos` when the hand has no repeated card |
| `Hands.FindFrom` | Player.java:36-40 | the scan from index `from` returns -1 exactly when no card from `from` on equals `c`, and otherwise the first index from `from` on that holds `c` |
| `Hands.Find` | Player.java:35-41 | returns -1 exactly when `c` is not in the hand; otherwise an index holding `c` with no earlier index holding `c` |
| `Hands.PlayCard` | Player.java:49-59 | returns the card that was at `pos`; the new hand is one shorter, earlier cards keep their index, and later cards move left by one, so it equals `hand[..pos] + hand[pos+1..]` |
| `Hands.RemoveMultiset` | Player.java:53-56 | removal takes out exactly the card at `pos`: the rest plus that card is the old hand as a multiset |
| `Hands.RemoveKeepsSorted` | Player.java:54-55 | a hand sorted at construction stays sorted after any card is played |
| `Hands.RemoveKeepsNoDuplicates` | Player.java:54-55 | a hand without repeated cards keeps that property, and the played card is no longer in it |
| `Rules.FollowsSuit` | Bridge.java:122-126 | always true with no lead; with a lead, true exactly when the suits are equal |
| `Rules.Playable` | Bridge.java:143-150 | false for a card not in the hand (`find < 0`); with no lead, true exactly for held cards; holding the lead suit, a held card is playable exactly when it has the lead suit; not holding it, every held card is playable |
| `Rules.LegalPlayExists` | Bridge.java:94-97 | a player with at least one card always has a playable card, so the re-prompt loop can be satisfied |
| `Rules.FollowSuitExamples` | Bridge.java:143-150 | with hearts led, a clubs card is unplayable from a hand holding a heart, a heart is playable, and the clubs card is playable from a hand without hearts |
| `Seats.Next` | Bridge.java:71 | the successor step `(i+1) % 4` never stays put, goes from West back to North, and otherwise adds one |
| `Seats.SeatAtReturns` | Bridge.java:71 | within one round from `first`, the seat equals `first` again only after exactly four steps, which is when the loop header stops |
| `Seats.CyclicOrder` | Bridge.java:71 | the order of turns has four entries, the `k`-th being `k` steps after `first` |
| `Seats.CyclicOrderIsPermutation` | Bridge.java:71 | the four turns of a trick visit every seat, and no seat twice |
| `Tricks.FirstPlayable` | Bridge.java:94-97 | the candidate finally accepted is the first one from `from` on that is playable: it is playable and every earlier one is not; -1 exactly when none is playable |
| `Tricks.ReadPlayable` | Bridge.java:90-97 | the read-and-revalidate loop accepts exactly the candidate `FirstPlayable` names, or gives up exactly when it names none, and returns `find`'s position for the accepted card |
| `Tricks.Turn` | Bridge.java:99-101 | after a seat's turn the lead is set, and a lead that was already set is unchanged |
| `Tricks.TakeTurn` | Bridge.java:90-101 | one pass of the loop body (read a playable card, `playCard` at `find`'s position, record it, set the lead if unset) yields exactly the reference turn |
| `Tricks.TrickFrom` | Bridge.java:71-102 | a completed reference trick has four hands and four played slots, and reports North as winner |
| `Tricks.TrickFromLegal` | Bridge.java:71-102 | every turn of the reference trick keeps this invariant: seats already visited played a card that was playable from their dealt hand and lost exactly that card, and the other seats are untouched |
| `Tricks.ReferenceTrickLegal` | Bridge.java:66-111 | in a completed trick every seat played once: a card it held, playable against no lead for the leader and against the leader's card for the others. Its hand is one card shorter and lost exactly that card |
| `Tricks.PlayTrick` | Bridge.java:66-111 | the loop with the program's header agrees with the reference trick. It visits the seats `first, first+1, first+2, first+3` (mod 4), once each. A completed trick is legal, records each card by seat, and returns 0. An exhausted script stops at the seat whose turn it was |

## Left out

- Console I/O (`clear`, `print`, `println`, `getChar`, `show`, the board printed before each turn and the summary after the trick): presentation only.
- `readCard` and its retry on `MalformedCardException`: parsing belongs to the card class, which is not part of this model. The script supplies already-parsed cards.
- The unbounded re-prompt for illegal cards: it is modelled by the finite script. Running out of script is a model outcome (`InputExhausted`) that the program does not have.
- Deck construction, `shuffle` and `deal`: the deck class is not part of this model, and shuffling is random.
- `main`'s thirteen tricks, led first by seat 3 with trump 0: glue around I/O.
- Winner determination: the program returns the constant 0, and no trump or rank rule is modelled. The `trump` parameter is accepted and ignored, as in the program.
- `Player.hand()`: it only returns the array, which the model exposes as the field `Player.hand`. Aliasing is not modelled. The constructor sorts the caller's array in place, and `hand()` hands out the live array; the model's values are immutable.
- Out-of-range positions in `cardAt` and `playCard`, and `first` outside 0..3 in `trick`: Java throws an unchecked exception there. The model makes `0 <= pos < |hand|` and `0 <= first < 4` preconditions.
- `Hands.NewPlayer`: the library sort is modelled by an insertion sort and specified only as a sorted permutation. Stability and the library's algorithm are not stated, and the card order is abstract because the card's `compareTo` is not part of this model.
- `Rules.HasSuit`: the meaning "some held card has the suit" is an assumption, because `hasSuit` is not defined in `Player.java`.
- The 13-card hand size in the constructor's documentation is not required: every operation is stated for hands of any length.
