/**
  * Playing cards. The card class itself is not part of this model: a card is
  * an immutable value with a rank and one of four suits, compared structurally.
  * Its natural ordering is not known here, so orderings are passed around as
  * a relation that is required to be a total preorder.
  */
module Cards {

  /** The four suits, numbered 0 to 3 as the trump parameter of a trick expects. */
  type Suit = s: int | 0 <= s < 4

  datatype Card = Card(rank: int, suit: Suit)

  /** `le` behaves like `a.compareTo(b) <= 0` for some total order on cards. */
  ghost predicate TotalPreorder(le: (Card, Card) -> bool) {
    && (forall a, b :: le(a, b) || le(b, a))
    && (forall a, b, c :: le(a, b) && le(b, c) ==> le(a, c))
  }

  /** Every earlier card is at most every later one. */
  ghost predicate Sorted(s: seq<Card>, le: (Card, Card) -> bool) {
    forall i, j :: 0 <= i < j < |s| ==> le(s[i], s[j])
  }

  /** No card occurs twice, as holds for any hand dealt from one deck. */
  ghost predicate NoDuplicates(s: seq<Card>) {
    forall i, j :: 0 <= i < j < |s| ==> s[i] != s[j]
  }
}
