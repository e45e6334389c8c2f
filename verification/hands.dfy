/**
  * A player's hand: the cards one seat holds, sorted once when dealt, then
  * searched and shrunk one card at a time as the player plays.
  */
module Hands {
  import opened Cards

  datatype Player = Player(hand: seq<Card>)

  /** `s` with the element at `pos` taken out and the later ones moved left. */
  function Remove(s: seq<Card>, pos: int): seq<Card>
    requires 0 <= pos < |s|
  {
    s[..pos] + s[pos + 1..]
  }

  /** Inserts `x` into `s` in front of the first card it is at most. */
  function Insert(x: Card, s: seq<Card>, le: (Card, Card) -> bool): (r: seq<Card>)
    ensures multiset(r) == multiset(s) + multiset{x}
  {
    if s == [] then [x]
    else if le(x, s[0]) then [x] + s
    else
      assert s == [s[0]] + s[1..];
      [s[0]] + Insert(x, s[1..], le)
  }

  lemma {:induction false} InsertSorted(x: Card, s: seq<Card>, le: (Card, Card) -> bool)
    requires TotalPreorder(le)
    requires Sorted(s, le)
    ensures Sorted(Insert(x, s, le), le)
  {
    if s != [] && !le(x, s[0]) {
      var tail := Insert(x, s[1..], le);
      InsertSorted(x, s[1..], le);
      forall j | 0 <= j < |tail| ensures le(s[0], tail[j]) {
        assert tail[j] in multiset(tail);
        if tail[j] != x {
          assert tail[j] in multiset(s[1..]);
          var m :| 0 <= m < |s[1..]| && s[1..][m] == tail[j];
          assert s[m + 1] == tail[j];
        }
      }
    }
  }

  /** A stable insertion sort, standing in for the library sort. */
  function SortCards(s: seq<Card>, le: (Card, Card) -> bool): (r: seq<Card>)
    requires TotalPreorder(le)
    ensures multiset(r) == multiset(s)
    ensures Sorted(r, le)
  {
    if s == [] then []
    else
      var rest := SortCards(s[1..], le);
      InsertSorted(s[0], rest, le);
      assert s == [s[0]] + s[1..];
      Insert(s[0], rest, le)
  }

  /** Creates a player from the dealt cards, sorting them by the card order. */
  function NewPlayer(cards: seq<Card>, le: (Card, Card) -> bool): (p: Player)
    requires TotalPreorder(le)
    ensures multiset(p.hand) == multiset(cards)
    ensures |p.hand| == |cards|
    ensures Sorted(p.hand, le)
  {
    var sorted := SortCards(cards, le);
    assert |sorted| == |multiset(sorted)| == |multiset(cards)| == |cards|;
    Player(sorted)
  }

  /** The card at `pos`; `find` locates it there, or earlier if it is repeated. */
  function CardAt(p: Player, pos: int): (c: Card)
    requires 0 <= pos < |p.hand|
    ensures c == p.hand[pos]
    ensures 0 <= Find(p.hand, c) <= pos
    ensures NoDuplicates(p.hand) ==> Find(p.hand, c) == pos
  {
    p.hand[pos]
  }

  /** The linear scan of `find` from index `from` onwards. */
  function FindFrom(hand: seq<Card>, c: Card, from: nat): (i: int)
    requires from <= |hand|
    ensures i == -1 || from <= i < |hand|
    ensures i == -1 <==> forall j :: from <= j < |hand| ==> hand[j] != c
    ensures i >= 0 ==> hand[i] == c && forall j :: from <= j < i ==> hand[j] != c
    decreases |hand| - from
  {
    if from == |hand| then -1
    else if hand[from] == c then from
    else FindFrom(hand, c, from + 1)
  }

  /** The first position holding `c`, or -1 when no card in the hand equals `c`. */
  function Find(hand: seq<Card>, c: Card): (i: int)
    ensures -1 <= i < |hand|
    ensures i == -1 <==> c !in hand
    ensures i >= 0 ==> hand[i] == c && forall j :: 0 <= j < i ==> hand[j] != c
  {
    FindFrom(hand, c, 0)
  }

  /**
    * Plays the card at `pos`: returns it together with the player whose hand
    * is a fresh copy without that card, built by the two copying loops.
    */
  method PlayCard(p: Player, pos: int) returns (played: Card, after: Player)
    requires 0 <= pos < |p.hand|
    ensures played == p.hand[pos]
    ensures |after.hand| == |p.hand| - 1
    ensures forall j :: 0 <= j < pos ==> after.hand[j] == p.hand[j]
    ensures forall j :: pos <= j < |after.hand| ==> after.hand[j] == p.hand[j + 1]
    ensures after.hand == Remove(p.hand, pos)
  {
    played := CardAt(p, pos);
    var length := |p.hand| - 1;
    var newHand: seq<Card> := [];
    var i := 0;
    while i < pos
      invariant 0 <= i <= pos
      invariant |newHand| == i
      invariant forall j :: 0 <= j < i ==> newHand[j] == p.hand[j]
    {
      newHand := newHand + [p.hand[i]];
      i := i + 1;
    }
    i := pos;
    while i < length
      invariant pos <= i <= length
      invariant |newHand| == i
      invariant forall j :: 0 <= j < pos ==> newHand[j] == p.hand[j]
      invariant forall j :: pos <= j < i ==> newHand[j] == p.hand[j + 1]
    {
      newHand := newHand + [p.hand[i + 1]];
      i := i + 1;
    }
    assert newHand == Remove(p.hand, pos);
    after := Player(newHand);
  }

  /** Removing a card gives back exactly the other cards. */
  lemma RemoveMultiset(s: seq<Card>, pos: int)
    requires 0 <= pos < |s|
    ensures multiset(Remove(s, pos)) + multiset{s[pos]} == multiset(s)
  {
    assert s == s[..pos] + [s[pos]] + s[pos + 1..];
  }

  /** A sorted hand stays sorted as cards are played from it. */
  lemma RemoveKeepsSorted(s: seq<Card>, pos: int, le: (Card, Card) -> bool)
    requires 0 <= pos < |s|
    requires Sorted(s, le)
    ensures Sorted(Remove(s, pos), le)
  {
    var r := Remove(s, pos);
    forall i, j | 0 <= i < j < |r| ensures le(r[i], r[j]) {
      assert r[i] == s[if i < pos then i else i + 1];
      assert r[j] == s[if j < pos then j else j + 1];
    }
  }

  /** A hand without repeated cards keeps that property as cards are played. */
  lemma RemoveKeepsNoDuplicates(s: seq<Card>, pos: int)
    requires 0 <= pos < |s|
    requires NoDuplicates(s)
    ensures NoDuplicates(Remove(s, pos))
    ensures s[pos] !in Remove(s, pos)
  {
    var r := Remove(s, pos);
    forall i, j | 0 <= i < j < |r| ensures r[i] != r[j] {
      assert r[i] == s[if i < pos then i else i + 1];
      assert r[j] == s[if j < pos then j else j + 1];
    }
    forall i | 0 <= i < |r| ensures r[i] != s[pos] {
      assert r[i] == s[if i < pos then i else i + 1];
    }
  }
}
