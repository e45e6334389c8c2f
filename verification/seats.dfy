/**
  * The four seats at the table and their fixed cyclic turn order
  * North, East, South, West, North, ...
  */
module Seats {

  type Seat = s: int | 0 <= s < 4

  const NORTH: Seat := 0
  const EAST: Seat := 1
  const SOUTH: Seat := 2
  const WEST: Seat := 3

  /** The seat that plays after `s`. */
  function Next(s: Seat): (r: Seat)
    ensures r != s
    ensures s == WEST <==> r == NORTH
    ensures s != WEST ==> r == s + 1
  {
    (s + 1) % 4
  }

  /** The seat that plays `k` turns after `first`, within one round of the table. */
  function SeatAt(first: Seat, k: nat): Seat
    requires k <= 4
  {
    if first + k < 4 then first + k else first + k - 4
  }

  /** How many turns after `first` the seat `s` plays: the inverse of SeatAt. */
  function Offset(first: Seat, s: Seat): (k: nat)
    ensures k < 4
    ensures SeatAt(first, k) == s
  {
    if first <= s then s - first else s - first + 4
  }

  lemma OffsetOfSeatAt(first: Seat, k: nat)
    requires k < 4
    ensures Offset(first, SeatAt(first, k)) == k
  {
  }

  lemma SeatAtNext(first: Seat, k: nat)
    requires k < 4
    ensures SeatAt(first, k + 1) == Next(SeatAt(first, k))
  {
  }

  /** Within one round of the table, only the fourth step returns to `first`. */
  lemma SeatAtReturns(first: Seat, k: nat)
    requires 0 < k <= 4
    ensures SeatAt(first, k) == first <==> k == 4
  {
  }

  /** The four seats of one trick, in play order. */
  function CyclicOrder(first: Seat): (order: seq<Seat>)
    ensures |order| == 4
    ensures forall k :: 0 <= k < 4 ==> order[k] == SeatAt(first, k)
  {
    [first, Next(first), Next(Next(first)), Next(Next(Next(first)))]
  }

  /** Going round the table from any seat reaches every seat, and no seat twice. */
  lemma CyclicOrderIsPermutation(first: Seat)
    ensures forall s: Seat :: s in CyclicOrder(first)
    ensures forall i, j :: 0 <= i < j < 4 ==> CyclicOrder(first)[i] != CyclicOrder(first)[j]
  {
    var order := CyclicOrder(first);
    forall s: Seat ensures s in order {
      assert order[Offset(first, s)] == s;
    }
    forall i, j | 0 <= i < j < 4 ensures order[i] != order[j] {
      OffsetOfSeatAt(first, i);
      OffsetOfSeatAt(first, j);
    }
  }
}
