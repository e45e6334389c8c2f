/**
  * One trick: starting at the leading seat and going round the table, each
  * seat offers candidate cards until one is playable, and that card is
  * removed from its hand and recorded against the seat.
  *
  * The operator at the console is replaced by a finite script of candidate
  * cards, read in order across all seats; candidates that are not playable
  * are rejected and the next one is read, as at the console.
  */
module Tricks {
  import opened Options
  import opened Cards
  import opened Hands
  import opened Rules
  import opened Seats

  /**
    * The local state of a trick in progress: every seat's hand, the card led
    * (None before the first card), the unread candidates, and the card each
    * seat has played so far (None before it plays).
    */
  datatype TrickState = TrickState(hands: seq<Player>, lead: Option<Card>, input: seq<Card>,
                                   played: seq<Option<Card>>)
  {
    predicate Valid() {
      |hands| == 4 && |played| == 4
    }
  }

  datatype TrickOutcome =
    | Complete(hands: seq<Player>, played: seq<Option<Card>>, winner: Seat, unread: seq<Card>)
      /** The script ran out while `seat` still had to play. */
    | InputExhausted(seat: Seat)

  /**
    * The index of the first candidate from `from` on that `p` may play
    * against `lead`, or -1 when there is none: the card the console would
    * finally accept.
    */
  function FirstPlayable(p: Player, lead: Option<Card>, input: seq<Card>, from: nat): (n: int)
    requires from <= |input|
    ensures n == -1 || from <= n < |input|
    ensures n >= 0 ==> Playable(input[n], p, lead)
    ensures forall j {:trigger Playable(input[j], p, lead)} ::
              from <= j < |input| && (n < 0 || j < n) ==> !Playable(input[j], p, lead)
    decreases |input| - from
  {
    if from == |input| then -1
    else if Playable(input[from], p, lead) then from
    else FirstPlayable(p, lead, input, from + 1)
  }

  const NonePlayed: seq<Option<Card>> := [None, None, None, None]

  /** The state before anyone has played. */
  function Initial(players: seq<Player>, script: seq<Card>): TrickState {
    TrickState(players, None, script, NonePlayed)
  }

  /**
    * Seat `s` takes its turn: the first playable candidate is removed from
    * its hand at the position `find` gives, recorded against the seat, and
    * becomes the lead if nothing was led yet. None when no candidate left is
    * playable.
    */
  function Turn(st: TrickState, s: Seat): (r: Option<TrickState>)
    requires st.Valid()
    ensures r.Some? ==> r.value.Valid()
    ensures r.Some? ==> r.value.lead.Some? && (st.lead.Some? ==> r.value.lead == st.lead)
  {
    var n := FirstPlayable(st.hands[s], st.lead, st.input, 0);
    if n < 0 then None
    else
      var c := st.input[n];
      var hand := st.hands[s].hand;
      Some(TrickState(st.hands[s := Player(Remove(hand, Find(hand, c)))],
                      if st.lead.None? then Some(c) else st.lead,
                      st.input[n + 1..],
                      st.played[s := Some(c)]))
  }

  /**
    * The rest of a trick in which `k` seats, in cyclic order from `first`,
    * have already played: the reference definition of a trick.
    */
  function TrickFrom(st: TrickState, first: Seat, k: nat): (t: TrickOutcome)
    requires st.Valid() && k <= 4
    ensures t.Complete? ==> |t.hands| == 4 && |t.played| == 4 && t.winner == NORTH
    decreases 4 - k
  {
    if k == 4 then Complete(st.hands, st.played, NORTH, st.input)
    else
      var next := Turn(st, SeatAt(first, k));
      if next.None? then InputExhausted(SeatAt(first, k))
      else TrickFrom(next.value, first, k + 1)
  }

  /** The reference trick advances by one turn when the seat finds a playable candidate. */
  lemma TrickFromStep(st: TrickState, first: Seat, k: nat, next: TrickState)
    requires st.Valid() && k < 4
    requires Turn(st, SeatAt(first, k)) == Some(next)
    ensures next.Valid()
    ensures TrickFrom(st, first, k) == TrickFrom(next, first, k + 1)
  {
  }

  /** The reference trick stops at a seat with no playable candidate left. */
  lemma TrickFromStop(st: TrickState, first: Seat, k: nat)
    requires st.Valid() && k < 4
    requires Turn(st, SeatAt(first, k)).None?
    ensures TrickFrom(st, first, k) == InputExhausted(SeatAt(first, k))
  {
  }

  function ReferenceTrick(players: seq<Player>, first: Seat, script: seq<Card>): TrickOutcome
    requires |players| == 4
  {
    TrickFrom(Initial(players, script), first, 0)
  }

  /**
    * `before` played `card`, which was playable against `lead`, and is left
    * holding `after`: its cards without the one found equal to `card`.
    */
  ghost predicate SeatPlayed(before: Player, after: Player, card: Option<Card>, lead: Option<Card>) {
    && card.Some?
    && Playable(card.value, before, lead)
    && after.hand == Remove(before.hand, Find(before.hand, card.value))
  }

  /**
    * The state after the first `k` seats in cyclic order from `first` have
    * played: each of them played a card that was playable from its hand as
    * dealt (against no lead for `first`, against `first`'s card for the
    * others), and lost exactly that card; the other seats are untouched.
    */
  ghost predicate PlayedSoFar(players: seq<Player>, first: Seat, k: nat,
                              hands: seq<Player>, lead: Option<Card>, played: seq<Option<Card>>)
    requires |players| == 4 && |hands| == 4 && |played| == 4
  {
    && k <= 4
    && (k == 0 <==> lead.None?)
    && (k > 0 ==> lead == played[first])
    && forall s: Seat :: SeatSoFar(players, first, k, hands, lead, played, s)
  }

  /** Seat `s` has played as described above if it is among the first `k`, and is untouched otherwise. */
  ghost predicate SeatSoFar(players: seq<Player>, first: Seat, k: nat,
                            hands: seq<Player>, lead: Option<Card>, played: seq<Option<Card>>, s: Seat)
    requires |players| == 4 && |hands| == 4 && |played| == 4
  {
    if Offset(first, s) < k then SeatPlayed(players[s], hands[s], played[s], if s == first then None else lead)
    else played[s].None? && hands[s] == players[s]
  }

  /** What a completed trick guarantees about every seat. */
  ghost predicate LegalTrick(players: seq<Player>, first: Seat, t: TrickOutcome)
    requires |players| == 4
    requires t.Complete?
  {
    && |t.hands| == 4 && |t.played| == 4
    && t.played[first].Some?
    && t.winner == NORTH
    && forall s: Seat :: SeatLegal(players, first, t, s)
  }

  /**
    * Seat `s` played a card it held, legally against the lead, and its hand
    * lost exactly that card and nothing else.
    */
  ghost predicate SeatLegal(players: seq<Player>, first: Seat, t: TrickOutcome, s: Seat)
    requires |players| == 4
    requires t.Complete? && |t.hands| == 4 && |t.played| == 4
  {
    && SeatPlayed(players[s], t.hands[s], t.played[s], if s == first then None else t.played[first])
    && t.played[s].value in players[s].hand
    && |t.hands[s].hand| == |players[s].hand| - 1
    && multiset(t.hands[s].hand) + multiset{t.played[s].value} == multiset(players[s].hand)
  }

  /** One more seat, the `k`-th after `first`, takes its turn. */
  lemma PlayedSoFarStep(players: seq<Player>, first: Seat, k: nat, st: TrickState, next: TrickState)
    requires |players| == 4 && st.Valid() && k < 4
    requires PlayedSoFar(players, first, k, st.hands, st.lead, st.played)
    requires Turn(st, SeatAt(first, k)) == Some(next)
    ensures next.Valid()
    ensures PlayedSoFar(players, first, k + 1, next.hands, next.lead, next.played)
  {
    var s := SeatAt(first, k);
    var c := st.input[FirstPlayable(st.hands[s], st.lead, st.input, 0)];
    OffsetOfSeatAt(first, k);
    OffsetOfSeatAt(first, 0);
    assert k == 0 <==> s == first;
    var k' := k + 1;
    forall t: Seat ensures SeatSoFar(players, first, k', next.hands, next.lead, next.played, t) {
      assert SeatSoFar(players, first, k, st.hands, st.lead, st.played, t);
      if t != s {
        assert Offset(first, t) != k;
      }
    }
  }

  lemma {:induction false} TrickFromLegal(players: seq<Player>, first: Seat, k: nat, st: TrickState)
    requires |players| == 4 && st.Valid() && k <= 4
    requires PlayedSoFar(players, first, k, st.hands, st.lead, st.played)
    ensures var t := TrickFrom(st, first, k);
            t.Complete? ==> PlayedSoFar(players, first, 4, t.hands, t.played[first], t.played)
    decreases 4 - k
  {
    if k < 4 {
      var next := Turn(st, SeatAt(first, k));
      if next.Some? {
        PlayedSoFarStep(players, first, k, st, next.value);
        TrickFromLegal(players, first, k + 1, next.value);
      }
    }
  }

  lemma NothingPlayedYet(players: seq<Player>, first: Seat)
    requires |players| == 4
    ensures PlayedSoFar(players, first, 0, players, None, NonePlayed)
  {
    forall s: Seat ensures SeatSoFar(players, first, 0, players, None, NonePlayed, s) {}
  }

  lemma CompletedSeatLegal(players: seq<Player>, first: Seat, t: TrickOutcome, s: Seat)
    requires |players| == 4 && t.Complete? && |t.hands| == 4 && |t.played| == 4
    requires PlayedSoFar(players, first, 4, t.hands, t.played[first], t.played)
    ensures SeatLegal(players, first, t, s)
  {
    assert SeatSoFar(players, first, 4, t.hands, t.played[first], t.played, s);
    RemoveMultiset(players[s].hand, Find(players[s].hand, t.played[s].value));
  }

  /** Every completed reference trick is a legal trick. */
  lemma ReferenceTrickLegal(players: seq<Player>, first: Seat, script: seq<Card>)
    requires |players| == 4
    ensures var t := ReferenceTrick(players, first, script);
            t.Complete? ==> LegalTrick(players, first, t)
  {
    NothingPlayedYet(players, first);
    TrickFromLegal(players, first, 0, Initial(players, script));
    var t := ReferenceTrick(players, first, script);
    if t.Complete? {
      forall s: Seat ensures SeatLegal(players, first, t, s) {
        CompletedSeatLegal(players, first, t, s);
      }
      CompletedSeatLegal(players, first, t, first);
    }
  }

  /**
    * Reads candidates from `input` until one is playable by `p` against
    * `lead`, and returns the index of the accepted candidate with its
    * position in the hand; None when the input runs out first.
    */
  method ReadPlayable(p: Player, lead: Option<Card>, input: seq<Card>) returns (choice: Option<(nat, int)>)
    ensures choice.None? <==> FirstPlayable(p, lead, input, 0) < 0
    ensures choice.Some? ==> choice.value.0 == FirstPlayable(p, lead, input, 0)
    ensures choice.Some? ==> choice.value.1 == Find(p.hand, input[choice.value.0])
  {
    if |input| == 0 {
      return None;
    }
    var next := 0;
    var entered := input[next];
    var pos := Find(p.hand, entered);
    while !Playable(entered, p, lead)
      invariant 0 <= next < |input| && entered == input[next]
      invariant pos == Find(p.hand, entered)
      invariant FirstPlayable(p, lead, input, 0) == FirstPlayable(p, lead, input, next)
      decreases |input| - next
    {
      next := next + 1;
      if next == |input| {
        return None;
      }
      entered := input[next];
      pos := Find(p.hand, entered);
    }
    choice := Some((next, pos));
  }

  /**
    * One pass of the trick loop's body for seat `s`: read a playable card,
    * play it from the seat's hand, record it, and make it the lead if none
    * was set.
    */
  method TakeTurn(st: TrickState, s: Seat) returns (r: Option<TrickState>)
    requires st.Valid()
    ensures r == Turn(st, s)
  {
    var choice := ReadPlayable(st.hands[s], st.lead, st.input);
    if choice.None? {
      return None;
    }
    var (next, pos) := choice.value;
    var entered := st.input[next];
    var card, after := PlayCard(st.hands[s], pos);
    var lead := st.lead;
    if lead == None {
      lead := Some(entered);
    }
    r := Some(TrickState(st.hands[s := after], lead, st.input[next + 1..], st.played[s := Some(card)]));
  }

  /**
    * Plays one trick led by `first`, with the loop header of the console
    * program: go round from `first` until back at `first` with a lead set.
    * `turns` lists the seats in the order they were asked to play.
    * The trump suit is accepted and, as in the program, not consulted.
    */
  method PlayTrick(players: seq<Player>, first: int, trump: Suit, script: seq<Card>)
    returns (outcome: TrickOutcome, turns: seq<Seat>)
    requires |players| == 4
    requires 0 <= first < 4
    ensures outcome == ReferenceTrick(players, first, script)
    ensures outcome.Complete? ==> LegalTrick(players, first, outcome)
    ensures |turns| <= 4
    ensures forall k :: 0 <= k < |turns| ==> turns[k] == SeatAt(first, k)
    ensures outcome.Complete? ==> turns == CyclicOrder(first)
    ensures outcome.InputExhausted? ==> |turns| < 4 && outcome.seat == SeatAt(first, |turns|)
  {
    var st := Initial(players, script);
    turns := [];
    ghost var k := 0;
    var i := first;
    var stop := (first + 4) % 4;
    assert stop == first;
    while i != stop || st.lead == None
      invariant st.Valid() && k <= 4 && |turns| == k
      invariant i == SeatAt(first, k)
      invariant k == 0 <==> st.lead.None?
      invariant forall j :: 0 <= j < k ==> turns[j] == SeatAt(first, j)
      invariant TrickFrom(st, first, k) == ReferenceTrick(players, first, script)
      decreases 4 - k
    {
      var next := TakeTurn(st, i);
      if next.None? {
        TrickFromStop(st, first, k);
        outcome := InputExhausted(i);
        return;
      }
      TrickFromStep(st, first, k, next.value);
      st := next.value;
      turns := turns + [i];
      i := Next(i);
      assert i == SeatAt(first, k + 1) by {
        SeatAtNext(first, k);
      }
      k := k + 1;
      SeatAtReturns(first, k);
    }
    assert k == 4;
    outcome := Complete(st.hands, st.played, NORTH, st.input);
    assert turns == CyclicOrder(first);
    ReferenceTrickLegal(players, first, script);
  }
}
