/**
  * The follow-suit rule of the trick: which card a seat may play given the
  * card that was led, if any.
  */
module Rules {
  import opened Options
  import opened Cards
  import opened Hands

  /**
    * Whether `check` has the suit that was led. With no lead, `check` is
    * itself the lead and follows its own suit.
    */
  function FollowsSuit(check: Card, lead: Option<Card>): (r: bool)
    ensures lead.None? ==> r
    ensures lead.Some? ==> (r <==> check.suit == lead.value.suit)
  {
    var leadSuit := if lead.None? then check.suit else lead.value.suit;
    check.suit == leadSuit
  }

  /**
    * Whether the player holds a card of `suit`. Player.java does not define
    * this check; the model takes it to mean that some held card
    * has that suit.
    */
  predicate HasSuit(p: Player, suit: Suit) {
    exists i :: 0 <= i < |p.hand| && p.hand[i].suit == suit
  }

  /**
    * Whether `check` may be played by `p` when `lead` was led: the card is
    * held, and it follows suit unless it is the lead or the player has no
    * card of the lead suit.
    */
  function Playable(check: Card, p: Player, lead: Option<Card>): (r: bool)
    ensures r ==> check in p.hand
    ensures Find(p.hand, check) < 0 ==> !r
    ensures lead.None? ==> (r <==> check in p.hand)
    ensures lead.Some? && HasSuit(p, lead.value.suit) ==>
              (r <==> check in p.hand && check.suit == lead.value.suit)
    ensures lead.Some? && !HasSuit(p, lead.value.suit) ==> (r <==> check in p.hand)
  {
    var leadSuit := if lead.None? then check.suit else lead.value.suit;
    var legalSuit := FollowsSuit(check, lead) || !HasSuit(p, leadSuit);
    var legalCard := Find(p.hand, check) >= 0;
    legalSuit && legalCard
  }

  /** A player with at least one card always has a legal play. */
  lemma LegalPlayExists(p: Player, lead: Option<Card>)
    requires |p.hand| > 0
    ensures exists c :: Playable(c, p, lead)
  {
    if lead.Some? && HasSuit(p, lead.value.suit) {
      var i :| 0 <= i < |p.hand| && p.hand[i].suit == lead.value.suit;
      assert Playable(p.hand[i], p, lead);
    } else {
      assert Playable(p.hand[0], p, lead);
    }
  }

  /**
    * Hearts led, with suits numbered clubs, diamonds, hearts, spades: a club
    * cannot be played from a hand that holds a heart, but can from one that does not.
    */
  lemma FollowSuitExamples()
    ensures var twoClubs, fiveHearts, threeHearts, sevenSpades :=
              Card(2, 0), Card(5, 2), Card(3, 2), Card(7, 3);
            && !Playable(twoClubs, Player([twoClubs, fiveHearts]), Some(threeHearts))
            && Playable(fiveHearts, Player([twoClubs, fiveHearts]), Some(threeHearts))
            && Playable(twoClubs, Player([twoClubs, sevenSpades]), Some(threeHearts))
  {
    var twoClubs, fiveHearts, threeHearts, sevenSpades :=
      Card(2, 0), Card(5, 2), Card(3, 2), Card(7, 3);
    assert Player([twoClubs, fiveHearts]).hand[1].suit == 2;
  }
}
