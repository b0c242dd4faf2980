// The flashcard session: a working copy of the deck, the index of the card
// shown, whether it is flipped, and the visibility gate that rejects input
// while a fade-out / update / fade-in transition is in flight.
//
// A transition runs in three steps. The handler (Next, Prev, Mark, Shuffle)
// hides the card and schedules an update; Settle is the 300 ms timer that
// runs the update; Reveal is the 50 ms timer that shows the card again. The
// scheduled update is a closure over the deck as it was when the handler ran,
// so a pending Move carries that deck's length (or the deck itself).

module Flashcards {
  import opened Types

  /** Index after `next`: one on, wrapping to 0 past the end. */
  function NextIndex(i: nat, n: nat): (r: nat)
    requires 0 < n
    ensures r < n
    ensures i < n - 1 ==> r == i + 1
    ensures i == n - 1 ==> r == 0
  {
    (i + 1) % n
  }

  /** Index after `prev`: one back, wrapping to the last card before 0. */
  function PrevIndex(i: nat, n: nat): (r: nat)
    requires 0 < n
    ensures r < n
    ensures 0 < i <= n ==> r == i - 1
    ensures i == 0 ==> r == n - 1
  {
    (i - 1 + n) % n
  }

  /** `prev` undoes `next` and `next` undoes `prev`, on any deck of at least one card. */
  lemma NextPrevRoundTrip(i: nat, n: nat)
    requires i < n
    ensures PrevIndex(NextIndex(i, n), n) == i
    ensures NextIndex(PrevIndex(i, n), n) == i
  {
    if i < n - 1 {
      assert NextIndex(i, n) == i + 1;
    } else {
      assert NextIndex(i, n) == 0;
    }
    if 0 < i {
      assert PrevIndex(i, n) == i - 1;
    } else {
      assert PrevIndex(i, n) == n - 1;
    }
  }

  /** Taking out the element at `k` leaves the rest of the multiset. */
  lemma RemoveAt<T>(deck: seq<T>, k: nat)
    requires k < |deck|
    ensures multiset(deck[..k] + deck[k + 1..]) + multiset{deck[k]} == multiset(deck)
  {
    assert deck == deck[..k] + [deck[k]] + deck[k + 1..];
  }

  /** A random reordering of `deck`: each step draws the card at
      `picks[0] mod (cards left)` (0 once the picks run out). The picks stand
      for the random comparisons of the source's sort; no fairness is claimed. */
  function Shuffled<T>(deck: seq<T>, picks: seq<nat>): (r: seq<T>)
    ensures |r| == |deck|
    ensures multiset(r) == multiset(deck)
    decreases |deck|
  {
    if deck == [] then []
    else
      var k := (if picks == [] then 0 else picks[0]) % |deck|;
      var rest := deck[..k] + deck[k + 1..];
      RemoveAt(deck, k);
      [deck[k]] + Shuffled(rest, if picks == [] then [] else picks[1..])
  }

  /** The number of cards of `cards` with status `s`. */
  function CountStatus(cards: seq<Flashcard>, s: CardStatus): (r: nat)
    ensures r <= |cards|
  {
    if cards == [] then 0
    else CountStatus(cards[1..], s) + (if cards[0].status == s then 1 else 0)
  }

  /** The known, review and new counts add up to the deck size. */
  lemma {:induction false} StatusCountsSum(cards: seq<Flashcard>)
    ensures CountStatus(cards, Known) + CountStatus(cards, Review) + CountStatus(cards, New) == |cards|
  {
    if cards != [] {
      StatusCountsSum(cards[1..]);
    }
  }

  /** Setting card `i` to status `s` adds one to the count of `s` unless the
      card already had it. */
  lemma {:induction false} CountAfterMark(cards: seq<Flashcard>, i: nat, s: CardStatus)
    requires i < |cards|
    ensures CountStatus(cards[i := cards[i].(status := s)], s)
            == CountStatus(cards, s) + (if cards[i].status == s then 0 else 1)
  {
    var marked := cards[i := cards[i].(status := s)];
    if i == 0 {
      assert marked[1..] == cards[1..];
    } else {
      CountAfterMark(cards[1..], i - 1, s);
      assert marked[1..] == cards[1..][i - 1 := cards[i].(status := s)];
    }
  }

  /** A deck with no card of status `s`: its count is zero. */
  lemma {:induction false} CountAbsent(cards: seq<Flashcard>, s: CardStatus)
    requires forall j :: 0 <= j < |cards| ==> cards[j].status != s
    ensures CountStatus(cards, s) == 0
  {
    if cards != [] {
      CountAbsent(cards[1..], s);
    }
  }

  /** Marking one card of an all-new deck `known` leaves exactly one known card. */
  lemma MarkOneOfFreshDeck(cards: seq<Flashcard>, i: nat)
    requires i < |cards|
    requires forall j :: 0 <= j < |cards| ==> cards[j].status == New
    ensures CountStatus(cards[i := cards[i].(status := Known)], Known) == 1
  {
    CountAbsent(cards, Known);
    CountAfterMark(cards, i, Known);
  }

  /** The update a transition has scheduled, over the deck it captured. */
  datatype Move = Advance(n: nat) | Retreat(n: nat) | Reshuffle(deck: seq<Flashcard>)

  class FlashcardSession {
    var cards: seq<Flashcard>
    var currentIndex: nat
    var isFlipped: bool
    var isVisible: bool
    var pending: Option<Move>

    /** An update is pending only while the card is hidden, and it was
        scheduled over a non-empty deck. */
    ghost predicate Valid()
      reads this
    {
      && (pending.Some? ==> !isVisible)
      && (pending.Some? && pending.value.Advance? ==> 0 < pending.value.n)
      && (pending.Some? && pending.value.Retreat? ==> 0 < pending.value.n)
      && (pending.Some? && pending.value.Reshuffle? ==> 0 < |pending.value.deck|)
    }

    /** The index addresses a card of the working copy. */
    ghost predicate InRange()
      reads this
    {
      currentIndex < |cards|
    }

    constructor (flashcards: seq<Flashcard>)
      ensures Valid()
      ensures cards == flashcards && currentIndex == 0
      ensures !isFlipped && isVisible && pending == None
    {
      cards := flashcards;
      currentIndex := 0;
      isFlipped := false;
      isVisible := true;
      pending := None;
    }

    /** A new upstream deck replaces the working copy; the index is kept, so
        it still addresses a card only if the new deck is long enough. */
    method ReplaceDeck(flashcards: seq<Flashcard>)
      requires Valid()
      modifies this
      ensures Valid()
      ensures cards == flashcards
      ensures currentIndex == old(currentIndex) && isFlipped == old(isFlipped)
      ensures isVisible == old(isVisible) && pending == old(pending)
      ensures InRange() <==> old(currentIndex) < |flashcards|
    {
      cards := flashcards;
    }

    /** Clicking the card turns it over; nothing else changes. */
    method Flip()
      requires Valid()
      modifies this
      ensures Valid()
      ensures isFlipped == !old(isFlipped)
      ensures cards == old(cards) && currentIndex == old(currentIndex)
      ensures isVisible == old(isVisible) && pending == old(pending)
    {
      isFlipped := !isFlipped;
    }

    /** Starts a transition that will run `move`, unless one is in flight. */
    method Animate(move: Move)
      requires Valid()
      requires move.Advance? ==> 0 < move.n
      requires move.Retreat? ==> 0 < move.n
      requires move.Reshuffle? ==> 0 < |move.deck|
      modifies this
      ensures Valid()
      ensures old(isVisible) ==> !isVisible && pending == Some(move)
      ensures !old(isVisible) ==> isVisible == old(isVisible) && pending == old(pending)
      ensures cards == old(cards) && currentIndex == old(currentIndex) && isFlipped == old(isFlipped)
    {
      if !isVisible {
        return;
      }
      isVisible := false;
      pending := Some(move);
    }

    /** The `next` button: schedules a move one card on; ignored mid-transition. */
    method Next()
      requires Valid() && 0 < |cards|
      modifies this
      ensures Valid()
      ensures old(isVisible) ==> !isVisible && pending == Some(Advance(|cards|))
      ensures !old(isVisible) ==> isVisible == old(isVisible) && pending == old(pending)
      ensures cards == old(cards) && currentIndex == old(currentIndex) && isFlipped == old(isFlipped)
    {
      Animate(Advance(|cards|));
    }

    /** The `prev` button: schedules a move one card back; ignored mid-transition. */
    method Prev()
      requires Valid() && 0 < |cards|
      modifies this
      ensures Valid()
      ensures old(isVisible) ==> !isVisible && pending == Some(Retreat(|cards|))
      ensures !old(isVisible) ==> isVisible == old(isVisible) && pending == old(pending)
      ensures cards == old(cards) && currentIndex == old(currentIndex) && isFlipped == old(isFlipped)
    {
      Animate(Retreat(|cards|));
    }

    /** Marking the shown card `known` or `review`: sets that card's status in
        the working copy, then advances exactly as `next`; ignored mid-transition. */
    method Mark(s: CardStatus)
      requires Valid() && InRange() && s != New
      modifies this
      ensures Valid()
      ensures old(isVisible) ==>
                && cards == old(cards)[old(currentIndex) := old(cards)[old(currentIndex)].(status := s)]
                && !isVisible && pending == Some(Advance(|cards|))
      ensures !old(isVisible) ==>
                cards == old(cards) && isVisible == old(isVisible) && pending == old(pending)
      ensures |cards| == |old(cards)|
      ensures currentIndex == old(currentIndex) && isFlipped == old(isFlipped)
    {
      if !isVisible {
        return;
      }
      cards := cards[currentIndex := cards[currentIndex].(status := s)];
      Next();
    }

    /** The shuffle button: schedules a reshuffle of the current deck;
        ignored mid-transition. */
    method Shuffle()
      requires Valid() && 0 < |cards|
      modifies this
      ensures Valid()
      ensures old(isVisible) ==> !isVisible && pending == Some(Reshuffle(cards))
      ensures !old(isVisible) ==> isVisible == old(isVisible) && pending == old(pending)
      ensures cards == old(cards) && currentIndex == old(currentIndex) && isFlipped == old(isFlipped)
    {
      Animate(Reshuffle(cards));
    }

    /** The fade-out timer fires: the scheduled update runs with the card
        unflipped; the card stays hidden until Reveal. `picks` is the
        randomness a reshuffle consumes. */
    method Settle(picks: seq<nat>)
      requires Valid() && pending.Some?
      modifies this
      ensures Valid()
      ensures pending == None && !isVisible && !isFlipped
      ensures old(pending).value.Advance? ==>
                cards == old(cards) && currentIndex == NextIndex(old(currentIndex), old(pending).value.n)
      ensures old(pending).value.Retreat? ==>
                cards == old(cards) && currentIndex == PrevIndex(old(currentIndex), old(pending).value.n)
      ensures old(pending).value.Reshuffle? ==>
                && cards == Shuffled(old(pending).value.deck, picks)
                && multiset(cards) == multiset(old(pending).value.deck)
                && currentIndex == 0
      ensures old(pending).value.Reshuffle? ==> InRange()
      ensures !old(pending).value.Reshuffle? && old(pending).value.n == |cards| ==> InRange()
    {
      match pending.value {
        case Advance(n) =>
          isFlipped := false;
          currentIndex := NextIndex(currentIndex, n);
        case Retreat(n) =>
          isFlipped := false;
          currentIndex := PrevIndex(currentIndex, n);
        case Reshuffle(deck) =>
          isFlipped := false;
          cards := Shuffled(deck, picks);
          currentIndex := 0;
      }
      pending := None;
    }

    /** The fade-in timer fires: input is accepted again. */
    method Reveal()
      requires Valid() && pending == None
      modifies this
      ensures Valid() && isVisible
      ensures cards == old(cards) && currentIndex == old(currentIndex)
      ensures isFlipped == old(isFlipped) && pending == None
    {
      isVisible := true;
    }
  }

  /** `next` followed by `prev`, each run to the end of its transition,
      shows the card it started from. */
  method NextThenPrev(session: FlashcardSession, picks: seq<nat>)
    requires session.Valid() && session.isVisible && session.InRange()
    modifies session
    ensures session.Valid() && session.isVisible && !session.isFlipped
    ensures session.cards == old(session.cards)
    ensures session.currentIndex == old(session.currentIndex)
  {
    session.Next();
    session.Settle(picks);
    session.Reveal();
    session.Prev();
    session.Settle(picks);
    session.Reveal();
    NextPrevRoundTrip(old(session.currentIndex), |session.cards|);
  }
}
