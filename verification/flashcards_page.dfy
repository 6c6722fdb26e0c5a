/** The study view of components/pages/FlashcardsPage.tsx: one card of a
    note's deck at a time, flipped by a tap and paged through with wrap-around
    in both directions. */
module FlashcardsPage {
  import opened Types

  /** The index `paginate` moves to from `prevIndex` in `newDirection`.
      `deckLength` is None while the deck has not loaded. Stepping below the
      first card wraps to the last one, and stepping past the last card
      wraps to the first (see NextIndexInDeck and NextIndexIsModular). */
  function NextIndex(prevIndex: int, newDirection: int, deckLength: Option<nat>): int
  {
    match deckLength
    case None => 0
    case Some(n) =>
      var newIndex := prevIndex + newDirection;
      if newIndex < 0 then n - 1
      else if newIndex >= n then 0
      else newIndex
  }

  /** Each case of the index update, for any previous index and direction:
      no deck gives 0, a step below 0 gives the last index, a step to the
      length or beyond gives 0, and any other step lands on `prev + dir`. */
  lemma NextIndexCases(prevIndex: int, newDirection: int, deckLength: Option<nat>)
    ensures var r, newIndex := NextIndex(prevIndex, newDirection, deckLength), prevIndex + newDirection;
      && (deckLength.None? ==> r == 0)
      && (deckLength.Some? && newIndex < 0 ==> r == deckLength.value - 1)
      && (deckLength.Some? && newIndex >= deckLength.value ==> r == 0)
      && (deckLength.Some? && 0 <= newIndex < deckLength.value ==> r == newIndex)
  {
  }

  /** The buttons and swipes move by one card: the predicate the page keeps
      for every call of `paginate`. */
  predicate IsStep(newDirection: int)
  {
    newDirection == 1 || newDirection == -1
  }

  /** On a deck with cards, a one-card step from a card of the deck lands on a
      card of the deck. The page renders the pager only when the deck is
      loaded and non-empty, so this is the case every button press meets. */
  lemma NextIndexInDeck(prevIndex: int, newDirection: int, n: nat)
    requires 0 <= prevIndex < n && IsStep(newDirection)
    ensures 0 <= NextIndex(prevIndex, newDirection, Some(n)) < n
  {
  }

  /** The wrap-around is arithmetic modulo the deck length. */
  lemma NextIndexIsModular(prevIndex: int, newDirection: int, n: nat)
    requires 0 <= prevIndex < n && IsStep(newDirection)
    ensures NextIndex(prevIndex, newDirection, Some(n)) == (prevIndex + newDirection) % n
  {
    var x := prevIndex + newDirection;
    if x < 0 {
      assert x == -1;
      ModUnique(x, n, -1, n - 1);
    } else if x >= n {
      assert x == n;
      ModUnique(x, n, 1, 0);
    } else {
      ModUnique(x, n, 0, x);
    }
  }

  /** Euclidean division has one remainder: a quotient and remainder in
      range that rebuild `x` are the ones `%` gives. */
  lemma ModUnique(x: int, n: int, q: int, r: int)
    requires 0 <= r < n && x == n * q + r
    ensures x % n == r
  {
    var q', r' := x / n, x % n;
    assert x == n * q' + r' && 0 <= r' < n;
    assert n * (q - q') == r' - r;
    if q > q' {
      MulAtLeast(n, q - q');
      assert false;
    } else if q < q' {
      MulAtLeast(n, q' - q);
      assert false;
    }
  }

  lemma {:induction false} MulAtLeast(n: int, d: int)
    requires n >= 1 && d >= 1
    ensures n * d >= n
    decreases d
  {
    if d > 1 {
      MulAtLeast(n, d - 1);
      assert n * d == n * (d - 1) + n;
    }
  }

  /** Back undoes Next and Next undoes Back, on any deck with cards. */
  lemma NextIndexInverse(prevIndex: int, n: nat)
    requires 0 <= prevIndex < n
    ensures NextIndex(NextIndex(prevIndex, 1, Some(n)), -1, Some(n)) == prevIndex
    ensures NextIndex(NextIndex(prevIndex, -1, Some(n)), 1, Some(n)) == prevIndex
  {
  }

  /** The index after `k` presses of Next from `start`. */
  function Forward(start: int, k: nat, n: nat): int
  {
    if k == 0 then start else NextIndex(Forward(start, k - 1, n), 1, Some(n))
  }

  /** Pressing Next `k` times moves `k` cards on, modulo the deck length; so
      `n` presses bring the deck round to the card it started on. */
  lemma {:induction false} ForwardIsModular(start: int, k: nat, n: nat)
    requires 0 <= start < n
    ensures Forward(start, k, n) == (start + k) % n
  {
    if k == 0 {
      ModUnique(start, n, 0, start);
    } else {
      ForwardIsModular(start, k - 1, n);
      var a := Forward(start, k - 1, n);
      var x := start + k - 1;
      assert a == x % n;
      NextIndexIsModular(a, 1, n);
      ModNext(x, n);
    }
  }

  /** One more than `x`, modulo `n`, from the remainder of `x`. */
  lemma ModNext(x: int, n: int)
    requires n >= 1
    ensures (x + 1) % n == if x % n + 1 < n then x % n + 1 else 0
  {
    var q, a := x / n, x % n;
    assert x == n * q + a && 0 <= a < n;
    if a + 1 < n {
      ModUnique(x + 1, n, q, a + 1);
    } else {
      assert n * (q + 1) == n * q + n;
      ModUnique(x + 1, n, q + 1, 0);
    }
  }

  lemma FullLap(start: int, n: nat)
    requires 0 <= start < n
    ensures Forward(start, n, n) == start
  {
    ForwardIsModular(start, n, n);
    ModUnique(start + n, n, 1, start);
  }

  /** `flashcards?.[currentIndex]`: the card on show, if the deck has loaded
      and the index falls inside it. */
  function ActiveCard(deck: Option<seq<Card>>, index: int): (r: Option<Card>)
    ensures r.Some? <==> deck.Some? && 0 <= index < |deck.value|
    ensures r.Some? ==> r.value == deck.value[index]
  {
    match deck
    case None => None
    case Some(cards) => if 0 <= index < |cards| then Some(cards[index]) else None
  }

  /** After a one-card step on a loaded deck with cards there is always a card
      on show. */
  lemma PaginateShowsACard(deck: seq<Card>, prevIndex: int, newDirection: int)
    requires deck != [] && 0 <= prevIndex < |deck| && IsStep(newDirection)
    ensures ActiveCard(Some(deck), NextIndex(prevIndex, newDirection, Some(|deck|))).Some?
  {
    NextIndexInDeck(prevIndex, newDirection, |deck|);
  }

  /** The view state of the page: the index of the card on show, whether it
      shows its back, and the direction of the last move (which way the card
      animation slides). */
  class Pager {
    var currentIndex: int
    var isFlipped: bool
    var direction: int

    /** The pager starts on the first card, front up, with no direction. */
    constructor()
      ensures currentIndex == 0 && !isFlipped && direction == 0
    {
      currentIndex := 0;
      isFlipped := false;
      direction := 0;
    }

    /** The card on show is a card of a deck of `n` cards. */
    predicate InDeck(n: nat)
      reads this
    {
      0 <= currentIndex < n
    }

    /** `paginate(newDirection)`: turns the card front up, records the
        direction, and moves the index with wrap-around; a one-card step on
        a deck with cards keeps the index inside the deck. */
    method Paginate(newDirection: int, deckLength: Option<nat>)
      modifies this
      ensures !isFlipped && direction == newDirection
      ensures currentIndex == NextIndex(old(currentIndex), newDirection, deckLength)
      ensures deckLength.Some? && old(InDeck(deckLength.value)) && IsStep(newDirection) ==>
                InDeck(deckLength.value)
    {
      isFlipped := false;
      direction := newDirection;
      currentIndex := NextIndex(currentIndex, newDirection, deckLength);
      if deckLength.Some? && old(InDeck(deckLength.value)) && IsStep(newDirection) {
        NextIndexInDeck(old(currentIndex), newDirection, deckLength.value);
      }
    }

    /** A tap on the card or the Flip Card button turns the card over and
        moves nothing. */
    method Flip()
      modifies this
      ensures isFlipped == !old(isFlipped)
      ensures currentIndex == old(currentIndex) && direction == old(direction)
    {
      isFlipped := !isFlipped;
    }
  }
}
