/**
 The carousel's selection state machine. The carousel owns a fixed-length
 sequence of items, each reduced to its class list, and two indices: `current`,
 the item shown (class `carousel-item-active`), and `next`, the item a forward
 move shows (class `carousel-item-next`). A click on the left button moves
 forward, a click on the right button moves back; both wrap around.
 */
module Carousel {
  import opened Dom

  const Active := "carousel-item-active"
  const Upcoming := "carousel-item-next"

  /** The two direction strings `showItem` understands. */
  const NextDirection := "next"
  const PrevDirection := "prev"

  datatype Carousel = Carousel(items: seq<ClassList>, current: int, next: int)

  /** The two buttons created from the `.carousel-button` elements. */
  datatype Button = Left | Right

  /** Both indices point at an item, so a move can read and write both of them. */
  predicate Valid(c: Carousel) {
    0 <= c.current < |c.items| && 0 <= c.next < |c.items|
  }

  /** Valid, and `next` is the slot after `current`, as after construction or any move. */
  predicate Wellformed(c: Carousel) {
    Valid(c) && c.next == SetNext(c.current, |c.items|)
  }

  /** `carousel-item-active` is on exactly the current item and `carousel-item-next` on no item but `next`. */
  predicate MarkersSound(c: Carousel) {
    && (forall i :: 0 <= i < |c.items| ==> (Active in c.items[i] <==> i == c.current))
    && (forall i :: 0 <= i < |c.items| && Upcoming in c.items[i] ==> i == c.next)
  }

  /** `carousel-item-active` is on exactly the current item and `carousel-item-next` on exactly the `next` item. */
  predicate MarkersExact(c: Carousel) {
    && (forall i :: 0 <= i < |c.items| ==> (Active in c.items[i] <==> i == c.current))
    && (forall i :: 0 <= i < |c.items| ==> (Upcoming in c.items[i] <==> i == c.next))
  }

  /** The classes of an item that the carousel never touches. */
  function Untouched(s: ClassList): ClassList {
    s - {Active, Upcoming}
  }

  /**
   `setNext`: the index after `current` among `n` items, wrapping from the
   last back to 0. With no active item `current` is -1 and the result is 0.
   */
  function SetNext(current: int, n: nat): (r: int)
    ensures 0 <= current < n ==> 0 <= r < n && r == (current + 1) % n
    ensures current == -1 ==> r == 0
  {
    if current == n - 1 then 0 else current + 1
  }

  /** The index before `current` among `n` items, wrapping from 0 to the last (the step `showItem('prev')` takes). */
  function Before(current: nat, n: nat): (r: nat)
    requires current < n
    ensures r == (current - 1) % n
    ensures SetNext(r, n) == current
  {
    if current == 0 then
      ModUnique(-1, n, -1, n - 1);
      n - 1
    else
      ModUnique(current - 1, n, 0, current - 1);
      current - 1
  }

  /** `findIndex` of the first item, at or after `from`, that carries `carousel-item-active`; -1 if none. */
  function FindActiveFrom(items: seq<ClassList>, from: nat): (r: int)
    requires from <= |items|
    ensures r == -1 || from <= r < |items|
    ensures r == -1 ==> forall j :: from <= j < |items| ==> Active !in items[j]
    ensures r != -1 ==> Active in items[r] && forall j :: from <= j < r ==> Active !in items[j]
    decreases |items| - from
  {
    if from == |items| then -1
    else if Active in items[from] then from
    else FindActiveFrom(items, from + 1)
  }

  /**
   The constructor's index initialisation: `current` is the first item
   already marked active, or -1, and `next` follows it. No class is added to
   any item.
   */
  function Init(items: seq<ClassList>): (c: Carousel)
    ensures c.items == items
    ensures c.current == -1 <==> forall j :: 0 <= j < |items| ==> Active !in items[j]
    ensures c.current != -1 ==>
              && 0 <= c.current < |items|
              && Active in items[c.current]
              && (forall j :: 0 <= j < c.current ==> Active !in items[j])
              && Wellformed(c)
    ensures c.current == -1 ==> c.next == 0
  {
    var current := FindActiveFrom(items, 0);
    Carousel(items, current, SetNext(current, |items|))
  }

  /** `showItem('next')`: the item after the current one becomes current. */
  function ShowNext(c: Carousel): (r: Carousel)
    requires Valid(c)
    ensures Valid(r) && |r.items| == |c.items|
    ensures r.current == c.next
    ensures r.next == (c.next + 1) % |c.items|
    ensures forall i {:trigger r.items[i]} :: 0 <= i < |r.items| ==>
              (Active in r.items[i] <==> i == c.next || (i != c.current && Active in c.items[i]))
    ensures forall i {:trigger r.items[i]} :: 0 <= i < |r.items| ==>
              (Upcoming in r.items[i] <==> i == r.next || (i != c.next && Upcoming in c.items[i]))
    ensures forall i {:trigger r.items[i]} :: 0 <= i < |r.items| ==> Untouched(r.items[i]) == Untouched(c.items[i])
    ensures forall i {:trigger r.items[i]} :: 0 <= i < |r.items| && i != c.current && i != c.next && i != r.next ==>
              r.items[i] == c.items[i]
  {
    var items := RemoveClass(c.items, c.current, Active);
    var items := RemoveClass(items, c.next, Upcoming);
    var items := AddClass(items, c.next, Active);
    var current := c.next;
    var next := SetNext(current, |items|);
    Carousel(AddClass(items, next, Upcoming), current, next)
  }

  /**
   `showItem('prev')`: the item before the current one becomes current; the
   item just left is marked upcoming, so it is the new `next`.
   */
  function ShowPrev(c: Carousel): (r: Carousel)
    requires Valid(c)
    ensures Valid(r) && |r.items| == |c.items|
    ensures r.current == (c.current - 1) % |c.items|
    ensures r.next == c.current
    ensures forall i {:trigger r.items[i]} :: 0 <= i < |r.items| ==>
              (Active in r.items[i] <==> i == r.current || (i != c.current && Active in c.items[i]))
    ensures forall i {:trigger r.items[i]} :: 0 <= i < |r.items| ==>
              (Upcoming in r.items[i] <==> i == c.current || (i != c.next && Upcoming in c.items[i]))
    ensures forall i {:trigger r.items[i]} :: 0 <= i < |r.items| ==> Untouched(r.items[i]) == Untouched(c.items[i])
    ensures forall i {:trigger r.items[i]} :: 0 <= i < |r.items| && i != c.current && i != c.next && i != r.current ==>
              r.items[i] == c.items[i]
  {
    var items := RemoveClass(c.items, c.current, Active);
    var items := RemoveClass(items, c.next, Upcoming);
    var items := AddClass(items, c.current, Upcoming);
    var current := Before(c.current, |items|);
    var items := AddClass(items, current, Active);
    Carousel(items, current, SetNext(current, |items|))
  }

  /**
   `showItem(direction)`: "next" and "prev" move; every other direction is
   ignored. Only a move reads the items at `current` and `next`, so only a
   move needs them in range.
   */
  function ShowItem(c: Carousel, direction: string): (r: Carousel)
    requires direction == NextDirection || direction == PrevDirection ==> Valid(c)
    ensures direction == NextDirection ==> r == ShowNext(c)
    ensures direction == PrevDirection ==> r == ShowPrev(c)
    ensures direction != NextDirection && direction != PrevDirection ==> r == c
  {
    if direction == NextDirection then ShowNext(c)
    else if direction == PrevDirection then ShowPrev(c)
    else c
  }

  /** The direction each button's click handler passes to `showItem`. */
  function Direction(b: Button): string {
    match b
    case Left => NextDirection
    case Right => PrevDirection
  }

  /** A click on button `b`. */
  function Click(c: Carousel, b: Button): (r: Carousel)
    requires Valid(c)
    ensures Valid(r) && |r.items| == |c.items|
    ensures b == Left ==> r.current == c.next && r.next == (c.next + 1) % |c.items|
    ensures b == Right ==> r.current == (c.current - 1) % |c.items| && r.next == c.current
  {
    ShowItem(c, Direction(b))
  }

  /** `k` successive calls of `showItem('next')`. */
  function AdvanceBy(c: Carousel, k: nat): (r: Carousel)
    requires Valid(c)
    ensures Valid(r) && |r.items| == |c.items|
  {
    if k == 0 then c else ShowNext(AdvanceBy(c, k - 1))
  }

  /** `k` successive calls of `showItem('prev')`. */
  function RetreatBy(c: Carousel, k: nat): (r: Carousel)
    requires Valid(c)
    ensures Valid(r) && |r.items| == |c.items|
  {
    if k == 0 then c else ShowPrev(RetreatBy(c, k - 1))
  }

  // ---------------------------------------------------------------------------
  // Modular arithmetic

  lemma MulAwayFromZero(x: int, n: int)
    requires n > 0
    ensures x >= 1 ==> x * n >= n
    ensures x <= -1 ==> x * n <= -n
  {
  }

  /** Division by a positive `n` has one quotient and one remainder in `[0, n)`. */
  lemma ModUnique(a: int, n: int, q: int, m: int)
    requires n > 0 && 0 <= m < n && a == q * n + m
    ensures a % n == m
  {
    var q0, m0 := a / n, a % n;
    assert a == q0 * n + m0;
    assert (q - q0) * n == m0 - m;
    MulAwayFromZero(q - q0, n);
  }

  lemma ModSucc(a: int, n: int)
    requires n > 0
    ensures (a % n + 1) % n == (a + 1) % n
  {
    var q, m := a / n, a % n;
    assert a == q * n + m;
    if m + 1 < n {
      ModUnique(a + 1, n, q, m + 1);
      ModUnique(m + 1, n, 0, m + 1);
    } else {
      assert (q + 1) * n == q * n + n;
      ModUnique(a + 1, n, q + 1, 0);
      ModUnique(m + 1, n, 1, 0);
    }
  }

  lemma ModPred(a: int, n: int)
    requires n > 0
    ensures (a % n - 1) % n == (a - 1) % n
  {
    var q, m := a / n, a % n;
    assert a == q * n + m;
    if m > 0 {
      ModUnique(a - 1, n, q, m - 1);
      ModUnique(m - 1, n, 0, m - 1);
    } else {
      assert (q - 1) * n == q * n - n;
      ModUnique(a - 1, n, q - 1, n - 1);
      ModUnique(m - 1, n, -1, n - 1);
    }
  }

  // ---------------------------------------------------------------------------
  // Properties

  /** Both moves keep `next` the slot after `current`. */
  lemma MovesKeepWellformed(c: Carousel, direction: string)
    requires Valid(c)
    requires direction == NextDirection || direction == PrevDirection
    ensures Wellformed(ShowItem(c, direction))
  {
    if direction == PrevDirection {
      ModSucc(c.current - 1, |c.items|);
    }
  }

  /** Any number of forward moves keeps a carousel well-formed. */
  lemma {:induction false} AdvanceByKeepsWellformed(c: Carousel, k: nat)
    requires Wellformed(c)
    ensures Wellformed(AdvanceBy(c, k))
  {
    if k > 0 {
      AdvanceByKeepsWellformed(c, k - 1);
      MovesKeepWellformed(AdvanceBy(c, k - 1), NextDirection);
    }
  }

  /** One forward move from slot `s mod n` lands on slot `(s + 1) mod n`. */
  lemma AdvanceOnce(c: Carousel, s: int)
    requires Wellformed(c) && c.current == s % |c.items|
    ensures ShowNext(c).current == (s + 1) % |c.items|
  {
    ModSucc(s, |c.items|);
  }

  /** One backward move from slot `s mod n` lands on slot `(s - 1) mod n`. */
  lemma RetreatOnce(c: Carousel, s: int)
    requires Valid(c) && c.current == s % |c.items|
    ensures ShowPrev(c).current == (s - 1) % |c.items|
  {
    ModPred(s, |c.items|);
  }

  /** After `k` forward moves from a well-formed state, `current` is `k` slots further on, wrapping. */
  lemma {:induction false} AdvanceWraps(c: Carousel, k: nat)
    requires Wellformed(c)
    ensures AdvanceBy(c, k).current == (c.current + k) % |c.items|
  {
    if k == 0 {
      ModUnique(c.current, |c.items|, 0, c.current);
    } else {
      AdvanceWraps(c, k - 1);
      AdvanceByKeepsWellformed(c, k - 1);
      AdvanceOnce(AdvanceBy(c, k - 1), c.current + (k - 1));
    }
  }

  /** After `k` backward moves from a well-formed state, `current` is `k` slots back, wrapping. */
  lemma {:induction false} RetreatWraps(c: Carousel, k: nat)
    requires Wellformed(c)
    ensures RetreatBy(c, k).current == (c.current - k) % |c.items|
  {
    if k == 0 {
      ModUnique(c.current, |c.items|, 0, c.current);
    } else {
      RetreatWraps(c, k - 1);
      RetreatOnce(RetreatBy(c, k - 1), c.current - (k - 1));
    }
  }

  /**
   Marker invariant: if the active marker is on exactly the current item and
   the upcoming marker on no item but `next`, then after either move the
   active marker is on exactly the new current item and the upcoming marker
   on exactly the new `next`. This holds for a single item too, where that
   item carries both.
   */
  lemma MovesEstablishMarkers(c: Carousel, direction: string)
    requires Valid(c) && MarkersSound(c)
    requires direction == NextDirection || direction == PrevDirection
    ensures MarkersExact(ShowItem(c, direction))
  {
  }

  lemma ExactIsSound(c: Carousel)
    requires MarkersExact(c)
    ensures MarkersSound(c)
  {
  }

  /** Two class lists that agree on the untouched classes and on both markers are equal. */
  lemma SameClassList(s: ClassList, t: ClassList)
    requires Untouched(s) == Untouched(t)
    requires Active in s <==> Active in t
    requires Upcoming in s <==> Upcoming in t
    ensures s == t
  {
    forall x | x in s ensures x in t {
      if x != Active && x != Upcoming {
        assert x in Untouched(s);
      }
    }
    forall x | x in t ensures x in s {
      if x != Active && x != Upcoming {
        assert x in Untouched(t);
      }
    }
  }

  /** Two carousels with the same indices, untouched classes and exact markers are equal. */
  lemma SameCarousel(c: Carousel, d: Carousel)
    requires |c.items| == |d.items| && c.current == d.current && c.next == d.next
    requires MarkersExact(c) && MarkersExact(d)
    requires forall i :: 0 <= i < |c.items| ==> Untouched(c.items[i]) == Untouched(d.items[i])
    ensures c == d
  {
    forall i | 0 <= i < |c.items| ensures c.items[i] == d.items[i] {
      SameClassList(c.items[i], d.items[i]);
    }
  }

  /**
   A right click followed by a left click, or a left click followed by a right
   click, restores the whole carousel: both indices and every class of every
   item.
   */
  lemma ClickRoundTrip(c: Carousel)
    requires Wellformed(c) && MarkersExact(c)
    ensures Click(Click(c, Right), Left) == c
    ensures Click(Click(c, Left), Right) == c
  {
    ExactIsSound(c);
    var p := ShowPrev(c);
    MovesEstablishMarkers(c, PrevDirection);
    MovesKeepWellformed(c, PrevDirection);
    ExactIsSound(p);
    MovesEstablishMarkers(p, NextDirection);
    SameCarousel(ShowNext(p), c);

    var n := ShowNext(c);
    MovesEstablishMarkers(c, NextDirection);
    ExactIsSound(n);
    MovesEstablishMarkers(n, PrevDirection);
    ModPred(c.next, |c.items|);
    assert (c.current + 1 - 1) % |c.items| == c.current;
    SameCarousel(ShowPrev(n), c);
  }

  /** With a single item both moves stay on it, and it ends up carrying both markers. */
  lemma SingleItem(c: Carousel, direction: string)
    requires |c.items| == 1 && Valid(c)
    requires direction == NextDirection || direction == PrevDirection
    ensures ShowItem(c, direction).current == 0 && ShowItem(c, direction).next == 0
    ensures Active in ShowItem(c, direction).items[0] && Upcoming in ShowItem(c, direction).items[0]
  {
  }

  /**
   A page whose markup marks exactly one item active and no item upcoming
   yields a well-formed carousel whose markers are sound, so the marker
   invariant holds from the first move on.
   */
  lemma InitSound(items: seq<ClassList>, k: nat)
    requires k < |items| && Active in items[k]
    requires forall j :: 0 <= j < |items| && j != k ==> Active !in items[j]
    requires forall j :: 0 <= j < |items| ==> Upcoming !in items[j]
    ensures Init(items).current == k
    ensures Wellformed(Init(items)) && MarkersSound(Init(items))
  {
  }
}
