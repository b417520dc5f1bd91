/** components/Testimonials.tsx: the index of the testimonial on show, moved by the automatic
    advance, the arrow buttons and the dots. */
module Testimonials {

  /** `useState(0)` */
  const InitialIndex := 0

  /** JavaScript's `%`: the remainder takes the sign of the dividend. */
  function JsRem(a: int, n: int): (r: int)
    requires n > 0
    ensures a >= 0 ==> 0 <= r < n
    ensures a < 0 ==> -n < r <= 0
  {
    if a >= 0 then a % n else -((-a) % n)
  }

  /** `%` is the remainder of division truncated toward zero: with that quotient `q`,
      `a == q * n + a % n`. */
  lemma JsRemDivides(a: int, n: int) returns (q: int)
    requires n > 0
    ensures a == q * n + JsRem(a, n)
    ensures a >= 0 ==> q >= 0
    ensures a < 0 ==> q <= 0
  {
    if a >= 0 {
      q := a / n;
    } else {
      q := -((-a) / n);
      assert -a == ((-a) / n) * n + (-a) % n;
    }
  }

  /** The next-arrow and the five-second timer: `(prev + 1) % n`. */
  function Next(prev: int, n: int): int
    requires n > 0
  {
    JsRem(prev + 1, n)
  }

  /** The previous-arrow: `(prev - 1 + n) % n`. */
  function Prev(prev: int, n: int): int
    requires n > 0
  {
    JsRem(prev - 1 + n, n)
  }

  /** A dot: `setCurrentIndex(index)`. */
  function GoTo(index: int): int {
    index
  }

  predicate InRange(i: int, n: int) {
    0 <= i < n
  }

  /** Both arrows keep a valid index valid; the next-arrow wraps from the last to the first. */
  lemma NextInRange(prev: int, n: int)
    requires n > 0 && InRange(prev, n)
    ensures InRange(Next(prev, n), n)
    ensures Next(prev, n) == if prev == n - 1 then 0 else prev + 1
  {
    if prev < n - 1 {
      assert (prev + 1) % n == prev + 1;
    }
  }

  /** The previous-arrow wraps from the first to the last. */
  lemma PrevInRange(prev: int, n: int)
    requires n > 0 && InRange(prev, n)
    ensures InRange(Prev(prev, n), n)
    ensures Prev(prev, n) == if prev == 0 then n - 1 else prev - 1
  {
    if prev > 0 {
      assert (prev - 1 + n) % n == prev - 1;
    }
  }

  /** The arrows undo each other. */
  lemma ArrowsInverse(i: int, n: int)
    requires n > 0 && InRange(i, n)
    ensures Next(Prev(i, n), n) == i && Prev(Next(i, n), n) == i
  {
    PrevInRange(i, n);
    NextInRange(i, n);
    NextInRange(Prev(i, n), n);
    PrevInRange(Next(i, n), n);
  }

  /** `k` ticks of the automatic advance. */
  function Advance(i: int, n: int, k: nat): int
    requires n > 0
  {
    if k == 0 then i else Next(Advance(i, n, k - 1), n)
  }

  /** Starting from the first testimonial, tick `k` shows testimonial `k` for every `k < n`:
      the timer visits each testimonial in turn. */
  lemma {:induction false} AdvanceVisits(n: int, k: nat)
    requires n > 0 && k < n
    ensures Advance(InitialIndex, n, k) == k
  {
    if k > 0 {
      AdvanceVisits(n, k - 1);
      NextInRange(k - 1, n);
    }
  }

  /** After `n` ticks the show is back at the first testimonial. */
  lemma AdvanceCycles(n: int)
    requires n > 0
    ensures Advance(InitialIndex, n, n) == InitialIndex
  {
    AdvanceVisits(n, n - 1);
    NextInRange(n - 1, n);
  }

  /** A dot click selects exactly its testimonial. */
  lemma GoToSelects(index: int, n: int)
    requires InRange(index, n)
    ensures GoTo(index) == index && InRange(GoTo(index), n)
  {
  }
}
