/** components/Portfolio.tsx: the carousel index moved by `moveCarousel`, and the guard that
    decides whether a project's demo opens. */
module Portfolio {
  import opened Wrappers
  import opened Security

  /** `portfolioItems.length` */
  const ItemCount := 4

  /** `Math.max(0, portfolioItems.length - 3)`: three cards are visible at once. */
  function MaxIndex(n: nat): (m: nat)
    ensures n >= 3 ==> m + 3 == n
    ensures n < 3 ==> m == 0
  {
    if n >= 3 then n - 3 else 0
  }

  /** The updater `moveCarousel(direction)` passes to `setCurrentIndex`. */
  function MoveCarousel(n: nat, prev: int, direction: int): (r: int)
    ensures 0 <= r <= MaxIndex(n)
    ensures prev + direction < 0 ==> r == MaxIndex(n)
    ensures prev + direction > MaxIndex(n) ==> r == 0
    ensures 0 <= prev + direction <= MaxIndex(n) ==> r == prev + direction
  {
    var maxIndex := MaxIndex(n);
    var newIndex := prev + direction;
    if newIndex < 0 then maxIndex
    else if newIndex > maxIndex then 0
    else newIndex
  }

  /** Every position the arrows reach leaves three projects to show when there are three. */
  lemma CarouselShowsThree(n: nat, prev: int, direction: int)
    requires n >= 3
    ensures MoveCarousel(n, prev, direction) + 3 <= n
  {
  }

  /** `MaxIndex` is the last start with a full window of three behind it. */
  lemma MaxIndexIsLastWindow(n: nat, i: nat)
    requires i + 3 <= n
    ensures i <= MaxIndex(n) && MaxIndex(n) + 3 <= n
  {
  }

  /** With the four shipped projects the carousel has two positions, 0 and 1. */
  lemma ShippedMaxIndex()
    ensures MaxIndex(ItemCount) == 1
  {
  }

  /** With fewer than three projects the carousel never leaves position 0. */
  lemma FewItemsStayPut(n: nat, prev: int, direction: int)
    requires n < 3
    ensures MoveCarousel(n, prev, direction) == 0
  {
  }

  /** From any position, one step back undoes one step forward and the other way round. */
  lemma StepsUndo(n: nat, i: int)
    requires 0 <= i <= MaxIndex(n)
    ensures MoveCarousel(n, MoveCarousel(n, i, 1), -1) == i
    ensures MoveCarousel(n, MoveCarousel(n, i, -1), 1) == i
  {
  }

  /** `k` ticks of the six-second auto-scroll, each `moveCarousel(1)`. */
  function AutoScroll(n: nat, i: int, k: nat): int {
    if k == 0 then i else MoveCarousel(n, AutoScroll(n, i, k - 1), 1)
  }

  /** Auto-scroll from a position climbs one card per tick until the last position. */
  lemma {:induction false} AutoScrollClimbs(n: nat, i: int, k: nat)
    requires 0 <= i && i + k <= MaxIndex(n)
    ensures AutoScroll(n, i, k) == i + k
  {
    if k > 0 {
      AutoScrollClimbs(n, i, k - 1);
    }
  }

  /** After `MaxIndex + 1` ticks the auto-scroll is back where it started. */
  lemma {:induction false} AutoScrollCycles(n: nat, i: int)
    requires 0 <= i <= MaxIndex(n)
    ensures AutoScroll(n, i, MaxIndex(n) + 1) == i
  {
    var m := MaxIndex(n);
    AutoScrollClimbs(n, i, m - i);
    AutoScrollAppend(n, i, m - i, 1);
    assert AutoScroll(n, i, m - i + 1) == 0;
    AutoScrollAppend(n, i, m - i + 1, i);
    AutoScrollClimbs(n, 0, i);
  }

  /** Ticks compose: `j` ticks after `k` ticks are `k + j` ticks. */
  lemma {:induction false} AutoScrollAppend(n: nat, i: int, k: nat, j: nat)
    ensures AutoScroll(n, i, k + j) == AutoScroll(n, AutoScroll(n, i, k), j)
  {
    if j > 0 {
      AutoScrollAppend(n, i, k, j - 1);
    }
  }

  // ---------------------------------------------------------------------------------------
  // The demo guard

  /** `item.demo && item.demo !== '#' && isValidUrl(item.demo)`: `demo` is `None` where the
      item has no demo; `hasWindow` and `parsed` are the inputs of `isValidUrl`. */
  predicate CanOpenDemo(demo: Option<string>, hasWindow: bool, parsed: Option<ParsedUrl>) {
    demo.Some? && demo.value != [] && demo.value != "#" && IsValidUrl(demo.value, hasWindow, parsed)
  }

  /** A demo opens only for an `http:` or `https:` address that passed every check of
      `isValidUrl`. */
  lemma DemoNeedsWebAddress(demo: Option<string>, hasWindow: bool, parsed: Option<ParsedUrl>)
    requires CanOpenDemo(demo, hasWindow, parsed)
    ensures hasWindow && parsed.Some? && IsWebProtocol(parsed.value.protocol)
    ensures !IsSuspicious(demo.value)
  {
  }

  /** The `demo` field of each shipped project. */
  const ShippedDemos: seq<Option<string>> := [Some("#"), Some("#"), Some("#"), Some("#")]

  /** Every shipped project has `demo: '#'`, so no demo ever opens, from the card or from the
      project's detail view. */
  lemma ShippedDemosNeverOpen(hasWindow: bool, parsed: Option<ParsedUrl>)
    ensures |ShippedDemos| == ItemCount
    ensures forall k :: 0 <= k < |ShippedDemos| ==> !CanOpenDemo(ShippedDemos[k], hasWindow, parsed)
  {
    forall k | 0 <= k < |ShippedDemos|
      ensures !CanOpenDemo(ShippedDemos[k], hasWindow, parsed)
    {
      assert ShippedDemos[k] == Some("#");
    }
  }
}
