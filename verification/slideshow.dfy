/**
 * The slideshow state machine of script.js once the gallery is rendered: which slide and which
 * dot carry the `active` class, the shared `currentIndex`, and the single rotation interval.
 */
module Slideshow {
  import opened Wrappers
  import opened Decimal

  // ---------------------------------------------------------------------------
  // Index arithmetic of nextSlide and prevSlideFn. Every index that reaches these
  // functions is non-negative, so JavaScript's truncating `%` and Dafny's `%` agree.
  // ---------------------------------------------------------------------------

  /** `(currentIndex + 1) % slides.length`: the position after `c`, wrapping at `n`. */
  function NextIndex(c: nat, n: nat): (r: nat)
    requires n > 0
    ensures r < n && (c + 1 - r) % n == 0
  {
    var r := (c + 1) % n;
    DivModUnique(c + 1 - r, n, (c + 1) / n, 0);
    r
  }

  /** `(currentIndex - 1 + slides.length) % slides.length`: the position before `c`, wrapping at `n`. */
  function PrevIndex(c: nat, n: nat): (r: nat)
    requires n > 0
    ensures r < n && (c + n - 1 - r) % n == 0
  {
    var r := (c - 1 + n) % n;
    DivModUnique(c + n - 1 - r, n, (c + n - 1) / n, 0);
    r
  }

  /** Within range, "next" moves one position up and wraps from the last slide to the first. */
  lemma NextIndexSteps(c: nat, n: nat)
    requires c < n
    ensures c < n - 1 ==> NextIndex(c, n) == c + 1
    ensures c == n - 1 ==> NextIndex(c, n) == 0
  {
    if c < n - 1 {
      DivModUnique(c + 1, n, 0, c + 1);
    } else {
      DivModUnique(c + 1, n, 1, 0);
    }
  }

  /** "Previous" moves one position down and wraps from the first slide to the last. */
  lemma PrevIndexSteps(c: nat, n: nat)
    requires 0 < n && c <= n
    ensures 0 < c ==> PrevIndex(c, n) == c - 1
    ensures c == 0 ==> PrevIndex(c, n) == n - 1
  {
    if 0 < c {
      DivModUnique(c - 1 + n, n, 1, c - 1);
    } else {
      DivModUnique(c - 1 + n, n, 0, n - 1);
    }
  }

  /** Going forward then back, or back then forward, returns to any in-range position. */
  lemma NextPrevInverse(c: nat, n: nat)
    requires c < n
    ensures PrevIndex(NextIndex(c, n), n) == c
    ensures NextIndex(PrevIndex(c, n), n) == c
  {
    NextIndexSteps(c, n);
    PrevIndexSteps(c, n);
    PrevIndexSteps(NextIndex(c, n), n);
    NextIndexSteps(PrevIndex(c, n), n);
  }

  /** `k` successive calls of nextSlide from `c`. */
  function NextTimes(c: nat, n: nat, k: nat): (r: nat)
    requires c < n
    ensures r < n
  {
    if k == 0 then c else NextIndex(NextTimes(c, n, k - 1), n)
  }

  /** `k` successive calls of prevSlideFn from `c`. */
  function PrevTimes(c: nat, n: nat, k: nat): (r: nat)
    requires c < n
    ensures r < n
  {
    if k == 0 then c else PrevIndex(PrevTimes(c, n, k - 1), n)
  }

  /** After `k` steps forward the slideshow is at `(c + k) mod n`. */
  lemma {:induction false} NextTimesIsAddition(c: nat, n: nat, k: nat)
    requires c < n
    ensures NextTimes(c, n, k) == (c + k) % n
  {
    if k == 0 {
      DivModUnique(c, n, 0, c);
    } else {
      NextTimesIsAddition(c, n, k - 1);
      Congruent(c + k - 1, NextTimes(c, n, k - 1), n);
    }
  }

  /** After `k` steps back the slideshow is at `(c - k) mod n`. */
  lemma {:induction false} PrevTimesIsSubtraction(c: nat, n: nat, k: nat)
    requires c < n
    ensures PrevTimes(c, n, k) == (c - k) % n
  {
    if k == 0 {
      DivModUnique(c, n, 0, c);
    } else {
      PrevTimesIsSubtraction(c, n, k - 1);
      CongruentBack(c - k + 1, PrevTimes(c, n, k - 1), n);
    }
  }

  /** If `r` is `a mod n` then `(r + 1) mod n` is `(a + 1) mod n`. */
  lemma Congruent(a: nat, r: nat, n: nat)
    requires n > 0 && r == a % n
    ensures (r + 1) % n == (a + 1) % n
  {
    var q := a / n;
    assert a == n * q + r;
    if r + 1 < n {
      DivModUnique(a + 1, n, q, r + 1);
      DivModUnique(r + 1, n, 0, r + 1);
    } else {
      assert a + 1 == n * (q + 1);
      DivModUnique(a + 1, n, q + 1, 0);
      DivModUnique(r + 1, n, 1, 0);
    }
  }

  /** If `r` is `a mod n` then `(r - 1 + n) mod n` is `(a - 1) mod n`. */
  lemma CongruentBack(a: int, r: nat, n: nat)
    requires n > 0 && r == a % n
    ensures (r - 1 + n) % n == (a - 1) % n
  {
    var q := a / n;
    assert a == n * q + r;
    if r > 0 {
      DivModUnique(a - 1, n, q, r - 1);
      DivModUnique(r - 1 + n, n, 1, r - 1);
    } else {
      assert a - 1 == n * (q - 1) + (n - 1);
      DivModUnique(a - 1, n, q - 1, n - 1);
      DivModUnique(n - 1, n, 0, n - 1);
    }
  }

  /** Euclidean division has one quotient and one remainder. */
  lemma DivModUnique(a: int, n: nat, q: int, r: int)
    requires n > 0 && 0 <= r < n && a == n * q + r
    ensures a % n == r
  {
    var q', r' := a / n, a % n;
    var d := q - q';
    assert n * d == r' - r by {
      assert n * q - n * q' == n * (q - q');
    }
    if d > 0 {
      MulAtLeast(n, d);
    } else if d < 0 {
      MulAtLeast(n, -d);
    }
  }

  lemma MulAtLeast(n: nat, d: int)
    requires d >= 1
    ensures n * d >= n
  {
    var e: nat := d - 1;
    assert n * d == n * e + n;
  }

  /** `n` presses of "next" from an in-range position come back to it. */
  lemma NextCycle(c: nat, n: nat)
    requires c < n
    ensures NextTimes(c, n, n) == c
  {
    NextTimesIsAddition(c, n, n);
    DivModUnique(c + n, n, 1, c);
  }

  /** `n` presses of "previous" from an in-range position come back to it. */
  lemma PrevCycle(c: nat, n: nat)
    requires c < n
    ensures PrevTimes(c, n, n) == c
  {
    PrevTimesIsSubtraction(c, n, n);
    DivModUnique(c - n, n, -1, c);
  }

  // ---------------------------------------------------------------------------
  // Active marks
  // ---------------------------------------------------------------------------

  /** What `showSlide(k)` leaves on a list of `n` elements: element `i` is active iff `i == k`. */
  function Marks(n: nat, k: nat): (m: seq<bool>)
    ensures |m| == n
    ensures forall i :: 0 <= i < n ==> (m[i] <==> i == k)
  {
    seq(n, i => i == k)
  }

  /** The number of active elements. */
  function CountActive(m: seq<bool>): nat {
    if m == [] then 0 else CountActive(m[..|m| - 1]) + (if m[|m| - 1] then 1 else 0)
  }

  /** After `showSlide(k)` exactly one element is active when `k` is in range, and none otherwise. */
  lemma {:induction false} MarksCount(n: nat, k: nat)
    ensures CountActive(Marks(n, k)) == if k < n then 1 else 0
  {
    if n > 0 {
      MarksCount(n - 1, k);
      assert Marks(n, k)[..n - 1] == Marks(n - 1, k);
    }
  }

  // ---------------------------------------------------------------------------
  // The controller
  // ---------------------------------------------------------------------------

  /**
   * The rendered slideshow. `slides` and `dots` hold the `active` class of each slide and dot,
   * `dataIndex` the `data-index` attribute of each dot. The timer is kept abstractly: the handle
   * in `autoInterval`, the set of intervals the page has registered and not cleared (`live`),
   * and the next handle `setInterval` will hand out (handles are positive, hence truthy).
   */
  class Gallery {
    const slides: array<bool>
    const dots: array<bool>
    const dataIndex: seq<string>
    var currentIndex: nat
    var autoInterval: Option<nat>
    var live: set<nat>
    var nextHandle: nat

    /** The number of rendered slides, `slides.length`. */
    function N(): nat
      reads this
    {
      slides.Length
    }

    ghost predicate Valid()
      reads this
    {
      && slides != dots
      && slides.Length == dots.Length == |dataIndex| > 0
      && (forall j :: 0 <= j < |dataIndex| ==> IsDigits(dataIndex[j]))
      && live == (if autoInterval.Some? then {autoInterval.value} else {})
      && (forall h :: h in live ==> 0 < h < nextHandle)
      && nextHandle > 0
    }

    /** Exactly one slide and one dot are active, at the same in-range position `currentIndex`. */
    ghost predicate Aligned()
      reads this, slides, dots
      requires Valid()
    {
      && currentIndex < N()
      && slides[..] == Marks(N(), currentIndex)
      && dots[..] == Marks(N(), currentIndex)
    }

    /**
     * The state right after the render pass: the slides and dots with the classes the pass gave
     * them, `currentIndex = 0` and `autoInterval = null`.
     */
    constructor (slideMarks: seq<bool>, dotMarks: seq<bool>, dataIndex: seq<string>)
      requires |slideMarks| == |dotMarks| == |dataIndex| > 0
      requires forall j :: 0 <= j < |dataIndex| ==> IsDigits(dataIndex[j])
      ensures Valid() && fresh(slides) && fresh(dots)
      ensures slides[..] == slideMarks && dots[..] == dotMarks && this.dataIndex == dataIndex
      ensures currentIndex == 0 && autoInterval == None && live == {}
    {
      slides := new bool[|slideMarks|](i requires 0 <= i < |slideMarks| => slideMarks[i]);
      dots := new bool[|dotMarks|](i requires 0 <= i < |dotMarks| => dotMarks[i]);
      this.dataIndex := dataIndex;
      currentIndex := 0;
      autoInterval := None;
      live := {};
      nextHandle := 1;
    }

    /** `showSlide(index)`: slide and dot `i` are active iff `i == index`; `currentIndex` becomes `index`. */
    method ShowSlide(index: nat)
      requires Valid()
      modifies slides, dots, this`currentIndex
      ensures Valid()
      ensures slides[..] == Marks(N(), index) && dots[..] == Marks(N(), index)
      ensures currentIndex == index
      ensures index < N() ==> Aligned()
    {
      for i := 0 to slides.Length
        invariant forall k :: 0 <= k < i ==> slides[k] == (k == index)
      {
        slides[i] := i == index;
      }
      for i := 0 to dots.Length
        invariant forall k :: 0 <= k < slides.Length ==> slides[k] == (k == index)
        invariant forall k :: 0 <= k < i ==> dots[k] == (k == index)
      {
        dots[i] := i == index;
      }
      currentIndex := index;
    }

    /** `nextSlide()`, also the callback the rotation interval runs: it never touches the timer. */
    method Next()
      requires Valid()
      modifies slides, dots, this`currentIndex
      ensures Valid() && Aligned()
      ensures currentIndex == NextIndex(old(currentIndex), N())
    {
      ShowSlide(NextIndex(currentIndex, slides.Length));
    }

    /** `prevSlideFn()`. */
    method Prev()
      requires Valid()
      modifies slides, dots, this`currentIndex
      ensures Valid() && Aligned()
      ensures currentIndex == PrevIndex(old(currentIndex), N())
    {
      ShowSlide(PrevIndex(currentIndex, slides.Length));
    }

    /**
     * `restartInterval()`: clear the running interval, if any, then register a fresh one, so that
     * exactly one rotation interval is live afterwards and it is a new one.
     */
    method RestartInterval()
      requires Valid()
      modifies this`autoInterval, this`live, this`nextHandle
      ensures Valid()
      ensures autoInterval == Some(old(nextHandle)) && live == {old(nextHandle)}
      ensures old(autoInterval).Some? ==> old(autoInterval).value !in live
    {
      if autoInterval.Some? {
        live := live - {autoInterval.value};
      }
      var h := nextHandle;
      nextHandle := nextHandle + 1;
      live := live + {h};
      autoInterval := Some(h);
    }

    /** The first rotation interval, registered once the first slide is shown (no clear before it). */
    method StartRotation()
      requires Valid() && autoInterval == None
      modifies this`autoInterval, this`live, this`nextHandle
      ensures Valid()
      ensures autoInterval == Some(old(nextHandle)) && live == {old(nextHandle)}
    {
      var h := nextHandle;
      nextHandle := nextHandle + 1;
      live := live + {h};
      autoInterval := Some(h);
    }

    /** A click on the "next" control. */
    method NextClick()
      requires Valid()
      modifies slides, dots, this
      ensures Valid() && Aligned()
      ensures currentIndex == NextIndex(old(currentIndex), N())
      ensures autoInterval == Some(old(nextHandle)) && live == {old(nextHandle)}
    {
      Next();
      RestartInterval();
    }

    /** A click on the "previous" control. */
    method PrevClick()
      requires Valid()
      modifies slides, dots, this
      ensures Valid() && Aligned()
      ensures currentIndex == PrevIndex(old(currentIndex), N())
      ensures autoInterval == Some(old(nextHandle)) && live == {old(nextHandle)}
    {
      Prev();
      RestartInterval();
    }

    /**
     * A click on dot `j`: parse its `data-index`; when that is not `NaN`, show that slide and
     * restart the interval. The parsed value is not compared with the number of slides.
     */
    method DotClick(j: nat)
      requires Valid() && j < |dataIndex|
      modifies slides, dots, this
      ensures Valid()
      ensures ParseInt(dataIndex[j]).None? ==>
        slides[..] == old(slides[..]) && dots[..] == old(dots[..])
        && currentIndex == old(currentIndex) && autoInterval == old(autoInterval) && live == old(live)
      ensures ParseInt(dataIndex[j]).Some? ==>
        && currentIndex == ParseInt(dataIndex[j]).value
        && slides[..] == Marks(N(), currentIndex) && dots[..] == Marks(N(), currentIndex)
        && autoInterval == Some(old(nextHandle)) && live == {old(nextHandle)}
    {
      var idx := ParseInt(dataIndex[j]);
      if idx.Some? {
        ParseIntOfDigits(dataIndex[j]);
        ShowSlide(idx.value);
        RestartInterval();
      }
    }

    /** No dot's `data-index` parses to `NaN`, so the guard of the dot handler never fails. */
    lemma DataIndexNeverNaN(j: nat)
      requires Valid() && j < |dataIndex|
      ensures ParseInt(dataIndex[j]).Some? && ParseInt(dataIndex[j]).value >= 0
    {
      ParseIntOfDigits(dataIndex[j]);
    }
  }
}
