/**
 * The image carousel (frontend/src/ImageCarousel.jsx): the index of the
 * image shown among `n` images, moved by the previous and next buttons,
 * which wrap around, and by the dots.
 */
module Carousel {

  /** `goToPrev`: the first image goes back to the last one. */
  function Prev(i: nat, n: nat): (j: nat)
    requires i < n
    ensures j < n
    ensures i == 0 ==> j == n - 1
    ensures i > 0 ==> j + 1 == i
  {
    if i == 0 then n - 1 else i - 1
  }

  /** `goToNext`: the last image goes on to the first one. */
  function Next(i: nat, n: nat): (j: nat)
    requires i < n
    ensures j < n
    ensures i == n - 1 ==> j == 0
    ensures i < n - 1 ==> j == i + 1
  {
    if i == n - 1 then 0 else i + 1
  }

  /** Next undoes previous, and previous undoes next. */
  lemma PrevNextInverse(i: nat, n: nat)
    requires i < n
    ensures Next(Prev(i, n), n) == i
    ensures Prev(Next(i, n), n) == i
  {
  }

  /** The index after `k` presses of the next button. */
  function NextTimes(i: nat, k: nat, n: nat): (j: nat)
    requires i < n
    ensures j < n
  {
    if k == 0 then i else Next(NextTimes(i, k - 1, n), n)
  }

  /** Pressing next `k` times moves `k` images on, around the ring. */
  lemma {:induction false} NextTimesIsShift(i: nat, k: nat, n: nat)
    requires i < n
    ensures NextTimes(i, k, n) == (i + k) % n
  {
    if k == 0 {
      ModUnique(i, n, 0, i);
    } else {
      NextTimesIsShift(i, k - 1, n);
      var a := i + k - 1;
      assert NextTimes(i, k, n) == Next(a % n, n);
      NextOfMod(a, n);
      assert a + 1 == i + k;
    }
  }

  lemma NextOfMod(a: nat, n: nat)
    requires n > 0
    ensures Next(a % n, n) == (a + 1) % n
  {
    var q, r := a / n, a % n;
    assert a == q * n + r;
    if r == n - 1 {
      assert a + 1 == (q + 1) * n + 0;
      ModUnique(a + 1, n, q + 1, 0);
    } else {
      assert a + 1 == q * n + (r + 1);
      ModUnique(a + 1, n, q, r + 1);
    }
  }

  /** The remainder is the only one below `n`. */
  lemma ModUnique(a: nat, n: nat, q: int, r: int)
    requires n > 0 && 0 <= r < n && a == q * n + r
    ensures a % n == r
  {
    var q', r' := a / n, a % n;
    if q < q' {
      MulDiff(q', q, n);
      MulAtLeast(q' - q, n);
    } else if q > q' {
      MulDiff(q, q', n);
      MulAtLeast(q - q', n);
    }
  }

  lemma MulDiff(x: int, y: int, n: int)
    ensures x * n - y * n == (x - y) * n
  {
  }

  lemma {:induction false} MulAtLeast(k: int, n: nat)
    requires k >= 1
    ensures k * n >= n
    decreases k
  {
    if k > 1 {
      MulAtLeast(k - 1, n);
      MulDiff(k, k - 1, n);
    }
  }

  /** Pressing next `n` times comes back to the image it started from. */
  lemma NextAroundTheRing(i: nat, n: nat)
    requires i < n
    ensures NextTimes(i, n, n) == i
  {
    NextTimesIsShift(i, n, n);
    ModUnique(i + n, n, 1, i);
  }

  /** What the carousel renders for `n` images. */
  datatype View = Nothing | Slides(controls: bool)

  /** No images render nothing; the buttons and dots appear only for more than one image. */
  function ViewOf(n: nat): (v: View)
    ensures v == Nothing <==> n == 0
    ensures v.Slides? ==> (v.controls <==> n > 1)
  {
    if n == 0 then Nothing else Slides(n > 1)
  }

  /** The carousel state for a fixed list of `n` images. */
  class ImageCarousel {
    const n: nat
    var index: nat

    predicate Valid()
      reads this
    {
      index < n
    }

    /** The first image is shown first. */
    constructor (n: nat)
      requires n > 0
      ensures this.n == n && index == 0 && Valid()
    {
      this.n := n;
      index := 0;
    }

    method GoToPrev()
      requires Valid()
      modifies this
      ensures Valid() && index == Prev(old(index), n)
    {
      index := if index == 0 then n - 1 else index - 1;
    }

    method GoToNext()
      requires Valid()
      modifies this
      ensures Valid() && index == Next(old(index), n)
    {
      index := if index == n - 1 then 0 else index + 1;
    }

    /** The dot for image `k` shows image `k`. */
    method SelectDot(k: nat)
      requires Valid() && k < n
      modifies this
      ensures Valid() && index == k
    {
      index := k;
    }
  }
}
