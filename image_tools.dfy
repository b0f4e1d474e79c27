/**
 * The dimension arithmetic of `resize_image` (backend/services/image_tools.py):
 * the longer side of an uploaded image becomes 700 pixels and the other side
 * is scaled by the same factor and truncated; a square image takes the
 * second branch. The quotient is exact here: Python's `int` truncates toward
 * zero, which for these non-negative sizes is integer division.
 */
module ImageTools {
  import opened Base

  /** `SIZE = (700, 700)`. */
  const Side: nat := 700

  datatype Size = Size(width: nat, height: nat)

  /** Dividing by a zero side raises `ZeroDivisionError`. */
  datatype Error = ZeroDivision

  /** `int(Side * a / b)`: the largest size whose ratio to `Side` does not exceed `a / b`. */
  function Scaled(a: nat, b: nat): (n: nat)
    requires b > 0
    ensures n * b <= Side * a < (n + 1) * b
  {
    Side * a / b
  }

  /**
   * `resize_image`: a wider image becomes `Side` wide, any other becomes
   * `Side` high; the other side keeps the proportion, rounded down. An image
   * with no pixels in either direction divides by zero.
   */
  function Resize(s: Size): (r: Result<Size, Error>)
    ensures r.Failure? <==> s.width == 0 && s.height == 0
    ensures r.Success? && s.width > s.height ==>
      r.value.width == Side
      && r.value.height * s.width <= Side * s.height < (r.value.height + 1) * s.width
    ensures r.Success? && s.width <= s.height ==>
      r.value.height == Side
      && r.value.width * s.height <= Side * s.width < (r.value.width + 1) * s.height
  {
    if s.width > s.height then Success(Size(Side, Scaled(s.height, s.width)))
    else if s.height == 0 then Failure(ZeroDivision)
    else Success(Size(Scaled(s.width, s.height), Side))
  }

  /** A square image becomes `Side` by `Side`. */
  lemma ResizeSquare(n: nat)
    requires n > 0
    ensures Resize(Size(n, n)) == Success(Size(Side, Side))
  {
    ScaledOfItself(n);
  }

  lemma ScaledOfItself(n: nat)
    requires n > 0
    ensures Scaled(n, n) == Side
  {
    assert Side * n == Side * n + 0;
  }

  /**
   * The longer side is always exactly `Side`, small images included, and the
   * other side never exceeds it; a wider image stays strictly wider.
   */
  lemma ResizeBounds(s: Size)
    requires s.width > 0 || s.height > 0
    ensures var t := Resize(s).value;
      (t.width == Side && t.height <= Side) || (t.height == Side && t.width <= Side)
    ensures s.width > s.height ==> Resize(s).value.height < Side
    ensures s.width <= s.height ==> Resize(s).value.width <= Side
  {
    if s.width > s.height {
      ScaledBelow(s.height, s.width);
    } else {
      ScaledAtMost(s.width, s.height);
    }
  }

  lemma ScaledBelow(a: nat, b: nat)
    requires a < b
    ensures Scaled(a, b) < Side
  {
    var n := Scaled(a, b);
    assert n * b < Side * b;
    FactorLess(n, Side, b);
  }

  lemma ScaledAtMost(a: nat, b: nat)
    requires 0 < b && a <= b
    ensures Scaled(a, b) <= Side
  {
    var n := Scaled(a, b);
    assert n * b < (Side + 1) * b;
    FactorLess(n, Side + 1, b);
  }

  lemma FactorLess(x: nat, y: nat, b: nat)
    requires x * b < y * b
    ensures x < y
  {
    assert (y - x) * b > 0;
  }

  /** Resizing an image that was already resized changes nothing. */
  lemma ResizeIdempotent(s: Size)
    requires s.width > 0 || s.height > 0
    ensures Resize(s).Success? && Resize(Resize(s).value) == Resize(s)
  {
    ResizeBounds(s);
    var t := Resize(s).value;
    if s.width > s.height {
      ScaledOfSide(t.height);
    } else {
      ScaledOfSide(t.width);
    }
  }

  /** Scaling against a side of exactly `Side` is the identity. */
  lemma ScaledOfSide(a: nat)
    ensures Scaled(a, Side) == a
  {
  }
}
