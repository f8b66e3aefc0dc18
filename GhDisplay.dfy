/**
 The vertical bars on the Sense HAT's 8x8 pixel matrix (ShSetVerticalBar).
 The matrix is an 8x8 array indexed [i, bar], `i` being the first argument
 the source passes when it lights a pixel. A colour is a 16-bit value and
 black is 0.
 */
module GhDisplay {
  import opened GhDefs

  newtype uint8 = x: int | 0 <= x < 0x100
  newtype Color = x: int | 0 <= x < 0x1_0000

  const BLACK: Color := 0
  const EXIT_SUCCESS: int := 0
  const EXIT_FAILURE: int := 1

  /** C's conversion of an `int` argument to a `uint8_t` parameter: reduction modulo 256. */
  function ToUint8(x: int): (v: uint8)
    ensures (x - v as int) % 0x100 == 0
    ensures 0 <= x < 0x100 ==> v as int == x
  {
    (x % 0x100) as uint8
  }

  /** The columns ShSetVerticalBar accepts. */
  predicate ValidBar(bar: int)
  {
    0 <= bar < NUMBARS
  }

  /** The height drawn for a `uint8_t` value: values above 7 are treated as 7. */
  function BarHeight(value: uint8): (h: int)
    ensures 0 <= h <= 7
    ensures value <= 7 ==> h == value as int
    ensures value > 7 ==> h == 7
  {
    if value > 7 then 7 else value as int
  }

  /** The colour of row `i` of a bar of height `h`: rows 0 .. h lit, the rest black. */
  function BarPixel(h: int, pxc: Color, i: int): Color
  {
    if i <= h then pxc else BLACK
  }

  /** The two loops of ShSetVerticalBar: light rows 0 .. h of column `bar` and blacken the rows above. */
  method FillColumn(fb: array2<Color>, bar: int, pxc: Color, h: int)
    requires fb.Length0 == NUMBARS && fb.Length1 == NUMBARS
    requires ValidBar(bar) && 0 <= h <= 7
    modifies fb
    ensures forall i, j :: 0 <= i < NUMBARS && 0 <= j < NUMBARS ==>
              fb[i, j] == if j == bar then BarPixel(h, pxc, i) else old(fb[i, j])
  {
    var i := 0;
    while i <= h
      invariant 0 <= i <= h + 1
      invariant forall r, j :: 0 <= r < NUMBARS && 0 <= j < NUMBARS ==>
                  fb[r, j] == if j == bar && r < i then pxc else old(fb[r, j])
    {
      fb[i, bar] := pxc;
      i := i + 1;
    }
    i := h + 1;
    while i < 8
      invariant h + 1 <= i <= 8
      invariant forall r, j :: 0 <= r < NUMBARS && 0 <= j < NUMBARS ==>
                  fb[r, j] == if j == bar && r < i then BarPixel(h, pxc, r) else old(fb[r, j])
    {
      fb[i, bar] := BLACK;
      i := i + 1;
    }
  }

  /**
   ShSetVerticalBar as written: a column outside 0 .. 7 gives EXIT_FAILURE and
   no pixel changes; otherwise the bar of height min(value, 7) is drawn in
   column `bar`, every other column is untouched, and EXIT_SUCCESS returned.
   The test `value < 0` in the source can never hold for a `uint8_t`.
   */
  method SetVerticalBar(fb: array2<Color>, bar: int, pxc: Color, value: uint8) returns (status: int)
    requires fb.Length0 == NUMBARS && fb.Length1 == NUMBARS
    modifies fb
    ensures status == if ValidBar(bar) then EXIT_SUCCESS else EXIT_FAILURE
    ensures forall i, j :: 0 <= i < NUMBARS && 0 <= j < NUMBARS ==>
              fb[i, j] == if ValidBar(bar) && j == bar then BarPixel(BarHeight(value), pxc, i) else old(fb[i, j])
  {
    var v := value;
    if v > 7 {
      v := 7;
    }
    if bar < 0 || bar > 7 || v < 0 || v > 7 {
      return EXIT_FAILURE;
    }
    FillColumn(fb, bar, pxc, v as int);
    return EXIT_SUCCESS;
  }

  /** The columns used for temperature, humidity and pressure are all accepted. */
  lemma MetricBarsAccepted()
    ensures ValidBar(TBAR) && ValidBar(HBAR) && ValidBar(PBAR)
  {
  }

  /**
   A negative height from the caller wraps when passed as `uint8_t`: every
   value from -248 to -1 becomes 8 .. 255 and is drawn as a full bar.
   */
  lemma NegativeHeightDrawsFullBar(x: int)
    requires -248 <= x <= -1
    ensures ToUint8(x) as int == x + 0x100
    ensures BarHeight(ToUint8(x)) == 7
  {
    assert x % 0x100 == x + 0x100;
  }

  /** The input that shows it: a height of -1 draws all eight rows. */
  lemma MinusOneDrawsFullBar(pxc: Color)
    ensures ToUint8(-1) == 255
    ensures forall i :: 0 <= i < NUMBARS ==> BarPixel(BarHeight(ToUint8(-1)), pxc, i) == pxc
  {
    NegativeHeightDrawsFullBar(-1);
  }

  /** Whether the bar routine with a signed height accepts its arguments: a valid column and a height that is not negative. */
  predicate AcceptsSigned(bar: int, value: int)
  {
    ValidBar(bar) && value >= 0
  }

  /** The height drawn for an accepted signed value: values above 7 are treated as 7. */
  function SignedBarHeight(value: int): (h: int)
    requires value >= 0
    ensures 0 <= h <= 7
    ensures value <= 7 ==> h == value
    ensures value < 0x100 ==> h == BarHeight(value as uint8)
  {
    if value > 7 then 7 else value
  }

  /**
   The bar routine as its checks intend it, with the height kept signed: a
   negative height is rejected like a bad column, with no pixel changed.
   */
  method SetVerticalBarSigned(fb: array2<Color>, bar: int, pxc: Color, value: int) returns (status: int)
    requires fb.Length0 == NUMBARS && fb.Length1 == NUMBARS
    modifies fb
    ensures status == if AcceptsSigned(bar, value) then EXIT_SUCCESS else EXIT_FAILURE
    ensures forall i, j :: 0 <= i < NUMBARS && 0 <= j < NUMBARS ==>
              fb[i, j] == if AcceptsSigned(bar, value) && j == bar then BarPixel(SignedBarHeight(value), pxc, i) else old(fb[i, j])
  {
    if bar < 0 || bar > 7 || value < 0 {
      return EXIT_FAILURE;
    }
    FillColumn(fb, bar, pxc, SignedBarHeight(value));
    return EXIT_SUCCESS;
  }
}
