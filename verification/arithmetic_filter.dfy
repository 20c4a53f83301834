/** Integer rectangles as the arithmetic image filter uses them: half-open
    [left, right) x [top, bottom), empty when either side is not positive. */
module Rects {
  import opened Options


  datatype IRect = IRect(left: int, top: int, right: int, bottom: int) {
    predicate IsEmpty() { left >= right || top >= bottom }
    function Width(): int { right - left }
    function Height(): int { bottom - top }
    predicate Contains(x: int, y: int) { left <= x < right && top <= y < bottom }
  }

  function Min(a: int, b: int): int { if a <= b then a else b }
  function Max(a: int, b: int): int { if a <= b then b else a }

  /** SkIRect::MakeWH. */
  function MakeWH(w: int, h: int): IRect { IRect(0, 0, w, h) }

  /** SkIRect::MakeXYWH. */
  function MakeXYWH(x: int, y: int, w: int, h: int): IRect { IRect(x, y, x + w, y + h) }

  /** SkIRect::MakeEmpty. */
  const EmptyRect := IRect(0, 0, 0, 0)

  /** SkIRect::join: an empty argument changes nothing, an empty receiver
      takes the argument, otherwise the bounding box of the two. */
  function Join(a: IRect, b: IRect): (r: IRect)
    ensures b.IsEmpty() ==> r == a
    ensures !b.IsEmpty() && a.IsEmpty() ==> r == b
    ensures forall x, y :: a.Contains(x, y) || b.Contains(x, y) ==> r.Contains(x, y)
    ensures !a.IsEmpty() && !b.IsEmpty() ==>
      r.left == Min(a.left, b.left) && r.top == Min(a.top, b.top) &&
      r.right == Max(a.right, b.right) && r.bottom == Max(a.bottom, b.bottom)
  {
    if b.IsEmpty() then a
    else if a.IsEmpty() then b
    else IRect(Min(a.left, b.left), Min(a.top, b.top), Max(a.right, b.right), Max(a.bottom, b.bottom))
  }

  /** SkIRect::intersect: the common part of a and b, or None when they share
      no pixel (the receiver is then left as it was). */
  function Intersect(a: IRect, b: IRect): (r: Option<IRect>)
    ensures r.Some? ==> !r.value.IsEmpty()
    ensures r.Some? ==> forall x, y :: r.value.Contains(x, y) <==> a.Contains(x, y) && b.Contains(x, y)
    ensures r.None? ==> forall x, y :: !(a.Contains(x, y) && b.Contains(x, y))
  {
    var s := IRect(Max(a.left, b.left), Max(a.top, b.top), Min(a.right, b.right), Min(a.bottom, b.bottom));
    if s.IsEmpty() then None else Some(s)
  }

  /** A witness that a non-empty rectangle holds a pixel. */
  lemma NonEmptyHasPixel(r: IRect)
    requires !r.IsEmpty()
    ensures r.Contains(r.left, r.top)
  {
  }

  /** Intersect fails exactly when the two rectangles share no pixel. */
  lemma IntersectFailsIffDisjoint(a: IRect, b: IRect)
    ensures Intersect(a, b).None? <==> forall x, y :: !(a.Contains(x, y) && b.Contains(x, y))
  {
    if Intersect(a, b).Some? {
      var s := Intersect(a, b).value;
      NonEmptyHasPixel(s);
      assert a.Contains(s.left, s.top) && b.Contains(s.left, s.top);
    }
  }
}

/** The two-input arithmetic image filter: result = k1*i1*i2 + k2*i1 + k3*i2 + k4. */
module ArithmeticFilter {
  import opened Options
  import opened Rects

  /** What the filter knows of one float coefficient. The floating-point
      tests SkScalarIsFinite, SkScalarNearlyZero and
      SkScalarNearlyEqual(k, 1) are computed outside the model and enter as
      booleans. */
  datatype Coefficient = Coefficient(finite: bool, nearlyZero: bool, nearlyOne: bool)

  datatype Coefficients = Coefficients(k1: Coefficient, k2: Coefficient, k3: Coefficient, k4: Coefficient)

  datatype BlendMode = Src | Dst | Clear

  /** The filter Make returns. F stands for the (unmodelled) input filters
      and C for the optional crop rectangle; both are passed through
      untouched. Input 0 is the background. */
  datatype Filter<F, C> =
    | BlendFilter(mode: BlendMode, background: F, foreground: F, crop: C)
    | ArithmeticImpl(k: Coefficients, enforcePMColor: bool, inputs: seq<F>, crop: C)

  predicate AllFinite(k: Coefficients)
  {
    k.k1.finite && k.k2.finite && k.k3.finite && k.k4.finite
  }

  /** The coefficients are nearly those of Src (0,1,0,0), Dst (0,0,1,0) or
      Clear (0,0,0,0). */
  predicate NearlySrc(k: Coefficients)
  {
    k.k1.nearlyZero && k.k2.nearlyOne && k.k3.nearlyZero && k.k4.nearlyZero
  }

  predicate NearlyDst(k: Coefficients)
  {
    k.k1.nearlyZero && k.k2.nearlyZero && k.k3.nearlyOne && k.k4.nearlyZero
  }

  predicate NearlyClear(k: Coefficients)
  {
    k.k1.nearlyZero && k.k2.nearlyZero && k.k3.nearlyZero && k.k4.nearlyZero
  }

  /** SkArithmeticImageFilter::Make: no filter for a non-finite coefficient;
      otherwise a plain blend when the coefficients are nearly those of Src,
      Dst or Clear, checked in that order; the arithmetic filter for anything
      else. */
  function Make<F, C>(k: Coefficients, enforcePMColor: bool, background: F, foreground: F, crop: C): (r: Option<Filter<F, C>>)
    ensures r.None? <==> !AllFinite(k)
    ensures AllFinite(k) && NearlySrc(k) ==>
      r == Some(BlendFilter(Src, background, foreground, crop))
    ensures AllFinite(k) && !NearlySrc(k) && NearlyDst(k) ==>
      r == Some(BlendFilter(Dst, background, foreground, crop))
    ensures AllFinite(k) && !NearlySrc(k) && !NearlyDst(k) && NearlyClear(k) ==>
      r == Some(BlendFilter(Clear, background, foreground, crop))
    ensures AllFinite(k) && !NearlySrc(k) && !NearlyDst(k) && !NearlyClear(k) ==>
      r == Some(ArithmeticImpl(k, enforcePMColor, [background, foreground], crop))
  {
    if !AllFinite(k) then None
    else if k.k1.nearlyZero && k.k2.nearlyOne && k.k3.nearlyZero && k.k4.nearlyZero then
      Some(BlendFilter(Src, background, foreground, crop))
    else if k.k1.nearlyZero && k.k2.nearlyZero && k.k3.nearlyOne && k.k4.nearlyZero then
      Some(BlendFilter(Dst, background, foreground, crop))
    else if k.k1.nearlyZero && k.k2.nearlyZero && k.k3.nearlyZero && k.k4.nearlyZero then
      Some(BlendFilter(Clear, background, foreground, crop))
    else
      Some(ArithmeticImpl(k, enforcePMColor, [background, foreground], crop))
  }

  /** A blend is chosen exactly when the coefficients are finite and nearly
      one of the three standard sets; the arithmetic filter keeps every
      coefficient, the flag and the crop. */
  lemma MakeBlendsIffStandard<F, C>(k: Coefficients, enforcePMColor: bool, background: F, foreground: F, crop: C)
    ensures var r := Make(k, enforcePMColor, background, foreground, crop);
      (r.Some? && r.value.BlendFilter?) <==> AllFinite(k) && (NearlySrc(k) || NearlyDst(k) || NearlyClear(k))
    ensures var r := Make(k, enforcePMColor, background, foreground, crop);
      r.Some? && r.value.ArithmeticImpl? ==> r.value.k == k && r.value.enforcePMColor == enforcePMColor && r.value.crop == crop
  {
  }

  /** The filter's per-channel formula, result(i1, i2) = k1*i1*i2 + k2*i1 +
      k3*i2 + k4, with the foreground as i1 and the background as i2. */
  function Arithmetic(k1: real, k2: real, k3: real, k4: real, i1: real, i2: real): real
  {
    k1 * i1 * i2 + k2 * i1 + k3 * i2 + k4
  }

  /** What the blend modes Make can choose compute, with the foreground as
      source and the background as destination. */
  function Blend(mode: BlendMode, src: real, dst: real): real
  {
    match mode
    case Src => src
    case Dst => dst
    case Clear => 0.0
  }

  /** At exactly the standard coefficients the formula is the blend Make
      chooses for them. */
  lemma StandardModesAreTheFormula(i1: real, i2: real)
    ensures Arithmetic(0.0, 1.0, 0.0, 0.0, i1, i2) == Blend(Src, i1, i2)
    ensures Arithmetic(0.0, 0.0, 1.0, 0.0, i1, i2) == Blend(Dst, i1, i2)
    ensures Arithmetic(0.0, 0.0, 0.0, 0.0, i1, i2) == Blend(Clear, i1, i2)
  {
  }

  /** ArithmeticImageFilterImpl::affectsTransparentBlack: a non-zero k4
      produces output where both inputs are transparent black. */
  predicate AffectsTransparentBlack(k: Coefficients)
  {
    !k.k4.nearlyZero
  }

  /** The forward direction of ArithmeticImageFilterImpl::onFilterBounds.
      `background` and `foreground` are the bounds that inputs 0 and 1 report
      for `src`, or None when that input is absent (its bounds are then
      `src`). Input 0 gives i2 and input 1 gives i1. */
  method OnFilterBoundsForward(k: Coefficients, src: IRect, background: Option<IRect>, foreground: Option<IRect>)
    returns (r: IRect)
    ensures var i2 := if background.Some? then background.value else src;
            var i1 := if foreground.Some? then foreground.value else src;
            && (forall x, y :: r.Contains(x, y) ==> Join(i1, i2).Contains(x, y))
            && (AffectsTransparentBlack(k) ==> r == Join(i1, i2))
            && (!k.k2.nearlyZero && !k.k3.nearlyZero ==> r == Join(i1, i2))
            && (k.k4.nearlyZero && !k.k2.nearlyZero && k.k3.nearlyZero ==> r == i1)
            && (k.k4.nearlyZero && k.k2.nearlyZero && !k.k3.nearlyZero ==> r == i2)
            && (k.k4.nearlyZero && k.k2.nearlyZero && k.k3.nearlyZero && !k.k1.nearlyZero ==>
                  (forall x, y :: r.Contains(x, y) <==> i1.Contains(x, y) && i2.Contains(x, y)))
            && (k.k4.nearlyZero && k.k2.nearlyZero && k.k3.nearlyZero && !k.k1.nearlyZero && Intersect(i1, i2).None? ==>
                  r == EmptyRect)
            && (k.k4.nearlyZero && k.k2.nearlyZero && k.k3.nearlyZero && k.k1.nearlyZero ==> r == EmptyRect)
  {
    var i2 := if background.Some? then background.value else src;
    var i1 := if foreground.Some? then foreground.value else src;

    if !k.k4.nearlyZero {
      i1 := Join(i1, i2);
      return i1;
    }
    if !k.k2.nearlyZero && !k.k3.nearlyZero {
      i1 := Join(i1, i2);
      return i1;
    }
    if !k.k2.nearlyZero {
      return i1;
    }
    if !k.k3.nearlyZero {
      return i2;
    }
    if !k.k1.nearlyZero {
      var sect := Intersect(i1, i2);
      if sect.None? {
        return EmptyRect;
      }
      i1 := sect.value;
      return i1;
    }
    return EmptyRect;
  }

  /** The part of SkPixmap the intersect helper touches: a width x height
      window whose pixel (0, 0) sits at (originX, originY) of the pixel
      memory, with a fixed row stride. */
  class Pixmap {
    var width: int
    var height: int
    var originX: int
    var originY: int
    const rowBytes: int

    predicate Valid()
      reads this
    {
      width >= 0 && height >= 0
    }

    constructor (w: int, h: int, x: int, y: int, stride: int)
      requires w >= 0 && h >= 0
      ensures Valid()
      ensures width == w && height == h && originX == x && originY == y && rowBytes == stride
    {
      width, height, originX, originY, rowBytes := w, h, x, y, stride;
    }
  }

  /** The windows the intersect helper cuts: for a destination of size
      dstW x dstH and a source of size srcW x srcH placed at (dx, dy), the
      overlap `sect`, and the offset of the overlap inside the source. */
  datatype Windows = Windows(sect: IRect, srcX: int, srcY: int)

  function PixmapWindows(dstW: int, dstH: int, srcW: int, srcH: int, dx: int, dy: int): (r: Option<Windows>)
    ensures r.None? <==> forall x, y :: !(MakeWH(dstW, dstH).Contains(x, y) && MakeXYWH(dx, dy, srcW, srcH).Contains(x, y))
    ensures r.Some? ==> r.value.sect.Width() > 0 && r.value.sect.Height() > 0
    ensures r.Some? ==> forall x, y :: r.value.sect.Contains(x, y) <==>
      MakeWH(dstW, dstH).Contains(x, y) && MakeXYWH(dx, dy, srcW, srcH).Contains(x, y)
  {
    IntersectFailsIffDisjoint(MakeWH(dstW, dstH), MakeXYWH(dx, dy, srcW, srcH));
    match Intersect(MakeWH(dstW, dstH), MakeXYWH(dx, dy, srcW, srcH))
    case None => None
    case Some(sect) => Some(Windows(sect, Max(0, -dx), Max(0, -dy)))
  }

  /** The two windows line up: source pixel (srcX + i, srcY + j) lands on
      destination pixel (sect.left + i, sect.top + j), and both windows lie
      inside their pixmaps. */
  lemma {:induction false} PixmapWindowsAlign(dstW: int, dstH: int, srcW: int, srcH: int, dx: int, dy: int)
    requires PixmapWindows(dstW, dstH, srcW, srcH, dx, dy).Some?
    ensures var w := PixmapWindows(dstW, dstH, srcW, srcH, dx, dy).value;
            && w.srcX + dx == w.sect.left && w.srcY + dy == w.sect.top
            && 0 <= w.sect.left && w.sect.right <= dstW && 0 <= w.sect.top && w.sect.bottom <= dstH
            && 0 <= w.srcX && w.srcX + w.sect.Width() <= srcW
            && 0 <= w.srcY && w.srcY + w.sect.Height() <= srcH
  {
  }

  /** The static helper intersect(SkPixmap* dst, SkPixmap* src, int, int):
      on overlap both pixmaps are narrowed in place to the common window;
      otherwise it returns false and leaves them alone. */
  method IntersectPixmaps(dst: Pixmap, src: Pixmap, srcDx: int, srcDy: int) returns (ok: bool)
    requires dst != src
    requires dst.Valid() && src.Valid()
    modifies dst, src
    ensures dst.Valid() && src.Valid()
    ensures var w := PixmapWindows(old(dst.width), old(dst.height), old(src.width), old(src.height), srcDx, srcDy);
            && ok == w.Some?
            && (!ok ==> unchanged(dst) && unchanged(src))
            && (ok ==>
                  && dst.width == w.value.sect.Width() && dst.height == w.value.sect.Height()
                  && dst.originX == old(dst.originX) + w.value.sect.left
                  && dst.originY == old(dst.originY) + w.value.sect.top
                  && src.width == w.value.sect.Width() && src.height == w.value.sect.Height()
                  && src.originX == old(src.originX) + w.value.srcX
                  && src.originY == old(src.originY) + w.value.srcY)
  {
    var dstR := MakeWH(dst.width, dst.height);
    var srcR := MakeXYWH(srcDx, srcDy, src.width, src.height);
    var sect := Rects.Intersect(dstR, srcR);
    if sect.None? {
      return false;
    }
    var s := sect.value;
    dst.width, dst.height := s.Width(), s.Height();
    dst.originX, dst.originY := dst.originX + s.left, dst.originY + s.top;
    src.width, src.height := s.Width(), s.Height();
    src.originX, src.originY := src.originX + Max(0, -srcDx), src.originY + Max(0, -srcDy);
    return true;
  }
}
