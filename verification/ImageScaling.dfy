/** Sizes of decoded images: the aspect-keeping fit of AssetTypes.cpp and libjpeg's DCT reduction
    chosen in AssetJpegDecoder.cpp. */
module ImageScaling {

  /** A QSize. QSize() is (-1, -1). */
  datatype Size = Size(width: int, height: int)
  {
    predicate IsValid() { width >= 0 && height >= 0 }

    predicate IsEmpty() { width <= 0 || height <= 0 }

    /** Both sides at most those of `other`. */
    predicate FitsIn(other: Size) { width <= other.width && height <= other.height }
  }

  const FULL_SIZE := Size(-1, -1)

  /** The board's decode bound. */
  const BOARD_BOUND := Size(150, 210)

  function NormalizedBound(bound: Size): Size {
    if !bound.IsValid() || bound.IsEmpty() then FULL_SIZE else bound
  }

  lemma NormalizedBoundProperties(bound: Size)
    ensures NormalizedBound(bound).IsValid() <==> !bound.IsEmpty()
    ensures NormalizedBound(NormalizedBound(bound)) == NormalizedBound(bound)
  {
  }

  /** QSize::scaled with Qt::KeepAspectRatio, for a non-empty source. */
  function ScaledKeepingAspect(source: Size, bound: Size): Size
    requires !source.IsEmpty()
  {
    var rw := bound.height * source.width / source.height;
    if rw <= bound.width then Size(rw, bound.height)
    else Size(bound.width, bound.width * source.height / source.width)
  }

  function AtLeastOne(s: Size): Size {
    Size(if s.width < 1 then 1 else s.width, if s.height < 1 then 1 else s.height)
  }

  /** fittedAssetDecodeSize. */
  function Fitted(source: Size, bound: Size): Size {
    var normalized := NormalizedBound(bound);
    if !normalized.IsValid() || source.IsEmpty() || source.FitsIn(normalized) then source
    else AtLeastOne(ScaledKeepingAspect(source, normalized))
  }

  /** Floor division, by its defining inequalities. */
  lemma FloorDiv(x: int, y: int)
    requires y > 0
    ensures x / y * y <= x < (x / y + 1) * y
  {
  }

  lemma MulMono(x: int, y: int, z: int)
    requires x <= y && z >= 0
    ensures x * z <= y * z
  {
  }

  /** If q * y <= x then q <= x / y, and if x < q * y then x / y < q. */
  lemma FloorBound(q: int, x: int, y: int)
    requires y > 0
    ensures q * y <= x ==> q <= x / y
    ensures x < q * y ==> x / y < q
  {
    FloorDiv(x, y);
    if q * y <= x && x / y < q {
      MulMono(x / y + 1, q, y);
    }
    if x < q * y && q <= x / y {
      MulMono(q, x / y, y);
    }
  }

  /** The fit never exceeds the bound or the source and keeps at least one pixel per side. */
  lemma FittedInside(source: Size, bound: Size)
    requires !source.IsEmpty() && !bound.IsEmpty()
    ensures !Fitted(source, bound).IsEmpty()
    ensures Fitted(source, bound).FitsIn(bound)
    ensures Fitted(source, bound).FitsIn(source)
  {
    if !source.FitsIn(bound) {
      var (w, h) := (source.width, source.height);
      var rw := bound.height * w / h;
      FloorDiv(bound.height * w, h);
      if rw <= bound.width {
        if rw > w || bound.height > h {
          // A bound taller than the source would be narrower than it, and then rw >= w.
          if bound.height >= h {
            MulMono(h, bound.height, w);
            FloorBound(w, bound.height * w, h);
          } else {
            MulMono(bound.height, h, w);
            FloorBound(w + 1, bound.height * w, h);
          }
        }
      } else {
        WidthCase(source, bound);
      }
    }
  }

  lemma WidthCase(source: Size, bound: Size)
    requires !source.IsEmpty() && !bound.IsEmpty() && !source.FitsIn(bound)
    requires bound.height * source.width / source.height > bound.width
    ensures bound.width <= source.width
    ensures bound.width * source.height / source.width <= bound.height
    ensures bound.width * source.height / source.width <= source.height
  {
    TooWide(source.width, source.height, bound.width, bound.height);
    QuotientAtMost(bound.width * source.height, bound.height, source.width);
    if bound.width > source.width {
      BothSidesFit(source.width, source.height, bound.width, bound.height);
    }
    MulMono(bound.width, source.width, source.height);
    QuotientAtMost(bound.width * source.height, source.height, source.width);
  }

  lemma TooWide(w: int, h: int, bw: int, bh: int)
    requires w > 0 && h > 0 && bh * w / h > bw
    ensures bw * h + h <= bh * w
  {
    FloorBound(bw + 1, bh * w, h);
    assert (bw + 1) * h == bw * h + h;
  }

  lemma QuotientAtMost(x: int, q: int, y: int)
    requires y > 0 && x <= q * y
    ensures x / y <= q
  {
    assert (q + 1) * y == q * y + y;
    FloorBound(q + 1, x, y);
  }

  /** A source narrower than the bound that is limited by its width would fit the bound as it is. */
  lemma BothSidesFit(w: int, h: int, bw: int, bh: int)
    requires w > 0 && h > 0 && bw > w && bw * h + h <= bh * w
    ensures h <= bh
  {
    MulMono(w, bw, h);
    if bh < h {
      MulMono(bh, h, w);
    }
  }

  /** The fit is the largest one: every exact rescaling of the source that fits the bound and is no
      larger than the source also fits in it. */
  lemma FittedIsLargest(source: Size, bound: Size, other: Size)
    requires !source.IsEmpty() && !bound.IsEmpty() && !other.IsEmpty()
    requires other.width * source.height == other.height * source.width
    requires other.FitsIn(bound) && other.FitsIn(source)
    ensures other.FitsIn(Fitted(source, bound))
  {
    if !source.FitsIn(bound) {
      var (w, h) := (source.width, source.height);
      if bound.height * w / h <= bound.width {
        MulMono(other.height, bound.height, w);
        FloorBound(other.width, bound.height * w, h);
      } else {
        MulMono(other.width, bound.width, h);
        FloorBound(other.height, bound.width * h, w);
      }
    }
  }

  // ---- libjpeg's reduction ----

  function CeilDiv(x: nat, d: nat): nat
    requires d > 0
  {
    (x + d - 1) / d
  }

  /** The size libjpeg produces when it reduces a source by 1/d. */
  function Reduced(source: Size, d: nat): Size
    requires !source.IsEmpty() && d > 0
  {
    Size(CeilDiv(source.width, d), CeilDiv(source.height, d))
  }

  /** The denominator the decoder promises: the largest of 8, 4, 2 whose output covers the target, or
      1 when none does or the target is empty or already covers the source. */
  ghost predicate IsScaleDenominator(source: Size, target: Size, d: nat)
    requires !source.IsEmpty()
  {
    if target.IsEmpty() || source.FitsIn(target) then d == 1
    else
      && d in {1, 2, 4, 8}
      && (d == 1 || target.FitsIn(Reduced(source, d)))
      && (d < 8 ==> !target.FitsIn(Reduced(source, 8)))
      && (d < 4 ==> !target.FitsIn(Reduced(source, 4)))
      && (d < 2 ==> !target.FitsIn(Reduced(source, 2)))
  }

  /** jpegScaleDenominator. */
  method JpegScaleDenominator(source: Size, target: Size) returns (d: nat)
    requires !source.IsEmpty()
    ensures IsScaleDenominator(source, target, d)
  {
    if target.width <= 0 || target.height <= 0
       || (target.width >= source.width && target.height >= source.height) {
      return 1;
    }
    var denominators := [8, 4, 2];
    for i := 0 to |denominators|
      invariant forall k | 0 <= k < i :: !target.FitsIn(Reduced(source, denominators[k]))
    {
      if target.FitsIn(Reduced(source, denominators[i])) {
        return denominators[i];
      }
    }
    assert !target.FitsIn(Reduced(source, denominators[0]));
    assert !target.FitsIn(Reduced(source, denominators[1]));
    assert !target.FitsIn(Reduced(source, denominators[2]));
    return 1;
  }

  /** decodeAssetImage on a JPEG source: reduce during decoding, then fit the reduced image to the
      bound. Returns the size of both stages. */
  method DecodeJpegSize(source: Size, bound: Size) returns (stage: Size, final: Size)
    requires !source.IsEmpty()
    ensures exists d: nat | 0 < d :: IsScaleDenominator(source, Fitted(source, bound), d) && stage == Reduced(source, d)
    ensures final == Fitted(stage, bound)
  {
    var d := JpegScaleDenominator(source, Fitted(source, bound));
    stage := Reduced(source, d);
    final := Fitted(stage, bound);
  }

  /** What `w` and `h` of a reduced image say about the source: d * w' is the source side rounded up
      by less than d. */
  lemma CeilDivBounds(x: nat, d: nat)
    requires d > 0
    ensures x <= d * CeilDiv(x, d) < x + d
    ensures x > 0 ==> 0 < CeilDiv(x, d) <= x
  {
    var c := CeilDiv(x, d);
    FloorDiv(x + d - 1, d);
    if x > 0 {
      FloorBound(1, x + d - 1, d);
      if c > x {
        MulMono(x + 1, c, d);
        assert x * d + d <= x + d - 1;
        MulMono(1, d, x);
      }
    }
  }

  /** For every source and every non-empty bound the reduced stage covers the target the final fit
      aims at, and the final fit stays inside both the bound and the source, at least one pixel each
      way: the two stages never upscale. */
  lemma TwoStagesNeverUpscale(source: Size, bound: Size, d: nat)
    requires !source.IsEmpty() && !bound.IsEmpty()
    ensures IsScaleDenominator(source, Fitted(source, bound), d) ==> 0 < d && StagesFit(source, bound, d)
  {
    if IsScaleDenominator(source, Fitted(source, bound), d) {
      FittedInside(source, bound);
      CeilDivBounds(source.width, d);
      CeilDivBounds(source.height, d);
      FittedInside(Reduced(source, d), bound);
    }
  }

  predicate StagesFit(source: Size, bound: Size, d: nat)
    requires 0 < d && !source.IsEmpty()
  {
    var (reduced, final) := (Reduced(source, d), Fitted(Reduced(source, d), bound));
    && Fitted(source, bound).FitsIn(reduced) && reduced.FitsIn(source)
    && final.FitsIn(bound) && final.FitsIn(source) && !final.IsEmpty()
  }

  // ---- The 150x210 bound ----

  function Distance(x: int, y: int): nat { if x < y then y - x else x - y }

  /** AssetTypes.h claims that at the board's bound JPEG output differs from the one-stage fit in one
      dimension only, by at most 3 pixels. That holds for every source; the width is off by at most
      one. */
  lemma BoardBoundDifference(source: Size, d: nat)
    requires !source.IsEmpty()
    requires IsScaleDenominator(source, Fitted(source, BOARD_BOUND), d)
    ensures 0 < d
    ensures var one, two := Fitted(source, BOARD_BOUND), Fitted(Reduced(source, d), BOARD_BOUND);
            && Distance(one.width, two.width) <= 1
            && Distance(one.height, two.height) <= 3
            && (one.width == two.width || one.height == two.height)
  {
    TwoStagesNeverUpscale(source, BOARD_BOUND, d);
    if d != 1 {
      ReducedDifference(source, Reduced(source, d), d);
    } else {
      CeilDivBounds(source.width, 1);
      CeilDivBounds(source.height, 1);
    }
  }

  lemma ReducedDifference(source: Size, stage: Size, d: nat)
    requires !source.IsEmpty() && !source.FitsIn(BOARD_BOUND) && d in {2, 4, 8}
    requires stage == Reduced(source, d) && Fitted(source, BOARD_BOUND).FitsIn(stage) && !stage.IsEmpty()
    ensures var one, two := Fitted(source, BOARD_BOUND), Fitted(stage, BOARD_BOUND);
            && Distance(one.width, two.width) <= 1
            && Distance(one.height, two.height) <= 3
            && (one.width == two.width || one.height == two.height)
  {
    var (w, h, w', h') := (source.width, source.height, stage.width, stage.height);
    CeilDivBounds(w, d);
    CeilDivBounds(h, d);
    FittedInside(source, BOARD_BOUND);
    FittedInside(stage, BOARD_BOUND);
    var x := 210 * w / h;
    if x <= 150 {
      TallSource(w, h, w', h', d, d * w' - w, d * h' - h, x);
    } else {
      WideSource(w, h, w', h', d, d * w' - w, d * h' - h, 150 * h / w);
    }
  }

  lemma MulAssoc(p: int, d: int, x: int)
    ensures p * (d * x) == p * x * d
  {
  }

  lemma MulDistributes(p: int, x: int, y: int)
    ensures p * (x + y) == p * x + p * y
  {
  }

  /** p * x <= k * y, with both factors x and y scaled by d. */
  lemma ScaleLe(p: int, x: int, k: int, y: int, d: int)
    requires 0 < d
    ensures p * x <= k * y ==> p * (d * x) <= k * (d * y)
    ensures p * x < k * y ==> p * (d * x) < k * (d * y)
  {
    MulAssoc(p, d, x);
    MulAssoc(k, d, y);
    var (u, v) := (p * x, k * y);
    if u <= v {
      MulMono(u, v, d);
    }
    if u < v {
      MulMono(u + 1, v, d);
    }
  }

  /** Rounding both sides up by less than d lets the quotient k * n / m grow by at most one ... */
  lemma QuotientGrowth(k: int, n: int, m: int, n': int, m': int, d: int, a: int, b: int, q: int, q': int)
    requires 0 < k <= m' && 0 <= q
    requires d * n' == n + a && d * m' == m + b && 0 <= a < d && 0 <= b < d
    requires k * n < (q + 1) * m && q' * m' <= k * n'
    ensures q' <= q + 1
  {
    if q' >= q + 2 {
      assert (q + 2) * (m + b) <= k * (n + a) by {
        MulMono(q + 2, q', m');
        ScaleLe(q + 2, m', k, n', d);
      }
      assert k * d <= m + b by {
        MulMono(k, m', d);
      }
      MulMono(a, d - 1, k);
      MulDistributes(k, n, a);
      MulDistributes(q + 1, m, b);
      MulMono(0, q + 1, b);
    }
  }

  /** ... and shrink by at most `drop`. */
  lemma QuotientShrink(k: int, n: int, m: int, n': int, m': int, d: int, a: int, b: int, q: int, q': int, drop: int)
    requires 0 < k && 0 < m' && 0 <= q
    requires d * n' == n + a && d * m' == m + b && 0 <= a < d && 0 <= b < d
    requires q * m <= k * n && k * n' < (q' + 1) * m'
    requires drop * m > (q - drop) * b
    ensures q - drop <= q'
  {
    if q' < q - drop {
      assert k * (n + a) < (q - drop) * (m + b) by {
        MulMono(q' + 1, q - drop, m');
        ScaleLe(k, n', q - drop, m', d);
      }
      MulDistributes(m, q - drop, drop);
      MulMono(0, a, k);
      MulDistributes(k, n, a);
      MulDistributes(q - drop, m, b);
    }
  }

  /** A reduced image that fits the bound and fills its side k, beside the quotient of the other
      sides: m' pixels against k * m / n. */
  lemma UnscaledStage(k: int, n: int, m: int, m': int, d: int, a: int, b: int)
    requires 0 < n && 0 < m && 0 < m' && 0 < k
    requires d * k == n + a && d * m' == m + b && 0 <= a < d && 0 <= b < d
    ensures m' - 1 <= k * m / n
  {
    FloorBound(m' - 1, k * m, n);
    assert (m' - 1) * (d * k) <= k * m by {
      assert (m' - 1) * d <= m by {
        MulDistributes(d, m', -1);
      }
      MulMono((m' - 1) * d, m, k);
      MulAssoc(m' - 1, k, d);
      MulAssoc(k, m' - 1, d);
      assert (m' - 1) * (d * k) == (m' - 1) * d * k;
    }
    MulMono(n, d * k, m' - 1);
  }

  /** Both fits limited by the height: 210 * w / h < 151 drifts by at most one pixel. */
  lemma TallDrift(w: int, h: int, w': int, h': int, d: int, a: int, b: int, x: int, x': int)
    requires 0 < w && 0 < h && 0 < w' && 210 <= h' && d in {2, 4, 8}
    requires d * w' == w + a && d * h' == h + b && 0 <= a < d && 0 <= b < d
    requires 0 <= x <= 150 && x * h <= 210 * w < (x + 1) * h
    requires x' * h' <= 210 * w' < (x' + 1) * h'
    ensures Distance(x, x') <= 1
  {
    QuotientGrowth(210, w, h, w', h', d, a, b, x, x');
    MulMono(x - 1, 149, b);
    QuotientShrink(210, w, h, w', h', d, a, b, x, x', 1);
  }

  /** Both fits limited by the width: 150 * h / w < 209 drifts by at most two. */
  lemma WideDrift(w: int, h: int, w': int, h': int, d: int, a: int, b: int, y: int, y': int)
    requires 0 < w && 0 < h && 150 <= w' && 0 < h' && d in {2, 4, 8}
    requires d * w' == w + a && d * h' == h + b && 0 <= a < d && 0 <= b < d
    requires 0 <= y <= 208 && y * w <= 150 * h < (y + 1) * w
    requires y' * w' <= 150 * h' < (y' + 1) * w'
    ensures Distance(y, y') <= 2
  {
    QuotientGrowth(150, h, w, h', w', d, b, a, y, y');
    MulMono(y - 2, 206, a);
    QuotientShrink(150, h, w, h', w', d, b, a, y, y', 2);
  }

  /** The one-stage fit is limited by the bound's height. */
  lemma TallSource(w: int, h: int, w': int, h': int, d: int, a: int, b: int, x: int)
    requires 0 < w && 0 < h && 0 < w' && 210 <= h' && d in {2, 4, 8}
    requires d * w' == w + a && d * h' == h + b && 0 <= a < d && 0 <= b < d
    requires x == 210 * w / h && x <= 150
    ensures h' == 210 ==> w' - 1 <= x
    ensures Distance(210 * w' / h', x) <= 1
    ensures 210 * w' / h' > 150 ==> x == 150 && 207 <= 150 * h' / w'
  {
    FloorDiv(210 * w, h);
    FloorDiv(210 * w', h');
    FloorBound(0, 210 * w, h);
    TallDrift(w, h, w', h', d, a, b, x, 210 * w' / h');
    if h' == 210 {
      UnscaledStage(210, h, w, w', d, b, a);
    }
    if 210 * w' / h' > 150 {
      TallCrossing(w, h, w', h', d, a, b);
    }
  }

  lemma TallCrossing(w: int, h: int, w': int, h': int, d: int, a: int, b: int)
    requires 0 < w && 0 < h && 0 < w' && 210 <= h' && d in {2, 4, 8}
    requires d * w' == w + a && d * h' == h + b && 0 <= a < d && 0 <= b < d
    requires 210 * w / h <= 150 < 210 * w' / h'
    ensures 210 * w / h == 150 && 207 <= 150 * h' / w'
  {
    FloorBound(151, 210 * w, h);
    FloorBound(151, 210 * w', h');
    FloorBound(150, 210 * w, h);
    FloorBound(207, 150 * h', w');
  }

  /** The one-stage fit is limited by the bound's width. */
  lemma WideSource(w: int, h: int, w': int, h': int, d: int, a: int, b: int, y: int)
    requires 0 < w && 0 < h && 150 <= w' && 0 < h' && d in {2, 4, 8}
    requires d * w' == w + a && d * h' == h + b && 0 <= a < d && 0 <= b < d
    requires y == 150 * h / w && 210 * w / h > 150
    ensures w' == 150 ==> h' - 1 <= y
    ensures Distance(150 * h' / w', y) <= 2
    ensures 210 * w' / h' <= 150 ==> 210 * w' / h' == 150 && 207 <= y
  {
    FloorDiv(150 * h, w);
    FloorDiv(150 * h', w');
    FloorBound(0, 150 * h, w);
    assert y <= 208 by {
      FloorBound(151, 210 * w, h);
      FloorBound(209, 150 * h, w);
    }
    WideDrift(w, h, w', h', d, a, b, y, 150 * h' / w');
    if w' == 150 {
      UnscaledStage(150, w, h, h', d, a, b);
    }
    if 210 * w' / h' <= 150 {
      WideCrossing(w, h, w', h', d, a, b);
    }
  }

  lemma WideCrossing(w: int, h: int, w': int, h': int, d: int, a: int, b: int)
    requires 0 < w && 0 < h && 150 <= w' && 0 < h' && d in {2, 4, 8}
    requires d * w' == w + a && d * h' == h + b && 0 <= a < d && 0 <= b < d
    requires 210 * w' / h' <= 150 < 210 * w / h
    ensures 210 * w' / h' == 150 && 207 <= 150 * h / w
  {
    FloorBound(151, 210 * w, h);
    FloorBound(151, 210 * w', h');
    FloorBound(150, 210 * w', h');
    FloorBound(207, 150 * h, w);
  }

  /** Both limits of BoardBoundDifference are reached, and the header's own example is exact. */
  lemma BoardBoundIsTight()
    ensures IsScaleDenominator(Size(325, 452), Fitted(Size(325, 452), BOARD_BOUND), 2)
    ensures Distance(Fitted(Size(325, 452), BOARD_BOUND).height,
                     Fitted(Reduced(Size(325, 452), 2), BOARD_BOUND).height) == 3
    ensures IsScaleDenominator(Size(3, 419), Fitted(Size(3, 419), BOARD_BOUND), 2)
    ensures Distance(Fitted(Size(3, 419), BOARD_BOUND).width,
                     Fitted(Reduced(Size(3, 419), 2), BOARD_BOUND).width) == 1
    ensures Fitted(Size(301, 419), BOARD_BOUND) == Size(150, 210)
    ensures Fitted(Reduced(Size(301, 419), 2), BOARD_BOUND) == Size(150, 208)
  {
  }
}
