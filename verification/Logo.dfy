/** The boot logo (`boot/abora-boot/src/logo.rs`): loading the raw format and sampling it in fixed point. */
module Logo {
  import opened Prelude
  import opened Products

  const USIZE_LIMIT: nat := 0x1_0000_0000_0000_0000
  const U32_LIMIT: nat := 0x1_0000_0000
  /** `ABR1` */
  const MAGIC: seq<byte> := [65, 66, 82, 49]

  datatype Logo = Logo(width: nat, height: nat, rgba: seq<byte>)

  datatype LoadError = NotALogo | SizeMismatch

  datatype Rgba = Rgba(red: byte, green: byte, blue: byte, alpha: byte)

  // ----- The raw format -----

  function FromLe32(b: seq<byte>): (n: nat)
    requires |b| == 4
    ensures n < U32_LIMIT
  {
    var (b0: nat, b1: nat, b2: nat, b3: nat) := (b[0], b[1], b[2], b[3]);
    b0 + 256 * b1 + 65536 * b2 + 16777216 * b3
  }

  function ToLe32(n: nat): (b: seq<byte>)
    requires n < U32_LIMIT
    ensures |b| == 4 && FromLe32(b) == n
  {
    [n % 256, n / 256 % 256, n / 256 / 256 % 256, n / 256 / 256 / 256]
  }

  /** Header and four bytes per pixel. */
  function FileSize(width: nat, height: nat): nat {
    12 + width * height * 4
  }

  /** The size check is computed in 64-bit arithmetic that wraps around. */
  function Load(data: seq<byte>): (r: Result<Logo, LoadError>) {
    if |data| < 12 || data[..4] != MAGIC then Err(NotALogo)
    else
      var width := FromLe32(data[4..8]);
      var height := FromLe32(data[8..12]);
      if width == 0 || height == 0 || |data| != FileSize(width, height) % USIZE_LIMIT then Err(SizeMismatch)
      else Ok(Logo(width, height, data[12..]))
  }

  /** Which files load: the four letters ABR1, width and height with the low byte first, neither of them zero, and as
      many bytes as they say, counted modulo 2^64. */
  lemma LoadsExactly(data: seq<byte>, width: nat, height: nat)
    requires width < U32_LIMIT && height < U32_LIMIT
    ensures (Load(data).Ok? && Load(data).value.width == width && Load(data).value.height == height) <==>
      && |data| >= 12 && data[0] == 65 && data[1] == 66 && data[2] == 82 && data[3] == 49
      && data[4] as int + 256 * data[5] as int + 65536 * data[6] as int + 16777216 * data[7] as int == width
      && data[8] as int + 256 * data[9] as int + 65536 * data[10] as int + 16777216 * data[11] as int == height
      && width > 0 && height > 0 && |data| == (12 + width * height * 4) % 0x1_0000_0000_0000_0000
    ensures Load(data).Ok? ==> Load(data).value.rgba == data[12..]
  {
    if |data| >= 12 {
      assert data[..4] == MAGIC <==> data[0] == 65 && data[1] == 66 && data[2] == 82 && data[3] == 49;
      LittleEndian(data[4..8], data[4], data[5], data[6], data[7]);
      LittleEndian(data[8..12], data[8], data[9], data[10], data[11]);
    }
  }

  lemma LittleEndian(b: seq<byte>, b0: byte, b1: byte, b2: byte, b3: byte)
    requires b == [b0, b1, b2, b3]
    ensures FromLe32(b) == b0 as int + 256 * b1 as int + 65536 * b2 as int + 16777216 * b3 as int
  {}

  /** One pixel has four bytes. */
  predicate Consistent(logo: Logo) {
    logo.width > 0 && logo.height > 0 && |logo.rgba| == logo.width * logo.height * 4
  }

  /** A loaded logo has as many pixels as its header says, exactly when the size computation did not wrap. */
  lemma LoadedLogoIsConsistent(data: seq<byte>)
    requires |data| < USIZE_LIMIT && Load(data).Ok?
    ensures var logo := Load(data).value;
      Consistent(logo) <==> FileSize(logo.width, logo.height) < USIZE_LIMIT
  {
    var logo := Load(data).value;
    var size := FileSize(logo.width, logo.height);
    assert |logo.rgba| == size % USIZE_LIMIT - 12;
    if size < USIZE_LIMIT {
      assert size % USIZE_LIMIT == size;
    }
  }

  /** Twelve bytes that claim 2^31 by 2^31 pixels are accepted: the wrap-around is reachable. */
  lemma WrappedHeaderIsAccepted(data: seq<byte>)
    requires data == MAGIC + [0, 0, 0, 128] + [0, 0, 0, 128]
    ensures Load(data) == Ok(Logo(0x8000_0000, 0x8000_0000, []))
    ensures !Consistent(Load(data).value)
  {
    assert data[..4] == MAGIC && data[4..8] == [0, 0, 0, 128] && data[8..12] == [0, 0, 0, 128];
    assert FromLe32([0, 0, 0, 128]) == 0x8000_0000;
    assert FileSize(0x8000_0000, 0x8000_0000) == 12 + USIZE_LIMIT;
    assert data[12..] == [];
  }

  // ----- Sampling -----

  function Min(a: nat, b: nat): nat { if a < b then a else b }

  lemma IndexInRange(logo: Logo, x: nat, y: nat)
    requires Consistent(logo) && x < logo.width && y < logo.height
    ensures (y * logo.width + x) * 4 + 4 <= |logo.rgba|
  {
    assert (y + 1) * logo.width <= logo.height * logo.width;
  }

  /** The pixel at (`x`, `y`), clamped to the last column and row. */
  function PixelAt(logo: Logo, x: nat, y: nat): Rgba
    requires Consistent(logo)
  {
    var (cx, cy) := (Min(x, logo.width - 1), Min(y, logo.height - 1));
    IndexInRange(logo, cx, cy);
    var i := (cy * logo.width + cx) * 4;
    Rgba(logo.rgba[i], logo.rgba[i + 1], logo.rgba[i + 2], logo.rgba[i + 3])
  }

  /** Beyond the right or lower edge the last column or row is repeated; within, a pixel is four bytes of its row. */
  lemma EdgeIsRepeated(logo: Logo, x: nat, y: nat)
    requires Consistent(logo)
    ensures x >= logo.width ==> PixelAt(logo, x, y) == PixelAt(logo, logo.width - 1, y)
    ensures y >= logo.height ==> PixelAt(logo, x, y) == PixelAt(logo, x, logo.height - 1)
    ensures x < logo.width && y < logo.height ==>
      var i := (y * logo.width + x) * 4;
      && i + 4 <= |logo.rgba|
      && PixelAt(logo, x, y) == Rgba(logo.rgba[i], logo.rgba[i + 1], logo.rgba[i + 2], logo.rgba[i + 3])
  {
    if x < logo.width && y < logo.height {
      IndexInRange(logo, x, y);
    }
  }

  /** A colour channel (0 to 2), or 255 for the alpha channel, so that channel times alpha is what is mixed. */
  function Channel(p: Rgba, c: nat): byte {
    if c == 0 then p.red else if c == 1 then p.green else if c == 2 then p.blue else 255
  }

  /** Premultiplied channel `c` of the clamped pixel. */
  function Texel(logo: Logo, x: nat, y: nat, c: nat): nat
    requires Consistent(logo)
  {
    var p := PixelAt(logo, x, y);
    Channel(p, c) * p.alpha
  }

  /** Centre of destination pixel `d` of `box` in a source of `size` pixels, in 1/256 of a pixel. */
  function SourcePosition(d: nat, size: nat, box: nat): nat
    requires box > 0
  {
    var s := (2 * d + 1) * size * 128 / box - 128;
    if s < 0 then 0 else s
  }

  /** The position is the exact centre, (2 d + 1) * size / (2 box) - 1/2 pixels in 1/256 of a pixel, rounded down, or
      zero where that is negative. */
  lemma SourcePositionIsCentre(d: nat, size: nat, box: nat)
    requires box > 0
    ensures var (s, exact) := (SourcePosition(d, size, box), (2 * d + 1) * size * 128);
      if exact < 128 * box then s == 0 else (s + 128) * box <= exact < (s + 129) * box
  {
    var exact := (2 * d + 1) * size * 128;
    CentreBounds(exact, box);
  }

  lemma CentreBounds(exact: nat, box: nat)
    requires box > 0
    ensures var q := exact / box;
      && q * box <= exact < (q + 1) * box
      && (exact < 128 * box <==> q < 128)
  {
    var q := exact / box;
    Recompose(exact, box);
    OneLess(q + 1, box);
    if q < 128 {
      StepAdds(q, 128, box);
    } else if q > 128 {
      StepAdds(128, q, box);
    }
  }

  /** Four values: upper left, upper right, lower left, lower right. */
  datatype Quad = Quad(v00: nat, v10: nat, v01: nat, v11: nat)

  /** `a` and `b` mixed in the proportion 256 - f to f, times 256. */
  function Lerp(a: nat, b: nat, f: nat): nat
    requires f <= 256
  {
    NonNegative(a, 256 - f);
    NonNegative(b, f);
    a * (256 - f) + b * f
  }

  /** The mixing loop's expression for one channel. The lower pair is weighted with `fy`, where the upper
      pair is weighted with `fx`. */
  function Mix(t: Quad, fx: nat, fy: nat): nat
    requires fx <= 256 && fy <= 256
  {
    Lerp(Lerp(t.v00, t.v10, fx), Lerp(t.v01, t.v11, fy), fy) / 65536
  }

  function Neighbours(logo: Logo, x: nat, y: nat, c: nat): Quad
    requires Consistent(logo)
  {
    Quad(Texel(logo, x, y, c), Texel(logo, x + 1, y, c), Texel(logo, x, y + 1, c), Texel(logo, x + 1, y + 1, c))
  }

  function MixAt(logo: Logo, sx: nat, sy: nat, c: nat): nat
    requires Consistent(logo)
  {
    Mix(Neighbours(logo, sx / 256, sy / 256, c), sx % 256, sy % 256)
  }

  /** A mixed channel divided by the mixed alpha, limited to 255. */
  function Unmultiply(v: nat, alpha: nat): byte
    requires alpha > 0
  {
    Min(v / alpha, 255)
  }

  /** Straight colour and alpha from the four mixed channels. */
  function Finish(red: nat, green: nat, blue: nat, mixedAlpha: nat): Rgba {
    var alpha := mixedAlpha / 255;
    if alpha == 0 then Rgba(0, 0, 0, 0)
    else Rgba(Unmultiply(red, alpha), Unmultiply(green, alpha), Unmultiply(blue, alpha), Min(alpha, 255))
  }

  /** Colour and alpha at a source position, in 1/256 of a pixel. */
  function SampleFrom(logo: Logo, sx: nat, sy: nat): Rgba
    requires Consistent(logo)
  {
    Finish(MixAt(logo, sx, sy, 0), MixAt(logo, sx, sy, 1), MixAt(logo, sx, sy, 2), MixAt(logo, sx, sy, 3))
  }

  /** The sample for column `dx` and row `dy` of a box of `dw` by `dh` pixels. */
  function SampleAt(logo: Logo, dx: nat, dy: nat, dw: nat, dh: nat): Rgba
    requires Consistent(logo) && dw > 0 && dh > 0
  {
    SampleFrom(logo, SourcePosition(dx, logo.width, dw), SourcePosition(dy, logo.height, dh))
  }

  method Sample(logo: Logo, dx: nat, dy: nat, dw: nat, dh: nat) returns (p: Rgba)
    requires Consistent(logo) && dw > 0 && dh > 0
    ensures p == SampleAt(logo, dx, dy, dw, dh)
  {
    var sx: nat, sy: nat := SourcePosition(dx, logo.width, dw), SourcePosition(dy, logo.height, dh);
    var x0, y0, fx, fy := sx / 256, sy / 256, sx % 256, sy % 256;
    var out := new nat[4](_ => 0);
    var c := 0;
    while c < 4
      invariant 0 <= c <= 4
      invariant forall k :: 0 <= k < c ==> out[k] == MixAt(logo, sx, sy, k)
    {
      var t00, t10 := Texel(logo, x0, y0, c), Texel(logo, x0 + 1, y0, c);
      var t01, t11 := Texel(logo, x0, y0 + 1, c), Texel(logo, x0 + 1, y0 + 1, c);
      var top := Lerp(t00, t10, fx);
      var bottom := Lerp(t01, t11, fy);
      out[c] := Lerp(top, bottom, fy) / 65536;
      c := c + 1;
    }
    p := Finish(out[0], out[1], out[2], out[3]);
  }

  // ----- What a sample is: a weighted mean -----

  /** The weights, in 1/65536, that the four neighbours get. */
  function Weights(fx: nat, fy: nat): Quad
    requires fx <= 256 && fy <= 256
  {
    var gx: nat, gy: nat := 256 - fx, 256 - fy;
    Quad(gx * gy, fx * gy, gy * fy, fy * fy)
  }

  function Weighted(w: Quad, t: Quad): nat {
    w.v00 * t.v00 + w.v10 * t.v10 + w.v01 * t.v01 + w.v11 * t.v11
  }

  function Times(a: Quad, b: Quad): Quad {
    Quad(a.v00 * b.v00, a.v10 * b.v10, a.v01 * b.v01, a.v11 * b.v11)
  }

  lemma MixIsWeighted(t: Quad, fx: nat, fy: nat)
    requires fx <= 256 && fy <= 256
    ensures Mix(t, fx, fy) == Weighted(Weights(fx, fy), t) / 65536
  {
    var gx: nat, gy: nat := 256 - fx, 256 - fy;
    assert Lerp(t.v00, t.v10, fx) * gy == gx * gy * t.v00 + fx * gy * t.v10;
    assert Lerp(t.v01, t.v11, fy) * fy == gy * fy * t.v01 + fy * fy * t.v11;
  }

  lemma WeightsAddUp(fx: nat, fy: nat)
    requires fx <= 256 && fy <= 256
    ensures var w := Weights(fx, fy); w.v00 + w.v10 + w.v01 + w.v11 == 65536
  {
    var gx: nat, gy: nat := 256 - fx, 256 - fy;
    assert gx * gy + fx * gy == 256 * gy && gy * fy + fy * fy == 256 * fy;
  }

  /** Every entry that counts (positive weight and alpha) lies between `low` and `high`. */
  predicate Between(w: Quad, c: Quad, a: Quad, low: nat, high: nat) {
    && (w.v00 > 0 && a.v00 > 0 ==> low <= c.v00 <= high)
    && (w.v10 > 0 && a.v10 > 0 ==> low <= c.v10 <= high)
    && (w.v01 > 0 && a.v01 > 0 ==> low <= c.v01 <= high)
    && (w.v11 > 0 && a.v11 > 0 ==> low <= c.v11 <= high)
  }

  lemma TermBounds(w: nat, c: nat, a: nat, low: nat, high: nat)
    requires w > 0 && a > 0 ==> low <= c <= high
    ensures low * (w * a) <= w * (c * a) <= high * (w * a)
  {
    var k := w * a;
    assert w * (c * a) == c * k;
    if w > 0 && a > 0 {
      assert (c - low) * k >= 0 && (high - c) * k >= 0;
    } else {
      assert k == 0;
    }
  }

  lemma WeightedBounds(w: Quad, c: Quad, a: Quad, low: nat, high: nat)
    requires Between(w, c, a, low, high)
    ensures low * Weighted(w, a) <= Weighted(w, Times(c, a)) <= high * Weighted(w, a)
  {
    TermBounds(w.v00, c.v00, a.v00, low, high);
    TermBounds(w.v10, c.v10, a.v10, low, high);
    TermBounds(w.v01, c.v01, a.v01, low, high);
    TermBounds(w.v11, c.v11, a.v11, low, high);
    Distribute(low, w.v00 * a.v00, w.v10 * a.v10, w.v01 * a.v01, w.v11 * a.v11);
    Distribute(high, w.v00 * a.v00, w.v10 * a.v10, w.v01 * a.v01, w.v11 * a.v11);
  }

  lemma Distribute(n: nat, a: nat, b: nat, c: nat, d: nat)
    ensures n * (a + b + c + d) == n * a + n * b + n * c + n * d
  {}

  /** Dividing the mixed colour by the mixed alpha, both rounded down, stays within the bounds up to the
      rounding of alpha. */
  lemma QuotientBounds(sum: nat, weight: nat, low: nat, high: nat)
    requires low * weight <= sum <= high * weight
    requires weight / 65536 > 0
    ensures var alpha := weight / 65536;
      && low <= sum / 65536 / alpha
      && (high > 0 ==> sum / 65536 / alpha <= high + (high - 1) / alpha)
      && (high == 0 ==> sum == 0)
  {
    var alpha, rest := weight / 65536, weight % 65536;
    FloorBounds(sum, alpha, rest, low, high);
    DivideLower(sum / 65536, alpha, low);
    if high > 0 {
      DivideUpper(sum / 65536, alpha, high);
    }
  }

  lemma FloorBounds(sum: nat, alpha: nat, rest: nat, low: nat, high: nat)
    requires rest < 65536 && low * (65536 * alpha + rest) <= sum <= high * (65536 * alpha + rest)
    ensures low * alpha <= sum / 65536
    ensures high > 0 ==> sum / 65536 <= high * alpha + high - 1
    ensures high == 0 ==> sum == 0
  {
    assert low * (65536 * alpha + rest) == 65536 * (low * alpha) + low * rest;
    assert high * (65536 * alpha + rest) == 65536 * (high * alpha) + high * rest;
    assert high > 0 ==> high * rest < high * 65536;
  }

  lemma CancelFactor(a: nat, b: nat, d: nat)
    requires a * d < b * d
    ensures a < b
  {
    assert (b - a) * d > 0;
  }

  lemma DivideLower(v: nat, d: nat, q: nat)
    requires d > 0 && v >= q * d
    ensures v / d >= q
  {
    var k := v / d;
    assert v == d * k + v % d;
    assert (k + 1) * d == d * k + d;
    CancelFactor(q, k + 1, d);
  }

  lemma DivideUpper(v: nat, d: nat, high: nat)
    requires d > 0 && high > 0 && v <= high * d + high - 1
    ensures v / d <= high + (high - 1) / d
  {
    var k, extra := v / d, (high - 1) / d;
    assert v == d * k + v % d;
    assert high - 1 == d * extra + (high - 1) % d;
    assert (high + extra + 1) * d == high * d + d * extra + d;
    CancelFactor(k, high + extra + 1, d);
  }

  lemma NestedFloor(sum: nat)
    ensures sum * 255 / 65536 / 255 == sum / 65536
  {
    var q, r := sum / 65536, sum % 65536;
    assert sum * 255 == 65536 * (255 * q) + 255 * r;
    assert sum * 255 / 65536 == 255 * q + 255 * r / 65536;
    assert 255 * r / 65536 < 255;
  }

  // ----- The bounds on a sample -----

  function PixelQuad(logo: Logo, x: nat, y: nat, c: nat): Quad
    requires Consistent(logo)
  {
    Quad(Channel(PixelAt(logo, x, y), c), Channel(PixelAt(logo, x + 1, y), c),
         Channel(PixelAt(logo, x, y + 1), c), Channel(PixelAt(logo, x + 1, y + 1), c))
  }

  function AlphaQuad(logo: Logo, x: nat, y: nat): Quad
    requires Consistent(logo)
  {
    Quad(PixelAt(logo, x, y).alpha, PixelAt(logo, x + 1, y).alpha,
         PixelAt(logo, x, y + 1).alpha, PixelAt(logo, x + 1, y + 1).alpha)
  }

  lemma MixedAlpha(logo: Logo, sx: nat, sy: nat)
    requires Consistent(logo)
    ensures MixAt(logo, sx, sy, 3) / 255 ==
      Weighted(Weights(sx % 256, sy % 256), AlphaQuad(logo, sx / 256, sy / 256)) / 65536
    ensures MixAt(logo, sx, sy, 3) / 255 <= 255
  {
    var w, a := Weights(sx % 256, sy % 256), AlphaQuad(logo, sx / 256, sy / 256);
    MixIsWeighted(Neighbours(logo, sx / 256, sy / 256, 3), sx % 256, sy % 256);
    WeightsAddUp(sx % 256, sy % 256);
    ScaledSum(w, a);
    MeanAtMost(w, a, 255);
    NestedFloor(Weighted(w, a));
  }

  lemma ScaledSum(w: Quad, a: Quad)
    ensures Weighted(w, Times(Quad(255, 255, 255, 255), a)) == Weighted(w, a) * 255
  {
    assert w.v00 * (255 * a.v00) == 255 * (w.v00 * a.v00) && w.v10 * (255 * a.v10) == 255 * (w.v10 * a.v10);
    assert w.v01 * (255 * a.v01) == 255 * (w.v01 * a.v01) && w.v11 * (255 * a.v11) == 255 * (w.v11 * a.v11);
  }

  lemma MeanAtMost(w: Quad, a: Quad, high: nat)
    requires a.v00 <= high && a.v10 <= high && a.v01 <= high && a.v11 <= high
    ensures Weighted(w, a) <= high * (w.v00 + w.v10 + w.v01 + w.v11)
  {
    assert w.v00 * a.v00 <= w.v00 * high && w.v10 * a.v10 <= w.v10 * high;
    assert w.v01 * a.v01 <= w.v01 * high && w.v11 * a.v11 <= w.v11 * high;
    assert w.v00 * high + w.v10 * high + w.v01 * high + w.v11 * high == high * (w.v00 + w.v10 + w.v01 + w.v11);
  }

  /** Alpha is the rounded-down weighted mean. Each colour lies between the smallest and the largest of the
      visible neighbours that count, except that rounding alpha down can raise it by (high - 1) / alpha. */
  lemma SampleBounds(logo: Logo, sx: nat, sy: nat, c: nat, low: nat, high: nat)
    requires Consistent(logo) && c < 3 && low <= high <= 255
    requires Between(Weights(sx % 256, sy % 256), PixelQuad(logo, sx / 256, sy / 256, c),
                     AlphaQuad(logo, sx / 256, sy / 256), low, high)
    ensures SampleFrom(logo, sx, sy).alpha ==
      Weighted(Weights(sx % 256, sy % 256), AlphaQuad(logo, sx / 256, sy / 256)) / 65536
    ensures var p := SampleFrom(logo, sx, sy);
      p.alpha > 0 ==>
        && low <= Channel(p, c)
        && (high > 0 ==> Channel(p, c) <= high + (high - 1) / p.alpha)
        && (high == 0 ==> Channel(p, c) == 0)
  {
    MixedAlpha(logo, sx, sy);
    var m := seq(4, k requires 0 <= k => MixAt(logo, sx, sy, k));
    if m[3] / 255 > 0 {
      MixedColour(logo, sx, sy, c, low, high);
    }
    FinishBounds(m, c, low, high);
  }

  /** A visible sample exactly: each colour is the weighted mean of the premultiplied neighbours, divided by the
      sample's alpha, rounded down, and no more than 255. An invisible one is all zero. */
  lemma SampleIsFloor(logo: Logo, sx: nat, sy: nat, c: nat)
    requires Consistent(logo) && c < 3
    ensures var (p, w) := (SampleFrom(logo, sx, sy), Weights(sx % 256, sy % 256));
      var (x, y) := (sx / 256, sy / 256);
      var mean := Weighted(w, Times(PixelQuad(logo, x, y, c), AlphaQuad(logo, x, y))) / 65536;
      if p.alpha == 0 then p == Rgba(0, 0, 0, 0)
      else Channel(p, c) == if mean / p.alpha > 255 then 255 else mean / p.alpha
  {
    var (x, y, w) := (sx / 256, sy / 256, Weights(sx % 256, sy % 256));
    MixedAlpha(logo, sx, sy);
    MixIsWeighted(Neighbours(logo, x, y, c), sx % 256, sy % 256);
    assert Neighbours(logo, x, y, c) == Times(PixelQuad(logo, x, y, c), AlphaQuad(logo, x, y));
    FinishIsFloor(MixAt(logo, sx, sy, 0), MixAt(logo, sx, sy, 1), MixAt(logo, sx, sy, 2), MixAt(logo, sx, sy, 3));
  }

  lemma FinishIsFloor(red: nat, green: nat, blue: nat, mixedAlpha: nat)
    requires mixedAlpha / 255 <= 255
    ensures var (p, alpha) := (Finish(red, green, blue, mixedAlpha), mixedAlpha / 255);
      && p.alpha == alpha
      && if alpha == 0 then p == Rgba(0, 0, 0, 0)
         else p.red == Min(red / alpha, 255) && p.green == Min(green / alpha, 255) && p.blue == Min(blue / alpha, 255)
  {}

  lemma FinishBounds(m: seq<nat>, c: nat, low: nat, high: nat)
    requires |m| == 4 && c < 3 && low <= high <= 255 && m[3] / 255 <= 255
    requires m[3] / 255 > 0 ==>
      && low <= m[c] / (m[3] / 255)
      && (high > 0 ==> m[c] / (m[3] / 255) <= high + (high - 1) / (m[3] / 255))
      && (high == 0 ==> m[c] == 0)
    ensures var p := Finish(m[0], m[1], m[2], m[3]);
      && p.alpha == m[3] / 255
      && (p.alpha > 0 ==>
        && low <= Channel(p, c)
        && (high > 0 ==> Channel(p, c) <= high + (high - 1) / p.alpha)
        && (high == 0 ==> Channel(p, c) == 0))
  {}

  lemma MixedColour(logo: Logo, sx: nat, sy: nat, c: nat, low: nat, high: nat)
    requires Consistent(logo) && c < 3
    requires Between(Weights(sx % 256, sy % 256), PixelQuad(logo, sx / 256, sy / 256, c),
                     AlphaQuad(logo, sx / 256, sy / 256), low, high)
    requires MixAt(logo, sx, sy, 3) / 255 > 0
    ensures var alpha := MixAt(logo, sx, sy, 3) / 255;
      && low <= MixAt(logo, sx, sy, c) / alpha
      && (high > 0 ==> MixAt(logo, sx, sy, c) / alpha <= high + (high - 1) / alpha)
      && (high == 0 ==> MixAt(logo, sx, sy, c) == 0)
  {
    var (x, y, w) := (sx / 256, sy / 256, Weights(sx % 256, sy % 256));
    var colours, alphas := PixelQuad(logo, x, y, c), AlphaQuad(logo, x, y);
    MixedAlpha(logo, sx, sy);
    MixIsWeighted(Neighbours(logo, x, y, c), sx % 256, sy % 256);
    assert Neighbours(logo, x, y, c) == Times(colours, alphas);
    WeightedBounds(w, colours, alphas, low, high);
    QuotientBounds(Weighted(w, Times(colours, alphas)), Weighted(w, alphas), low, high);
  }

  /** Every neighbour that counts is opaque. */
  predicate Opaque(w: Quad, a: Quad) {
    && (w.v00 > 0 ==> a.v00 == 255) && (w.v10 > 0 ==> a.v10 == 255)
    && (w.v01 > 0 ==> a.v01 == 255) && (w.v11 > 0 ==> a.v11 == 255)
  }

  /** Where every neighbour that counts is opaque the sample is opaque and the colour interpolates. */
  lemma OpaqueSamplesInterpolate(logo: Logo, sx: nat, sy: nat, c: nat, low: nat, high: nat)
    requires Consistent(logo) && c < 3 && low <= high <= 255
    requires var w, a := Weights(sx % 256, sy % 256), AlphaQuad(logo, sx / 256, sy / 256);
      Opaque(w, a) && Between(w, PixelQuad(logo, sx / 256, sy / 256, c), a, low, high)
    ensures var p := SampleFrom(logo, sx, sy); p.alpha == 255 && low <= Channel(p, c) <= high
  {
    SampleBounds(logo, sx, sy, c, low, high);
    WeightsAddUp(sx % 256, sy % 256);
    OpaqueMean(Weights(sx % 256, sy % 256), AlphaQuad(logo, sx / 256, sy / 256));
  }

  lemma OpaqueMean(w: Quad, a: Quad)
    requires w.v00 + w.v10 + w.v01 + w.v11 == 65536
    requires Opaque(w, a)
    ensures Weighted(w, a) == 255 * 65536
  {
    assert w.v00 * a.v00 == 255 * w.v00 && w.v10 * a.v10 == 255 * w.v10;
    assert w.v01 * a.v01 == 255 * w.v01 && w.v11 * a.v11 == 255 * w.v11;
  }

  /** The rounding allowance cannot be dropped: here both visible pixels have the colour `high`, and the
      sample exceeds it by all of (high - 1) / alpha. */
  lemma BoundIsReached(logo: Logo)
    requires logo == Logo(2, 1, [100, 100, 100, 1, 100, 100, 100, 2])
    ensures SampleFrom(logo, 255, 0) == Rgba(199, 199, 199, 1)
  {
    assert PixelAt(logo, 0, 0) == PixelAt(logo, 0, 1) == Rgba(100, 100, 100, 1);
    assert PixelAt(logo, 1, 0) == PixelAt(logo, 1, 1) == Rgba(100, 100, 100, 2);
    GreyPixels(logo, 255, 0, Quad(100, 200, 100, 200), Quad(255, 510, 255, 510));
    MixTwoPixels();
  }

  lemma MixTwoPixels()
    ensures Mix(Quad(100, 200, 100, 200), 255, 0) == 199 && Mix(Quad(255, 510, 255, 510), 255, 0) == 509
  {}

  lemma GreyPixels(logo: Logo, sx: nat, sy: nat, grey: Quad, alpha: Quad)
    requires Consistent(logo)
    requires Neighbours(logo, sx / 256, sy / 256, 0) == Neighbours(logo, sx / 256, sy / 256, 1)
          == Neighbours(logo, sx / 256, sy / 256, 2) == grey
    requires Neighbours(logo, sx / 256, sy / 256, 3) == alpha
    ensures var m := Mix(grey, sx % 256, sy % 256);
      SampleFrom(logo, sx, sy) == Finish(m, m, m, Mix(alpha, sx % 256, sy % 256))
  {}

  // ----- Native size -----

  lemma NativePosition(d: nat, size: nat)
    requires size > 0
    ensures SourcePosition(d, size, size) == 256 * d
  {
    var n := (2 * d + 1) * 128;
    assert (2 * d + 1) * size * 128 == n * size;
    ExactQuotient(n, size);
  }

  /** At its own size a logo is reproduced exactly, except that invisible pixels become all zero. */
  lemma NativeSizeIsIdentity(logo: Logo, x: nat, y: nat)
    requires Consistent(logo) && x < logo.width && y < logo.height
    ensures SampleAt(logo, x, y, logo.width, logo.height) ==
      if PixelAt(logo, x, y).alpha == 0 then Rgba(0, 0, 0, 0) else PixelAt(logo, x, y)
  {
    NativePosition(x, logo.width);
    NativePosition(y, logo.height);
    MixOnPixel(logo, x, y, 0);
    MixOnPixel(logo, x, y, 1);
    MixOnPixel(logo, x, y, 2);
    MixOnPixel(logo, x, y, 3);
    FinishOnPixel(PixelAt(logo, x, y));
  }

  lemma MixOnPixel(logo: Logo, x: nat, y: nat, c: nat)
    requires Consistent(logo)
    ensures MixAt(logo, 256 * x, 256 * y, c) == Channel(PixelAt(logo, x, y), c) * PixelAt(logo, x, y).alpha
  {
    MixUpperLeft(Neighbours(logo, x, y, c));
  }

  lemma MixUpperLeft(t: Quad)
    ensures Mix(t, 0, 0) == t.v00
  {
    assert Lerp(t.v00, t.v10, 0) == 256 * t.v00;
    assert Lerp(256 * t.v00, Lerp(t.v01, t.v11, 0), 0) == 65536 * t.v00;
  }

  lemma FinishOnPixel(p: Rgba)
    ensures Finish(p.red * p.alpha, p.green * p.alpha, p.blue * p.alpha, 255 * p.alpha) ==
      if p.alpha == 0 then Rgba(0, 0, 0, 0) else p
  {
    if p.alpha > 0 {
      ExactQuotient(p.red, p.alpha);
      ExactQuotient(p.green, p.alpha);
      ExactQuotient(p.blue, p.alpha);
    }
  }

  lemma ExactQuotient(a: nat, b: nat)
    requires b > 0
    ensures a * b / b == a
  {
    QuotientUnique(a * b, b, a, 0);
  }

  // ----- Distance from true bilinear interpolation -----

  /** Bilinear interpolation weights the lower pair as the upper pair, with `fx`. */
  function BilinearSum(t: Quad, fx: nat, fy: nat): nat
    requires fx <= 256 && fy <= 256
  {
    Lerp(Lerp(t.v00, t.v10, fx), Lerp(t.v01, t.v11, fx), fy)
  }

  function MixSum(t: Quad, fx: nat, fy: nat): nat
    requires fx <= 256 && fy <= 256
  {
    Lerp(Lerp(t.v00, t.v10, fx), Lerp(t.v01, t.v11, fy), fy)
  }

  /** The mixing expression is bilinear exactly where the lower row does not count, the two fractions agree,
      or the lower pair is uniform; elsewhere it is off by fy * (fx - fy) * (lower left - lower right). */
  lemma WhenMixIsBilinear(t: Quad, fx: nat, fy: nat)
    requires fx <= 256 && fy <= 256
    ensures MixSum(t, fx, fy) - BilinearSum(t, fx, fy) == fy * (fx - fy) * (t.v01 - t.v11)
    ensures MixSum(t, fx, fy) == BilinearSum(t, fx, fy) <==> fy == 0 || fx == fy || t.v01 == t.v11
  {
    LerpDifference(t.v01, t.v11, fx, fy);
    OuterDifference(Lerp(t.v00, t.v10, fx), Lerp(t.v01, t.v11, fx), Lerp(t.v01, t.v11, fy), fy);
    Reassociate(fy, fx - fy, t.v01 - t.v11);
    ZeroProduct(fy, fx - fy, t.v01 - t.v11);
  }

  lemma LerpDifference(a: nat, b: nat, f: nat, g: nat)
    requires f <= 256 && g <= 256
    ensures Lerp(a, b, g) - Lerp(a, b, f) == (f - g) * (a - b)
  {}

  lemma OuterDifference(a: nat, b: nat, b': nat, f: nat)
    requires f <= 256
    ensures Lerp(a, b', f) - Lerp(a, b, f) == (b' - b) * f
  {}

  lemma Reassociate(a: int, b: int, c: int)
    ensures b * c * a == a * b * c
  {}

  lemma ZeroProduct(a: int, b: int, c: int)
    ensures a * b * c == 0 <==> a == 0 || b == 0 || c == 0
  {
    if a != 0 && b != 0 {
      assert a * b != 0;
    }
  }

  /** The difference shows: where a white pixel lies below and to the right of three black ones, sampling
      the left column three quarters down leaks white into it, where bilinear interpolation stays black. */
  lemma LowerRowLeaks(logo: Logo)
    requires Consistent(logo)
    requires PixelAt(logo, 0, 0) == PixelAt(logo, 1, 0) == PixelAt(logo, 0, 1) == Rgba(0, 0, 0, 255)
    requires PixelAt(logo, 1, 1) == Rgba(255, 255, 255, 255)
    ensures SampleFrom(logo, 0, 192) == Rgba(143, 143, 143, 255)
    ensures BilinearSum(Neighbours(logo, 0, 0, 0), 0, 192) == 0
  {
    LowerRightNeighbours(logo, 0);
    LowerRightNeighbours(logo, 1);
    LowerRightNeighbours(logo, 2);
    LowerRightNeighbours(logo, 3);
    LowerRightMix(logo, 0, 65025, 36576);
    FinishGrey();
  }

  lemma LowerRightNeighbours(logo: Logo, c: nat)
    requires Consistent(logo) && c < 4
    requires PixelAt(logo, 0, 0) == PixelAt(logo, 1, 0) == PixelAt(logo, 0, 1) == Rgba(0, 0, 0, 255)
    requires PixelAt(logo, 1, 1) == Rgba(255, 255, 255, 255)
    ensures Neighbours(logo, 0, 0, c) == if c < 3 then Quad(0, 0, 0, 65025) else Quad(65025, 65025, 65025, 65025)
  {}

  lemma FinishGrey()
    ensures Finish(36576, 36576, 36576, 65025) == Rgba(143, 143, 143, 255)
  {}

  /** That position is row 2 of a box twice as high as a 2 by 2 logo. */
  lemma LowerRowPosition()
    ensures SourcePosition(0, 2, 2) == 0 && SourcePosition(2, 2, 4) == 192
  {}

  lemma LowerRowIsDrawn(logo: Logo)
    requires Consistent(logo) && logo.width == logo.height == 2
    ensures SampleAt(logo, 0, 2, 2, 4) == SampleFrom(logo, 0, 192)
  {
    LowerRowPosition();
  }

  lemma LowerRightMix(logo: Logo, black: nat, white: nat, mixed: nat)
    requires Consistent(logo) && mixed * 65536 <= 28672 * black + 36864 * white < (mixed + 1) * 65536
    requires Neighbours(logo, 0, 0, 0) == Neighbours(logo, 0, 0, 1) == Neighbours(logo, 0, 0, 2)
          == Quad(black, black, black, white)
    requires Neighbours(logo, 0, 0, 3) == Quad(white, white, white, white)
    ensures SampleFrom(logo, 0, 192) == Finish(mixed, mixed, mixed, white)
    ensures BilinearSum(Neighbours(logo, 0, 0, 0), 0, 192) == 65536 * black
  {
    GreyPixels(logo, 0, 192, Quad(black, black, black, white), Quad(white, white, white, white));
    MixLowerRight(black, white, mixed);
    MixLowerRight(white, white, white);
  }

  lemma MixLowerRight(rest: nat, lowerRight: nat, mixed: nat)
    requires mixed * 65536 <= 28672 * rest + 36864 * lowerRight < (mixed + 1) * 65536
    ensures Mix(Quad(rest, rest, rest, lowerRight), 0, 192) == mixed
    ensures BilinearSum(Quad(rest, rest, rest, lowerRight), 0, 192) == 65536 * rest
  {}

  // ----- Machine integers -----

  /** In a box of at most 2^22 pixels a side nothing overflows: source positions fit in a signed 64-bit
      number and mixed channels fit in 32 bits. */
  lemma SamplingFits(logo: Logo, dx: nat, dy: nat, dw: nat, dh: nat, t: Quad, fx: nat, fy: nat)
    requires logo.width < U32_LIMIT && dx < dw <= 0x40_0000
    requires logo.height < U32_LIMIT && dy < dh <= 0x40_0000
    requires fx < 256 && fy < 256
    requires t.v00 <= 255 * 255 && t.v10 <= 255 * 255 && t.v01 <= 255 * 255 && t.v11 <= 255 * 255
    ensures SourcePosition(dx, logo.width, dw) <= (2 * dx + 1) * logo.width * 128 < USIZE_LIMIT / 2
    ensures SourcePosition(dy, logo.height, dh) <= (2 * dy + 1) * logo.height * 128 < USIZE_LIMIT / 2
    ensures MixSum(t, fx, fy) < U32_LIMIT
  {
    PositionFits(dx, dw, logo.width);
    PositionFits(dy, dh, logo.height);
    MixFits(t, fx, fy);
  }

  lemma MixFits(t: Quad, fx: nat, fy: nat)
    requires fx < 256 && fy < 256
    requires t.v00 <= 255 * 255 && t.v10 <= 255 * 255 && t.v01 <= 255 * 255 && t.v11 <= 255 * 255
    ensures MixSum(t, fx, fy) < U32_LIMIT
  {
    MixIsWeightedSum(t, fx, fy);
    MeanAtMost(Weights(fx, fy), t, 255 * 255);
    WeightsAddUp(fx, fy);
  }

  lemma MixIsWeightedSum(t: Quad, fx: nat, fy: nat)
    requires fx <= 256 && fy <= 256
    ensures MixSum(t, fx, fy) == Weighted(Weights(fx, fy), t)
  {
    var gx: nat, gy: nat := 256 - fx, 256 - fy;
    assert Lerp(t.v00, t.v10, fx) * gy == gx * gy * t.v00 + fx * gy * t.v10;
    assert Lerp(t.v01, t.v11, fy) * fy == gy * fy * t.v01 + fy * fy * t.v11;
  }

  lemma PositionFits(dx: nat, dw: nat, width: nat)
    requires dx < dw <= 0x40_0000 && width < U32_LIMIT
    ensures SourcePosition(dx, width, dw) <= (2 * dx + 1) * width * 128 < USIZE_LIMIT / 2
  {
    ProductAtMost(2 * dx + 1, 0x80_0000, width, U32_LIMIT - 1);
    QuotientAtMost((2 * dx + 1) * width * 128, dw);
  }

  lemma QuotientAtMost(n: nat, d: nat)
    requires d > 0
    ensures n / d <= n
  {
    var q := n / d;
    assert n == d * q + n % d;
    ProductAtMost(n + 1, n + 1, 1, d);
    CancelFactor(q, n + 1, d);
  }

  lemma ProductAtMost(a: nat, a': nat, b: nat, b': nat)
    requires a <= a' && b <= b'
    ensures a * b <= a' * b'
  {
    assert a * b <= a * b' <= a' * b';
  }
}
