/** Drawing into memory with four bytes a pixel, and copying rows of it to the framebuffer device
    (`boot/abora-boot/src/canvas.rs`). */
module Canvas {
  import opened Prelude
  import opened Logo
  import opened Products

  datatype Rgb = Rgb(red: byte, green: byte, blue: byte)

  datatype OpenError = UnsupportedDepth | BadGeometry

  /** Byte `k` of a pixel in memory: blue, green, red, and a constant 255. */
  function ColourByte(c: Rgb, k: nat): byte {
    if k == 0 then c.blue else if k == 1 then c.green else if k == 2 then c.red else 255
  }

  /** Alpha blending of one channel over what is there. */
  function Blend(over: byte, under: byte, alpha: byte): (b: byte)
  {
    BlendBounds(over, under, alpha);
    (over * alpha + under * (255 - alpha)) / 255
  }

  /** `b` is `over` and `under` mixed in the proportion alpha to 255 - alpha, rounded down. */
  predicate IsMix(b: nat, over: nat, under: nat, alpha: nat)
    requires alpha <= 255
  {
    255 * b <= over * alpha + under * (255 - alpha) < 255 * b + 255
  }

  /** A blended channel is such a mixture, and lies between its inputs. */
  lemma BlendIsMix(over: byte, under: byte, alpha: byte)
    ensures var b := Blend(over, under, alpha);
      && IsMix(b, over, under, alpha)
      && (if over <= under then over <= b <= under else under <= b <= over)
      && (alpha == 255 ==> b == over) && (alpha == 0 ==> b == under)
  {
    BlendBounds(over, under, alpha);
    Rounding(over * alpha + under * (255 - alpha));
  }

  lemma Rounding(sum: int)
    ensures 255 * (sum / 255) <= sum < 255 * (sum / 255) + 255
  {}

  /** A blend lies between its inputs, so it fits in a byte, and full alpha replaces what was there. */
  lemma BlendBounds(over: byte, under: byte, alpha: byte)
    ensures var b := (over * alpha + under * (255 - alpha)) / 255;
      && (if over <= under then over <= b <= under else under <= b <= over)
      && (alpha == 255 ==> b == over) && (alpha == 0 ==> b == under)
  {
    if over <= under {
      MixBounds(over, over, under, under, alpha, 255 - alpha);
    } else {
      MixBounds(under, over, under, over, alpha, 255 - alpha);
    }
  }

  lemma MixBounds(low: nat, a: nat, b: nat, high: nat, v: nat, w: nat)
    requires low <= a <= high && low <= b <= high && v + w == 255
    ensures low * 255 <= a * v + b * w <= high * 255
  {
    ScaledBetween(low, a, high, v);
    ScaledBetween(low, b, high, w);
    assert low * v + low * w == low * (v + w) && high * v + high * w == high * (v + w);
  }

  lemma ScaledBetween(low: nat, a: nat, high: nat, k: nat)
    requires low <= a <= high
    ensures low * k <= a * k <= high * k
  {}

  lemma RowBefore(stride: nat, row: nat, row': nat)
    requires row < row'
    ensures row * stride + stride <= row' * stride
  {
    StepAdds(row, row', stride);
  }

  lemma RowsOrdered(stride: nat, row: nat, row': nat)
    requires row <= row'
    ensures row * stride <= row' * stride
  {
    if row < row' {
      RowBefore(stride, row, row');
    }
  }

  /** Two offsets within rows of the same length coincide only in the same row and column. */
  lemma SameIndex(stride: nat, row: nat, off: nat, row': nat, off': nat)
    requires off < stride && off' < stride && row * stride + off == row' * stride + off'
    ensures row == row' && off == off'
  {
    if row < row' {
      RowBefore(stride, row, row');
    } else if row' < row {
      RowBefore(stride, row', row);
    }
  }

  /** A byte lies in the byte range of rows `top` up to `end` exactly when its row does. */
  lemma RowRange(stride: nat, top: nat, end: nat, row: nat, off: nat)
    requires top <= end && off < stride
    ensures top * stride <= row * stride + off < end * stride <==> top <= row < end
  {
    if row < top {
      RowBefore(stride, row, top);
    } else {
      RowsOrdered(stride, top, row);
      if row < end {
        RowBefore(stride, row, end);
      } else {
        RowsOrdered(stride, end, row);
      }
    }
  }

  lemma IndexBound(stride: nat, height: nat, row: nat, off: nat)
    requires row < height && off < stride
    ensures row * stride + off < stride * height
  {
    RowBefore(stride, row, height);
  }

  // ----- Fonts -----

  /** Glyphs are eight pixels wide: one byte per row, the leftmost pixel in the highest bit. */
  datatype Font = Font(height: nat, glyph: char -> seq<byte>)

  ghost predicate ValidFont(font: Font) {
    font.height > 0 && forall c :: |font.glyph(c)| == font.height
  }

  const GLYPH_WIDTH: nat := 8

  function BitMask(gx: nat): (m: nat)
    requires gx < 8
    ensures m > 0
  {
    [128, 64, 32, 16, 8, 4, 2, 1][gx]
  }

  /** The leftmost pixel is the highest bit: the bits of a row, read as a number, give it back. */
  lemma BitsMakeByte(bits: seq<byte>, gy: nat)
    requires gy < |bits|
    ensures bits[gy] ==
      128 * Set(bits, gy, 0) + 64 * Set(bits, gy, 1) + 32 * Set(bits, gy, 2) + 16 * Set(bits, gy, 3)
      + 8 * Set(bits, gy, 4) + 4 * Set(bits, gy, 5) + 2 * Set(bits, gy, 6) + Set(bits, gy, 7)
  {
    var n: nat := bits[gy];
    NextBit(n, 1, Set(bits, gy, 7));
    NextBit(n, 2, Set(bits, gy, 6));
    NextBit(n, 4, Set(bits, gy, 5));
    NextBit(n, 8, Set(bits, gy, 4));
    NextBit(n, 16, Set(bits, gy, 3));
    NextBit(n, 32, Set(bits, gy, 2));
    NextBit(n, 64, Set(bits, gy, 1));
    NextBit(n, 128, Set(bits, gy, 0));
    Quotients(n);
  }

  function Set(bits: seq<byte>, gy: nat, gx: nat): (n: nat)
    requires gy < |bits| && gx < 8
    ensures n == bits[gy] / BitMask(gx) % 2
  {
    if Bit(bits, gy, gx) then 1 else 0
  }

  lemma NextBit(n: nat, d: nat, bit: nat)
    requires d > 0 && bit == n / d % 2
    ensures n / d == 2 * (n / (2 * d)) + bit
  {
    var (q, r) := (n / d / 2, n % d);
    Recompose(n, d);
    Recompose(n / d, 2);
    var rest := bit * d + r;
    assert (2 * q + bit) * d == q * (2 * d) + bit * d;
    assert 0 <= rest < 2 * d;
    QuotientUnique(n, 2 * d, q, rest);
  }

  lemma Quotients(n: nat)
    requires n < 256
    ensures n / 1 == n && n / 256 == 0
  {}

  predicate Bit(bits: seq<byte>, gy: nat, gx: nat)
    requires gy < |bits| && gx < 8
  {
    bits[gy] / BitMask(gx) % 2 == 1
  }

  /** (`row`, `col`) lies in the square that pixel (`gx`, `gy`) of a glyph drawn at (`px`, `y`) covers. */
  predicate InCell(px: nat, y: nat, scale: nat, gx: nat, gy: nat, row: nat, col: nat) {
    y + gy * scale <= row < y + gy * scale + scale && px + gx * scale <= col < px + gx * scale + scale
  }

  /** Some set pixel of the glyph covers (`row`, `col`), among those before (`gy'`, `gx'`) in reading order. */
  ghost predicate GlyphInk(bits: seq<byte>, px: nat, y: nat, scale: nat, gy': nat, gx': nat, row: nat, col: nat) {
    exists gy: nat, gx: nat :: gy < |bits| && gx < 8 && Bit(bits, gy, gx)
      && (gy < gy' || (gy == gy' && gx < gx')) && InCell(px, y, scale, gx, gy, row, col)
  }

  /** The text drawn at (`px`, `y`) puts ink at (`row`, `col`). Glyphs that would cross the right edge of a
      canvas `limit` pixels wide, and all after them, are not drawn. */
  ghost predicate Ink(font: Font, scale: nat, px: nat, y: nat, text: string, limit: nat, row: nat, col: nat)
    decreases |text|
  {
    text != "" && px + GLYPH_WIDTH * scale <= limit &&
    (GlyphInk(font.glyph(text[0]), px, y, scale, font.height, 0, row, col)
     || Ink(font, scale, px + GLYPH_WIDTH * scale, y, text[1..], limit, row, col))
  }

  /** A sample over a pixel. */
  function Over(p: Rgba, under: Rgb): Rgb {
    if p.alpha == 0 then under
    else
      Rgb(Blend(p.red, under.red, p.alpha), Blend(p.green, under.green, p.alpha), Blend(p.blue, under.blue, p.alpha))
  }

  /** Each channel is the mixture of its own two channels; an opaque sample replaces the pixel, and an invisible one
      leaves it. */
  lemma OverMixesChannels(p: Rgba, under: Rgb)
    ensures var c := Over(p, under);
      && IsMix(c.red, p.red, under.red, p.alpha) && IsMix(c.green, p.green, under.green, p.alpha)
      && IsMix(c.blue, p.blue, under.blue, p.alpha)
    ensures p.alpha == 255 ==> Over(p, under) == Rgb(p.red, p.green, p.blue)
    ensures p.alpha == 0 ==> Over(p, under) == under
  {
    BlendIsMix(p.red, under.red, p.alpha);
    BlendIsMix(p.green, under.green, p.alpha);
    BlendIsMix(p.blue, under.blue, p.alpha);
  }

  class Canvas {
    const width: nat
    const height: nat
    const stride: nat
    const pixels: array<byte>
    /** What the framebuffer device shows. */
    const device: array<byte>

    ghost predicate Valid() {
      && width > 0 && height > 0 && stride >= 4 * width
      && pixels.Length == stride * height == device.Length && pixels != device
    }

    constructor (width: nat, height: nat, stride: nat, shown: array<byte>)
      requires width > 0 && height > 0 && stride >= 4 * width && shown.Length == stride * height
      ensures Valid() && fresh(pixels) && device == shown
      ensures this.width == width && this.height == height && this.stride == stride
      ensures forall i :: 0 <= i < pixels.Length ==> pixels[i] == 0
    {
      this.width, this.height, this.stride := width, height, stride;
      this.device := shown;
      this.pixels := new byte[stride * height](_ => 0);
    }

    /** Check the geometry the system reports; only 32 bits per pixel and whole rows are accepted. */
    static method Open(width: nat, height: nat, stride: nat, bitsPerPixel: nat, shown: array<byte>)
      returns (r: Result<Canvas, OpenError>)
      requires shown.Length == stride * height
      ensures r.Ok? <==> bitsPerPixel == 32 && width > 0 && height > 0 && stride >= 4 * width
      ensures r.Ok? ==> r.value.Valid() && fresh(r.value) && fresh(r.value.pixels) && r.value.device == shown
      ensures r.Ok? ==> r.value.width == width && r.value.height == height && r.value.stride == stride
    {
      if bitsPerPixel != 32 { return Err(UnsupportedDepth); }
      if width == 0 || height == 0 || stride < width * 4 { return Err(BadGeometry); }
      var canvas := new Canvas(width, height, stride, shown);
      r := Ok(canvas);
    }

    /** The byte `off` places into row `row`. */
    function ByteAt(row: nat, off: nat): byte
      requires Valid() && row < height && off < stride
      reads pixels
    {
      IndexBound(stride, height, row, off);
      pixels[row * stride + off]
    }

    /** The byte the device shows there. */
    function ShownAt(row: nat, off: nat): byte
      requires Valid() && row < height && off < stride
      reads device
    {
      IndexBound(stride, height, row, off);
      device[row * stride + off]
    }

    /** The device shows exactly the canvas. */
    ghost predicate Mirrored()
      requires Valid()
      reads pixels, device
    {
      forall row, off | 0 <= row < height && 0 <= off < stride :: ShownAt(row, off) == ByteAt(row, off)
    }

    /** The pixel at column `x` of row `y`. */
    function Get(x: nat, y: nat): Rgb
      requires Valid() && x < width && y < height
      reads pixels
    {
      Rgb(ByteAt(y, 4 * x + 2), ByteAt(y, 4 * x + 1), ByteAt(y, 4 * x))
    }

    /** The fourth byte of a pixel, which the device ignores. */
    function Fourth(x: nat, y: nat): byte
      requires Valid() && x < width && y < height
      reads pixels
    {
      ByteAt(y, 4 * x + 3)
    }

    /** The bytes of each row after its last pixel. */
    ghost function Margins(): map<(nat, nat), byte>
      requires Valid()
      reads pixels
    {
      map row: nat, off: nat | row < height && 4 * width <= off < stride :: (row, off) := ByteAt(row, off)
    }

    method Put(x: nat, y: nat, c: Rgb)
      requires Valid()
      modifies pixels
      ensures forall row, off | 0 <= row < height && 0 <= off < stride ::
        ByteAt(row, off) ==
          if row == y && off / 4 == x && x < width then ColourByte(c, off % 4) else old(ByteAt(row, off))
      ensures forall px, py | 0 <= px < width && 0 <= py < height ::
        && Get(px, py) == (if px == x && py == y then c else old(Get(px, py)))
        && Fourth(px, py) == if px == x && py == y then 255 else old(Fourth(px, py))
    {
      if x < width && y < height {
        var i := y * stride + x * 4;
        IndexBound(stride, height, y, 4 * x + 3);
        pixels[i] := c.blue;
        pixels[i + 1] := c.green;
        pixels[i + 2] := c.red;
        pixels[i + 3] := 255;
        forall row, off | 0 <= row < height && 0 <= off < stride
          ensures ByteAt(row, off) ==
            if row == y && off / 4 == x && x < width then ColourByte(c, off % 4) else old(ByteAt(row, off))
        {
          var k := row * stride + off;
          if i <= k < i + 4 {
            SameIndex(stride, row, off, y, 4 * x + (k - i));
          }
        }
      }
    }

    /** `w` and `h` are negative where they come from a subtraction that has wrapped around. */
    method FillRect(x: nat, y: nat, w: int, h: int, c: Rgb)
      requires Valid()
      modifies pixels
      ensures forall row, off | 0 <= row < height && 0 <= off < stride ::
        ByteAt(row, off) ==
          if y <= row < End(y, h, height) && x <= off / 4 < End(x, w, width) then ColourByte(c, off % 4)
          else old(ByteAt(row, off))
    {
      var bottom, right := End(y, h, height), End(x, w, width);
      var row := y;
      while row < bottom
        invariant y <= row && (row <= bottom || row == y)
        invariant forall r, off | 0 <= r < height && 0 <= off < stride ::
          ByteAt(r, off) == if y <= r < row && x <= off / 4 < right then ColourByte(c, off % 4) else old(ByteAt(r, off))
      {
        var col := x;
        while col < right
          invariant x <= col && (col <= right || col == x)
          invariant forall r, off | 0 <= r < height && 0 <= off < stride ::
            ByteAt(r, off) ==
              if (y <= r < row && x <= off / 4 < right) || (r == row && x <= off / 4 < col) then ColourByte(c, off % 4)
              else old(ByteAt(r, off))
        {
          Put(col, row, c);
          col := col + 1;
        }
        row := row + 1;
      }
    }

    /** Fill the whole canvas. */
    method Fill(c: Rgb)
      requires Valid()
      modifies pixels
      ensures forall px, py | 0 <= px < width && 0 <= py < height :: Get(px, py) == c && Fourth(px, py) == 255
      ensures Margins() == old(Margins())
    {
      FillRect(0, 0, width, height, c);
      forall row: nat, off: nat | row < height && 4 * width <= off < stride
        ensures ByteAt(row, off) == old(ByteAt(row, off))
      {}
    }

    method DrawGlyph(bits: seq<byte>, px: nat, y: nat, scale: nat, color: Rgb)
      requires Valid()
      modifies pixels
      ensures forall row, off | 0 <= row < height && 0 <= off < stride ::
        ByteAt(row, off) ==
          if GlyphInk(bits, px, y, scale, |bits|, 0, row, off / 4) && off / 4 < width then ColourByte(color, off % 4)
          else old(ByteAt(row, off))
    {
      var gy := 0;
      while gy < |bits|
        invariant 0 <= gy <= |bits|
        invariant forall row, off | 0 <= row < height && 0 <= off < stride ::
          ByteAt(row, off) ==
            if GlyphInk(bits, px, y, scale, gy, 0, row, off / 4) && off / 4 < width then ColourByte(color, off % 4)
            else old(ByteAt(row, off))
      {
        var gx := 0;
        while gx < 8
          invariant 0 <= gx <= 8
          invariant forall row, off | 0 <= row < height && 0 <= off < stride ::
            ByteAt(row, off) ==
              if GlyphInk(bits, px, y, scale, gy, gx, row, off / 4) && off / 4 < width then ColourByte(color, off % 4)
              else old(ByteAt(row, off))
        {
          if Bit(bits, gy, gx) {
            FillRect(px + gx * scale, y + gy * scale, scale, scale, color);
          }
          forall row, off | 0 <= row < height && 0 <= off < stride
            ensures GlyphInk(bits, px, y, scale, gy, gx + 1, row, off / 4) <==>
              GlyphInk(bits, px, y, scale, gy, gx, row, off / 4)
              || (Bit(bits, gy, gx) && InCell(px, y, scale, gx, gy, row, off / 4))
          {
            NextPixel(bits, px, y, scale, gy, gx, row, off / 4);
          }
          gx := gx + 1;
        }
        forall row, off | 0 <= row < height && 0 <= off < stride
          ensures GlyphInk(bits, px, y, scale, gy + 1, 0, row, off / 4) <==>
            GlyphInk(bits, px, y, scale, gy, 8, row, off / 4)
        {
          NextGlyphRow(bits, px, y, scale, gy, row, off / 4);
        }
        gy := gy + 1;
      }
    }

    method Text(font: Font, scale: nat, x: nat, y: nat, text: string, color: Rgb)
      requires Valid() && ValidFont(font)
      modifies pixels
      ensures forall row, off | 0 <= row < height && 0 <= off < stride ::
        ByteAt(row, off) ==
          if Ink(font, scale, x, y, text, width, row, off / 4) && off / 4 < width then ColourByte(color, off % 4)
          else old(ByteAt(row, off))
    {
      var cw: nat := GLYPH_WIDTH * scale;
      var px: nat := x;
      var k := 0;
      ghost var done: iset<(int, int)> := iset{};
      while k < |text|
        invariant 0 <= k <= |text|
        invariant forall row, off | 0 <= row < height && 0 <= off < stride ::
          ByteAt(row, off) ==
            if (row, off / 4) in done && off / 4 < width then ColourByte(color, off % 4) else old(ByteAt(row, off))
        invariant forall row: nat, col: nat ::
          Ink(font, scale, x, y, text, width, row, col) <==>
            (row, col) in done || Ink(font, scale, px, y, text[k..], width, row, col)
      {
        if px + cw > width { break; }
        var bits := font.glyph(text[k]);
        DrawGlyph(bits, px, y, scale, color);
        assert text[k..][0] == text[k] && text[k..][1..] == text[k + 1..];
        done := done + (iset row: nat, col: nat | GlyphInk(bits, px, y, scale, font.height, 0, row, col) :: (row, col));
        px := px + cw;
        k := k + 1;
      }
    }

    /** Blend one sample over the pixel at (`x`, `y`); nothing happens outside the canvas. */
    method BlitPixel(p: Rgba, x: nat, y: nat)
      requires Valid()
      modifies pixels
      ensures forall px, py | 0 <= px < width && 0 <= py < height ::
        && Get(px, py) == (if px == x && py == y then Over(p, old(Get(px, py))) else old(Get(px, py)))
        && Fourth(px, py) == if px == x && py == y && p.alpha > 0 then 255 else old(Fourth(px, py))
      ensures Margins() == old(Margins())
    {
      if p.alpha != 0 && x < width && y < height {
        var under := Get(x, y);
        Put(x, y, Rgb(Blend(p.red, under.red, p.alpha), Blend(p.green, under.green, p.alpha),
                      Blend(p.blue, under.blue, p.alpha)));
      }
    }

    /** Blend row `dy` of a `w` by `h` box over the canvas. */
    method BlitRow(logo: Logo, x: int, y: nat, w: nat, h: nat, dy: nat)
      requires Valid() && Consistent(logo) && dy < h
      modifies pixels
      ensures forall px, py | 0 <= px < width && 0 <= py < height ::
        if py == y + dy && x <= px < x + w
        then
          var p := SampleAt(logo, px - x, dy, w, h);
          && Get(px, py) == Over(p, old(Get(px, py)))
          && Fourth(px, py) == if p.alpha > 0 then 255 else old(Fourth(px, py))
        else Get(px, py) == old(Get(px, py)) && Fourth(px, py) == old(Fourth(px, py))
      ensures Margins() == old(Margins())
    {
      var dx := 0;
      while dx < w
        invariant 0 <= dx <= w
        invariant forall px, py | 0 <= px < width && 0 <= py < height ::
          if py == y + dy && x <= px < x + dx
          then
            var p := SampleAt(logo, px - x, dy, w, h);
            && Get(px, py) == Over(p, old(Get(px, py)))
            && Fourth(px, py) == if p.alpha > 0 then 255 else old(Fourth(px, py))
          else Get(px, py) == old(Get(px, py)) && Fourth(px, py) == old(Fourth(px, py))
        invariant Margins() == old(Margins())
      {
        var p := Sample(logo, dx, dy, w, h);
        if x + dx >= 0 {
          BlitPixel(p, x + dx, y + dy);
        }
        dx := dx + 1;
      }
    }

    /** Blend the samples of a `w` by `h` box over the canvas. The box may begin left of it. */
    method BlitScaled(logo: Logo, x: int, y: nat, w: nat, h: nat)
      requires Valid() && Consistent(logo)
      modifies pixels
      ensures forall px, py | 0 <= px < width && 0 <= py < height ::
        if y <= py < y + h && x <= px < x + w
        then
          var p := SampleAt(logo, px - x, py - y, w, h);
          && Get(px, py) == Over(p, old(Get(px, py)))
          && Fourth(px, py) == if p.alpha > 0 then 255 else old(Fourth(px, py))
        else Get(px, py) == old(Get(px, py)) && Fourth(px, py) == old(Fourth(px, py))
      ensures Margins() == old(Margins())
    {
      var dy := 0;
      while dy < h
        invariant 0 <= dy <= h
        invariant forall px, py | 0 <= px < width && 0 <= py < height ::
          if y <= py < y + dy && x <= px < x + w
          then
            var p := SampleAt(logo, px - x, py - y, w, h);
            && Get(px, py) == Over(p, old(Get(px, py)))
            && Fourth(px, py) == if p.alpha > 0 then 255 else old(Fourth(px, py))
          else Get(px, py) == old(Get(px, py)) && Fourth(px, py) == old(Fourth(px, py))
        invariant Margins() == old(Margins())
      {
        BlitRow(logo, x, y, w, h, dy);
        dy := dy + 1;
      }
    }

    /** Write rows `top` up to `bottom` to the device. */
    method FlushRows(top: nat, bottom: nat)
      requires Valid()
      modifies device
      ensures forall row, off | 0 <= row < height && 0 <= off < stride ::
        ShownAt(row, off) == if top <= row < bottom then ByteAt(row, off) else old(ShownAt(row, off))
    {
      var end := Min(bottom, height);
      if top >= end { return; }
      RowsOrdered(stride, top, end);
      RowsOrdered(stride, end, height);
      var from, to := top * stride, end * stride;
      forall i | from <= i < to {
        device[i] := pixels[i];
      }
      forall row, off | 0 <= row < height && 0 <= off < stride
        ensures ShownAt(row, off) == if top <= row < bottom then ByteAt(row, off) else old(ShownAt(row, off))
      {
        RowRange(stride, top, end, row, off);
      }
    }

    method FlushAll()
      requires Valid()
      modifies device
      ensures Mirrored()
    {
      FlushRows(0, height);
    }
  }

  /** Where a span of `length` from `start` ends, cut off at `limit`. A negative length stands for one that is 2^64
      greater: adding it wraps back where the sum is not negative, and otherwise goes beyond every limit. */
  function End(start: nat, length: int, limit: nat): (end: nat)
    ensures end <= limit
    ensures length >= 0 ==> end == Min(start + length, limit)
  {
    if start + length < 0 then limit else Min(start + length, limit)
  }

  /** That is what adding machine words of 64 bits does. */
  lemma EndIsWrapped(start: nat, length: int, limit: nat)
    requires -0x8000_0000_0000_0000 <= length && start + length < 0x1_0000_0000_0000_0000
    requires limit <= 0x8000_0000_0000_0000
    ensures End(start, length, limit) == Min((start + length) % 0x1_0000_0000_0000_0000, limit)
  {}

  lemma NextPixel(bits: seq<byte>, px: nat, y: nat, scale: nat, gy: nat, gx: nat, row: nat, col: nat)
    requires gy < |bits| && gx < 8
    ensures GlyphInk(bits, px, y, scale, gy, gx + 1, row, col) <==>
      GlyphInk(bits, px, y, scale, gy, gx, row, col) || (Bit(bits, gy, gx) && InCell(px, y, scale, gx, gy, row, col))
  {}

  lemma NextGlyphRow(bits: seq<byte>, px: nat, y: nat, scale: nat, gy: nat, row: nat, col: nat)
    requires gy < |bits|
    ensures GlyphInk(bits, px, y, scale, gy + 1, 0, row, col) <==> GlyphInk(bits, px, y, scale, gy, 8, row, col)
  {}
}
