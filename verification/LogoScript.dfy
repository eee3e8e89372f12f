/** `scripts/logo-to-raw.py`: unfilter the image data, expand every pixel to RGBA, and write the raw logo
    format that the boot program loads. */
module LogoScript {
  import opened Prelude
  import opened PngRows
  import opened Logo
  import opened Products

  // ----- Channel expansion -----

  /** Python's `line[from:to]`: a slice never reaches past the end. */
  function Slice(line: seq<byte>, from: nat, to: nat): seq<byte>
    requires from <= to
  {
    line[Min(from, |line|)..Min(to, |line|)]
  }

  /** The bytes of pixel `x`, `line[x * channels:(x + 1) * channels]`. */
  function PixelSlice(line: seq<byte>, x: nat, channels: nat): seq<byte> {
    Slice(line, x * channels, x * channels + channels)
  }

  /** RGBA bytes of one pixel; `None` where the script indexes past a cut-off pixel. */
  function PixelBytes(px: seq<byte>, channels: nat): Option<seq<byte>> {
    if channels == 1 then (if |px| < 1 then None else Some([px[0], px[0], px[0], 255]))
    else if channels == 2 then (if |px| < 2 then None else Some([px[0], px[0], px[0], px[1]]))
    else if channels == 3 then Some(px + [255])
    else Some(px)
  }

  /** The first `n` pixels of a row. */
  function RowBytes(line: seq<byte>, n: nat, channels: nat): Option<seq<byte>> {
    if n == 0 then Some([])
    else
      var before := RowBytes(line, n - 1, channels);
      var px := PixelBytes(PixelSlice(line, n - 1, channels), channels);
      if before.None? || px.None? then None else Some(before.value + px.value)
  }

  /** The first `n` rows of an image. */
  function ImageBytes(rows: seq<seq<byte>>, n: nat, width: nat, channels: nat): Option<seq<byte>>
    requires n <= |rows|
  {
    if n == 0 then Some([])
    else
      var before := ImageBytes(rows, n - 1, width, channels);
      var row := RowBytes(rows[n - 1], width, channels);
      if before.None? || row.None? then None else Some(before.value + row.value)
  }

  lemma {:induction false} RowStaysCut(line: seq<byte>, n: nat, m: nat, channels: nat)
    requires n <= m && RowBytes(line, n, channels).None?
    ensures RowBytes(line, m, channels).None?
    decreases m
  {
    if n < m {
      RowStaysCut(line, n, m - 1, channels);
    }
  }

  lemma {:induction false} ImageStaysCut(rows: seq<seq<byte>>, n: nat, m: nat, width: nat, channels: nat)
    requires n <= m <= |rows| && ImageBytes(rows, n, width, channels).None?
    ensures ImageBytes(rows, m, width, channels).None?
    decreases m
  {
    if n < m {
      ImageStaysCut(rows, n, m - 1, width, channels);
    }
  }

  method ExpandRow(line: seq<byte>, width: nat, channels: nat) returns (result: Option<seq<byte>>)
    ensures result == RowBytes(line, width, channels)
  {
    var out: seq<byte> := [];
    var x := 0;
    while x < width
      invariant 0 <= x <= width && RowBytes(line, x, channels) == Some(out)
    {
      var px := PixelBytes(PixelSlice(line, x, channels), channels);
      if px.None? {
        RowStaysCut(line, x + 1, width, channels);
        return None;
      }
      out := out + px.value;
      x := x + 1;
    }
    result := Some(out);
  }

  method ExpandChannels(rows: seq<seq<byte>>, width: nat, channels: nat) returns (result: Option<seq<byte>>)
    ensures result == ImageBytes(rows, |rows|, width, channels)
  {
    var out: seq<byte> := [];
    var y := 0;
    while y < |rows|
      invariant 0 <= y <= |rows| && ImageBytes(rows, y, width, channels) == Some(out)
    {
      var row := ExpandRow(rows[y], width, channels);
      if row.None? {
        ImageStaysCut(rows, y + 1, |rows|, width, channels);
        return None;
      }
      out := out + row.value;
      y := y + 1;
    }
    result := Some(out);
  }

  // ----- What the bytes of a whole image are -----

  /** Pixel `x` of a whole row. */
  function PixelOf(line: seq<byte>, x: nat, channels: nat): Rgba
    requires 1 <= channels <= 4 && x * channels + channels <= |line|
  {
    var i := x * channels;
    if channels == 1 then Rgba(line[i], line[i], line[i], 255)
    else if channels == 2 then Rgba(line[i], line[i], line[i], line[i + 1])
    else if channels == 3 then Rgba(line[i], line[i + 1], line[i + 2], 255)
    else Rgba(line[i], line[i + 1], line[i + 2], line[i + 3])
  }

  function BytesOf(p: Rgba): seq<byte> { [p.red, p.green, p.blue, p.alpha] }

  lemma PixelBytesAreRgba(line: seq<byte>, x: nat, channels: nat)
    requires 1 <= channels <= 4 && x * channels + channels <= |line|
    ensures PixelBytes(PixelSlice(line, x, channels), channels) == Some(BytesOf(PixelOf(line, x, channels)))
  {
    var i := x * channels;
    var px := line[i..i + channels];
    assert PixelSlice(line, x, channels) == px;
    assert channels == 3 ==> px + [255] == [line[i], line[i + 1], line[i + 2], 255];
    assert channels == 4 ==> px == [line[i], line[i + 1], line[i + 2], line[i + 3]];
  }

  lemma PixelFits(x: nat, n: nat, channels: nat)
    requires x < n
    ensures x * channels + channels <= n * channels
  {
    StepAdds(x, n, channels);
  }

  lemma {:induction false} RowBytesArePixels(line: seq<byte>, n: nat, channels: nat, x: nat)
    requires 1 <= channels <= 4 && n * channels <= |line|
    ensures RowBytes(line, n, channels).Some? && |RowBytes(line, n, channels).value| == 4 * n
    ensures x < n ==>
      && x * channels + channels <= |line|
      && RowBytes(line, n, channels).value[4 * x..4 * x + 4] == BytesOf(PixelOf(line, x, channels))
    decreases n
  {
    if n > 0 {
      PixelFits(n - 1, n, channels);
      RowBytesArePixels(line, n - 1, channels, x);
      PixelBytesAreRgba(line, n - 1, channels);
      var before, all := RowBytes(line, n - 1, channels).value, RowBytes(line, n, channels).value;
      var last := BytesOf(PixelOf(line, n - 1, channels));
      assert all == before + last;
      PixelOfSum(before, last, n, x);
    }
  }

  /** The bytes of pixel `x` once those of the last of `n` pixels are appended. */
  lemma PixelOfSum(before: seq<byte>, last: seq<byte>, n: nat, x: nat)
    requires n > 0 && |before| == 4 * (n - 1) && |last| == 4
    ensures x < n ==> (before + last)[4 * x..4 * x + 4] == if x < n - 1 then before[4 * x..4 * x + 4] else last
  {
    if x < n - 1 {
      SliceOfSum(before, last, 4 * x, 0, false);
    } else if x == n - 1 {
      SliceOfSum(before, last, 4 * x, 0, true);
      assert last[0..4] == last;
    }
  }

  lemma {:induction false} ImageBytesLength(rows: seq<seq<byte>>, n: nat, width: nat, channels: nat)
    requires 1 <= channels <= 4 && n <= |rows| && Rectangular(rows, width * channels)
    ensures ImageBytes(rows, n, width, channels).Some?
    ensures |ImageBytes(rows, n, width, channels).value| == n * (4 * width)
    decreases n
  {
    if n > 0 {
      ImageBytesLength(rows, n - 1, width, channels);
      RowBytesArePixels(rows[n - 1], width, channels, 0);
      Step(n - 1, 4 * width);
    }
  }

  lemma Step(n: nat, k: nat)
    ensures (n + 1) * k == n * k + k
  {}

  lemma {:induction false} ImageBytesArePixels(rows: seq<seq<byte>>, n: nat, width: nat, channels: nat, y: nat, x: nat,
                                               i: nat)
    requires 1 <= channels <= 4 && n <= |rows| && Rectangular(rows, width * channels)
    requires y < n && x < width && i == y * (4 * width) + 4 * x
    ensures ImageBytes(rows, n, width, channels).Some?
    ensures i + 4 <= |ImageBytes(rows, n, width, channels).value|
    ensures x * channels + channels <= |rows[y]|
    ensures ImageBytes(rows, n, width, channels).value[i..i + 4] == BytesOf(PixelOf(rows[y], x, channels))
    decreases n
  {
    RowBytesArePixels(rows[n - 1], width, channels, x);
    ImageBytesLength(rows, n - 1, width, channels);
    var before, row := ImageBytes(rows, n - 1, width, channels).value, RowBytes(rows[n - 1], width, channels).value;
    if y == n - 1 {
      SliceOfSum(before, row, i, 4 * x, true);
    } else {
      ImageBytesArePixels(rows, n - 1, width, channels, y, x, i);
      SliceOfSum(before, row, i, 0, false);
    }
  }

  lemma SliceOfSum(a: seq<byte>, b: seq<byte>, i: nat, j: nat, right: bool)
    requires if right then i == |a| + j && j + 4 <= |b| else i + 4 <= |a|
    ensures (a + b)[i..i + 4] == if right then b[j..j + 4] else a[i..i + 4]
  {}

  // ----- The script as a whole -----

  /** Header and pixels, as `main` writes them. */
  function Emit(width: nat, height: nat, rgba: seq<byte>): (file: seq<byte>)
    requires width < U32_LIMIT && height < U32_LIMIT
    ensures |file| == 12 + |rgba|
  {
    MAGIC + ToLe32(width) + ToLe32(height) + rgba
  }

  predicate KnownFilters(filters: seq<byte>) {
    forall k :: 0 <= k < |filters| ==> filters[k] <= 4
  }

  lemma {:induction false} EncodedIsWellFormed(rows: seq<seq<byte>>, filters: seq<byte>, above: seq<byte>,
                                               channels: nat, raw: seq<byte>)
    requires |rows| == |filters| && Rectangular(rows, |above|) && channels > 0 && KnownFilters(filters)
    requires EncodeRows(rows, filters, above, channels) <= raw
    ensures WellFormed(raw, |above|, |rows|)
    decreases |rows|
  {
    if rows != [] {
      var tail := EncodeRows(rows[1..], filters[1..], rows[0], channels);
      var encoded := EncodeRows(rows, filters, above, channels);
      assert encoded[1 + |above|..] == tail;
      assert raw[1 + |above|..][..|tail|] == encoded[1 + |above|..];
      EncodedIsWellFormed(rows[1..], filters[1..], rows[0], channels, raw[1 + |above|..]);
    }
  }

  /** An image the script could have been given: whole rows, known filters, anything after the last row. */
  predicate Encodes(raw: seq<byte>, rows: seq<seq<byte>>, filters: seq<byte>, stride: nat, height: nat, channels: nat)
    requires channels > 0
  {
    && |rows| == |filters| == height && Rectangular(rows, stride) && KnownFilters(filters)
    && EncodeRows(rows, filters, ZeroRow(stride), channels) <= raw
  }

  lemma SameStreamSameImage(raw: seq<byte>, rows: seq<seq<byte>>, filters: seq<byte>, rows': seq<seq<byte>>,
                            filters': seq<byte>, stride: nat, channels: nat)
    requires channels > 0 && |rows| == |filters| == |rows'| == |filters'|
    requires Rectangular(rows, stride) && Rectangular(rows', stride)
    requires EncodeRows(rows, filters, ZeroRow(stride), channels) <= raw
    requires EncodeRows(rows', filters', ZeroRow(stride), channels) <= raw
    ensures rows == rows'
  {
    EncodeRowsLength(rows, filters, ZeroRow(stride), channels);
    EncodeRowsLength(rows', filters', ZeroRow(stride), channels);
    EncodeRowsInjective(rows, filters, rows', filters', ZeroRow(stride), channels);
  }

  /** A last row that is cut short expands only where pixels have three or four channels, and never to four bytes
      a pixel. */
  lemma CutRowIsShort(line: seq<byte>, width: nat, channels: nat)
    requires 1 <= channels <= 4 && |line| < width * channels <= |line| + channels
    ensures RowBytes(line, width, channels).Some? <==> channels >= 3
    ensures channels >= 3 ==> |RowBytes(line, width, channels).value| < 4 * width
  {
    var n := FullPixels(|line|, width, channels);
    RowBytesArePixels(line, n, channels, 0);
    CutSlice(line, n, channels, n * channels);
    CutPixel(line[n * channels..], channels);
  }

  lemma CutSlice(line: seq<byte>, n: nat, channels: nat, from: nat)
    requires from == n * channels && from <= |line| < from + channels
    ensures PixelSlice(line, n, channels) == line[from..] && |line[from..]| < channels
  {}

  /** All pixels but the last are whole. */
  lemma FullPixels(length: nat, width: nat, channels: nat) returns (n: nat)
    requires 1 <= channels && length < width * channels <= length + channels
    ensures width == n + 1 && n * channels <= length < n * channels + channels
  {
    assert width > 0;
    n := width - 1;
    Step(n, channels);
  }

  lemma CutPixel(px: seq<byte>, channels: nat)
    requires 1 <= channels <= 4 && |px| < channels
    ensures PixelBytes(px, channels).Some? <==> channels >= 3
    ensures channels >= 3 ==> |PixelBytes(px, channels).value| < 4
  {}

  lemma CutImageIsShort(rows: seq<seq<byte>>, width: nat, channels: nat)
    requires 1 <= channels <= 4 && rows != []
    requires Rectangular(rows[..|rows| - 1], width * channels)
    requires |rows[|rows| - 1]| < width * channels <= |rows[|rows| - 1]| + channels
    ensures ImageBytes(rows, |rows|, width, channels).Some? <==> channels >= 3
    ensures channels >= 3 ==> |ImageBytes(rows, |rows|, width, channels).value| < |rows| * (4 * width)
  {
    var n := |rows| - 1;
    PrefixImage(rows, n, width, channels);
    ImageBytesLength(rows[..n], n, width, channels);
    CutRowIsShort(rows[n], width, channels);
    Step(n, 4 * width);
  }

  /** What the script makes of a stream that lacks the last byte of its one pixel: a file that does not load. */
  lemma CutStreamIsWritten()
    ensures ImageBytes([[1, 2, 3]], 1, 1, 4) == Some([1, 2, 3])
    ensures Load(Emit(1, 1, [1, 2, 3])) == Err(SizeMismatch)
  {
    var line: seq<byte> := [1, 2, 3];
    assert PixelSlice(line, 0, 4) == line;
    assert RowBytes(line, 0, 4) == Some([]) && RowBytes(line, 1, 4) == Some([] + line);
    assert ImageBytes([line], 0, 1, 4) == Some([]);
    assert [] + line == line;
    LoadEmitted(1, 1, line);
  }

  lemma {:induction false} PrefixImage(rows: seq<seq<byte>>, n: nat, width: nat, channels: nat)
    requires n <= |rows|
    ensures ImageBytes(rows, n, width, channels) == ImageBytes(rows[..n], n, width, channels)
    decreases n
  {
    if n > 0 {
      PrefixImage(rows, n - 1, width, channels);
      PrefixImage(rows[..n], n - 1, width, channels);
      assert rows[..n][..n - 1] == rows[..n - 1];
    }
  }

  /** What loading makes of a file the script wrote. */
  lemma LoadEmitted(width: nat, height: nat, rgba: seq<byte>)
    requires width < U32_LIMIT && height < U32_LIMIT && FileSize(width, height) < USIZE_LIMIT
    ensures Load(Emit(width, height, rgba)) ==
      if width > 0 && height > 0 && |rgba| == width * height * 4 then Ok(Logo(width, height, rgba))
      else Err(SizeMismatch)
  {
    var file := Emit(width, height, rgba);
    assert file[..4] == MAGIC && file[4..8] == ToLe32(width) && file[8..12] == ToLe32(height) && file[12..] == rgba;
    assert FileSize(width, height) % USIZE_LIMIT == FileSize(width, height);
  }

  lemma Sizes(width: nat, height: nat)
    ensures height * (4 * width) == width * height * 4
  {}

  /** The script: unfilter, expand, write. For every image and every choice of filters the file holds exactly
      that image. A file is written exactly for a whole data stream, or for one of three or four channels whose last
      row is cut short; it loads exactly when the stream was whole. */
  method Convert(raw: seq<byte>, width: nat, height: nat, channels: nat) returns (file: Result<seq<byte>, DecodeError>)
    requires 1 <= channels <= 4 && width < U32_LIMIT && height < U32_LIMIT
    ensures forall rows, filters | Encodes(raw, rows, filters, width * channels, height, channels) ::
      var image := ImageBytes(rows, height, width, channels);
      image.Some? && file == Ok(Emit(width, height, image.value))
    ensures file.Ok? <==>
      || WellFormed(raw, width * channels, height)
      || (channels >= 3 && CutShort(raw, width * channels, height, channels))
    ensures file.Ok? && FileSize(width, height) < USIZE_LIMIT ==>
      (Load(file.value).Ok? <==> width > 0 && height > 0 && WellFormed(raw, width * channels, height))
  {
    var stride := width * channels;
    var rows, found := Unfilter(raw, stride, height, channels);
    forall image, filters | Encodes(raw, image, filters, stride, height, channels)
      ensures rows == Ok(image) && ImageBytes(image, height, width, channels).Some?
    {
      EncodedIsWellFormed(image, filters, ZeroRow(stride), channels, raw);
      SameStreamSameImage(raw, rows.value, found, image, filters, stride, channels);
      ImageBytesLength(image, height, width, channels);
    }
    if rows.Err? {
      return Err(rows.error);
    }
    if Rectangular(rows.value, stride) {
      ImageBytesLength(rows.value, height, width, channels);
    } else {
      CutImageIsShort(rows.value, width, channels);
    }
    var bytes := ExpandChannels(rows.value, width, channels);
    if bytes.None? {
      return Err(Truncated);
    }
    file := Ok(Emit(width, height, bytes.value));
    Sizes(width, height);
    if FileSize(width, height) < USIZE_LIMIT {
      LoadEmitted(width, height, bytes.value);
    }
  }

  /** A written image loads with the same size. */
  lemma WrittenImageLoads(rows: seq<seq<byte>>, width: nat, height: nat, channels: nat) returns (logo: Logo)
    requires 1 <= channels <= 4 && |rows| == height > 0 && width > 0 && Rectangular(rows, width * channels)
    requires FileSize(width, height) < USIZE_LIMIT && width < U32_LIMIT && height < U32_LIMIT
    ensures ImageBytes(rows, height, width, channels).Some?
    ensures logo == Logo(width, height, ImageBytes(rows, height, width, channels).value) && Consistent(logo)
    ensures Load(Emit(width, height, logo.rgba)) == Ok(logo)
  {
    ImageBytesLength(rows, height, width, channels);
    Sizes(width, height);
    logo := Logo(width, height, ImageBytes(rows, height, width, channels).value);
    LoadEmitted(width, height, logo.rgba);
  }

  /** The whole pipeline keeps every pixel: the loaded logo has the image's pixels, and drawing it at its own
      size reproduces each visible one. */
  lemma WrittenPixelsSurvive(rows: seq<seq<byte>>, channels: nat, logo: Logo, x: nat, y: nat)
    requires Consistent(logo) && 1 <= channels <= 4
    requires |rows| == logo.height && Rectangular(rows, logo.width * channels)
    requires ImageBytes(rows, logo.height, logo.width, channels) == Some(logo.rgba)
    requires x < logo.width && y < logo.height
    ensures x * channels + channels <= |rows[y]|
    ensures PixelAt(logo, x, y) == PixelOf(rows[y], x, channels)
    ensures SampleAt(logo, x, y, logo.width, logo.height) ==
      if PixelOf(rows[y], x, channels).alpha == 0 then Rgba(0, 0, 0, 0) else PixelOf(rows[y], x, channels)
  {
    var i := y * (4 * logo.width) + 4 * x;
    ImageBytesArePixels(rows, logo.height, logo.width, channels, y, x, i);
    PixelFromBytes(logo, x, y, i, PixelOf(rows[y], x, channels));
    NativeSizeIsIdentity(logo, x, y);
  }

  lemma PixelFromBytes(logo: Logo, x: nat, y: nat, i: nat, p: Rgba)
    requires Consistent(logo) && x < logo.width && y < logo.height && i == y * (4 * logo.width) + 4 * x
    requires i + 4 <= |logo.rgba| && logo.rgba[i..i + 4] == BytesOf(p)
    ensures PixelAt(logo, x, y) == p
  {
    assert i == (y * logo.width + x) * 4;
    var b := logo.rgba[i..i + 4];
    assert b[0] == p.red && b[1] == p.green && b[2] == p.blue && b[3] == p.alpha;
  }
}
