/** The boot screen (`boot/abora-boot/src/main.rs`): log lines wrapped into a bounded queue, drawn to the left of
    the logo. */
module Screen {
  import opened Prelude
  import L = Logo
  import opened Canvas
  import opened Products

  const BACKGROUND := Rgb(0, 0, 0)
  const TEXT_COLOUR := Rgb(0xD0, 0xD0, 0xD0)
  const MAX_LINES: nat := 500
  const MARGIN: nat := 16

  // ----- Wrapping -----

  /** The text with every tab replaced by a space. */
  function Detab(text: string): (r: string)
    ensures |r| == |text|
  {
    seq(|text|, i requires 0 <= i < |text| => if text[i] == '\t' then ' ' else text[i])
  }

  function Indent(chunk: string, first: bool): string {
    if first then chunk else "  " + chunk
  }

  /** Chunks of `cols` characters; every chunk but the very first is indented by two spaces. */
  function WrapFrom(chars: string, cols: nat, first: bool): seq<string>
    requires cols > 0
  {
    if chars == "" then []
    else
      var n := L.Min(cols, |chars|);
      [Indent(chars[..n], first)] + WrapFrom(chars[n..], cols, false)
  }

  function Wrap(text: string, cols: nat): seq<string>
    requires cols > 0
  {
    if text == "" then [""] else WrapFrom(Detab(text), cols, true)
  }

  /** Every chunk but the last has exactly `cols` characters, and the last at least one; each but the first is indented
      by two more. */
  predicate FullChunks(lines: seq<string>, cols: nat, first: bool) {
    forall i :: 0 <= i < |lines| ==>
      && var indent := if first && i == 0 then 0 else 2;
        && |lines[i]| >= indent && lines[i][..indent] == "  "[..indent]
        && (i < |lines| - 1 ==> |lines[i]| == indent + cols)
        && (i == |lines| - 1 ==> indent < |lines[i]| <= indent + cols)
  }

  lemma {:induction false} ChunksAreFull(chars: string, cols: nat, first: bool)
    requires cols > 0
    ensures FullChunks(WrapFrom(chars, cols, first), cols, first)
    ensures chars != "" ==> WrapFrom(chars, cols, first) != []
    decreases |chars|
  {
    if chars != "" {
      var n := L.Min(cols, |chars|);
      var (head, rest) := (Indent(chars[..n], first), WrapFrom(chars[n..], cols, false));
      ChunksAreFull(chars[n..], cols, false);
      var lines := [head] + rest;
      forall i | 0 < i < |lines| ensures lines[i] == rest[i - 1] {}
    }
  }

  /** As many characters as fit on each line before a new one is begun. */
  lemma WrapFillsLines(text: string, cols: nat)
    requires cols > 0
    ensures text == "" ==> Wrap(text, cols) == [""]
    ensures text != "" ==> FullChunks(Wrap(text, cols), cols, true)
  {
    ChunksAreFull(Detab(text), cols, true);
  }

  function PushLine(lines: seq<string>, text: string, cols: nat): seq<string>
    requires cols > 0
  {
    LastN(lines + Wrap(text, cols), MAX_LINES)
  }

  function PushLines(lines: seq<string>, texts: seq<string>, cols: nat): seq<string>
    requires cols > 0
    decreases |texts|
  {
    if texts == [] then lines else PushLines(PushLine(lines, texts[0], cols), texts[1..], cols)
  }

  function WrapAll(texts: seq<string>, cols: nat): seq<string>
    requires cols > 0
  {
    if texts == [] then [] else Wrap(texts[0], cols) + WrapAll(texts[1..], cols)
  }

  /** However many lines are pushed, the queue is the last 500 lines of everything wrapped so far. */
  lemma {:induction false} QueueIsLastLines(lines: seq<string>, texts: seq<string>, cols: nat)
    requires cols > 0 && |lines| <= 500
    ensures PushLines(lines, texts, cols) == LastN(lines + WrapAll(texts, cols), 500)
    decreases |texts|
  {
    if texts == [] {
      assert lines + [] == lines;
    } else {
      var head, tail := Wrap(texts[0], cols), WrapAll(texts[1..], cols);
      QueueIsLastLines(PushLine(lines, texts[0], cols), texts[1..], cols);
      PushedBefore(lines, head, tail);
    }
  }

  lemma PushedBefore(lines: seq<string>, head: seq<string>, tail: seq<string>)
    ensures LastN(LastN(lines + head, MAX_LINES) + tail, MAX_LINES) == LastN(lines + (head + tail), MAX_LINES)
  {
    LastNAppend(lines + head, tail, MAX_LINES);
    assert lines + head + tail == lines + (head + tail);
  }

  /** Remove the two-space indentation of continuation lines and join. */
  function Unwrap(lines: seq<string>, first: bool): string {
    if lines == [] then ""
    else (if first || |lines[0]| < 2 then lines[0] else lines[0][2..]) + Unwrap(lines[1..], false)
  }

  lemma UnwrapStep(head: string, rest: seq<string>, first: bool)
    ensures Unwrap([head] + rest, first) == (if first || |head| < 2 then head else head[2..]) + Unwrap(rest, false)
  {
    assert ([head] + rest)[1..] == rest;
  }

  lemma IndentStep(chunk: string, rest: seq<string>, first: bool)
    ensures Unwrap([Indent(chunk, first)] + rest, first) == chunk + Unwrap(rest, false)
  {
    var head := Indent(chunk, first);
    UnwrapStep(head, rest, first);
    assert (if first then head else head[2..]) == chunk;
  }

  lemma {:induction false} UnwrapRestores(chars: string, cols: nat, first: bool)
    requires cols > 0
    ensures Unwrap(WrapFrom(chars, cols, first), first) == chars
    decreases |chars|
  {
    if chars != "" {
      var n := L.Min(cols, |chars|);
      UnwrapRestores(chars[n..], cols, false);
      WrapStep(chars, cols, first);
      IndentStep(chars[..n], WrapFrom(chars[n..], cols, false), first);
      Halves(chars, n);
    }
  }

  lemma WrapStep(chars: string, cols: nat, first: bool)
    requires cols > 0 && chars != ""
    ensures var n := L.Min(cols, |chars|);
      WrapFrom(chars, cols, first) == [Indent(chars[..n], first)] + WrapFrom(chars[n..], cols, false)
  {}

  lemma Halves(chars: string, n: nat)
    requires n <= |chars|
    ensures chars[..n] + chars[n..] == chars
  {}

  /** Wrapping loses nothing but the difference between tabs and spaces. */
  lemma WrapKeepsText(text: string, cols: nat)
    requires cols > 0
    ensures var joined := Unwrap(Wrap(text, cols), true);
      |joined| == |text| && forall i :: 0 <= i < |text| ==> joined[i] == if text[i] == '\t' then ' ' else text[i]
  {
    if text == "" {
      assert Wrap(text, cols)[1..] == [];
    } else {
      UnwrapRestores(Detab(text), cols, true);
    }
  }

  predicate LinesFit(lines: seq<string>, cols: nat) {
    forall i :: 0 <= i < |lines| ==> |lines[i]| <= cols + 2
  }

  lemma {:induction false} WrappedLinesFit(chars: string, cols: nat, first: bool)
    requires cols > 0
    ensures LinesFit(WrapFrom(chars, cols, first), cols)
    decreases |chars|
  {
    if chars != "" {
      WrappedLinesFit(chars[L.Min(cols, |chars|)..], cols, false);
    }
  }

  // ----- Where text can put ink -----

  /** Text stays within the cells of its characters. */
  lemma {:induction false} InkIsInCells(font: Font, px: nat, y: nat, text: string, limit: nat, row: nat, col: nat)
    requires ValidFont(font) && Ink(font, 1, px, y, text, limit, row, col)
    ensures px <= col < px + 8 * |text| && y <= row < y + font.height
    decreases |text|
  {
    if !GlyphInk(font.glyph(text[0]), px, y, 1, font.height, 0, row, col) {
      InkIsInCells(font, px + 8, y, text[1..], limit, row, col);
    }
  }

  lemma {:induction false} GlyphPutsInk(font: Font, px: nat, y: nat, text: string, limit: nat, k: nat, gy: nat, gx: nat)
    requires ValidFont(font) && k < |text| && px + 8 * (k + 1) <= limit
    requires gy < font.height && gx < 8 && Bit(font.glyph(text[k]), gy, gx)
    ensures Ink(font, 1, px, y, text, limit, y + gy, px + 8 * k + gx)
    decreases k
  {
    if k == 0 {
      assert InCell(px, y, 1, gx, gy, y + gy, px + gx);
    } else {
      GlyphPutsInk(font, px + 8, y, text[1..], limit, k - 1, gy, gx);
    }
  }

  // ----- Geometry -----

  function Max(a: nat, b: nat): nat { if a < b then b else a }

  /** Side of the square the logo is drawn in. */
  function LogoSize(width: nat, height: nat): nat {
    L.Min(L.Min(Max(height / 3, 96), 320), width / 3)
  }

  function LogoLeft(width: nat, height: nat): int {
    width - MARGIN - LogoSize(width, height)
  }

  /** Width of the text area; negative where the program's subtraction wraps around. */
  function TextWidth(width: nat, height: nat, hasLogo: bool): int {
    if hasLogo then width - 3 * MARGIN - LogoSize(width, height) else width - 2 * MARGIN
  }

  /** A difference as the program holds it, modulo 2^64. */
  function Held(n: int): (m: nat)
    requires n + L.USIZE_LIMIT >= 0
    ensures n >= 0 ==> m == n
  {
    if n >= 0 then n else n + L.USIZE_LIMIT
  }

  function Columns(textWidth: int): (cols: nat)
    requires textWidth + L.USIZE_LIMIT >= 0
    ensures cols >= 8
  {
    Max(Held(textWidth) / GLYPH_WIDTH, 8)
  }

  /** The logo takes a third of the height, but no less than 96 and no more than 320 pixels, unless that is more than a
      third of the width. */
  lemma LogoSizeMeans(width: nat, height: nat)
    ensures var size := LogoSize(width, height);
      && size <= width / 3 && size <= 320
      && (size == width / 3 || (size == 320 && height / 3 >= 320) || (size == height / 3 && height / 3 >= 96)
          || (size == 96 && height / 3 <= 96))
      && (size < 96 ==> size == width / 3)
      && (96 <= height / 3 ==> size <= height / 3)
      && (height / 3 < 96 ==> size <= 96)
  {}

  /** A line holds as many characters of eight pixels as fit in the text area, but at least eight. */
  lemma ColumnsFill(textWidth: nat)
    ensures if textWidth < 64 then Columns(textWidth) == 8
            else 8 * Columns(textWidth) <= textWidth < 8 * Columns(textWidth) + 8
  {}

  /** The text area is what the margins of 16 pixels leave of the screen, to the left of the logo if there is one. */
  lemma TextAreaMeans(width: nat, height: nat)
    ensures TextWidth(width, height, false) + 32 == width
    ensures 16 + TextWidth(width, height, true) + 16 == LogoLeft(width, height)
    ensures LogoLeft(width, height) + LogoSize(width, height) + 16 == width
  {}

  /** Continuation lines are two characters longer than the column count, and the margin between text and
      logo is exactly two characters: a text area of 64 pixels or more never reaches the logo. */
  lemma TextStaysLeftOfLogo(font: Font, width: nat, height: nat, y: nat, line: string, row: nat, col: nat)
    requires ValidFont(font) && TextWidth(width, height, true) >= 64
    requires |line| <= Columns(TextWidth(width, height, true)) + 2
    requires Ink(font, 1, MARGIN, y, line, width, row, col)
    ensures col < LogoLeft(width, height)
  {
    InkIsInCells(font, MARGIN, y, line, width, row, col);
  }

  /** In any narrower text area a continuation line does reach the logo, with any glyph whose rightmost column
      is used. */
  lemma NarrowTextReachesLogo(font: Font, width: nat, height: nat, y: nat, line: string, gy: nat)
      returns (k: nat, col: nat)
    requires ValidFont(font) && 0 <= TextWidth(width, height, true) < 64
    requires |line| == Columns(TextWidth(width, height, true)) + 2
    requires gy < font.height && forall i :: 0 <= i < |line| ==> Bit(font.glyph(line[i]), gy, 7)
    ensures k < |line| && Ink(font, 1, MARGIN, y, line, width, y + gy, col) && col >= LogoLeft(width, height)
  {
    k := (TextWidth(width, height, true) + 16) / 8;
    col := MARGIN + 8 * k + 7;
    GlyphPutsInk(font, MARGIN, y, line, width, k, gy, 7);
  }

  /** Ink of any of the lines `skip` and later, drawn from (`x`, `y`) one below the other. */
  ghost predicate LinesInk(font: Font, lines: seq<string>, skip: nat, end: nat, x: nat, y: nat, limit: nat,
                           row: nat, col: nat) {
    exists k: nat :: skip <= k < end <= |lines| && LineInk(font, lines, k, skip, x, y, limit, row, col)
  }

  /** Top of the `k`-th drawn line. */
  function LineTop(y: nat, k: nat, lineHeight: nat): nat {
    y + k * lineHeight
  }

  lemma LineTopFits(y: nat, k: nat, count: nat, lineHeight: nat)
    requires k < count
    ensures y <= LineTop(y, k, lineHeight) && LineTop(y, k, lineHeight) + lineHeight <= y + count * lineHeight
  {
    RowBefore(lineHeight, k, count);
  }

  ghost predicate LineInk(font: Font, lines: seq<string>, k: nat, skip: nat, x: nat, y: nat, limit: nat,
                          row: nat, col: nat)
    requires skip <= k < |lines|
  {
    Ink(font, 1, x, LineTop(y, k - skip, font.height), lines[k], limit, row, col)
  }

  /** Clear the canvas, and blend the logo, if there is one, into its place at the upper right. */
  method DrawBackground(canvas: Canvas, logo: Option<L.Logo>)
    requires canvas.Valid() && (logo.Some? ==> L.Consistent(logo.value))
    modifies canvas.pixels
    ensures var size, left := LogoSize(canvas.width, canvas.height), LogoLeft(canvas.width, canvas.height);
      forall px, py | 0 <= px < canvas.width && 0 <= py < canvas.height ::
        && canvas.Get(px, py) == (
          if logo.Some? && MARGIN <= py < MARGIN + size && left <= px < left + size
          then Over(L.SampleAt(logo.value, px - left, py - MARGIN, size, size), BACKGROUND)
          else BACKGROUND)
        && canvas.Fourth(px, py) == 255
    ensures canvas.Margins() == old(canvas.Margins())
  {
    canvas.Fill(BACKGROUND);
    if logo.Some? {
      var size := LogoSize(canvas.width, canvas.height);
      canvas.BlitScaled(logo.value, canvas.width - MARGIN - size, MARGIN, size, size);
    }
  }

  class Screen {
    const canvas: Canvas
    const font: Font
    const hasLogo: bool
    const x: nat
    const y: nat
    /** Negative where the program holds a difference that has wrapped around. */
    const w: int
    const h: int
    var lines: seq<string>

    ghost predicate Valid()
      reads this
    {
      && canvas.Valid() && ValidFont(font)
      && x == MARGIN && y == MARGIN
      && w == TextWidth(canvas.width, canvas.height, hasLogo) && h == canvas.height - 2 * MARGIN
      && |lines| <= MAX_LINES && LinesFit(lines, Columns(w))
    }

    /** The margins fit: the text area has a width and a height. */
    predicate HasRoom() { w >= 0 && h >= 0 }

    constructor (canvas: Canvas, font: Font, logo: Option<L.Logo>)
      requires canvas.Valid() && ValidFont(font) && (logo.Some? ==> L.Consistent(logo.value))
      modifies canvas.pixels, canvas.device
      ensures Valid() && this.canvas == canvas && hasLogo == logo.Some? && lines == [] && canvas.Mirrored()
      ensures var size, left := LogoSize(canvas.width, canvas.height), LogoLeft(canvas.width, canvas.height);
        forall px, py | 0 <= px < canvas.width && 0 <= py < canvas.height ::
          && canvas.Get(px, py) == (
            if logo.Some? && MARGIN <= py < MARGIN + size && left <= px < left + size
            then Over(L.SampleAt(logo.value, px - left, py - MARGIN, size, size), BACKGROUND)
            else BACKGROUND)
          && canvas.Fourth(px, py) == 255
      ensures canvas.Margins() == old(canvas.Margins())
    {
      var (width, height) := (canvas.width, canvas.height);
      this.canvas, this.font, this.hasLogo := canvas, font, logo.Some?;
      x, y := MARGIN, MARGIN;
      w, h := TextWidth(width, height, logo.Some?), height - 2 * MARGIN;
      lines := [];
      new;
      DrawBackground(canvas, logo);
      canvas.FlushAll();
    }

    method Push(text: string)
      requires Valid()
      modifies this
      ensures Valid() && lines == PushLine(old(lines), text, Columns(w))
    {
      var cols := Columns(w);
      var queue := Append(lines, text, cols);
      WrappedLinesFit(Detab(text), cols, true);
      assert LinesFit(queue, cols);
      ghost var all := queue;
      while |queue| > MAX_LINES
        invariant |queue| <= |all| && queue == all[|all| - |queue|..]
        invariant |queue| < MAX_LINES ==> queue == all
      {
        queue := queue[1..];
      }
      lines := queue;
    }

    /** Paint the newest lines over the text area, then flush its rows. */
    method Draw()
      requires Valid() && canvas.Mirrored()
      modifies canvas.pixels, canvas.device
      ensures HasRoom() ==> canvas.Mirrored()
      ensures forall row, off | 0 <= row < canvas.height && 0 <= off < canvas.stride ::
        canvas.ByteAt(row, off) ==
          if off / 4 >= canvas.width then old(canvas.ByteAt(row, off))
          else if LinesInk(font, lines, Skipped(|lines|, Held(h), font.height), |lines|, x, y, canvas.width, row,
                           off / 4)
          then ColourByte(TEXT_COLOUR, off % 4)
          else if y <= row < End(y, h, canvas.height) && x <= off / 4 < End(x, w, canvas.width)
          then ColourByte(BACKGROUND, off % 4)
          else old(canvas.ByteAt(row, off))
      ensures HasRoom() ==> forall row, off | 0 <= row < canvas.height && 0 <= off < canvas.stride ::
        canvas.ByteAt(row, off) != old(canvas.ByteAt(row, off)) ==>
          y <= row < y + h && (hasLogo && w >= 64 ==> off / 4 < LogoLeft(canvas.width, canvas.height))
      ensures forall row, off | 0 <= row < canvas.height && 0 <= off < canvas.stride ::
        canvas.ShownAt(row, off) ==
          if y <= row < End(y, h, canvas.height) then canvas.ByteAt(row, off) else old(canvas.ShownAt(row, off))
    {
      var skip := Skipped(|lines|, Held(h), font.height);
      canvas.FillRect(x, y, w, h, BACKGROUND);
      DrawLines(canvas, font, lines, skip, x, y);
      if HasRoom() {
        forall row: nat, col: nat | LinesInk(font, lines, skip, |lines|, x, y, canvas.width, row, col)
          ensures y <= row < y + h && (hasLogo && w >= 64 ==> col < LogoLeft(canvas.width, canvas.height))
        {
          LinesInkFits(font, lines, skip, canvas.width, canvas.height, hasLogo, row, col);
        }
      }
      canvas.FlushRows(y, End(y, h, canvas.height));
    }
  }

  /** The drawing loop: every line from `skip` on, one below the other. */
  method DrawLines(canvas: Canvas, font: Font, lines: seq<string>, skip: nat, x: nat, y: nat)
    requires canvas.Valid() && ValidFont(font) && skip <= |lines|
    modifies canvas.pixels
    ensures forall row, off | 0 <= row < canvas.height && 0 <= off < canvas.stride ::
      canvas.ByteAt(row, off) ==
        if off / 4 < canvas.width && LinesInk(font, lines, skip, |lines|, x, y, canvas.width, row, off / 4)
        then ColourByte(TEXT_COLOUR, off % 4) else old(canvas.ByteAt(row, off))
  {
    var k := skip;
    while k < |lines|
      invariant skip <= k <= |lines|
      invariant forall row, off | 0 <= row < canvas.height && 0 <= off < canvas.stride ::
        canvas.ByteAt(row, off) ==
          if off / 4 < canvas.width && LinesInk(font, lines, skip, k, x, y, canvas.width, row, off / 4)
          then ColourByte(TEXT_COLOUR, off % 4) else old(canvas.ByteAt(row, off))
    {
      canvas.Text(font, 1, x, LineTop(y, k - skip, font.height), lines[k], TEXT_COLOUR);
      forall row: nat, col: nat
        ensures LinesInk(font, lines, skip, k + 1, x, y, canvas.width, row, col) <==>
          LinesInk(font, lines, skip, k, x, y, canvas.width, row, col)
          || Ink(font, 1, x, LineTop(y, k - skip, font.height), lines[k], canvas.width, row, col)
      {
        NextLine(font, lines, skip, k, x, y, canvas.width, row, col);
      }
      k := k + 1;
    }
  }

  /** How many of the oldest lines do not fit on a screen `h` pixels high: the others fit, and one more would not. */
  function Skipped(count: nat, h: nat, lineHeight: nat): (skip: nat)
    requires lineHeight > 0
    ensures skip <= count && (count - skip) * lineHeight <= h
    ensures skip == 0 || h < (count - skip) * lineHeight + lineHeight
  {
    RowsFit(h, lineHeight);
    RowsOrdered(lineHeight, L.Min(count, h / lineHeight), h / lineHeight);
    if count > h / lineHeight then count - h / lineHeight else 0
  }

  lemma NextLine(font: Font, lines: seq<string>, skip: nat, k: nat, x: nat, y: nat, limit: nat, row: nat, col: nat)
    requires skip <= k < |lines|
    ensures LinesInk(font, lines, skip, k + 1, x, y, limit, row, col) <==>
      LinesInk(font, lines, skip, k, x, y, limit, row, col) || LineInk(font, lines, k, skip, x, y, limit, row, col)
  {}

  lemma LinesInkFits(font: Font, lines: seq<string>, skip: nat, width: nat, height: nat, hasLogo: bool, row: nat,
                     col: nat)
    requires ValidFont(font) && height >= 2 * MARGIN && TextWidth(width, height, hasLogo) >= 0
    requires LinesFit(lines, Columns(TextWidth(width, height, hasLogo)))
    requires skip <= |lines| && (|lines| - skip) * font.height <= height - 2 * MARGIN
    requires LinesInk(font, lines, skip, |lines|, MARGIN, MARGIN, width, row, col)
    ensures MARGIN <= row < height - MARGIN
    ensures hasLogo && TextWidth(width, height, hasLogo) >= 64 ==> col < LogoLeft(width, height)
  {
    var k, top := InkedLine(font, lines, skip, width, row, col);
    LineInkFits(font, lines[k], top, width, height, hasLogo, row, col);
  }

  lemma InkedLine(font: Font, lines: seq<string>, skip: nat, limit: nat, row: nat, col: nat) returns (k: nat, top: nat)
    requires skip <= |lines| && LinesInk(font, lines, skip, |lines|, MARGIN, MARGIN, limit, row, col)
    ensures k < |lines| && Ink(font, 1, MARGIN, top, lines[k], limit, row, col)
    ensures MARGIN <= top && top + font.height <= MARGIN + (|lines| - skip) * font.height
  {
    k :| skip <= k < |lines| && LineInk(font, lines, k, skip, MARGIN, MARGIN, limit, row, col);
    top := LineTop(MARGIN, k - skip, font.height);
    LineTopFits(MARGIN, k - skip, |lines| - skip, font.height);
  }

  lemma LineInkFits(font: Font, line: string, top: nat, width: nat, height: nat, hasLogo: bool, row: nat, col: nat)
    requires ValidFont(font) && TextWidth(width, height, hasLogo) >= 0
    requires |line| <= Columns(TextWidth(width, height, hasLogo)) + 2
    requires MARGIN <= top && top + font.height <= height - MARGIN
    requires Ink(font, 1, MARGIN, top, line, width, row, col)
    ensures MARGIN <= row < height - MARGIN
    ensures hasLogo && TextWidth(width, height, hasLogo) >= 64 ==> col < LogoLeft(width, height)
  {
    InkIsInCells(font, MARGIN, top, line, width, row, col);
    if hasLogo && TextWidth(width, height, hasLogo) >= 64 {
      TextStaysLeftOfLogo(font, width, height, top, line, row, col);
    }
  }

  lemma RowsFit(h: nat, lineHeight: nat)
    requires lineHeight > 0
    ensures h / lineHeight * lineHeight <= h < h / lineHeight * lineHeight + lineHeight
  {
    Recompose(h, lineHeight);
  }

  /** The wrapping loop: cut the text into chunks and append them to the queue. */
  method Append(lines: seq<string>, text: string, cols: nat) returns (queue: seq<string>)
    requires cols > 0
    ensures queue == lines + Wrap(text, cols)
  {
    queue := lines;
    var chars := Detab(text);
    if chars == "" {
      queue := queue + [""];
    }
    var i := 0;
    while i < |chars|
      invariant 0 <= i <= |chars| && (text == "" ==> queue == lines + [""])
      invariant text != "" ==> lines + WrapFrom(chars, cols, true) == queue + WrapFrom(chars[i..], cols, i == 0)
    {
      var n := L.Min(cols, |chars| - i);
      NextChunk(chars, cols, i, queue);
      queue := queue + [Indent(chars[i..i + n], i == 0)];
      i := i + n;
    }
    assert chars[i..] == "";
  }

  lemma NextChunk(chars: string, cols: nat, i: nat, queue: seq<string>)
    requires cols > 0 && i < |chars|
    ensures var n := L.Min(cols, |chars| - i);
      queue + WrapFrom(chars[i..], cols, i == 0) ==
        queue + [Indent(chars[i..i + n], i == 0)] + WrapFrom(chars[i + n..], cols, false)
  {
    var n := L.Min(cols, |chars| - i);
    assert chars[i..][..n] == chars[i..i + n] && chars[i..][n..] == chars[i + n..];
    var (chunk, rest) := (Indent(chars[i..i + n], i == 0), WrapFrom(chars[i + n..], cols, false));
    assert queue + [chunk] + rest == queue + ([chunk] + rest);
  }
}
