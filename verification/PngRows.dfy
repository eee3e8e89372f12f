/** Row filtering of 8-bit PNG images (sections 9.2 to 9.4 of the W3C PNG specification): the encoder's
    filters as functions, and the in-place unfiltering loop of `scripts/logo-to-raw.py`. */
module PngRows {
  import opened Prelude

  datatype DecodeError = BadFilter(filter: byte) | Truncated

  // ----- The filters an encoder applies -----

  function Distance(a: int, b: int): nat { if a < b then b - a else a - b }

  /** Whichever of left, above and upper left is nearest to `a + b - c`, ties broken in that order. */
  function Paeth(a: byte, b: byte, c: byte): byte {
    var p := a + b - c;
    var (pa, pb, pc) := (Distance(p, a), Distance(p, b), Distance(p, c));
    if pa <= pb && pa <= pc then a else if pb <= pc then b else c
  }

  /** The nearest of the three, and of those equally near the first in the order left, above, upper left. */
  lemma PaethIsNearest(a: byte, b: byte, c: byte)
    ensures var (p, r) := (a + b - c, Paeth(a, b, c));
      && r in {a, b, c}
      && Distance(p, r) <= Distance(p, a) && Distance(p, r) <= Distance(p, b) && Distance(p, r) <= Distance(p, c)
      && (Distance(p, r) == Distance(p, a) ==> r == a)
      && (Distance(p, r) == Distance(p, b) < Distance(p, a) ==> r == b)
    ensures forall m: int, n: int :: Distance(m, n) == Distance(n, m) && (m <= n ==> Distance(m, n) == n - m)
  {}

  /** Prediction from the bytes to the left, above, and above left. Types 0 and above 4 predict nothing. */
  function Predict(filter: byte, a: byte, b: byte, c: byte): byte {
    if filter == 1 then a
    else if filter == 2 then b
    else if filter == 3 then (a + b) / 2
    else if filter == 4 then Paeth(a, b, c)
    else 0
  }

  /** The filter types of section 9.2 of the PNG specification: none, sub, up, average and Paeth. */
  lemma FilterTypes(row: seq<byte>, above: seq<byte>, x: nat, channels: nat, filter: byte)
    requires x < |row| == |above| && channels > 0
    ensures var left: int := if x < channels then 0 else row[x - channels];
      var upperLeft: int := if x < channels then 0 else above[x - channels];
      var here: int, up: int, filtered: int := row[x], above[x], FilterByte(filter, row, above, x, channels);
      && (filter == 0 ==> filtered == here)
      && (filter == 1 ==> filtered == (here - left) % 256)
      && (filter == 2 ==> filtered == (here - up) % 256)
      && (filter == 3 ==> filtered == (here - (left + up) / 2) % 256)
      && (filter == 4 ==> filtered == (here - Paeth(left, up, upperLeft)) % 256)
  {}

  /** The byte `distance` places before `x`, or 0 left of the image. */
  function Before(row: seq<byte>, x: nat, distance: nat): byte
    requires x < |row| && distance > 0
  {
    if x >= distance then row[x - distance] else 0
  }

  function FilterByte(filter: byte, row: seq<byte>, above: seq<byte>, x: nat, channels: nat): byte
    requires x < |row| == |above| && channels > 0
  {
    (row[x] - Predict(filter, Before(row, x, channels), above[x], Before(above, x, channels))) % 256
  }

  function FilterRow(filter: byte, row: seq<byte>, above: seq<byte>, channels: nat): (filtered: seq<byte>)
    requires |row| == |above| && channels > 0
    ensures |filtered| == |row|
  {
    seq(|row|, x requires 0 <= x < |row| => FilterByte(filter, row, above, x, channels))
  }

  predicate Rectangular(rows: seq<seq<byte>>, stride: nat) {
    forall k :: 0 <= k < |rows| ==> |rows[k]| == stride
  }

  /** The image data stream: each row as its filter type followed by its filtered bytes. */
  function EncodeRows(rows: seq<seq<byte>>, filters: seq<byte>, above: seq<byte>, channels: nat): (raw: seq<byte>)
    requires |rows| == |filters| && Rectangular(rows, |above|) && channels > 0
    decreases |rows|
  {
    if rows == [] then []
    else [filters[0]] + FilterRow(filters[0], rows[0], above, channels)
         + EncodeRows(rows[1..], filters[1..], rows[0], channels)
  }

  // ----- Filtering loses nothing -----

  lemma {:induction false} FilterRowInjective(filter: byte, row: seq<byte>, other: seq<byte>, above: seq<byte>,
                                              channels: nat, x: nat)
    requires |row| == |other| == |above| && channels > 0
    requires FilterRow(filter, row, above, channels) == FilterRow(filter, other, above, channels)
    requires x <= |row|
    ensures row[..x] == other[..x]
    decreases x
  {
    if x > 0 {
      FilterRowInjective(filter, row, other, above, channels, x - 1);
      var at := x - 1;
      if at >= channels {
        assert row[..x - 1][at - channels] == other[..x - 1][at - channels];
      }
      assert FilterRow(filter, row, above, channels)[at] == FilterByte(filter, row, above, at, channels);
      assert FilterRow(filter, other, above, channels)[at] == FilterByte(filter, other, above, at, channels);
      assert row[..x] == row[..x - 1] + [row[at]] && other[..x] == other[..x - 1] + [other[at]];
    }
  }

  /** Two images with the same data stream are the same image, filtered the same way. */
  lemma {:induction false} EncodeRowsInjective(rows: seq<seq<byte>>, filters: seq<byte>, rows': seq<seq<byte>>,
                                               filters': seq<byte>, above: seq<byte>, channels: nat)
    requires |rows| == |filters| == |rows'| == |filters'| && channels > 0
    requires Rectangular(rows, |above|) && Rectangular(rows', |above|)
    requires EncodeRows(rows, filters, above, channels) == EncodeRows(rows', filters', above, channels)
    ensures rows == rows' && filters == filters'
    decreases |rows|
  {
    if rows != [] {
      var raw := EncodeRows(rows, filters, above, channels);
      var (tail, tail') := (EncodeRows(rows[1..], filters[1..], rows[0], channels),
                            EncodeRows(rows'[1..], filters'[1..], rows'[0], channels));
      var (row, row') := (FilterRow(filters[0], rows[0], above, channels),
                          FilterRow(filters'[0], rows'[0], above, channels));
      assert filters[0] == raw[0] == filters'[0];
      assert row == raw[1..1 + |above|] == row';
      assert tail == raw[1 + |above|..] == tail';
      FilterRowInjective(filters[0], rows[0], rows'[0], above, channels, |above|);
      assert rows[0] == rows[0][..|above|] == rows'[0][..|above|] == rows'[0];
      EncodeRowsInjective(rows[1..], filters[1..], rows'[1..], filters'[1..], rows[0], channels);
      assert rows == [rows[0]] + rows[1..] && rows' == [rows'[0]] + rows'[1..];
      assert filters == [filters[0]] + filters[1..] && filters' == [filters'[0]] + filters'[1..];
    }
  }

  function LastRow(rows: seq<seq<byte>>, above: seq<byte>): seq<byte> {
    if rows == [] then above else rows[|rows| - 1]
  }

  lemma {:induction false} EncodeRowsAppend(rows: seq<seq<byte>>, filters: seq<byte>, row: seq<byte>, filter: byte,
                                            above: seq<byte>, channels: nat)
    requires |rows| == |filters| && Rectangular(rows, |above|) && |row| == |above| && channels > 0
    ensures EncodeRows(rows + [row], filters + [filter], above, channels) ==
      EncodeRows(rows, filters, above, channels) + [filter] + FilterRow(filter, row, LastRow(rows, above), channels)
    decreases |rows|
  {
    if rows == [] {
      assert EncodeRows([], [], row, channels) == [];
      assert (rows + [row])[1..] == [] && (filters + [filter])[1..] == [];
      assert [filter] + FilterRow(filter, row, above, channels) + []
          == [] + [filter] + FilterRow(filter, row, above, channels);
    } else {
      EncodeRowsAppend(rows[1..], filters[1..], row, filter, rows[0], channels);
      assert (rows + [row])[1..] == rows[1..] + [row] && (rows + [row])[0] == rows[0];
      assert (filters + [filter])[1..] == filters[1..] + [filter] && (filters + [filter])[0] == filters[0];
      assert LastRow(rows[1..], rows[0]) == LastRow(rows, above);
      var (head, tail) := ([filters[0]] + FilterRow(filters[0], rows[0], above, channels),
                           EncodeRows(rows[1..], filters[1..], rows[0], channels));
      var added := FilterRow(filter, row, LastRow(rows, above), channels);
      assert head + (tail + [filter] + added) == head + tail + [filter] + added;
    }
  }

  lemma {:induction false} EncodeRowsLength(rows: seq<seq<byte>>, filters: seq<byte>, above: seq<byte>, channels: nat)
    requires |rows| == |filters| && Rectangular(rows, |above|) && channels > 0
    ensures |EncodeRows(rows, filters, above, channels)| == |rows| * (1 + |above|)
    decreases |rows|
  {
    if rows != [] {
      EncodeRowsLength(rows[1..], filters[1..], rows[0], channels);
      assert |rows| * (1 + |above|) == (|rows| - 1) * (1 + |above|) + 1 + |above|;
    }
  }

  // ----- The unfiltering loop -----

  /** What unfiltering one line reports. `present` is how many of its bytes the data stream still had. */
  function LineOutcome(filter: byte, present: nat, stride: nat, channels: nat): Result<(), DecodeError> {
    if stride > 0 && filter > 4 then Err(BadFilter(filter))
    else if present == stride || (filter == 0 && stride <= present + channels) then Ok(())
    else Err(Truncated)
  }

  method UnfilterLine(line: array<byte>, prev: array<byte>, filter: byte, channels: nat)
    returns (outcome: Result<(), DecodeError>)
    requires channels > 0 && line != prev && line.Length <= prev.Length
    modifies line
    ensures outcome == LineOutcome(filter, line.Length, prev.Length, channels)
    ensures line.Length == prev.Length && outcome.Ok? ==>
      FilterRow(filter, line[..], prev[..], channels) == old(line[..])
    ensures line.Length < prev.Length && outcome.Ok? ==> line[..] == old(line[..])
  {
    var stride := prev.Length;
    ghost var above := prev[..];
    var x := 0;
    while x < stride
      invariant 0 <= x <= stride && prev[..] == above
      invariant x > 0 ==> filter <= 4
      invariant filter != 0 ==> x <= line.Length
      invariant filter == 0 ==> x <= line.Length + channels && line[..] == old(line[..])
      invariant forall j :: x <= j < line.Length ==> line[j] == old(line[j])
      invariant line.Length == stride ==>
        forall j :: 0 <= j < x ==> FilterByte(filter, line[..], above, j, channels) == old(line[..])[j]
    {
      var a: byte := 0;
      var c: byte := 0;
      if x >= channels {
        if x - channels >= line.Length { return Err(Truncated); }
        a := line[x - channels];
        c := prev[x - channels];
      }
      var b := prev[x];
      if filter > 4 { return Err(BadFilter(filter)); }
      if filter != 0 {
        if x >= line.Length { return Err(Truncated); }
        ghost var was := line[..];
        line[x] := (line[x] + Predict(filter, a, b, c)) % 256;
        if line.Length == stride {
          Recovered(filter, was, line[..], above, x, channels);
        }
      } else if line.Length == stride {
        assert line[..][x] == old(line[..])[x];
      }
      x := x + 1;
    }
    outcome := Ok(());
  }

  /** Adding the prediction back undoes the filter at `x` and leaves the bytes before it recovered. */
  lemma Recovered(filter: byte, was: seq<byte>, now: seq<byte>, above: seq<byte>, x: nat, channels: nat)
    requires x < |was| == |now| == |above| && channels > 0
    requires now ==
      was[x := (was[x] + Predict(filter, Before(was, x, channels), above[x], Before(above, x, channels))) % 256]
    ensures FilterByte(filter, now, above, x, channels) == was[x]
    ensures forall j :: 0 <= j < x ==>
      FilterByte(filter, now, above, j, channels) == FilterByte(filter, was, above, j, channels)
  {
    assert Before(now, x, channels) == Before(was, x, channels);
  }

  function ZeroRow(stride: nat): (row: seq<byte>)
    ensures |row| == stride
  {
    seq(stride, _ => 0)
  }

  /** Whether the data stream holds `height` whole rows whose filter types exist. */
  predicate WellFormed(raw: seq<byte>, stride: nat, height: nat)
    decreases height
  {
    height == 0 ||
    (|raw| >= 1 + stride && (stride > 0 ==> raw[0] <= 4) && WellFormed(raw[1 + stride..], stride, height - 1))
  }

  /** What is left is the beginning of one unfiltered row that lacks at most one pixel. */
  predicate LastRowCut(rest: seq<byte>, stride: nat, channels: nat) {
    |rest| >= 1 && rest[0] == 0 && |rest| - 1 < stride <= |rest| - 1 + channels
  }

  /** Whether the data stream holds whole rows except for its last one, which is cut short like that. */
  predicate CutShort(raw: seq<byte>, stride: nat, height: nat, channels: nat)
    decreases height
  {
    if height == 0 then false
    else if height == 1 then LastRowCut(raw, stride, channels)
    else
      && |raw| >= 1 + stride && (stride > 0 ==> raw[0] <= 4)
      && CutShort(raw[1 + stride..], stride, height - 1, channels)
  }

  lemma NextRow(raw: seq<byte>, i: nat, stride: nat, left: nat, channels: nat)
    requires left > 0 && i + 1 + stride <= |raw|
    ensures WellFormed(raw[i..], stride, left) <==>
      (stride > 0 ==> raw[i] <= 4) && WellFormed(raw[i + 1 + stride..], stride, left - 1)
    ensures CutShort(raw[i..], stride, left, channels) <==>
      left > 1 && (stride > 0 ==> raw[i] <= 4) && CutShort(raw[i + 1 + stride..], stride, left - 1, channels)
  {
    assert raw[i..][1 + stride..] == raw[i + 1 + stride..] && raw[i..][0] == raw[i];
  }

  /** After `done` whole rows: they are recovered, and the rest of the stream starts at `i`. */
  predicate Progress(raw: seq<byte>, stride: nat, height: nat, channels: nat, rows: seq<seq<byte>>, filters: seq<byte>,
                     i: nat)
    requires channels > 0
  {
    && |rows| == |filters| <= height && i <= |raw| && Rectangular(rows, stride)
    && EncodeRows(rows, filters, ZeroRow(stride), channels) == raw[..i]
    && (WellFormed(raw, stride, height) <==> WellFormed(raw[i..], stride, height - |rows|))
    && (CutShort(raw, stride, height, channels) <==> CutShort(raw[i..], stride, height - |rows|, channels))
  }

  lemma WholeRow(raw: seq<byte>, stride: nat, height: nat, channels: nat, rows: seq<seq<byte>>, filters: seq<byte>,
                 i: nat, line: seq<byte>)
    requires channels > 0 && Progress(raw, stride, height, channels, rows, filters, i) && |rows| < height
    requires i + 1 + stride <= |raw| && |line| == stride && (stride > 0 ==> raw[i] <= 4)
    requires FilterRow(raw[i], line, LastRow(rows, ZeroRow(stride)), channels) == raw[i + 1..i + 1 + stride]
    ensures Progress(raw, stride, height, channels, rows + [line], filters + [raw[i]], i + 1 + stride)
  {
    EncodeRowsAppend(rows, filters, line, raw[i], ZeroRow(stride), channels);
    assert raw[..i] + [raw[i]] + raw[i + 1..i + 1 + stride] == raw[..i + 1 + stride];
    NextRow(raw, i, stride, height - |rows|, channels);
  }

  /** A row that is incomplete, or has no such filter type, is accepted only as the last one, cut short. */
  lemma BrokenRow(raw: seq<byte>, stride: nat, height: nat, channels: nat, rows: seq<seq<byte>>, filters: seq<byte>,
                  i: nat)
    requires channels > 0 && Progress(raw, stride, height, channels, rows, filters, i) && |rows| < height
    requires i + 1 + stride > |raw| || (stride > 0 && raw[i] > 4)
    ensures !WellFormed(raw, stride, height)
    ensures CutShort(raw, stride, height, channels) <==>
      |rows| + 1 == height && LastRowCut(raw[i..], stride, channels)
  {
    if i + 1 + stride <= |raw| {
      NextRow(raw, i, stride, height - |rows|, channels);
    }
  }

  /** After a last row that is cut short. */
  predicate Cut(raw: seq<byte>, stride: nat, height: nat, channels: nat, rows: seq<seq<byte>>) {
    && !WellFormed(raw, stride, height) && (CutShort(raw, stride, height, channels) <==> |rows| == height)
    && rows != [] && Rectangular(rows[..|rows| - 1], stride)
    && |rows[|rows| - 1]| < stride <= |rows[|rows| - 1]| + channels
  }

  /** Between rows: `above` is the last row recovered, and the stream goes on at `i`. */
  predicate Between(raw: seq<byte>, stride: nat, height: nat, channels: nat, rows: seq<seq<byte>>, filters: seq<byte>,
                    i: nat, above: seq<byte>)
    requires channels > 0
  {
    && |rows| == |filters| <= height
    && if i <= |raw|
       then
         && Progress(raw, stride, height, channels, rows, filters, i)
         && above == LastRow(rows, ZeroRow(stride)) && |above| == stride
       else Cut(raw, stride, height, channels, rows)
  }

  lemma Begin(raw: seq<byte>, stride: nat, height: nat, channels: nat)
    requires channels > 0
    ensures Between(raw, stride, height, channels, [], [], 0, ZeroRow(stride))
  {
    assert raw[..0] == [] && raw[0..] == raw;
  }

  /** How many bytes of the row at `i` the stream still has. */
  function Present(raw: seq<byte>, stride: nat, i: nat): (n: nat)
    requires i < |raw|
    ensures n <= stride && i + 1 + n <= |raw|
  {
    if |raw| - i - 1 < stride then |raw| - i - 1 else stride
  }

  lemma RowDone(raw: seq<byte>, stride: nat, height: nat, channels: nat, rows: seq<seq<byte>>, filters: seq<byte>,
                i: nat, above: seq<byte>, line: seq<byte>)
    requires channels > 0 && Between(raw, stride, height, channels, rows, filters, i, above)
    requires |rows| < height && i < |raw|
    requires |line| == Present(raw, stride, i) && LineOutcome(raw[i], |line|, stride, channels).Ok?
    requires |line| == stride ==> FilterRow(raw[i], line, above, channels) == raw[i + 1..i + 1 + stride]
    ensures Between(raw, stride, height, channels, rows + [line], filters + [raw[i]], i + 1 + stride, line)
  {
    if |line| == stride {
      WholeRow(raw, stride, height, channels, rows, filters, i, line);
    } else {
      BrokenRow(raw, stride, height, channels, rows, filters, i);
      assert (rows + [line])[..|rows|] == rows;
    }
  }

  /** No stream is accepted that ends before its last row, or has a row that cannot be unfiltered. */
  lemma RowFails(raw: seq<byte>, stride: nat, height: nat, channels: nat, rows: seq<seq<byte>>, filters: seq<byte>,
                 i: nat, above: seq<byte>)
    requires channels > 0 && Between(raw, stride, height, channels, rows, filters, i, above) && |rows| < height
    requires i < |raw| ==> LineOutcome(raw[i], Present(raw, stride, i), stride, channels).Err?
    ensures !WellFormed(raw, stride, height) && !CutShort(raw, stride, height, channels)
  {
    if i <= |raw| {
      BrokenRow(raw, stride, height, channels, rows, filters, i);
    }
  }

  /** Take the next row from the stream and unfilter it against the one above. */
  method TakeRow(raw: seq<byte>, stride: nat, channels: nat, i: nat, prev: array<byte>)
    returns (line: array<byte>, outcome: Result<(), DecodeError>)
    requires channels > 0 && i < |raw| && prev.Length == stride
    ensures fresh(line) && line.Length == Present(raw, stride, i)
    ensures outcome == LineOutcome(raw[i], line.Length, stride, channels)
    ensures outcome.Ok? && line.Length == stride ==>
      FilterRow(raw[i], line[..], prev[..], channels) == raw[i + 1..i + 1 + stride]
  {
    line := new byte[Present(raw, stride, i)](j requires 0 <= j < Present(raw, stride, i) => raw[i + 1 + j]);
    assert line[..] == raw[i + 1..i + 1 + line.Length];
    outcome := UnfilterLine(line, prev, raw[i], channels);
  }

  /** Unfilter every row. `filters` are the filter types found. */
  method Unfilter(raw: seq<byte>, stride: nat, height: nat, channels: nat)
    returns (result: Result<seq<seq<byte>>, DecodeError>, ghost filters: seq<byte>)
    requires channels > 0
    ensures WellFormed(raw, stride, height) <==> result.Ok? && Rectangular(result.value, stride)
    ensures result.Ok? <==> WellFormed(raw, stride, height) || CutShort(raw, stride, height, channels)
    ensures result.Ok? ==> |result.value| == height
    ensures WellFormed(raw, stride, height) ==>
      && |filters| == height
      && EncodeRows(result.value, filters, ZeroRow(stride), channels) <= raw
    ensures result.Ok? && !Rectangular(result.value, stride) ==>
      && height > 0 && Rectangular(result.value[..height - 1], stride)
      && |result.value[height - 1]| < stride <= |result.value[height - 1]| + channels
  {
    var rows: seq<seq<byte>> := [];
    filters := [];
    var prev := new byte[stride](_ => 0);
    var i := 0;
    assert prev[..] == ZeroRow(stride);
    Begin(raw, stride, height, channels);
    while |rows| < height
      invariant 0 <= i && Between(raw, stride, height, channels, rows, filters, i, prev[..])
      decreases height - |rows|
    {
      if i >= |raw| {
        RowFails(raw, stride, height, channels, rows, filters, i, prev[..]);
        return Err(Truncated), filters;
      }
      var line, outcome := TakeRow(raw, stride, channels, i, prev);
      if outcome.Err? {
        RowFails(raw, stride, height, channels, rows, filters, i, prev[..]);
        return Err(outcome.error), filters;
      }
      RowDone(raw, stride, height, channels, rows, filters, i, prev[..], line[..]);
      rows := rows + [line[..]];
      filters := filters + [raw[i]];
      i := i + 1 + stride;
      prev := line;
    }
    result := Ok(rows);
    Finished(raw, stride, height, channels, rows, filters, i, prev[..]);
  }

  lemma Finished(raw: seq<byte>, stride: nat, height: nat, channels: nat, rows: seq<seq<byte>>, filters: seq<byte>,
                 i: nat, above: seq<byte>)
    requires channels > 0 && |rows| == height && Between(raw, stride, height, channels, rows, filters, i, above)
    ensures WellFormed(raw, stride, height) <==> Rectangular(rows, stride)
    ensures WellFormed(raw, stride, height) || CutShort(raw, stride, height, channels)
    ensures WellFormed(raw, stride, height) ==>
      |filters| == height && EncodeRows(rows, filters, ZeroRow(stride), channels) <= raw
    ensures !Rectangular(rows, stride) ==>
      && height > 0 && Rectangular(rows[..height - 1], stride)
      && |rows[height - 1]| < stride <= |rows[height - 1]| + channels
  {}

  /** Such streams exist: one pixel of four channels, its last byte missing. */
  lemma CutStreamExists()
    ensures CutShort([0, 1, 2, 3], 4, 1, 4) && !WellFormed([0, 1, 2, 3], 4, 1)
  {}
}
