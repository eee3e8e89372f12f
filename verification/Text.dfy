/** Strings as the programs use them: lexicographic order, decimal numbers, and splitting at a separator. */
module Text {
  import opened Prelude

  // ----- Order -----

  predicate LexLess(a: string, b: string) {
    b != "" && (a == "" || a[0] < b[0] || (a[0] == b[0] && LexLess(a[1..], b[1..])))
  }

  lemma {:induction false} LexIrreflexive(a: string)
    ensures !LexLess(a, a)
  {
    if a != "" {
      LexIrreflexive(a[1..]);
    }
  }

  lemma {:induction false} LexTransitive(a: string, b: string, c: string)
    requires LexLess(a, b) && LexLess(b, c)
    ensures LexLess(a, c)
  {
    if a != "" && a[0] == b[0] == c[0] {
      LexTransitive(a[1..], b[1..], c[1..]);
    }
  }

  lemma {:induction false} LexTotal(a: string, b: string)
    ensures a == b || LexLess(a, b) || LexLess(b, a)
  {
    if a != "" && b != "" && a[0] == b[0] {
      LexTotal(a[1..], b[1..]);
      assert a == [a[0]] + a[1..] && b == [b[0]] + b[1..];
    }
  }

  /** Strings made of fields of equal length compare field by field. */
  lemma {:induction false} LexConcat(a: string, b: string, a': string, b': string)
    requires |a| == |a'|
    ensures LexLess(a + b, a' + b') <==> LexLess(a, a') || (a == a' && LexLess(b, b'))
    decreases |a|
  {
    if a == "" {
      assert a + b == b && a' + b' == b';
    } else {
      LexConcat(a[1..], b, a'[1..], b');
      assert (a + b)[1..] == a[1..] + b && (a' + b')[1..] == a'[1..] + b';
      assert a == [a[0]] + a[1..] && a' == [a'[0]] + a'[1..];
    }
  }

  // ----- Decimal numbers -----

  function Digit(n: nat): (c: char)
    requires n < 10
    ensures IsDigit(c) && DigitValue(c) == n
  {
    '0' + n as char
  }

  predicate IsDigit(c: char) { '0' <= c <= '9' }

  function DigitValue(c: char): (n: nat)
    requires IsDigit(c)
    ensures n < 10
  {
    (c - '0') as int
  }

  predicate AllDigits(s: string) { forall i :: 0 <= i < |s| ==> IsDigit(s[i]) }

  /** Decimal digits without leading zeros. */
  function Decimal(n: nat): (s: string)
    ensures s != "" && AllDigits(s) && (|s| > 1 ==> s[0] != '0')
  {
    if n < 10 then [Digit(n)] else Decimal(n / 10) + [Digit(n % 10)]
  }

  /** Exactly `width` digits: the low-order ones. */
  function FixedDigits(n: nat, width: nat): (s: string)
    ensures |s| == width && AllDigits(s)
  {
    if width == 0 then "" else FixedDigits(n / 10, width - 1) + [Digit(n % 10)]
  }

  function Zeros(k: nat): (s: string)
    ensures |s| == k && forall i :: 0 <= i < k ==> s[i] == '0'
  {
    seq(k, _ => '0')
  }

  /** Rust's `{:0width}` on an unsigned number: at least `width` characters, more when needed. */
  function PadZero(n: nat, width: nat): (s: string)
    ensures |s| >= width
  {
    var digits := Decimal(n);
    if |digits| >= width then digits else Zeros(width - |digits|) + digits
  }

  function Power10(k: nat): (p: nat)
    ensures p > 0
  {
    if k == 0 then 1 else 10 * Power10(k - 1)
  }

  lemma {:induction false} DecimalLength(n: nat, width: nat)
    requires width > 0
    ensures |Decimal(n)| <= width <==> n < Power10(width)
    decreases width
  {
    if n >= 10 && width > 1 {
      DecimalLength(n / 10, width - 1);
    }
  }

  lemma {:induction false} FixedZero(width: nat)
    ensures FixedDigits(0, width) == Zeros(width)
  {
    if width > 0 {
      FixedZero(width - 1);
      assert Zeros(width) == Zeros(width - 1) + ['0'];
    }
  }

  /** A number that fits is padded to exactly its low-order digits. */
  lemma {:induction false} PadIsFixed(n: nat, width: nat)
    requires width > 0 && n < Power10(width)
    ensures PadZero(n, width) == FixedDigits(n, width)
    decreases width
  {
    DecimalLength(n, width);
    if n < 10 {
      FixedZero(width - 1);
    } else {
      assert width > 1;
      PadIsFixed(n / 10, width - 1);
      DecimalLength(n / 10, width - 1);
    }
  }

  lemma {:induction false} FixedDigitsOrdered(n: nat, m: nat, width: nat)
    requires n < Power10(width) && m < Power10(width)
    ensures n < m <==> LexLess(FixedDigits(n, width), FixedDigits(m, width))
    ensures n == m <==> FixedDigits(n, width) == FixedDigits(m, width)
    decreases width
  {
    if width > 0 {
      FixedDigitsOrdered(n / 10, m / 10, width - 1);
      LexConcat(FixedDigits(n / 10, width - 1), [Digit(n % 10)], FixedDigits(m / 10, width - 1), [Digit(m % 10)]);
      var a, b := FixedDigits(n, width), FixedDigits(m, width);
      assert a[..width - 1] == FixedDigits(n / 10, width - 1) && b[..width - 1] == FixedDigits(m / 10, width - 1);
      assert DigitValue(a[width - 1]) == n % 10 && DigitValue(b[width - 1]) == m % 10;
    }
  }

  /** Fixed digits of a number that fits denote that number. */
  lemma {:induction false} FixedDigitsDenote(n: nat, width: nat)
    requires n < Power10(width)
    ensures DecimalValue(FixedDigits(n, width)) == n
  {
    if width > 0 {
      FixedDigitsDenote(n / 10, width - 1);
      var s := FixedDigits(n, width);
      assert s[..width - 1] == FixedDigits(n / 10, width - 1) && DigitValue(s[width - 1]) == n % 10;
    }
  }

  /** The number a string of digits denotes. */
  function DecimalValue(s: string): nat
    requires AllDigits(s)
  {
    if s == "" then 0 else 10 * DecimalValue(s[..|s| - 1]) + DigitValue(s[|s| - 1])
  }

  lemma {:induction false} DecimalDenotes(n: nat)
    ensures DecimalValue(Decimal(n)) == n
  {
    if n >= 10 {
      DecimalDenotes(n / 10);
      assert Decimal(n)[..|Decimal(n)| - 1] == Decimal(n / 10);
    }
  }

  /** No leading zero, unless the number is zero itself. */
  predicate Canonical(s: string) {
    s != "" && AllDigits(s) && (|s| > 1 ==> s[0] != '0')
  }

  lemma {:induction false} PositiveValue(s: string)
    requires Canonical(s) && s != "0"
    ensures DecimalValue(s) > 0
    decreases |s|
  {
    if |s| > 1 {
      PositiveValue(s[..|s| - 1]);
    } else {
      assert s == [s[0]] && Digit(DigitValue(s[0])) == s[0];
      assert s[..0] == "";
    }
  }

  /** Printing a parsed number gives the digits back exactly when they had no leading zero. */
  lemma {:induction false} DecimalRestores(s: string)
    requires s != "" && AllDigits(s)
    ensures Decimal(DecimalValue(s)) == s <==> Canonical(s)
    decreases |s|
  {
    if Canonical(s) {
      var front, last := s[..|s| - 1], s[|s| - 1];
      assert s == front + [last] && Digit(DigitValue(last)) == last;
      if |s| > 1 {
        DecimalRestores(front);
        PositiveValue(front);
        assert DecimalValue(s) / 10 == DecimalValue(front) && DecimalValue(s) % 10 == DigitValue(last);
      } else {
        assert front == "";
      }
    }
  }

  const U64_LIMIT: nat := 0x1_0000_0000_0000_0000

  /** Overflow-checked parsing of decimal digits into 64 bits: every multiplication and addition is checked. */
  function ParseU64(s: string): Option<nat>
    requires s != "" && AllDigits(s)
  {
    var digit := DigitValue(s[|s| - 1]);
    if |s| == 1 then Some(digit)
    else
      var high := ParseU64(s[..|s| - 1]);
      if high.None? || high.value * 10 >= U64_LIMIT || high.value * 10 + digit >= U64_LIMIT then None
      else Some(high.value * 10 + digit)
  }

  lemma {:induction false} ParseU64Exact(s: string)
    requires s != "" && AllDigits(s)
    ensures ParseU64(s) == if DecimalValue(s) < U64_LIMIT then Some(DecimalValue(s)) else None
    decreases |s|
  {
    if |s| > 1 {
      ParseU64Exact(s[..|s| - 1]);
    } else {
      assert s[..0] == "";
    }
  }

  // ----- Splitting -----

  /** Position of the first `c`, or the length. */
  function Find(s: string, c: char): (i: nat)
    ensures i <= |s| && (i < |s| ==> s[i] == c)
    ensures forall k :: 0 <= k < i ==> s[k] != c
  {
    if s == "" || s[0] == c then 0 else 1 + Find(s[1..], c)
  }

  function SplitOnce(s: string, c: char): (r: Option<(string, string)>)
    ensures r.None? <==> c !in s
    ensures r.Some? ==> c !in r.value.0 && s == r.value.0 + [c] + r.value.1
  {
    var i := Find(s, c);
    if i == |s| then None else Some((s[..i], s[i + 1..]))
  }

  lemma SplitOnceAt(a: string, c: char, b: string)
    requires c !in a
    ensures SplitOnce(a + [c] + b, c) == Some((a, b))
  {
    var s := a + [c] + b;
    var i := Find(s, c);
    assert s[|a|] == c;
    assert forall k :: 0 <= k < |a| ==> s[k] == a[k];
    assert s[..|a|] == a && s[|a| + 1..] == b;
  }

  function Split(s: string, c: char): (parts: seq<string>)
    ensures parts != []
    decreases |s|
  {
    match SplitOnce(s, c)
    case None => [s]
    case Some((head, tail)) => [head] + Split(tail, c)
  }

  /** Rejoin what `Split` separated. */
  function Join(parts: seq<string>, c: char): string {
    if parts == [] then "" else if |parts| == 1 then parts[0] else parts[0] + [c] + Join(parts[1..], c)
  }

  lemma {:induction false} SplitRejoins(s: string, c: char)
    ensures Join(Split(s, c), c) == s
    decreases |s|
  {
    match SplitOnce(s, c)
    case None =>
    case Some((head, tail)) =>
      SplitRejoins(tail, c);
      assert Split(s, c)[1..] == Split(tail, c);
  }

  function StripPrefix(s: string, prefix: string): (r: Option<string>)
    ensures r.Some? ==> s == prefix + r.value
    ensures r.None? ==> !(prefix <= s)
  {
    if prefix <= s then Some(s[|prefix|..]) else None
  }

  // ----- White space and lines -----

  /** Characters with the Unicode White_Space property. */
  predicate IsWhitespace(c: char) {
    || '\U{9}' <= c <= '\U{d}' || c == ' ' || c == '\U{85}' || c == '\U{a0}' || c == '\U{1680}'
    || '\U{2000}' <= c <= '\U{200a}' || c == '\U{2028}' || c == '\U{2029}' || c == '\U{202f}'
    || c == '\U{205f}' || c == '\U{3000}'
  }

  /** Of the ASCII characters: the space, and the five controls from tab to carriage return. */
  lemma AsciiWhitespace(c: char)
    requires c as int < 128
    ensures IsWhitespace(c) <==> c in [' ', '\t', '\n', '\U{b}', '\U{c}', '\r']
  {}

  function TrimStart(s: string): string {
    if s != "" && IsWhitespace(s[0]) then TrimStart(s[1..]) else s
  }

  function TrimEnd(s: string): string {
    if s != "" && IsWhitespace(s[|s| - 1]) then TrimEnd(s[..|s| - 1]) else s
  }

  function Trim(s: string): string { TrimStart(TrimEnd(s)) }

  /** A carriage return before a line feed belongs to the line ending. */
  function StripReturn(line: string): string {
    if line != "" && line[|line| - 1] == '\r' then line[..|line| - 1] else line
  }

  /** Rust's `str::lines`: the last line ending is optional. */
  function Lines(s: string): seq<string>
    decreases |s|
  {
    if s == "" then []
    else match SplitOnce(s, '\n')
      case None => [s]
      case Some((line, rest)) => [StripReturn(line)] + Lines(rest)
  }

  predicate AllWhitespace(s: string) { forall i :: 0 <= i < |s| ==> IsWhitespace(s[i]) }

  lemma {:induction false} TrimStartDrops(a: string, m: string)
    requires AllWhitespace(a) && (m != "" ==> !IsWhitespace(m[0]))
    ensures TrimStart(a + m) == m
  {
    if a == "" {
      assert a + m == m;
    } else {
      TrimStartDrops(a[1..], m);
      assert (a + m)[1..] == a[1..] + m;
    }
  }

  lemma {:induction false} TrimEndDrops(m: string, b: string)
    requires AllWhitespace(b) && (m != "" ==> !IsWhitespace(m[|m| - 1]))
    ensures TrimEnd(m + b) == m
  {
    if b == "" {
      assert m + b == m;
    } else {
      TrimEndDrops(m, b[..|b| - 1]);
      assert (m + b)[..|m + b| - 1] == m + b[..|b| - 1];
    }
  }

  /** Trimming removes the white space on both sides and keeps everything in between. */
  lemma TrimKeepsMiddle(a: string, m: string, b: string)
    requires AllWhitespace(a) && AllWhitespace(b)
    requires m != "" ==> !IsWhitespace(m[0]) && !IsWhitespace(m[|m| - 1])
    ensures Trim(a + m + b) == m
  {
    if m == "" {
      assert a + m + b == "" + (a + b);
      TrimEndDrops("", a + b);
    } else {
      TrimEndDrops(a + m, b);
      TrimStartDrops(a, m);
    }
  }

  /** Both kinds of line ending end a line and are not part of it. */
  lemma LineEndings(line: string, rest: string)
    requires '\n' !in line
    ensures Lines(line + "\r\n" + rest) == [line] + Lines(rest)
    ensures !(line != "" && line[|line| - 1] == '\r') ==> Lines(line + "\n" + rest) == [line] + Lines(rest)
  {
    var returned := line + "\r";
    assert line + "\r\n" + rest == returned + ['\n'] + rest;
    SplitOnceAt(returned, '\n', rest);
    assert StripReturn(returned) == line;
    assert line + "\n" + rest == line + ['\n'] + rest;
    SplitOnceAt(line, '\n', rest);
  }
}
