/** The output of apt's upgrade simulation (`crates/abora-update/src/host.rs`): recognising package names and
    reading `Inst` lines. */
module AptSimulation {
  import opened Prelude
  import opened Text

  datatype PackageUpgrade = PackageUpgrade(name: string, from: Option<string>, to: string, source: string)

  predicate NameChar(c: char) {
    'a' <= c <= 'z' || '0' <= c <= '9' || c == '+' || c == '-' || c == '.' || c == ':'
  }

  /** Package names apt accepts. All characters are ASCII, so length in characters is length in bytes. */
  predicate ValidPackageName(name: string) {
    && name != "" && |name| <= 200 && name[0] != '-' && name[0] != '.'
    && forall i :: 0 <= i < |name| ==> NameChar(name[i])
  }

  predicate IsLower(c: char) { 'a' <= c <= 'z' }

  /** Which names are valid: those of one character, and how a name may go on. */
  lemma NamesGrow(name: string, c: char)
    ensures !ValidPackageName("")
    ensures ValidPackageName([c]) <==> IsLower(c) || c in "0123456789+:"
    ensures name != "" ==>
      (ValidPackageName(name + [c]) <==>
        ValidPackageName(name) && |name| + 1 <= 200 && (IsLower(c) || c in "0123456789+:-."))
  {
    var longer := name + [c];
    assert longer[|name|] == c && forall i :: 0 <= i < |name| ==> longer[i] == name[i];
    NameChars(c);
  }

  lemma NameChars(c: char)
    ensures NameChar(c) <==> IsLower(c) || c in "0123456789+:-."
    ensures NameChar(c) && c != '-' && c != '.' <==> IsLower(c) || c in "0123456789+:"
  {}

  /** The installed version in square brackets, if any, and what follows it. */
  function ParseFrom(rest: string): Option<(Option<string>, string)> {
    match StripPrefix(rest, "[")
    case None => Some((None, rest))
    case Some(after) =>
      match SplitOnce(after, ']')
      case None => None
      case Some((from, tail)) => Some((Some(from), TrimStart(tail)))
  }

  /** New version and source, in parentheses. Anything after the first closing one is ignored. */
  function ParseTarget(rest: string): Option<(string, string)> {
    match StripPrefix(rest, "(")
    case None => None
    case Some(open) =>
      var inner := match SplitOnce(open, ')') case Some((inside, _)) => inside case None => open;
      var (to, source) := match SplitOnce(inner, ' ') case Some(pair) => pair case None => (inner, "");
      if to == "" then None else Some((to, source))
  }

  function ParseInstLine(line: string): (r: Option<PackageUpgrade>)
    ensures r.Some? ==> ValidPackageName(r.value.name)
  {
    match StripPrefix(line, "Inst ")
    case None => None
    case Some(text) =>
      match SplitOnce(text, ' ')
      case None => None
      case Some((name, afterName)) =>
        if !ValidPackageName(name) then None
        else match ParseFrom(afterName)
          case None => None
          case Some((from, rest)) =>
            match ParseTarget(rest)
            case None => None
            case Some((to, source)) => Some(PackageUpgrade(name, from, to, source))
  }

  /** The lines that parse, in order. */
  function FilterLines(lines: seq<string>): (upgrades: seq<PackageUpgrade>)
    ensures forall i :: 0 <= i < |upgrades| ==> ValidPackageName(upgrades[i].name)
  {
    if lines == [] then []
    else
      var (first, rest) := (ParseInstLine(lines[0]), FilterLines(lines[1..]));
      if first.Some? then [first.value] + rest else rest
  }

  function ParseSimulation(output: string): (upgrades: seq<PackageUpgrade>)
    ensures forall i :: 0 <= i < |upgrades| ==> ValidPackageName(upgrades[i].name)
  {
    FilterLines(Lines(output))
  }

  /** Names of the packages a simulation would upgrade, in order. */
  function Names(upgrades: seq<PackageUpgrade>): (names: seq<string>)
    ensures |names| == |upgrades| && forall i :: 0 <= i < |names| ==> names[i] == upgrades[i].name
  {
    seq(|upgrades|, i requires 0 <= i < |upgrades| => upgrades[i].name)
  }

  // ----- Printing, as apt does -----

  function PrintTarget(to: string, source: string, extra: string): string {
    "(" + (to + (if source == "" then "" else " " + source) + ")" + extra)
  }

  function PrintFrom(from: Option<string>, target: string): string {
    if from.Some? then "[" + (from.value + "]" + (" " + target)) else target
  }

  /** `Inst name [from] (to source)`, then anything. */
  function PrintInst(u: PackageUpgrade, extra: string): string {
    "Inst " + (u.name + " " + PrintFrom(u.from, PrintTarget(u.to, u.source, extra)))
  }

  /** What an upgrade must look like for its line to be unambiguous. */
  predicate Printable(u: PackageUpgrade) {
    && ValidPackageName(u.name)
    && (u.from.Some? ==> ']' !in u.from.value)
    && u.to != "" && ' ' !in u.to && ')' !in u.to
    && ')' !in u.source
  }

  lemma TargetRoundTrip(to: string, source: string, extra: string)
    requires to != "" && ' ' !in to && ')' !in to && ')' !in source
    ensures ParseTarget(PrintTarget(to, source, extra)) == Some((to, source))
  {
    var inner := to + (if source == "" then "" else " " + source);
    assert StripPrefix(PrintTarget(to, source, extra), "(") == Some(inner + [')'] + extra);
    SplitOnceAt(inner, ')', extra);
    if source == "" {
      assert inner == to;
    } else {
      assert inner == to + [' '] + source;
      SplitOnceAt(to, ' ', source);
    }
  }

  lemma FromRoundTrip(from: Option<string>, target: string)
    requires (from.Some? ==> ']' !in from.value) && "(" <= target
    ensures ParseFrom(PrintFrom(from, target)) == Some((from, target))
  {
    assert target[0] == "("[0] == '(' && "["[0] == '[';
    assert !("[" <= target);
    if from.Some? {
      assert StripPrefix(PrintFrom(from, target), "[") == Some(from.value + [']'] + (" " + target));
      SplitOnceAt(from.value, ']', " " + target);
      assert (" " + target)[1..] == target;
      assert TrimStart(" " + target) == TrimStart(target) == target;
    }
  }

  lemma NameRoundTrip(name: string, rest: string)
    requires ValidPackageName(name)
    ensures StripPrefix("Inst " + (name + " " + rest), "Inst ") == Some(name + [' '] + rest)
    ensures SplitOnce(name + [' '] + rest, ' ') == Some((name, rest))
  {
    assert ("Inst " + (name + " " + rest))[5..] == name + [' '] + rest;
    SplitOnceAt(name, ' ', rest);
  }

  /** Reading a printed line gives the upgrade back, whatever follows the closing parenthesis. */
  lemma InstRoundTrip(u: PackageUpgrade, extra: string)
    requires Printable(u)
    ensures ParseInstLine(PrintInst(u, extra)) == Some(u)
  {
    var target := PrintTarget(u.to, u.source, extra);
    TargetRoundTrip(u.to, u.source, extra);
    FromRoundTrip(u.from, target);
    NameRoundTrip(u.name, PrintFrom(u.from, target));
  }

  lemma ParsedTarget(rest: string)
    requires ParseTarget(rest).Some?
    ensures var (to, source) := ParseTarget(rest).value;
      to != "" && ' ' !in to && ')' !in to && ')' !in source
  {
    var open := StripPrefix(rest, "(").value;
    var inner := match SplitOnce(open, ')') case Some((inside, _)) => inside case None => open;
    assert ')' !in inner;
    var (to, source) := match SplitOnce(inner, ' ') case Some(pair) => pair case None => (inner, "");
    assert forall i :: 0 <= i < |to| ==> to[i] in inner;
    assert forall i :: 0 <= i < |source| ==> source[i] in inner;
  }

  /** Every upgrade ever read is printable, so reading, printing and reading again is stable. */
  lemma ParsedIsPrintable(line: string, extra: string)
    requires ParseInstLine(line).Some?
    ensures Printable(ParseInstLine(line).value)
    ensures ParseInstLine(PrintInst(ParseInstLine(line).value, extra)) == ParseInstLine(line)
  {
    PrintableWhenParsed(line);
    InstRoundTrip(ParseInstLine(line).value, extra);
  }

  lemma PrintableWhenParsed(line: string)
    requires ParseInstLine(line).Some?
    ensures Printable(ParseInstLine(line).value)
  {
    var text := StripPrefix(line, "Inst ").value;
    var (name, afterName) := SplitOnce(text, ' ').value;
    var (from, rest) := ParseFrom(afterName).value;
    ParsedTarget(rest);
  }

  // ----- Whole outputs -----

  /** A line of output: an upgrade with something after it, or a line of another kind. */
  datatype Item = Upgrade(u: PackageUpgrade, extra: string) | Noise(text: string)

  function ItemLine(item: Item): string {
    match item
    case Upgrade(u, extra) => PrintInst(u, extra)
    case Noise(text) => text
  }

  predicate GoodItem(item: Item) {
    '\n' !in ItemLine(item) && match item
    case Upgrade(u, _) => Printable(u)
    case Noise(text) => !("Inst " <= text)
  }

  function PrintItems(items: seq<Item>): string {
    if items == [] then "" else ItemLine(items[0]) + "\n" + PrintItems(items[1..])
  }

  function Upgrades(items: seq<Item>): seq<PackageUpgrade> {
    if items == [] then []
    else (if items[0].Upgrade? then [items[0].u] else []) + Upgrades(items[1..])
  }

  /** Removing the last character only shortens what follows the closing parenthesis, or is impossible. */
  lemma ReturnIsExtra(u: PackageUpgrade, extra: string)
    ensures StripReturn(PrintInst(u, extra)) == PrintInst(u, StripReturn(extra))
  {
    TargetEnd(u.to, u.source, extra);
    var target := PrintTarget(u.to, u.source, extra);
    FromEnd(u.from, target);
    assert target != "";
    StripAppended("Inst " + u.name + " ", PrintFrom(u.from, target));
    assert PrintInst(u, extra) == "Inst " + u.name + " " + PrintFrom(u.from, target);
    var short := PrintTarget(u.to, u.source, StripReturn(extra));
    assert PrintInst(u, StripReturn(extra)) == "Inst " + u.name + " " + PrintFrom(u.from, short);
  }

  lemma StripAppended(a: string, b: string)
    requires b != ""
    ensures StripReturn(a + b) == a + StripReturn(b)
  {}

  lemma TargetEnd(to: string, source: string, extra: string)
    ensures StripReturn(PrintTarget(to, source, extra)) == PrintTarget(to, source, StripReturn(extra))
  {
    var front := "(" + to + (if source == "" then "" else " " + source) + ")";
    assert PrintTarget(to, source, extra) == front + extra;
    assert PrintTarget(to, source, StripReturn(extra)) == front + StripReturn(extra);
    if extra == "" {
      assert front + extra == front;
    } else {
      StripAppended(front, extra);
    }
  }

  lemma FromEnd(from: Option<string>, target: string)
    requires target != ""
    ensures StripReturn(PrintFrom(from, target)) == PrintFrom(from, StripReturn(target))
      && PrintFrom(from, target) != ""
  {
    if from.Some? {
      var front := "[" + from.value + "] ";
      assert PrintFrom(from, target) == front + target;
      assert PrintFrom(from, StripReturn(target)) == front + StripReturn(target);
      StripAppended(front, target);
    }
  }

  lemma ItemRoundTrip(item: Item)
    requires GoodItem(item)
    ensures ParseInstLine(StripReturn(ItemLine(item))) == if item.Upgrade? then Some(item.u) else None
  {
    if item.Upgrade? {
      ReturnIsExtra(item.u, item.extra);
      InstRoundTrip(item.u, StripReturn(item.extra));
    }
  }

  lemma FirstLine(line: string, rest: string)
    requires '\n' !in line
    ensures Lines(line + "\n" + rest) == [StripReturn(line)] + Lines(rest)
  {
    SplitOnceAt(line, '\n', rest);
  }

  /** Reading back a printed simulation, with lines of other kinds anywhere in between, gives exactly the
      upgrades that were printed, in order. */
  lemma {:induction false} SimulationRoundTrip(items: seq<Item>)
    requires forall i :: 0 <= i < |items| ==> GoodItem(items[i])
    ensures ParseSimulation(PrintItems(items)) == Upgrades(items)
  {
    if items != [] {
      SimulationRoundTrip(items[1..]);
      ItemRoundTrip(items[0]);
      var line, rest := StripReturn(ItemLine(items[0])), Lines(PrintItems(items[1..]));
      FirstLine(ItemLine(items[0]), PrintItems(items[1..]));
      assert ([line] + rest)[1..] == rest;
    }
  }
}
