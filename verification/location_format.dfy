/** The `std::formatter<std::source_location>` specialisation of src/misc.hpp:
    `parse` reads the format spec of a replacement field (`{:short}`, `{:file}`,
    ...) and picks one of five styles; `format` renders a source location
    (file, function, line) in the chosen style, using a `basename` helper that
    keeps what follows the last path separator. */
module LocationFormat {
  import opened Wrappers

  /** The formatter's private `Style` enumeration; a fresh formatter starts at `Default`. */
  datatype Style = Default | Short | File | Line | Func

  /** `std::source_location::line()` is an `unsigned int`. */
  const LineBound: nat := 0x1_0000_0000
  type LineNumber = n: nat | n < LineBound

  datatype Location = Location(file: string, func: string, line: LineNumber)

  /** What `parse` leaves behind: the position it returns (an offset into the
      spec range) and the formatter's style afterwards. */
  datatype Scanned = Scanned(pos: nat, style: Style)

  // ---------------------------------------------------------------- parse

  /** The character that ends a replacement field. */
  const CloseBrace: char := '}'

  /** Offset of the first `}` in `s`, or `|s|` when there is none: where the
      scanning loop of `parse` stops. */
  function FirstClose(s: string): (i: nat)
    ensures i <= |s|
    ensures forall k :: 0 <= k < i ==> s[k] != CloseBrace
    ensures i < |s| ==> s[i] == CloseBrace
  {
    if |s| == 0 || s[0] == CloseBrace then 0 else 1 + FirstClose(s[1..])
  }

  /** The keyword that selects a style, if any. */
  function Keyword(st: Style): Option<string> {
    match st
    case Default => None
    case Short => Some("short")
    case File => Some("file")
    case Line => Some("line")
    case Func => Some("func")
  }

  /** The if/else-if chain that maps the spec text to a style. */
  function StyleOf(spec: string): (st: Style)
    ensures st == Default <==> spec !in {"short", "file", "line", "func"}
  {
    if spec == "short" then Short
    else if spec == "file" then File
    else if spec == "line" then Line
    else if spec == "func" then Func
    else Default
  }

  /** `StyleOf` and `Keyword` are inverse: every keyword selects its style, and
      every text that selects a non-default style is that style's keyword. */
  lemma StyleOfKeyword(st: Style, spec: string)
    ensures st != Default ==> Keyword(st).Some? && StyleOf(Keyword(st).value) == st
    ensures StyleOf(spec) != Default ==> Keyword(StyleOf(spec)) == Some(spec)
    ensures Keyword(st).None? <==> st == Default
  {
  }

  /** `parse` over the spec range `ctx` of a formatter whose style is
      `current`: an empty range or one that starts with `}` returns at once and
      keeps the style; otherwise the text up to the first `}` (or the end of the
      range) selects the style, and that position is returned. */
  function Parse(ctx: string, current: Style): (r: Scanned)
    ensures r.pos <= |ctx| && forall k :: 0 <= k < r.pos ==> ctx[k] != CloseBrace
    ensures r.pos < |ctx| ==> ctx[r.pos] == CloseBrace
    ensures r.pos == 0 ==> r.style == current
    ensures r.pos > 0 ==> r.pos == FirstClose(ctx) && r.style == StyleOf(ctx[..FirstClose(ctx)])
  {
    if |ctx| == 0 || ctx[0] == CloseBrace then Scanned(0, current)
    else
      var stop := FirstClose(ctx);
      Scanned(stop, StyleOf(ctx[..stop]))
  }

  /** `parse` never looks past the first `}`: whatever follows it cannot change
      the returned position or the style. */
  lemma ScanIgnoresRest(spec: string, rest1: string, rest2: string, current: Style)
    requires forall k :: 0 <= k < |spec| ==> spec[k] != CloseBrace
    ensures Parse(spec + "}" + rest1, current) == Parse(spec + "}" + rest2, current)
    ensures Parse(spec + "}" + rest1, current).pos == |spec|
  {
    var a, b := spec + "}" + rest1, spec + "}" + rest2;
    assert a[|spec|] == CloseBrace && b[|spec|] == CloseBrace;
    assert forall k :: 0 <= k < |spec| ==> a[k] == spec[k] && b[k] == spec[k];
    var ra, rb := Parse(a, current), Parse(b, current);
    assert a[..|spec|] == spec == b[..|spec|];
  }

  /** A replacement field `{:short}`, `{:file}`, `{:line}` or `{:func}` selects
      its style and `parse` stops on the closing brace. */
  lemma ScanKeyword(st: Style, rest: string, current: Style)
    requires st != Default
    ensures Parse(Keyword(st).value + "}" + rest, current) == Scanned(|Keyword(st).value|, st)
  {
    var kw := Keyword(st).value;
    ScanIgnoresRest(kw, rest, rest, current);
    var ctx := kw + "}" + rest;
    assert ctx[..|kw|] == kw;
  }

  /** An unrecognised non-empty spec resets the style to `Default`. */
  lemma ScanUnknownSpec(spec: string, rest: string, current: Style)
    requires 0 < |spec|
    requires forall k :: 0 <= k < |spec| ==> spec[k] != CloseBrace
    requires spec !in {"short", "file", "line", "func"}
    ensures Parse(spec + "}" + rest, current) == Scanned(|spec|, Default)
  {
    ScanIgnoresRest(spec, rest, rest, current);
    var ctx := spec + "}" + rest;
    assert ctx[..|spec|] == spec;
  }

  // ------------------------------------------------------------- basename

  /** The characters `find_last_of("/\\")` looks for. */
  const Separators: set<char> := {'/', '\\'}

  /** `std::string_view::find_last_of`: the offset of the last character of `s`
      that belongs to `chars`, or `None` for `npos`. */
  function FindLastOf(s: string, chars: set<char>): (r: Option<nat>)
    ensures r.None? <==> forall k :: 0 <= k < |s| ==> s[k] !in chars
    ensures r.Some? ==> r.value < |s| && s[r.value] in chars
    ensures r.Some? ==> forall k :: r.value < k < |s| ==> s[k] !in chars
  {
    if |s| == 0 then None
    else if s[|s| - 1] in chars then Some(|s| - 1)
    else FindLastOf(s[..|s| - 1], chars)
  }

  /** `FindLastOf` finds the one position that holds a wanted character with
      none after it. */
  lemma FindLastOfUnique(s: string, chars: set<char>, i: nat)
    requires i < |s| && s[i] in chars
    requires forall k :: i < k < |s| ==> s[k] !in chars
    ensures FindLastOf(s, chars) == Some(i)
  {
  }

  /** When `c` occurs in `a + [c] + b` and not in `b`, the last `c` is the one after `a`. */
  lemma FindLastOfSplit(a: string, c: char, b: string)
    requires forall k :: 0 <= k < |b| ==> b[k] != c
    ensures FindLastOf(a + [c] + b, {c}) == Some(|a|)
  {
    OnlyOneAfter(a, c, b);
    FindLastOfUnique(a + [c] + b, {c}, |a|);
  }

  lemma OnlyOneAfter(a: string, c: char, b: string)
    requires forall k :: 0 <= k < |b| ==> b[k] != c
    ensures (a + [c] + b)[|a|] in {c}
    ensures forall k :: |a| < k < |a + [c] + b| ==> (a + [c] + b)[k] !in {c}
  {
    var s := a + [c] + b;
    forall k | |a| < k < |s|
      ensures s[k] !in {c}
    {
      assert s[k] == b[k - |a| - 1];
    }
  }

  predicate IsPrefix(prefix: string, s: string) {
    |prefix| <= |s| && s[..|prefix|] == prefix
  }

  predicate IsSuffix(suffix: string, s: string) {
    |suffix| <= |s| && s[|s| - |suffix|..] == suffix
  }

  /** The `basename` lambda: the longest suffix of `path` free of `/` and `\`. */
  function Basename(path: string): (b: string)
    ensures IsSuffix(b, path)
    ensures forall k :: 0 <= k < |b| ==> b[k] !in Separators
    ensures |b| < |path| ==> path[|path| - |b| - 1] in Separators
  {
    match FindLastOf(path, Separators)
    case None => path
    case Some(i) => path[i + 1..]
  }

  /** A path without separators is its own basename, and only such a path is. */
  lemma BasenameUnchanged(path: string)
    ensures Basename(path) == path <==> forall k :: 0 <= k < |path| ==> path[k] !in Separators
  {
    var b := Basename(path);
    if b == path {
      assert forall k :: 0 <= k < |path| ==> path[k] == b[k];
    }
  }

  /** Taking the basename twice is the same as taking it once. */
  lemma BasenameIdempotent(path: string)
    ensures Basename(Basename(path)) == Basename(path)
  {
    BasenameUnchanged(Basename(path));
  }

  // -------------------------------------------------------------- decimal

  predicate IsDigit(c: char) {
    '0' <= c <= '9'
  }

  predicate AllDigits(s: string) {
    forall k :: 0 <= k < |s| ==> IsDigit(s[k])
  }

  function DigitChar(d: nat): (c: char)
    requires d < 10
    ensures IsDigit(c) && c as int - '0' as int == d
  {
    (d + '0' as int) as char
  }

  /** `std::format("{}", n)` for an unsigned integer: decimal digits, no sign,
      no leading zero. */
  function Decimal(n: nat): (s: string)
    ensures 0 < |s|
    ensures AllDigits(s)
    ensures 1 < |s| ==> s[0] != '0'
  {
    if n < 10 then [DigitChar(n)] else Decimal(n / 10) + [DigitChar(n % 10)]
  }

  /** The value a string of decimal digits denotes. */
  function DecimalValue(s: string): nat
    requires AllDigits(s)
  {
    if |s| == 0 then 0
    else 10 * DecimalValue(s[..|s| - 1]) + (s[|s| - 1] as int - '0' as int)
  }

  /** Reading back the rendered digits gives the number that was rendered. */
  lemma {:induction false} DecimalRoundTrip(n: nat)
    ensures DecimalValue(Decimal(n)) == n
  {
    if n >= 10 {
      var s := Decimal(n);
      assert s[..|s| - 1] == Decimal(n / 10);
      DecimalRoundTrip(n / 10);
    }
  }

  // --------------------------------------------------------------- format

  /** `(!func.empty()) ? func : std::string_view("")`: the conditional is the
      identity on the function name. */
  function FuncField(func: string): (f: string)
    ensures f == func
  {
    if |func| != 0 then func else ""
  }

  /** `format` for a location in a style. `Short` and `Default` render
      `<file>:<function>(<line>)`, `Short` with only the basename of the file;
      `File`, `Line` and `Func` render that one component. */
  function Format(loc: Location, style: Style): (out: string)
    ensures style == File ==> out == loc.file
    ensures style == Func ==> out == loc.func
    ensures style == Line ==> AllDigits(out) && DecimalValue(out) == loc.line
    ensures style == Line ==> 0 < |out| && (1 < |out| ==> out[0] != '0')
    ensures style == Default ==> IsPrefix(loc.file, out)
    ensures style == Short ==> IsPrefix(Basename(loc.file), out)
    ensures style in {Short, Default} ==> TrailingLine(out) == Some(loc.line as nat)
    ensures style == Default ==> TaggedShape(out, loc.file, loc)
    ensures style == Short ==> TaggedShape(out, Basename(loc.file), loc)
  {
    match style
    case Short =>
      TrailingLineOf(Basename(loc.file) + ":" + loc.func, loc.line);
      Tagged(Basename(loc.file), loc)
    case File => loc.file
    case Line => DecimalRoundTrip(loc.line); Decimal(loc.line)
    case Func => loc.func
    case Default =>
      TrailingLineOf(loc.file + ":" + loc.func, loc.line);
      Tagged(loc.file, loc)
  }

  /** `out` is `file`, then `:` and the function name, then `(`, digits and
      `)`: exactly as long as those pieces, with the name between `:` and `(`. */
  predicate TaggedShape(out: string, file: string, loc: Location) {
    var m := |file| + 1 + |loc.func|;
    && |out| == m + |Decimal(loc.line)| + 2
    && out[..|file|] == file
    && out[|file|..m] == ":" + loc.func
    && out[m] == '('
  }

  /** `"{}:{}({})"` applied to a file text, the function name and the line. */
  function Tagged(file: string, loc: Location): (out: string)
    ensures IsPrefix(file, out)
    ensures TaggedShape(out, file, loc)
  {
    file + ":" + FuncField(loc.func) + "(" + Decimal(loc.line) + ")"
  }

  /** Recovers the line number from text ending in `(<digits>)`: the digits
      between the last `(` and the final `)`. */
  function TrailingLine(out: string): Option<nat> {
    if |out| == 0 || out[|out| - 1] != ')' then None
    else
      match FindLastOf(out[..|out| - 1], {'('})
      case None => None
      case Some(i) =>
        var digits := out[i + 1..|out| - 1];
        if AllDigits(digits) && 0 < |digits| then Some(DecimalValue(digits)) else None
  }

  /** Whatever precedes it (a function signature may itself hold parentheses),
      a `(<line>)` tail can be read back. */
  lemma TrailingLineOf(prefix: string, n: nat)
    ensures TrailingLine(prefix + "(" + Decimal(n) + ")") == Some(n)
  {
    var d := Decimal(n);
    var out := prefix + "(" + d + ")";
    assert out[..|out| - 1] == prefix + ['('] + d;
    assert forall k :: 0 <= k < |d| ==> d[k] != '(';
    FindLastOfSplit(prefix, '(', d);
    assert out[|prefix| + 1..|out| - 1] == d;
    DecimalRoundTrip(n);
  }

  /** The `Short` rendering is a suffix of the `Default` rendering of the same
      location, so it is never longer. */
  lemma ShortIsSuffixOfDefault(loc: Location)
    ensures IsSuffix(Format(loc, Short), Format(loc, Default))
    ensures |Format(loc, Short)| <= |Format(loc, Default)|
  {
    var b := Basename(loc.file);
    var head := loc.file[..|loc.file| - |b|];
    assert loc.file == head + b;
    TaggedPrepend(head, b, loc);
    var short, long := Format(loc, Short), Format(loc, Default);
    assert long == head + short;
    assert long[|head|..] == short;
  }

  /** Prepending text to the file prepends it to the tagged rendering. */
  lemma TaggedPrepend(head: string, file: string, loc: Location)
    ensures Tagged(head + file, loc) == head + Tagged(file, loc)
  {
    var tail := ":" + FuncField(loc.func) + "(" + Decimal(loc.line) + ")";
    assert Tagged(file, loc) == file + tail;
    assert Tagged(head + file, loc) == (head + file) + tail;
  }

  /** Formatting a location with a format spec: a fresh formatter (style
      `Default`) parses the spec, then formats in the style it settled on. */
  function FormatWithSpec(ctx: string, loc: Location): string {
    Format(loc, Parse(ctx, Default).style)
  }

  /** `{:short}`, `{:file}`, `{:line}`, `{:func}` and a bare `{}` produce the
      renderings of their styles. */
  lemma FormatWithSpecStyles(st: Style, rest: string, loc: Location)
    ensures st != Default ==> FormatWithSpec(Keyword(st).value + "}" + rest, loc) == Format(loc, st)
    ensures FormatWithSpec("}" + rest, loc) == Format(loc, Default)
  {
    if st != Default {
      ScanKeyword(st, rest, Default);
    }
  }
}
