/**
  `normalize_date`: the four accepted input formats, the part of
  `datetime.strptime` they exercise, the calendar check `datetime` makes,
  and the ISO re-formatting done by `strftime("%Y-%m-%d")`.

  `strptime` turns a format into a regular expression and matches it at the
  start of the text: `%Y` is `\d\d\d\d`, `%m` is `1[0-2]|0[1-9]|[1-9]`, `%d`
  is `3[01]|[12]\d|0[1-9]|[1-9]| [1-9]`, and every other character of the
  format stands for itself. The match backtracks through those alternatives
  in order; text left over after the first match is an error ("unconverted
  data remains"). The fields default to 1900-01-01 and must then name a real
  date between the years 1 and 9999.
 */
module Dates {
  import opened Wrappers
  import opened Text

  // ------------------------------------------------------------ calendar

  const MIN_YEAR := 1
  const MAX_YEAR := 9999

  datatype Date = Date(year: int, month: int, day: int)

  /** Gregorian leap years. */
  predicate IsLeapYear(y: int) {
    y % 4 == 0 && (y % 100 != 0 || y % 400 == 0)
  }

  function DaysInMonth(y: int, m: int): (n: int)
    requires 1 <= m <= 12
    ensures 28 <= n <= 31
    ensures n == 29 <==> m == 2 && IsLeapYear(y)
    ensures n == 28 <==> m == 2 && !IsLeapYear(y)
    ensures n == 30 <==> m == 4 || m == 6 || m == 9 || m == 11
  {
    if m == 2 then (if IsLeapYear(y) then 29 else 28)
    else if m == 4 || m == 6 || m == 9 || m == 11 then 30
    else 31
  }

  /** What the `datetime` constructor accepts. */
  predicate ValidDate(d: Date)
    ensures ValidDate(d) ==> MIN_YEAR <= d.year <= MAX_YEAR && 1 <= d.month <= 12 && 1 <= d.day <= 31
  {
    MIN_YEAR <= d.year <= MAX_YEAR && 1 <= d.month <= 12 && 1 <= d.day <= DaysInMonth(d.year, d.month)
  }

  // -------------------------------------------------------------- digits

  predicate AllDigits(s: string) {
    forall i :: 0 <= i < |s| ==> IsDigit(s[i])
  }

  function DigitValue(c: char): (n: nat)
    requires IsDigit(c)
    ensures n <= 9
  {
    c as int - '0' as int
  }

  function DigitChar(n: nat): (c: char)
    requires n <= 9
    ensures IsDigit(c) && DigitValue(c) == n
  {
    (n + '0' as int) as char
  }

  /** The decimal value of a run of digits, as Python's `int` reads it. */
  function Number(s: string): (n: nat)
    requires AllDigits(s)
  {
    if s == [] then 0 else Number(s[..|s| - 1]) * 10 + DigitValue(s[|s| - 1])
  }

  /** `n` written with exactly two digits, zero-padded. */
  function Pad2(n: nat): (s: string)
    requires n < 100
    ensures |s| == 2 && AllDigits(s)
  {
    [DigitChar(n / 10), DigitChar(n % 10)]
  }

  /** `n` written with exactly four digits, zero-padded. */
  function Pad4(n: nat): (s: string)
    requires n < 10000
    ensures |s| == 4 && AllDigits(s)
  {
    Pad2(n / 100) + Pad2(n % 100)
  }

  lemma NumberPad2(n: nat)
    requires n < 100
    ensures Number(Pad2(n)) == n
  {
    var s := Pad2(n);
    assert s[..1] == [s[0]] && s[..1][..0] == [];
    assert Number(s[..1]) == DigitValue(s[0]) == n / 10;
    assert Number(s) == Number(s[..1]) * 10 + DigitValue(s[1]);
  }

  lemma NumberPad4(n: nat)
    requires n < 10000
    ensures Number(Pad4(n)) == n
  {
    var s := Pad4(n);
    var a, b := n / 100, n % 100;
    assert s[..3][..2] == s[..2] == Pad2(a);
    assert s[..3] == s[..2] + [s[2]];
    NumberPad2(a);
    assert Number(s[..3]) == a * 10 + b / 10;
    assert Number(s) == (a * 10 + b / 10) * 10 + b % 10;
  }

  // ------------------------------------------------------------- formats

  /** The accepted input formats, in the order they are tried. */
  const DATE_FORMATS: seq<string> := ["%Y-%m-%d", "%d/%m/%Y", "%Y/%m/%d", "%d-%m-%Y"]

  /** The output format. */
  const ISO_FORMAT: string := "%Y-%m-%d"

  /** One element of a compiled format: a field directive or a literal. */
  datatype Directive = Year | Month | Day | Lit(c: char)

  /** Reads a format string: `%Y`, `%m` and `%d` are field directives,
      `%%` is a literal percent sign, and any other non-whitespace character
      is a literal. A stray `%` at the end is an error, as in `strptime`;
      other directives and whitespace in a format are not part of this model
      and are refused as well. */
  function Compile(fmt: string): (r: Option<seq<Directive>>)
    ensures r.Some? ==> |r.value| <= |fmt|
  {
    if fmt == [] then Some([])
    else if fmt[0] == '%' then
      if |fmt| < 2 then None
      else
        var d :=
          if fmt[1] == 'Y' then Some(Year)
          else if fmt[1] == 'm' then Some(Month)
          else if fmt[1] == 'd' then Some(Day)
          else if fmt[1] == '%' then Some(Lit('%'))
          else None;
        match (d, Compile(fmt[2..]))
        case (Some(x), Some(rest)) => Some([x] + rest)
        case _ => None
    else if IsSpace(fmt[0]) then None
    else
      match Compile(fmt[1..])
      case Some(rest) => Some([Lit(fmt[0])] + rest)
      case None => None
  }

  /** The letter of a field directive in a format string. */
  function Letter(dir: Directive): (c: char)
    requires !dir.Lit?
  {
    match dir
    case Year => 'Y'
    case Month => 'm'
    case Day => 'd'
  }

  /** One step of `Compile` on a field directive followed by `rest`. */
  lemma CompileField(dir: Directive, rest: string, dirs: seq<Directive>)
    requires !dir.Lit?
    requires Compile(rest) == Some(dirs)
    ensures Compile(['%', Letter(dir)] + rest) == Some([dir] + dirs)
  {
    assert (['%', Letter(dir)] + rest)[2..] == rest;
  }

  /** One step of `Compile` on a literal followed by `rest`. */
  lemma CompileLit(c: char, rest: string, dirs: seq<Directive>)
    requires c != '%' && !IsSpace(c)
    requires Compile(rest) == Some(dirs)
    ensures Compile([c] + rest) == Some([Lit(c)] + dirs)
  {
    assert ([c] + rest)[1..] == rest;
  }

  /** Two steps of `Compile`: a field directive, then a separator. */
  lemma CompilePair(x: Directive, sep: char, rest: string, dirs: seq<Directive>)
    requires !x.Lit? && sep != '%' && !IsSpace(sep)
    requires Compile(rest) == Some(dirs)
    ensures Compile(['%', Letter(x), sep] + rest) == Some([x, Lit(sep)] + dirs)
  {
    CompileLit(sep, rest, dirs);
    CompileField(x, [sep] + rest, [Lit(sep)] + dirs);
    assert ['%', Letter(x)] + ([sep] + rest) == ['%', Letter(x), sep] + rest;
    assert [x] + ([Lit(sep)] + dirs) == [x, Lit(sep)] + dirs;
  }

  /** `Compile` of a format of the shape `%x<sep>%y<sep>%z`. */
  lemma CompileThree(x: Directive, sep: char, y: Directive, z: Directive)
    requires !x.Lit? && !y.Lit? && !z.Lit?
    requires sep != '%' && !IsSpace(sep)
    ensures Compile(['%', Letter(x), sep, '%', Letter(y), sep, '%', Letter(z)])
            == Some([x, Lit(sep), y, Lit(sep), z])
  {
    var a, b, c := Letter(x), Letter(y), Letter(z);
    CompileField(z, [], []);
    assert ['%', c] + [] == ['%', c] && [z] + [] == [z];
    CompilePair(y, sep, ['%', c], [z]);
    var t1 := ['%', b, sep] + ['%', c];
    var d1 := [y, Lit(sep)] + [z];
    CompilePair(x, sep, t1, d1);
    assert ['%', a, sep] + t1 == ['%', a, sep, '%', b, sep, '%', c];
    assert [x, Lit(sep)] + d1 == [x, Lit(sep), y, Lit(sep), z];
  }

  const ISO_DIRECTIVES: seq<Directive> := [Year, Lit('-'), Month, Lit('-'), Day]
  const DMY_SLASH: seq<Directive> := [Day, Lit('/'), Month, Lit('/'), Year]
  const YMD_SLASH: seq<Directive> := [Year, Lit('/'), Month, Lit('/'), Day]
  const DMY_DASH: seq<Directive> := [Day, Lit('-'), Month, Lit('-'), Year]

  /** The four format strings read as the directive lists above. */
  lemma CompileFormats()
    ensures Compile(DATE_FORMATS[0]) == Some(ISO_DIRECTIVES)
    ensures Compile(DATE_FORMATS[1]) == Some(DMY_SLASH)
    ensures Compile(DATE_FORMATS[2]) == Some(YMD_SLASH)
    ensures Compile(DATE_FORMATS[3]) == Some(DMY_DASH)
    ensures Compile(ISO_FORMAT) == Some(ISO_DIRECTIVES)
  {
    CompileThree(Year, '-', Month, Day);
    CompileThree(Day, '/', Month, Year);
    CompileThree(Year, '/', Month, Day);
    CompileThree(Day, '-', Month, Year);
  }

  // ------------------------------------------------------------ scanning

  /** Parsed field values; fields without a directive keep the default. */
  datatype Fields = Fields(year: int, month: int, day: int)

  const DEFAULT_FIELDS := Fields(1900, 1, 1)

  function SetField(f: Fields, d: Directive, v: int): (g: Fields)
    requires !d.Lit?
  {
    match d
    case Year => f.(year := v)
    case Month => f.(month := v)
    case Day => f.(day := v)
  }

  /** A two-digit token at the start of `s` with a value in `1..max`. */
  function TwoDigits(s: string, max: nat): (cs: seq<(nat, nat)>)
  {
    if |s| >= 2 && IsDigit(s[0]) && IsDigit(s[1]) && 1 <= Number(s[..2]) <= max
    then [(Number(s[..2]), 2)] else []
  }

  /** A single non-zero digit at the start of `s`. */
  function OneDigit(s: string): (cs: seq<(nat, nat)>)
  {
    if |s| >= 1 && '1' <= s[0] <= '9' then [(DigitValue(s[0]), 1)] else []
  }

  /** The (value, length) pairs that a field directive's regular expression
      can match at the start of `s`, in the order the alternatives are tried.
      The two-digit alternatives of `%m` (`1[0-2]|0[1-9]`) are exactly the
      two-digit values 1..12, and those of `%d` (`3[01]|[12]\d|0[1-9]`) the
      two-digit values 1..31; a shared first digit never makes two of them
      match at once. */
  function Candidates(d: Directive, s: string): (cs: seq<(nat, nat)>)
    requires !d.Lit?
    ensures forall k :: 0 <= k < |cs| ==> 1 <= cs[k].1 <= |s|
  {
    match d
    case Year =>
      if |s| >= 4 && AllDigits(s[..4]) then [(Number(s[..4]), 4)] else []
    case Month =>
      TwoDigits(s, 12) + OneDigit(s)
    case Day =>
      TwoDigits(s, 31) + OneDigit(s)
        + (if |s| >= 2 && s[0] == ' ' && '1' <= s[1] <= '9' then [(DigitValue(s[1]), 2)] else [])
  }

  /** The first match of `dirs` at the start of `s` in backtracking order:
      the fields it sets and the text after it. */
  function Scan(dirs: seq<Directive>, s: string, f: Fields): (r: Option<(Fields, string)>)
    ensures r.Some? ==> |r.value.1| <= |s| && r.value.1 == s[|s| - |r.value.1|..]
    decreases |dirs|, 1, 0
  {
    if dirs == [] then Some((f, s))
    else if dirs[0].Lit? then
      if s != [] && s[0] == dirs[0].c then Scan(dirs[1..], s[1..], f) else None
    else
      TryCandidates(dirs, s, f, Candidates(dirs[0], s))
  }

  /** Tries the remaining alternatives for the field directive `dirs[0]`. */
  function TryCandidates(dirs: seq<Directive>, s: string, f: Fields, cs: seq<(nat, nat)>)
    : (r: Option<(Fields, string)>)
    requires dirs != [] && !dirs[0].Lit?
    requires forall k :: 0 <= k < |cs| ==> cs[k].1 <= |s|
    ensures r.Some? ==> |r.value.1| <= |s| && r.value.1 == s[|s| - |r.value.1|..]
    decreases |dirs|, 0, |cs|
  {
    if cs == [] then None
    else
      match Scan(dirs[1..], s[cs[0].1..], SetField(f, dirs[0], cs[0].0))
      case Some(res) => Some(res)
      case None => TryCandidates(dirs, s, f, cs[1..])
  }

  /** `datetime.strptime(s, fmt)`; None where it raises ValueError. */
  function Strptime(s: string, fmt: string): (r: Option<Date>)
    ensures r.Some? ==> ValidDate(r.value)
  {
    match Compile(fmt)
    case None => None
    case Some(dirs) =>
      match Scan(dirs, s, DEFAULT_FIELDS)
      case None => None
      case Some((f, rest)) =>
        var d := Date(f.year, f.month, f.day);
        if rest == [] && ValidDate(d) then Some(d) else None
  }

  // ---------------------------------------------------------- formatting

  /** A date whose fields fit the zero-padded widths of the output. */
  predicate Printable(d: Date) {
    0 <= d.year <= 9999 && 0 <= d.month <= 99 && 0 <= d.day <= 99
  }

  /** `strftime` for the directives above: `%Y` as four digits, `%m` and
      `%d` as two, literals as themselves. */
  function Render(dirs: seq<Directive>, d: Date): (s: string)
    requires Printable(d)
  {
    if dirs == [] then [] else Piece(dirs[0], d) + Render(dirs[1..], d)
  }

  function Piece(dir: Directive, d: Date): (s: string)
    requires Printable(d)
  {
    match dir
    case Year => Pad4(d.year)
    case Month => Pad2(d.month)
    case Day => Pad2(d.day)
    case Lit(c) => [c]
  }

  lemma RenderCons(dirs: seq<Directive>, d: Date)
    requires dirs != [] && Printable(d)
    ensures Render(dirs, d) == Piece(dirs[0], d) + Render(dirs[1..], d)
  {
  }

  /** Five pieces appended right to left are the five appended in order. */
  lemma AppendFive(p0: string, p1: string, p2: string, p3: string, p4: string,
                   r0: string, r1: string, r2: string, r3: string, r4: string)
    requires r4 == p4 + [] && r3 == p3 + r4 && r2 == p2 + r3 && r1 == p1 + r2 && r0 == p0 + r1
    ensures r0 == p0 + p1 + p2 + p3 + p4
  {
    assert p4 + [] == p4;
  }

  /** A five-element format renders piece by piece. */
  lemma RenderFive(dirs: seq<Directive>, d: Date)
    requires |dirs| == 5 && Printable(d)
    ensures Render(dirs, d) == Piece(dirs[0], d) + Piece(dirs[1], d) + Piece(dirs[2], d)
                               + Piece(dirs[3], d) + Piece(dirs[4], d)
  {
    var t1, t2, t3, t4 := dirs[1..], dirs[2..], dirs[3..], dirs[4..];
    assert t4[1..] == [] && t3[1..] == t4 && t2[1..] == t3 && t1[1..] == t2;
    assert t1[0] == dirs[1] && t2[0] == dirs[2] && t3[0] == dirs[3] && t4[0] == dirs[4];
    RenderCons(t4, d);
    RenderCons(t3, d);
    RenderCons(t2, d);
    RenderCons(t1, d);
    RenderCons(dirs, d);
    AppendFive(Piece(dirs[0], d), Piece(dirs[1], d), Piece(dirs[2], d), Piece(dirs[3], d), Piece(dirs[4], d),
               Render(dirs, d), Render(t1, d), Render(t2, d), Render(t3, d), Render(t4, d));
  }

  /** `d.strftime("%Y-%m-%d")`. */
  function IsoText(d: Date): (r: string)
    requires Printable(d)
    ensures |r| == 10
  {
    RenderFive(ISO_DIRECTIVES, d);
    Render(ISO_DIRECTIVES, d)
  }

  /** Ten characters `YYYY-MM-DD` that name a real calendar date. */
  predicate IsIsoDate(r: string) {
    && |r| == 10 && r[4] == '-' && r[7] == '-'
    && AllDigits(r[..4]) && AllDigits(r[5..7]) && AllDigits(r[8..])
    && ValidDate(Date(Number(r[..4]), Number(r[5..7]), Number(r[8..])))
  }

  /** The ISO text reads back: its three fields are the year, month and
      day of the date, so it is an ISO date when the date is real. */
  lemma IsoTextReadsBack(d: Date)
    requires Printable(d)
    ensures var r := IsoText(d);
            && r[4] == '-' && r[7] == '-'
            && AllDigits(r[..4]) && AllDigits(r[5..7]) && AllDigits(r[8..])
            && Number(r[..4]) == d.year && Number(r[5..7]) == d.month && Number(r[8..]) == d.day
    ensures ValidDate(d) ==> IsIsoDate(IsoText(d))
  {
    var r := IsoText(d);
    RenderFive(ISO_DIRECTIVES, d);
    assert r == Pad4(d.year) + "-" + Pad2(d.month) + "-" + Pad2(d.day);
    assert r[..4] == Pad4(d.year);
    assert r[5..7] == Pad2(d.month);
    assert r[8..] == Pad2(d.day);
    NumberPad4(d.year);
    NumberPad2(d.month);
    NumberPad2(d.day);
  }


  // --------------------------------------------------------- first match

  /** `for fmt in formats: try: return strptime(s, fmt)`. */
  function FirstMatch(formats: seq<string>, s: string): (r: Option<Date>)
    ensures r.Some? ==> ValidDate(r.value)
  {
    if formats == [] then None
    else match Strptime(s, formats[0])
      case Some(d) => Some(d)
      case None => FirstMatch(formats[1..], s)
  }

  /** normalize_date: trim; empty text gives ""; otherwise the ISO form of
      the first format that parses, or "" when none does. */
  function NormalizeDate(raw: string): (r: string)
    ensures r == "" || IsIsoDate(r)
    ensures AllSpace(raw) ==> r == ""
  {
    StripProperties(raw);
    var t := Strip(raw);
    if t == [] then ""
    else match FirstMatch(DATE_FORMATS, t)
      case Some(d) => IsoTextReadsBack(d); IsoText(d)
      case None => ""
  }

  // -------------------------------------------------------------- proofs

  /** The compiled formats, in the order of DATE_FORMATS. */
  const FORMAT_DIRECTIVES: seq<seq<Directive>> := [ISO_DIRECTIVES, DMY_SLASH, YMD_SLASH, DMY_DASH]

  /** The fields of a date that a zero-padded rendering can carry and that
      the `%m` and `%d` patterns accept. */
  predicate Readable(d: Date) {
    0 <= d.year <= 9999 && 1 <= d.month <= 12 && 1 <= d.day <= 31
  }

  function FieldValue(dir: Directive, d: Date): (v: int)
    requires !dir.Lit?
  {
    match dir
    case Year => d.year
    case Month => d.month
    case Day => d.day
  }

  /** The fields after reading the values of `d` for every directive. */
  function Fill(dirs: seq<Directive>, f: Fields, d: Date): (g: Fields)
  {
    if dirs == [] then f else Fill(dirs[1..], Step(f, dirs[0], d), d)
  }

  /** When every alternative fails, the directive fails. */
  lemma {:induction false} TryCandidatesNone(dirs: seq<Directive>, s: string, f: Fields, cs: seq<(nat, nat)>)
    requires dirs != [] && !dirs[0].Lit?
    requires forall k :: 0 <= k < |cs| ==> cs[k].1 <= |s|
    requires forall k :: 0 <= k < |cs| ==> Scan(dirs[1..], s[cs[k].1..], SetField(f, dirs[0], cs[k].0)) == None
    ensures TryCandidates(dirs, s, f, cs) == None
    decreases |cs|
  {
    if cs != [] {
      TryCandidatesNone(dirs, s, f, cs[1..]);
    }
  }

  /** The first alternative wins when the rest of the format matches after it. */
  lemma TryCandidatesFirst(dirs: seq<Directive>, s: string, f: Fields, cs: seq<(nat, nat)>)
    requires dirs != [] && !dirs[0].Lit?
    requires cs != [] && forall k :: 0 <= k < |cs| ==> cs[k].1 <= |s|
    requires Scan(dirs[1..], s[cs[0].1..], SetField(f, dirs[0], cs[0].0)).Some?
    ensures TryCandidates(dirs, s, f, cs) == Scan(dirs[1..], s[cs[0].1..], SetField(f, dirs[0], cs[0].0))
  {
  }

  /** The first candidate for a zero-padded field is the whole two- or
      four-digit rendering. */
  lemma FirstCandidate(dir: Directive, d: Date, tail: string)
    requires !dir.Lit? && Readable(d)
    ensures var s := Piece(dir, d) + tail;
            var cs := Candidates(dir, s);
            cs != [] && cs[0] == (FieldValue(dir, d), |Piece(dir, d)|)
  {
    var p := Piece(dir, d);
    var s := p + tail;
    if dir == Year {
      assert s[..4] == p;
      NumberPad4(d.year);
    } else {
      assert s[..2] == p;
      NumberPad2(if dir == Month then d.month else d.day);
    }
  }

  /** Reading back a rendering: scanning the text a format renders for `d`
      consumes exactly that text and reads the fields of `d`. */
  lemma {:induction false} ScanRender(dirs: seq<Directive>, d: Date, f: Fields, tail: string)
    requires Readable(d)
    ensures Scan(dirs, Render(dirs, d) + tail, f) == Some((Fill(dirs, f, d), tail))
  {
    if dirs == [] {
      assert Render(dirs, d) + tail == tail;
    } else {
      var p := Piece(dirs[0], d);
      var r := Render(dirs[1..], d) + tail;
      var s := Render(dirs, d) + tail;
      assert s == p + r;
      if dirs[0].Lit? {
        assert s[1..] == r;
        ScanRender(dirs[1..], d, f, tail);
      } else {
        var g := Step(f, dirs[0], d);
        FirstCandidate(dirs[0], d, r);
        assert s[|p|..] == r;
        ScanRender(dirs[1..], d, g, tail);
        TryCandidatesFirst(dirs, s, f, Candidates(dirs[0], s));
      }
    }
  }

  /** A four-digit year field followed by a separator fails on text that
      does not open with four digits and that separator. */
  lemma YearFirstFails(dirs: seq<Directive>, s: string, f: Fields)
    requires |dirs| >= 2 && dirs[0] == Year && dirs[1].Lit?
    requires |s| < 5 || !AllDigits(s[..4]) || s[4] != dirs[1].c
    ensures Scan(dirs, s, f) == None
  {
    var cs := Candidates(Year, s);
    if cs != [] {
      var g := SetField(f, Year, cs[0].0);
      assert s[4..] == [] || s[4..][0] == s[4];
      assert Scan(dirs[1..], s[4..], g) == None;
      TryCandidatesNone(dirs, s, f, cs);
    }
  }

  /** A day field followed by a non-digit separator fails on text that
      opens with two digits and then something other than that separator. */
  lemma DayFirstFails(dirs: seq<Directive>, s: string, f: Fields)
    requires |dirs| >= 2 && dirs[0] == Day && dirs[1].Lit? && !IsDigit(dirs[1].c)
    requires |s| >= 3 && IsDigit(s[0]) && IsDigit(s[1]) && s[2] != dirs[1].c
    ensures Scan(dirs, s, f) == None
  {
    var cs := Candidates(Day, s);
    forall k | 0 <= k < |cs|
      ensures Scan(dirs[1..], s[cs[k].1..], SetField(f, Day, cs[k].0)) == None
    {
      var n := cs[k].1;
      assert n == 1 || n == 2;
      assert s[n..][0] == s[n];
    }
    TryCandidatesNone(dirs, s, f, cs);
  }

  /** Reading one directive's value of `d` into `f`. */
  function Step(f: Fields, dir: Directive, d: Date): (g: Fields)
  {
    if dir.Lit? then f else SetField(f, dir, FieldValue(dir, d))
  }

  /** A five-element format fills its fields one after the other. */
  lemma FillFive(dirs: seq<Directive>, f: Fields, d: Date)
    requires |dirs| == 5
    ensures Fill(dirs, f, d)
            == Step(Step(Step(Step(Step(f, dirs[0], d), dirs[1], d), dirs[2], d), dirs[3], d), dirs[4], d)
  {
    var t1, t2, t3, t4 := dirs[1..], dirs[2..], dirs[3..], dirs[4..];
    assert t4[1..] == [] && t3[1..] == t4 && t2[1..] == t3 && t1[1..] == t2;
    assert t1[0] == dirs[1] && t2[0] == dirs[2] && t3[0] == dirs[3] && t4[0] == dirs[4];
    var f1 := Step(f, dirs[0], d);
    var f2 := Step(f1, dirs[1], d);
    var f3 := Step(f2, dirs[2], d);
    var f4 := Step(f3, dirs[3], d);
    assert Fill(t4, f4, d) == Step(f4, dirs[4], d);
    assert Fill(t3, f3, d) == Fill(t4, f4, d);
    assert Fill(t2, f2, d) == Fill(t3, f3, d);
    assert Fill(t1, f1, d) == Fill(t2, f2, d);
  }

  /** Each accepted format sets year, month and day. */
  lemma FillFormats(k: nat, d: Date)
    requires k < |FORMAT_DIRECTIVES|
    ensures Fill(FORMAT_DIRECTIVES[k], DEFAULT_FIELDS, d) == Fields(d.year, d.month, d.day)
  {
    FillFive(FORMAT_DIRECTIVES[k], DEFAULT_FIELDS, d);
  }

  /** The characters of the four renderings that tell the formats apart. */
  lemma RenderedShape(k: nat, d: Date)
    requires k < |FORMAT_DIRECTIVES| && Printable(d)
    ensures var s := Render(FORMAT_DIRECTIVES[k], d);
            && |s| == 10 && NoEdgeSpace(s)
            && IsDigit(s[0]) && IsDigit(s[1])
            && (k == 0 || k == 2 ==> AllDigits(s[..4]) && s[4] == (if k == 0 then '-' else '/'))
            && (k == 1 || k == 3 ==> s[2] == (if k == 1 then '/' else '-'))
            && (k == 0 || k == 2 ==> IsDigit(s[2]))
  {
    var dirs := FORMAT_DIRECTIVES[k];
    RenderFive(dirs, d);
    var s := Render(dirs, d);
    if k == 0 || k == 2 {
      assert s[..4] == Pad4(d.year);
      assert s[9] == Pad2(d.day)[1];
    } else {
      assert s[9] == Pad4(d.year)[3];
    }
  }

  /** Each accepted format compiles to its directive list. */
  lemma CompileAt(k: nat)
    requires k < |DATE_FORMATS|
    ensures Compile(DATE_FORMATS[k]) == Some(FORMAT_DIRECTIVES[k])
  {
    CompileFormats();
    if k == 0 {
      assert FORMAT_DIRECTIVES[k] == ISO_DIRECTIVES;
    } else if k == 1 {
      assert FORMAT_DIRECTIVES[k] == DMY_SLASH;
    } else if k == 2 {
      assert FORMAT_DIRECTIVES[k] == YMD_SLASH;
    } else {
      assert FORMAT_DIRECTIVES[k] == DMY_DASH;
    }
  }

  /** `strptime` succeeds when its scan consumes the whole text and the
      fields name a real date. */
  lemma StrptimeOfScan(s: string, fmt: string, dirs: seq<Directive>, d: Date)
    requires Compile(fmt) == Some(dirs)
    requires Scan(dirs, s, DEFAULT_FIELDS) == Some((Fields(d.year, d.month, d.day), []))
    ensures Strptime(s, fmt) == if ValidDate(d) then Some(d) else None
  {
  }

  /** `strptime` fails when its scan fails. */
  lemma StrptimeScanFails(s: string, fmt: string, dirs: seq<Directive>)
    requires Compile(fmt) == Some(dirs)
    requires Scan(dirs, s, DEFAULT_FIELDS) == None
    ensures Strptime(s, fmt) == None
  {
  }

  /** `strptime` fails when its scan fails or leaves text unread. */
  lemma StrptimeNotExact(s: string, fmt: string, dirs: seq<Directive>)
    requires Compile(fmt) == Some(dirs)
    requires Scan(dirs, s, DEFAULT_FIELDS).None? || Scan(dirs, s, DEFAULT_FIELDS).value.1 != []
    ensures Strptime(s, fmt) == None
  {
  }

  /** Every field directive is followed by a separator that is not a
      digit, or ends the format. */
  predicate Separated(dirs: seq<Directive>) {
    forall i :: 0 <= i < |dirs| - 1 && !dirs[i].Lit? ==> dirs[i + 1].Lit? && !IsDigit(dirs[i + 1].c)
  }

  /** The month and day of `d` lie in the ranges the `%m` and `%d`
      patterns accept in two digits, for those of them that `dirs` has. */
  predicate InPatternRange(dirs: seq<Directive>, d: Date) {
    (Month in dirs ==> 1 <= d.month <= 12) && (Day in dirs ==> 1 <= d.day <= 31)
  }

  /** The alternative that `TryCandidates` settles on. */
  lemma {:induction false} TryCandidatesSome(dirs: seq<Directive>, s: string, f: Fields, cs: seq<(nat, nat)>)
    requires dirs != [] && !dirs[0].Lit?
    requires forall k :: 0 <= k < |cs| ==> cs[k].1 <= |s|
    requires TryCandidates(dirs, s, f, cs).Some?
    ensures exists k :: 0 <= k < |cs| &&
              Scan(dirs[1..], s[cs[k].1..], SetField(f, dirs[0], cs[k].0)) == TryCandidates(dirs, s, f, cs)
    decreases |cs|
  {
    if Scan(dirs[1..], s[cs[0].1..], SetField(f, dirs[0], cs[0].0)).None? {
      TryCandidatesSome(dirs, s, f, cs[1..]);
      var k :| 0 <= k < |cs[1..]| &&
               Scan(dirs[1..], s[cs[1..][k].1..], SetField(f, dirs[0], cs[1..][k].0)) == TryCandidates(dirs, s, f, cs[1..]);
      assert cs[1..][k] == cs[k + 1];
    }
  }

  /** The alternatives for a zero-padded month or day: one digit, or both
      digits when the value is within the pattern's range. */
  lemma PaddedCandidates(dir: Directive, d: Date, r: string)
    requires (dir == Month || dir == Day) && Printable(d)
    ensures var cs := Candidates(dir, Pad2(FieldValue(dir, d)) + r);
            forall k :: 0 <= k < |cs| ==>
              cs[k].1 == 1 || (cs[k].1 == 2 && 1 <= FieldValue(dir, d) <= (if dir == Month then 12 else 31))
  {
    var v := FieldValue(dir, d);
    var s := Pad2(v) + r;
    var max := if dir == Month then 12 else 31;
    assert s[..2] == Pad2(v);
    NumberPad2(v);
    assert Candidates(dir, s) == TwoDigits(s, max) + OneDigit(s);
  }

  /** After a one-digit reading of a two-digit field, the second digit
      stands where a separator or the end of the text is needed. */
  lemma OneDigitStops(dirs: seq<Directive>, p: string, r: string, g: Fields)
    requires dirs != [] && !dirs[0].Lit? && Separated(dirs)
    requires |p| == 2 && IsDigit(p[1])
    ensures var t := (p + r)[1..];
            Scan(dirs[1..], t, g).None? || Scan(dirs[1..], t, g).value.1 != []
  {
    var t := (p + r)[1..];
    assert t[0] == p[1];
    if dirs[1..] != [] {
      assert dirs[1..][0] == dirs[1];
    }
  }

  /** A separated format stays separated without its first directive. */
  lemma SeparatedTail(dirs: seq<Directive>)
    requires dirs != [] && Separated(dirs)
    ensures Separated(dirs[1..])
  {
    forall i | 0 <= i < |dirs[1..]| - 1 && !dirs[1..][i].Lit?
      ensures dirs[1..][i + 1].Lit? && !IsDigit(dirs[1..][i + 1].c)
    {
      assert dirs[1..][i] == dirs[i + 1] && dirs[1..][i + 1] == dirs[i + 2];
    }
  }

  /** The alternative a successful match of a field directive took. */
  lemma TakenCandidate(dirs: seq<Directive>, s: string, f: Fields) returns (k: nat, g: Fields)
    requires dirs != [] && !dirs[0].Lit? && Scan(dirs, s, f).Some?
    ensures k < |Candidates(dirs[0], s)|
    ensures g == SetField(f, dirs[0], Candidates(dirs[0], s)[k].0)
    ensures Scan(dirs[1..], s[Candidates(dirs[0], s)[k].1..], g) == Scan(dirs, s, f)
  {
    var cs := Candidates(dirs[0], s);
    TryCandidatesSome(dirs, s, f, cs);
    k :| 0 <= k < |cs| &&
         Scan(dirs[1..], s[cs[k].1..], SetField(f, dirs[0], cs[k].0)) == Scan(dirs, s, f);
    g := SetField(f, dirs[0], cs[k].0);
  }

  /** One field of an exact read: it consumed its whole zero-padded piece,
      so a month or a day is within its pattern's range, and the rest of
      the format reads the rest of the text exactly. */
  lemma ExactFieldStep(dirs: seq<Directive>, d: Date, f: Fields) returns (g: Fields)
    requires Printable(d) && Separated(dirs) && dirs != [] && !dirs[0].Lit?
    requires Scan(dirs, Render(dirs, d), f).Some? && Scan(dirs, Render(dirs, d), f).value.1 == []
    ensures Scan(dirs[1..], Render(dirs[1..], d), g) == Scan(dirs, Render(dirs, d), f)
    ensures dirs[0] == Month ==> 1 <= d.month <= 12
    ensures dirs[0] == Day ==> 1 <= d.day <= 31
  {
    var p := Piece(dirs[0], d);
    var r := Render(dirs[1..], d);
    var s := Render(dirs, d);
    assert s == p + r;
    var cs := Candidates(dirs[0], s);
    var k;
    k, g := TakenCandidate(dirs, s, f);
    if dirs[0] == Year {
      assert s[4..] == r;
    } else {
      PaddedCandidates(dirs[0], d, r);
      if cs[k].1 == 1 {
        OneDigitStops(dirs, p, r, g);
        assert false;
      }
      assert s[2..] == r;
    }
  }

  /** A zero-padded field that the whole format reads without leaving text
      behind must have been read in two digits, so a text read exactly has
      its month and day within the ranges of the patterns. */
  lemma {:induction false} ExactScanInRange(dirs: seq<Directive>, d: Date, f: Fields)
    requires Printable(d) && Separated(dirs)
    requires Scan(dirs, Render(dirs, d), f).Some? && Scan(dirs, Render(dirs, d), f).value.1 == []
    ensures InPatternRange(dirs, d)
  {
    if dirs != [] {
      SeparatedTail(dirs);
      var g := f;
      if dirs[0].Lit? {
        var s := Render(dirs, d);
        assert s == [dirs[0].c] + Render(dirs[1..], d);
        assert s[1..] == Render(dirs[1..], d);
      } else {
        g := ExactFieldStep(dirs, d, f);
      }
      ExactScanInRange(dirs[1..], d, g);
      assert dirs == [dirs[0]] + dirs[1..];
    }
  }

  /** The four formats separate their fields and have both a month and a
      day. */
  lemma FormatFields(k: nat)
    requires k < |FORMAT_DIRECTIVES|
    ensures Separated(FORMAT_DIRECTIVES[k])
    ensures Month in FORMAT_DIRECTIVES[k] && Day in FORMAT_DIRECTIVES[k]
  {
    var dirs := FORMAT_DIRECTIVES[k];
    assert dirs[2] == Month;
    assert dirs[0] == Day || dirs[4] == Day;
  }

  /** `strptime` reads a zero-padded rendering back with its own format,
      and succeeds exactly when the date is real. A month outside 1..12 or
      a day outside 1..31 is not matched by the `%m` or `%d` pattern in two
      digits, and the format then fails. */
  lemma StrptimeRenderedOwn(k: nat, d: Date)
    requires k < 4 && Printable(d)
    ensures Strptime(Render(FORMAT_DIRECTIVES[k], d), DATE_FORMATS[k])
            == if ValidDate(d) then Some(d) else None
  {
    var dirs := FORMAT_DIRECTIVES[k];
    var s := Render(dirs, d);
    CompileAt(k);
    if Readable(d) {
      ScanRender(dirs, d, DEFAULT_FIELDS, []);
      assert s + [] == s;
      FillFormats(k, d);
      StrptimeOfScan(s, DATE_FORMATS[k], dirs, d);
    } else {
      FormatFields(k);
      if Scan(dirs, s, DEFAULT_FIELDS).Some? && Scan(dirs, s, DEFAULT_FIELDS).value.1 == [] {
        ExactScanInRange(dirs, d, DEFAULT_FIELDS);
        assert false;
      }
      StrptimeNotExact(s, DATE_FORMATS[k], dirs);
    }
  }

  /** No other accepted format matches a zero-padded rendering. */
  lemma StrptimeRenderedOther(k: nat, j: nat, d: Date)
    requires k < 4 && j < 4 && j != k && Printable(d)
    ensures Strptime(Render(FORMAT_DIRECTIVES[k], d), DATE_FORMATS[j]) == None
  {
    var s := Render(FORMAT_DIRECTIVES[k], d);
    var dirs := FORMAT_DIRECTIVES[j];
    RenderedShape(k, d);
    if j == 0 || j == 2 {
      YearFirstFails(dirs, s, DEFAULT_FIELDS);
    } else {
      DayFirstFails(dirs, s, DEFAULT_FIELDS);
    }
    CompileAt(j);
    StrptimeScanFails(s, DATE_FORMATS[j], dirs);
  }

  // ---------------------------------------------------- first-match order

  /** `FirstMatch` finds nothing exactly when every format fails. */
  lemma {:induction false} FirstMatchNone(formats: seq<string>, s: string)
    ensures FirstMatch(formats, s).None? <==> forall j :: 0 <= j < |formats| ==> Strptime(s, formats[j]).None?
  {
    if formats != [] {
      FirstMatchNone(formats[1..], s);
      if FirstMatch(formats, s).None? {
        forall j | 0 <= j < |formats| ensures Strptime(s, formats[j]).None? {
          if j > 0 { assert formats[j] == formats[1..][j - 1]; }
        }
      }
    }
  }

  /** A date `FirstMatch` finds comes from a format that every earlier
      format failed before. */
  lemma {:induction false} FirstMatchSome(formats: seq<string>, s: string)
    requires FirstMatch(formats, s).Some?
    ensures exists i :: 0 <= i < |formats| && Strptime(s, formats[i]) == FirstMatch(formats, s)
                        && forall j :: 0 <= j < i ==> Strptime(s, formats[j]).None?
  {
    if Strptime(s, formats[0]).None? {
      FirstMatchSome(formats[1..], s);
      var i :| 0 <= i < |formats[1..]| && Strptime(s, formats[1..][i]) == FirstMatch(formats[1..], s)
               && forall j :: 0 <= j < i ==> Strptime(s, formats[1..][j]).None?;
      assert Strptime(s, formats[i + 1]) == FirstMatch(formats, s);
      forall j | 0 <= j < i + 1 ensures Strptime(s, formats[j]).None? {
        if j > 0 { assert formats[j] == formats[1..][j - 1]; }
      }
    }
  }

  /** `FirstMatch` returns the result of the first format that parses, and
      nothing when none does. */
  lemma FirstMatchIsFirst(formats: seq<string>, s: string)
    ensures FirstMatch(formats, s).None? <==> forall j :: 0 <= j < |formats| ==> Strptime(s, formats[j]).None?
    ensures FirstMatch(formats, s).Some? ==>
              exists i :: 0 <= i < |formats| && Strptime(s, formats[i]) == FirstMatch(formats, s)
                          && forall j :: 0 <= j < i ==> Strptime(s, formats[j]).None?
  {
    FirstMatchNone(formats, s);
    if FirstMatch(formats, s).Some? {
      FirstMatchSome(formats, s);
    }
  }

  /** The converse: whichever format is the first to parse decides. */
  lemma {:induction false} FirstMatchAt(formats: seq<string>, s: string, i: nat)
    requires i < |formats|
    requires forall j :: 0 <= j < i ==> Strptime(s, formats[j]).None?
    requires Strptime(s, formats[i]).Some?
    ensures FirstMatch(formats, s) == Strptime(s, formats[i])
  {
    if i > 0 {
      assert Strptime(s, formats[0]).None?;
      forall j | 0 <= j < i - 1 ensures Strptime(s, formats[1..][j]).None? {
        assert formats[1..][j] == formats[j + 1];
      }
      FirstMatchAt(formats[1..], s, i - 1);
    }
  }

  // ------------------------------------------------------ normalize_date

  /** The result is empty or the ISO text of a real date. */
  lemma NormalizeDateShape(raw: string)
    ensures NormalizeDate(raw) == "" || IsIsoDate(NormalizeDate(raw))
    ensures NormalizeDate(raw) == "" ||
            exists d :: ValidDate(d) && NormalizeDate(raw) == IsoText(d)
  {
    var t := Strip(raw);
    if t != [] && FirstMatch(DATE_FORMATS, t).Some? {
      IsoTextReadsBack(FirstMatch(DATE_FORMATS, t).value);
    }
  }

  /** `normalize_date` as the script runs it: one `strptime` attempt per
      accepted format, in order, returning at the first that succeeds. */
  method NormalizeDateLoop(raw: string) returns (r: string)
    ensures r == NormalizeDate(raw)
    ensures r == "" || IsIsoDate(r)
  {
    NormalizeDateShape(raw);
    var t := Strip(raw);
    if t == [] {
      return "";
    }
    for i := 0 to |DATE_FORMATS|
      invariant FirstMatch(DATE_FORMATS, t) == FirstMatch(DATE_FORMATS[i..], t)
    {
      assert DATE_FORMATS[i..][0] == DATE_FORMATS[i];
      var parsed := Strptime(t, DATE_FORMATS[i]);
      if parsed.Some? {
        return IsoText(parsed.value);
      }
      assert DATE_FORMATS[i..][1..] == DATE_FORMATS[i + 1..];
    }
    assert DATE_FORMATS[|DATE_FORMATS|..] == [];
    return "";
  }

  /** A zero-padded date in any of the four formats normalizes to its ISO
      text when it names a real date, and to "" when it does not: the
      day-first formats are read day first, and an impossible date is not
      rescued by a later format. */
  lemma NormalizeRendered(k: nat, d: Date)
    requires k < 4 && Printable(d)
    ensures NormalizeDate(Render(FORMAT_DIRECTIVES[k], d)) == if ValidDate(d) then IsoText(d) else ""
  {
    var s := Render(FORMAT_DIRECTIVES[k], d);
    RenderedShape(k, d);
    StripTrimmed(s);
    forall j | 0 <= j < 4 ensures Strptime(s, DATE_FORMATS[j]) == if j == k && ValidDate(d) then Some(d) else None {
      if j == k { StrptimeRenderedOwn(k, d); } else { StrptimeRenderedOther(k, j, d); }
    }
    if ValidDate(d) {
      FirstMatchAt(DATE_FORMATS, s, k);
    } else {
      FirstMatchIsFirst(DATE_FORMATS, s);
    }
  }

  /** An ISO date normalizes to itself, so normalizing twice is the same
      as normalizing once. */
  lemma NormalizeDateIdempotent(raw: string)
    ensures NormalizeDate(NormalizeDate(raw)) == NormalizeDate(raw)
  {
    var t := Strip(raw);
    if t != [] && FirstMatch(DATE_FORMATS, t).Some? {
      var d := FirstMatch(DATE_FORMATS, t).value;
      NormalizeRendered(0, d);
    }
  }

}
