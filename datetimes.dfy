/** Python `datetime` values, the `strftime` formats the mail exporter uses,
    and `datetime.strptime(s, "%Y-%m-%d %H:%M:%S")` (the `to_iso_dt` parser).

    `strptime` compiles its format into a regular expression and matches it
    against a prefix of the input: `%Y` is four digits; `%m`, `%d`, `%H`, `%M`
    and `%S` are alternations tried in order that accept one or two digits
    (and, for `%d`, a space followed by a digit); a blank in the format
    becomes `\s+`. Text left after the match is an error, and the fields are
    then checked by the `datetime` constructor. The model follows that
    matcher, backtracking included. */
module DateTimes {
  import opened Wrappers
  import opened PyStrings

  datatype DateTime = DateTime(year: int, month: int, day: int,
                               hour: int, minute: int, second: int,
                               microsecond: int)

  predicate IsLeapYear(y: int) {
    y % 4 == 0 && (y % 100 != 0 || y % 400 == 0)
  }

  function DaysInMonth(y: int, m: int): (n: int)
    requires 1 <= m <= 12
    ensures 28 <= n <= 31
  {
    if m == 2 then (if IsLeapYear(y) then 29 else 28)
    else if m == 4 || m == 6 || m == 9 || m == 11 then 30
    else 31
  }

  /** The field ranges the `datetime` constructor accepts. */
  predicate IsValid(d: DateTime) {
    && 1 <= d.year <= 9999
    && 1 <= d.month <= 12
    && 1 <= d.day <= DaysInMonth(d.year, d.month)
    && 0 <= d.hour <= 23
    && 0 <= d.minute <= 59
    && 0 <= d.second <= 59
    && 0 <= d.microsecond <= 999999
  }

  /** A value of Python's `datetime.datetime` (time zone not modelled). */
  type PyDateTime = d: DateTime | IsValid(d) witness DateTime(1, 1, 1, 0, 0, 0, 0)

  /** The same instant with the sub-second part dropped. */
  function WholeSeconds(d: PyDateTime): (r: PyDateTime)
    ensures r.microsecond == 0
    ensures r.(microsecond := d.microsecond) == d
  {
    d.(microsecond := 0)
  }

  /** The text `YYYY-MM-DD`. */
  function DateText(y: nat, mo: nat, dd: nat): (s: string)
    requires y < 10000 && mo < 100 && dd < 100
    ensures |s| == 10
  {
    Pad4(y) + "-" + Pad2(mo) + "-" + Pad2(dd)
  }

  /** The text `HH:MM:SS`. */
  function TimeText(h: nat, mi: nat, se: nat): (s: string)
    requires h < 100 && mi < 100 && se < 100
    ensures |s| == 8
  {
    Pad2(h) + ":" + Pad2(mi) + ":" + Pad2(se)
  }

  /** The text `YYYY-MM-DD HH:MM:SS` for the given field values. */
  function IsoText(y: nat, mo: nat, dd: nat, h: nat, mi: nat, se: nat): (s: string)
    requires y < 10000 && mo < 100 && dd < 100 && h < 100 && mi < 100 && se < 100
    ensures |s| == 19
  {
    DateText(y, mo, dd) + " " + TimeText(h, mi, se)
  }

  /** `d.strftime("%Y-%m-%d %H:%M:%S")`: the separators at their places, and
      each field reading back as the year, the month, the day, the hour, the
      minute and the second. */
  function IsoFormat(d: PyDateTime): (s: string)
    ensures |s| == 19 && s[4] == '-' && s[7] == '-' && s[10] == ' ' && s[13] == ':' && s[16] == ':'
    ensures s[0..4] == Pad4(d.year) && s[5..7] == Pad2(d.month) && s[8..10] == Pad2(d.day)
    ensures s[11..13] == Pad2(d.hour) && s[14..16] == Pad2(d.minute) && s[17..19] == Pad2(d.second)
    ensures DecimalValue(s[0..4]) == d.year && DecimalValue(s[5..7]) == d.month
    ensures DecimalValue(s[8..10]) == d.day && DecimalValue(s[11..13]) == d.hour
    ensures DecimalValue(s[14..16]) == d.minute && DecimalValue(s[17..19]) == d.second
  {
    var y, mo, dd, h, mi, se := Pad4(d.year), Pad2(d.month), Pad2(d.day), Pad2(d.hour), Pad2(d.minute), Pad2(d.second);
    var s := IsoText(d.year, d.month, d.day, d.hour, d.minute, d.second);
    assert s == y + "-" + mo + "-" + dd + " " + h + ":" + mi + ":" + se;
    assert s[0..4] == y && s[5..7] == mo && s[8..10] == dd;
    assert s[11..13] == h && s[14..16] == mi && s[17..19] == se;
    s
  }

  /** `d.strftime("%y%m%d %H:%M")`, the stamp in a pick-list label: each
      field reads back as the two-digit year, the month, the day, the hour
      and the minute. */
  function LabelStamp(d: PyDateTime): (s: string)
    ensures |s| == 12 && s[6] == ' ' && s[9] == ':'
    ensures s[0..2] == Pad2(d.year % 100) && s[2..4] == Pad2(d.month) && s[4..6] == Pad2(d.day)
    ensures s[7..9] == Pad2(d.hour) && s[10..12] == Pad2(d.minute)
    ensures DecimalValue(s[0..2]) == d.year % 100 && DecimalValue(s[2..4]) == d.month
    ensures DecimalValue(s[4..6]) == d.day && DecimalValue(s[7..9]) == d.hour
    ensures DecimalValue(s[10..12]) == d.minute
  {
    var yy, mo, dd, h, mi := Pad2(d.year % 100), Pad2(d.month), Pad2(d.day), Pad2(d.hour), Pad2(d.minute);
    var t := yy + mo + dd + " " + h + ":" + mi;
    assert t[0..2] == yy && t[2..4] == mo && t[4..6] == dd;
    assert t[7..9] == h && t[10..12] == mi;
    t
  }

  /** `d.strftime("%y%m%d_%H%M")`, the stamp that starts an export file name:
      digits with `_` at position 6, each field reading back as the two-digit
      year, the month, the day, the hour and the minute. */
  function FileStamp(d: PyDateTime): (s: string)
    ensures |s| == 11 && s[6] == '_'
    ensures forall i :: 0 <= i < 11 && i != 6 ==> IsDigit(s[i])
    ensures s[0..2] == Pad2(d.year % 100) && s[2..4] == Pad2(d.month) && s[4..6] == Pad2(d.day)
    ensures s[7..9] == Pad2(d.hour) && s[9..11] == Pad2(d.minute)
    ensures DecimalValue(s[0..2]) == d.year % 100 && DecimalValue(s[2..4]) == d.month
    ensures DecimalValue(s[4..6]) == d.day && DecimalValue(s[7..9]) == d.hour
    ensures DecimalValue(s[9..11]) == d.minute
  {
    var yy, mo, dd, h, mi := Pad2(d.year % 100), Pad2(d.month), Pad2(d.day), Pad2(d.hour), Pad2(d.minute);
    var t := yy + mo + dd + "_" + h + mi;
    assert t[0..2] == yy && t[2..4] == mo && t[4..6] == dd;
    assert t[7..9] == h && t[9..11] == mi;
    t
  }

  // ---------------------------------------------------------------------
  // The regular expression strptime builds for "%Y-%m-%d %H:%M:%S".

  datatype CharClass = Exactly(c: char) | Between(lo: char, hi: char)

  predicate InClass(k: CharClass, c: char) {
    match k
    case Exactly(x) => c == x
    case Between(lo, hi) => lo <= c <= hi
  }

  /** One alternative of a group: a fixed sequence of character classes. */
  type Alternative = seq<CharClass>

  /** A named group (alternatives tried in order), a literal character, or `\s+`. */
  datatype Token = Group(alts: seq<Alternative>) | Literal(c: char) | Whitespace

  /** `\d`, restricted to ASCII digits. */
  const Digit: CharClass := Between('0', '9')

  const YearAlts: seq<Alternative> := [[Digit, Digit, Digit, Digit]]
  const MonthAlts: seq<Alternative> :=
    [[Exactly('1'), Between('0', '2')], [Exactly('0'), Between('1', '9')], [Between('1', '9')]]
  const DayAlts: seq<Alternative> :=
    [[Exactly('3'), Between('0', '1')], [Between('1', '2'), Digit], [Exactly('0'), Between('1', '9')],
     [Between('1', '9')], [Exactly(' '), Between('1', '9')]]
  const HourAlts: seq<Alternative> := [[Exactly('2'), Between('0', '3')], [Between('0', '1'), Digit], [Digit]]
  const MinuteAlts: seq<Alternative> := [[Between('0', '5'), Digit], [Digit]]
  const SecondAlts: seq<Alternative> := [[Exactly('6'), Between('0', '1')], [Between('0', '5'), Digit], [Digit]]

  /* The pattern, built from its end: each tail is one token followed by
     the next tail. */
  const SecondPart: seq<Token> := [Group(SecondAlts)]
  const AfterMinute: seq<Token> := [Literal(':')] + SecondPart
  const MinutePart: seq<Token> := [Group(MinuteAlts)] + AfterMinute
  const AfterHour: seq<Token> := [Literal(':')] + MinutePart
  const TimePart: seq<Token> := [Group(HourAlts)] + AfterHour
  const AfterDay: seq<Token> := [Whitespace] + TimePart
  const DayPart: seq<Token> := [Group(DayAlts)] + AfterDay
  const AfterMonth: seq<Token> := [Literal('-')] + DayPart
  const MonthPart: seq<Token> := [Group(MonthAlts)] + AfterMonth
  const AfterYear: seq<Token> := [Literal('-')] + MonthPart

  /** `(?P<Y>..)-(?P<m>..)-(?P<d>..)\s+(?P<H>..):(?P<M>..):(?P<S>..)` */
  const IsoPattern: seq<Token> := [Group(YearAlts)] + AfterYear

  /** What a successful match yields: the text of each group, and where it ended. */
  datatype Captures = Captures(groups: seq<string>, end: nat)

  predicate AltMatches(alt: Alternative, s: string, i: nat) {
    i + |alt| <= |s| && forall k :: 0 <= k < |alt| ==> InClass(alt[k], s[i + k])
  }

  /** Number of whitespace characters starting at position `i`. */
  function SpaceRun(s: string, i: nat): (n: nat)
    requires i <= |s|
    ensures i + n <= |s|
    ensures forall k :: i <= k < i + n ==> IsSpace(s[k])
    ensures i + n < |s| ==> !IsSpace(s[i + n])
    decreases |s| - i
  {
    if i == |s| || !IsSpace(s[i]) then 0 else 1 + SpaceRun(s, i + 1)
  }

  function GroupCount(toks: seq<Token>): nat {
    if toks == [] then 0 else (if toks[0].Group? then 1 else 0) + GroupCount(toks[1..])
  }

  /** Python's `re.match` of the tokens at position `i` (a prefix match). */
  function Match(toks: seq<Token>, s: string, i: nat): (r: Option<Captures>)
    requires i <= |s|
    ensures r.Some? ==> |r.value.groups| == GroupCount(toks)
    ensures r.Some? ==> i <= r.value.end <= |s|
    decreases |toks|, 1, 0
  {
    if toks == [] then Some(Captures([], i))
    else
      match toks[0]
      case Literal(c) => if i < |s| && s[i] == c then Match(toks[1..], s, i + 1) else None
      case Whitespace => MatchSpaces(toks[1..], s, i, SpaceRun(s, i))
      case Group(alts) => MatchGroup(alts, toks[1..], s, i)
  }

  /** `\s+` followed by `rest`: greedy, so `i + n` is tried first, then one
      character less, down to a single whitespace character. */
  function MatchSpaces(rest: seq<Token>, s: string, i: nat, n: nat): (r: Option<Captures>)
    requires i + n <= |s|
    ensures r.Some? ==> |r.value.groups| == GroupCount(rest)
    ensures r.Some? ==> i <= r.value.end <= |s|
    decreases |rest| + 1, 0, n
  {
    if n == 0 then None
    else
      match Match(rest, s, i + n)
      case Some(c) => Some(c)
      case None => MatchSpaces(rest, s, i, n - 1)
  }

  /** A group followed by `rest`: the first alternative (in order) that matches
      here and lets `rest` match after it. */
  function MatchGroup(alts: seq<Alternative>, rest: seq<Token>, s: string, i: nat): (r: Option<Captures>)
    requires i <= |s|
    ensures r.Some? ==> |r.value.groups| == 1 + GroupCount(rest)
    ensures r.Some? ==> i <= r.value.end <= |s|
    decreases |rest| + 1, 0, |alts|
  {
    if alts == [] then None
    else if AltMatches(alts[0], s, i) then
      var j := i + |alts[0]|;
      match Match(rest, s, j)
      case Some(c) => Some(Captures([s[i..j]] + c.groups, c.end))
      case None => MatchGroup(alts[1..], rest, s, i)
    else MatchGroup(alts[1..], rest, s, i)
  }

  /** `int(g)` of a captured field. Captured fields are ASCII digits, possibly
      after one blank (the `%d` alternative ` [1-9]`), which `int` skips. */
  function FieldValue(g: string): nat {
    if g == [] then 0
    else if IsDigit(g[|g| - 1]) then 10 * FieldValue(g[..|g| - 1]) + DigitValue(g[|g| - 1])
    else FieldValue(g[..|g| - 1])
  }

  /** `strptime`'s ValueError, by cause. */
  datatype ParseError = DoesNotMatch | UnconvertedData | OutOfRange

  /** The `datetime` constructor applied to the six captured fields. */
  function Construct(y: int, mo: int, dd: int, h: int, mi: int, se: int): (r: Result<PyDateTime, ParseError>)
    ensures r.Ok? <==> IsValid(DateTime(y, mo, dd, h, mi, se, 0))
    ensures r.Ok? ==> r.value == DateTime(y, mo, dd, h, mi, se, 0)
    ensures r.Err? ==> r.error == OutOfRange
  {
    var d := DateTime(y, mo, dd, h, mi, se, 0);
    if IsValid(d) then Ok(d) else Err(OutOfRange)
  }

  /** `Email.to_iso_dt`: `datetime.strptime(s, "%Y-%m-%d %H:%M:%S")`. */
  function ToIsoDt(s: string): (r: Result<PyDateTime, ParseError>)
    ensures r.Ok? ==> r.value.microsecond == 0
  {
    match Match(IsoPattern, s, 0)
    case None => Err(DoesNotMatch)
    case Some(c) =>
      if c.end != |s| then Err(UnconvertedData)
      else
        var g := c.groups;
        assert |g| == 6 by { IsoPatternGroups(); }
        Construct(FieldValue(g[0]), FieldValue(g[1]), FieldValue(g[2]),
                  FieldValue(g[3]), FieldValue(g[4]), FieldValue(g[5]))
  }

  // ---------------------------------------------------------------------
  // Matching, step by step.

  lemma GroupCountCons(t: Token, rest: seq<Token>)
    ensures GroupCount([t] + rest) == (if t.Group? then 1 else 0) + GroupCount(rest)
  {
    assert ([t] + rest)[1..] == rest;
  }

  lemma IsoPatternGroups()
    ensures GroupCount(IsoPattern) == 6
  {
    GroupCountCons(Group(SecondAlts), []);
    assert SecondPart == [Group(SecondAlts)] + [];
    GroupCountCons(Literal(':'), SecondPart);
    GroupCountCons(Group(MinuteAlts), AfterMinute);
    GroupCountCons(Literal(':'), MinutePart);
    GroupCountCons(Group(HourAlts), AfterHour);
    GroupCountCons(Whitespace, TimePart);
    GroupCountCons(Group(DayAlts), AfterDay);
    GroupCountCons(Literal('-'), DayPart);
    GroupCountCons(Group(MonthAlts), AfterMonth);
    GroupCountCons(Literal('-'), MonthPart);
    GroupCountCons(Group(YearAlts), AfterYear);
  }

  lemma FieldValueOfDigits(s: string)
    requires forall i :: 0 <= i < |s| ==> IsDigit(s[i])
    ensures FieldValue(s) == DecimalValue(s)
  {
    if s != [] {
      FieldValueOfDigits(s[..|s| - 1]);
    }
  }

  lemma MatchLiteral(c: char, rest: seq<Token>, s: string, i: nat)
    requires i < |s| && s[i] == c
    ensures Match([Literal(c)] + rest, s, i) == Match(rest, s, i + 1)
  {
    assert ([Literal(c)] + rest)[1..] == rest;
  }

  /** `\s+` over exactly one blank, when what follows matches. */
  lemma MatchOneSpace(rest: seq<Token>, s: string, i: nat)
    requires i + 1 < |s| && IsSpace(s[i]) && !IsSpace(s[i + 1])
    requires Match(rest, s, i + 1).Some?
    ensures Match([Whitespace] + rest, s, i) == Match(rest, s, i + 1)
  {
    assert ([Whitespace] + rest)[1..] == rest;
    assert SpaceRun(s, i + 1) == 0;
    assert SpaceRun(s, i) == 1;
  }

  /** A group whose alternative `j` is the first one that matches at `i`,
      when `rest` matches after it. */
  lemma {:induction false} MatchGroupAt(alts: seq<Alternative>, rest: seq<Token>, s: string, i: nat, j: nat, c: Captures)
    requires i <= |s| && j < |alts|
    requires forall k :: 0 <= k < j ==> !AltMatches(alts[k], s, i)
    requires AltMatches(alts[j], s, i)
    requires Match(rest, s, i + |alts[j]|) == Some(c)
    ensures MatchGroup(alts, rest, s, i) == Some(Captures([s[i..i + |alts[j]|]] + c.groups, c.end))
    decreases j
  {
    if j > 0 {
      assert !AltMatches(alts[0], s, i);
      MatchGroupAt(alts[1..], rest, s, i, j - 1, c);
    }
  }

  /** A two-digit field at `i` holding the text `Pad2(v)`: the group succeeds
      with alternative `j`, capturing exactly those two characters. */
  lemma TwoDigitGroup(alts: seq<Alternative>, rest: seq<Token>, s: string, i: nat, v: nat, j: nat, c: Captures)
    requires v < 100 && i + 2 <= |s| && s[i..i + 2] == Pad2(v)
    requires j < |alts| && |alts[j]| == 2
    requires forall k :: 0 <= k < j ==> |alts[k]| >= 1 && !InClass(alts[k][0], s[i])
    requires InClass(alts[j][0], s[i]) && InClass(alts[j][1], s[i + 1])
    requires Match(rest, s, i + 2) == Some(c)
    ensures Match([Group(alts)] + rest, s, i) == Some(Captures([Pad2(v)] + c.groups, c.end))
  {
    forall k | 0 <= k < j ensures !AltMatches(alts[k], s, i) {
      assert !InClass(alts[k][0], s[i + 0]);
    }
    assert ([Group(alts)] + rest)[1..] == rest;
    assert AltMatches(alts[j], s, i);
    MatchGroupAt(alts, rest, s, i, j, c);
  }

  lemma YearGroup(rest: seq<Token>, s: string, i: nat, v: nat, c: Captures)
    requires v < 10000 && i + 4 <= |s| && s[i..i + 4] == Pad4(v)
    requires Match(rest, s, i + 4) == Some(c)
    ensures Match([Group(YearAlts)] + rest, s, i) == Some(Captures([Pad4(v)] + c.groups, c.end))
  {
    assert ([Group(YearAlts)] + rest)[1..] == rest;
    forall k | 0 <= k < 4 ensures InClass(YearAlts[0][k], s[i + k]) {
      assert s[i + k] == Pad4(v)[k];
    }
    MatchGroupAt(YearAlts, rest, s, i, 0, c);
  }

  lemma MonthGroup(rest: seq<Token>, s: string, i: nat, v: nat, c: Captures)
    requires 1 <= v <= 12 && i + 2 <= |s| && s[i..i + 2] == Pad2(v)
    requires Match(rest, s, i + 2) == Some(c)
    ensures Match([Group(MonthAlts)] + rest, s, i) == Some(Captures([Pad2(v)] + c.groups, c.end))
  {
    assert s[i] == Pad2(v)[0] && s[i + 1] == Pad2(v)[1];
    if v >= 10 {
      TwoDigitGroup(MonthAlts, rest, s, i, v, 0, c);
    } else {
      TwoDigitGroup(MonthAlts, rest, s, i, v, 1, c);
    }
  }

  lemma DayGroup(rest: seq<Token>, s: string, i: nat, v: nat, c: Captures)
    requires 1 <= v <= 31 && i + 2 <= |s| && s[i..i + 2] == Pad2(v)
    requires Match(rest, s, i + 2) == Some(c)
    ensures Match([Group(DayAlts)] + rest, s, i) == Some(Captures([Pad2(v)] + c.groups, c.end))
  {
    assert s[i] == Pad2(v)[0] && s[i + 1] == Pad2(v)[1];
    if v >= 30 {
      TwoDigitGroup(DayAlts, rest, s, i, v, 0, c);
    } else if v >= 10 {
      TwoDigitGroup(DayAlts, rest, s, i, v, 1, c);
    } else {
      TwoDigitGroup(DayAlts, rest, s, i, v, 2, c);
    }
  }

  lemma HourGroup(rest: seq<Token>, s: string, i: nat, v: nat, c: Captures)
    requires v <= 23 && i + 2 <= |s| && s[i..i + 2] == Pad2(v)
    requires Match(rest, s, i + 2) == Some(c)
    ensures Match([Group(HourAlts)] + rest, s, i) == Some(Captures([Pad2(v)] + c.groups, c.end))
  {
    assert s[i] == Pad2(v)[0] && s[i + 1] == Pad2(v)[1];
    if v >= 20 {
      TwoDigitGroup(HourAlts, rest, s, i, v, 0, c);
    } else {
      TwoDigitGroup(HourAlts, rest, s, i, v, 1, c);
    }
  }

  lemma MinuteGroup(rest: seq<Token>, s: string, i: nat, v: nat, c: Captures)
    requires v <= 59 && i + 2 <= |s| && s[i..i + 2] == Pad2(v)
    requires Match(rest, s, i + 2) == Some(c)
    ensures Match([Group(MinuteAlts)] + rest, s, i) == Some(Captures([Pad2(v)] + c.groups, c.end))
  {
    assert s[i] == Pad2(v)[0] && s[i + 1] == Pad2(v)[1];
    TwoDigitGroup(MinuteAlts, rest, s, i, v, 0, c);
  }

  /** Seconds 60 and 61 match the first alternative `6[0-1]`. */
  lemma SecondGroup(rest: seq<Token>, s: string, i: nat, v: nat, c: Captures)
    requires v <= 61 && i + 2 <= |s| && s[i..i + 2] == Pad2(v)
    requires Match(rest, s, i + 2) == Some(c)
    ensures Match([Group(SecondAlts)] + rest, s, i) == Some(Captures([Pad2(v)] + c.groups, c.end))
  {
    assert s[i] == Pad2(v)[0] && s[i + 1] == Pad2(v)[1];
    if v >= 60 {
      TwoDigitGroup(SecondAlts, rest, s, i, v, 0, c);
    } else {
      TwoDigitGroup(SecondAlts, rest, s, i, v, 1, c);
    }
  }

  /** A slice of a slice is a slice of the whole. */
  lemma SubSlice(s: string, a: nat, b: nat, c: nat, d: nat)
    requires a <= b <= |s| && c <= d <= b - a
    ensures s[a..b][c..d] == s[a + c..a + d]
  {
    forall k | 0 <= k < d - c ensures s[a..b][c..d][k] == s[a + c..a + d][k] {
      assert s[a..b][c..d][k] == s[a..b][c + k] == s[a + c + k];
    }
  }

  /** Slices of a concatenation that lie within one of its halves. */
  lemma SpliceSlices(x: string, y: string)
    ensures (x + y)[..|x|] == x && (x + y)[|x|..] == y
  {
  }

  /** Where the fields of a `YYYY-MM-DD` text sit. */
  lemma DateLayout(y: nat, mo: nat, dd: nat)
    requires y < 10000 && mo < 100 && dd < 100
    ensures var d := DateText(y, mo, dd);
      d[0..4] == Pad4(y) && d[4] == '-' && d[5..7] == Pad2(mo) && d[7] == '-' && d[8..10] == Pad2(dd)
  {
    var d := DateText(y, mo, dd);
    var a := Pad4(y) + "-";
    var b := a + Pad2(mo);
    var c := b + "-";
    assert d == c + Pad2(dd);
    assert d[..7] == b && b[..5] == a && a[..4] == Pad4(y);
  }

  /** Where the fields of an `HH:MM:SS` text sit. */
  lemma TimeLayout(h: nat, mi: nat, se: nat)
    requires h < 100 && mi < 100 && se < 100
    ensures var t := TimeText(h, mi, se);
      t[0..2] == Pad2(h) && t[2] == ':' && t[3..5] == Pad2(mi) && t[5] == ':' && t[6..8] == Pad2(se)
  {
    var t := TimeText(h, mi, se);
    var a := Pad2(h) + ":";
    var b := a + Pad2(mi);
    var c := b + ":";
    assert t == c + Pad2(se);
    assert t[..5] == b && b[..3] == a && a[..2] == Pad2(h);
  }

  /** Minutes and seconds `MM:SS` at offset 14. */
  lemma MatchMinutesSeconds(s: string, mi: nat, se: nat)
    requires |s| >= 19 && mi <= 59 && se <= 61
    requires s[14..16] == Pad2(mi) && s[16] == ':' && s[17..19] == Pad2(se)
    ensures Match(MinutePart, s, 14) == Some(Captures([Pad2(mi), Pad2(se)], 19))
  {
    var c11 := Captures([], 19);
    assert Match([], s, 19) == Some(c11);
    SecondGroup([], s, 17, se, c11);
    assert SecondPart == [Group(SecondAlts)] + [];
    var c10 := Captures([Pad2(se)], 19);
    assert [Pad2(se)] + c11.groups == c10.groups;
    MatchLiteral(':', SecondPart, s, 16);
    MinuteGroup(AfterMinute, s, 14, mi, c10);
    assert [Pad2(mi)] + c10.groups == [Pad2(mi), Pad2(se)];
  }

  /** The time part `HH:MM:SS` at offset 11. */
  lemma MatchTimePart(s: string, h: nat, mi: nat, se: nat)
    requires |s| >= 19 && h <= 23 && mi <= 59 && se <= 61
    requires s[11..19] == TimeText(h, mi, se)
    ensures Match(TimePart, s, 11) == Some(Captures([Pad2(h), Pad2(mi), Pad2(se)], 19))
  {
    TimeLayout(h, mi, se);
    var t := TimeText(h, mi, se);
    SubSlice(s, 11, 19, 0, 2);
    SubSlice(s, 11, 19, 3, 5);
    SubSlice(s, 11, 19, 6, 8);
    assert s[13] == t[2] && s[16] == t[5];
    MatchMinutesSeconds(s, mi, se);
    var c8 := Captures([Pad2(mi), Pad2(se)], 19);
    MatchLiteral(':', MinutePart, s, 13);
    HourGroup(AfterHour, s, 11, h, c8);
    assert [Pad2(h)] + c8.groups == [Pad2(h), Pad2(mi), Pad2(se)];
  }

  /** The day and the blank, given that the time part matches after them. */
  lemma MatchDayPart(s: string, dd: nat, c6: Captures)
    requires |s| >= 12 && 1 <= dd <= 31
    requires s[8..10] == Pad2(dd) && s[10] == ' ' && !IsSpace(s[11])
    requires Match(TimePart, s, 11) == Some(c6)
    ensures Match(DayPart, s, 8) == Some(Captures([Pad2(dd)] + c6.groups, c6.end))
  {
    MatchOneSpace(TimePart, s, 10);
    DayGroup(AfterDay, s, 8, dd, c6);
  }

  /** The month and its dash, given that the day part matches after them. */
  lemma MatchMonthPart(s: string, mo: nat, c4: Captures)
    requires |s| >= 8 && 1 <= mo <= 12
    requires s[5..7] == Pad2(mo) && s[7] == '-'
    requires Match(DayPart, s, 8) == Some(c4)
    ensures Match(MonthPart, s, 5) == Some(Captures([Pad2(mo)] + c4.groups, c4.end))
  {
    MatchLiteral('-', DayPart, s, 7);
    MonthGroup(AfterMonth, s, 5, mo, c4);
  }

  /** The year and its dash, given that the month part matches after them. */
  lemma MatchYearMonth(s: string, y: nat, c2: Captures)
    requires |s| >= 8 && y <= 9999
    requires s[0..4] == Pad4(y) && s[4] == '-'
    requires Match(MonthPart, s, 5) == Some(c2)
    ensures Match(IsoPattern, s, 0) == Some(Captures([Pad4(y)] + c2.groups, c2.end))
  {
    MatchLiteral('-', MonthPart, s, 4);
    YearGroup(AfterYear, s, 0, y, c2);
  }

  /** Where the fields of the canonical text sit, whatever follows it. */
  lemma IsoLayout(y: nat, mo: nat, dd: nat, h: nat, mi: nat, se: nat, rest: string)
    requires y <= 9999 && 1 <= mo <= 12 && 1 <= dd <= 31 && h <= 23 && mi <= 59 && se <= 61
    ensures var s := IsoText(y, mo, dd, h, mi, se) + rest;
      |s| >= 19 && s[0..4] == Pad4(y) && s[4] == '-' && s[5..7] == Pad2(mo) && s[7] == '-'
      && s[8..10] == Pad2(dd) && s[10] == ' ' && !IsSpace(s[11]) && s[11..19] == TimeText(h, mi, se)
  {
    var d, t := DateText(y, mo, dd), TimeText(h, mi, se);
    var u := d + " ";
    var s := IsoText(y, mo, dd, h, mi, se) + rest;
    assert s == u + (t + rest);
    SpliceSlices(u, t + rest);
    SpliceSlices(t, rest);
    assert s[11..19] == t by {
      SubSlice(s, 11, |s|, 0, 8);
    }
    assert s[..11] == u;
    SpliceSlices(d, " ");
    DateLayout(y, mo, dd);
    SubSlice(s, 0, 11, 0, 4);
    SubSlice(s, 0, 11, 5, 7);
    SubSlice(s, 0, 11, 8, 10);
    SubSlice(u, 0, 11, 0, 10);
    assert s[4] == u[4] == d[4] && s[7] == u[7] == d[7] && s[10] == u[10];
    TimeLayout(h, mi, se);
    assert s[11] == t[0] == Pad2(h)[0];
  }

  /** The pattern matches the canonical `YYYY-MM-DD HH:MM:SS` text at the
      start of `s`, whatever follows it, capturing the six fields. */
  lemma MatchIsoText(y: nat, mo: nat, dd: nat, h: nat, mi: nat, se: nat, rest: string)
    requires y <= 9999 && 1 <= mo <= 12 && 1 <= dd <= 31 && h <= 23 && mi <= 59 && se <= 61
    ensures Match(IsoPattern, IsoText(y, mo, dd, h, mi, se) + rest, 0)
         == Some(Captures([Pad4(y), Pad2(mo), Pad2(dd), Pad2(h), Pad2(mi), Pad2(se)], 19))
  {
    var s := IsoText(y, mo, dd, h, mi, se) + rest;
    IsoLayout(y, mo, dd, h, mi, se, rest);
    MatchTimePart(s, h, mi, se);
    var c6 := Captures([Pad2(h), Pad2(mi), Pad2(se)], 19);
    MatchDayPart(s, dd, c6);
    var c4 := Captures([Pad2(dd)] + c6.groups, 19);
    MatchMonthPart(s, mo, c4);
    var c2 := Captures([Pad2(mo)] + c4.groups, 19);
    MatchYearMonth(s, y, c2);
    assert [Pad4(y)] + c2.groups == [Pad4(y), Pad2(mo), Pad2(dd), Pad2(h), Pad2(mi), Pad2(se)];
  }

  // ---------------------------------------------------------------------
  // What to_iso_dt promises.

  /** A canonical `YYYY-MM-DD HH:MM:SS` text parses to exactly its fields when
      they form a valid date-time, and raises the constructor's ValueError
      otherwise (year 0, a day past the end of the month, seconds 60 or 61). */
  lemma ParseIsoText(y: nat, mo: nat, dd: nat, h: nat, mi: nat, se: nat)
    requires y <= 9999 && 1 <= mo <= 12 && 1 <= dd <= 31 && h <= 23 && mi <= 59 && se <= 61
    ensures ToIsoDt(IsoText(y, mo, dd, h, mi, se))
         == if 1 <= y && dd <= DaysInMonth(y, mo) && se <= 59
            then Ok(DateTime(y, mo, dd, h, mi, se, 0))
            else Err(OutOfRange)
  {
    MatchIsoText(y, mo, dd, h, mi, se, "");
    assert IsoText(y, mo, dd, h, mi, se) + "" == IsoText(y, mo, dd, h, mi, se);
    FieldValueOfDigits(Pad4(y));
    FieldValueOfDigits(Pad2(mo));
    FieldValueOfDigits(Pad2(dd));
    FieldValueOfDigits(Pad2(h));
    FieldValueOfDigits(Pad2(mi));
    FieldValueOfDigits(Pad2(se));
  }

  /** Anything after a complete `YYYY-MM-DD HH:MM:SS` (a fraction of a second,
      a time zone, a trailing blank) is "unconverted data". */
  lemma TrailingTextRejected(y: nat, mo: nat, dd: nat, h: nat, mi: nat, se: nat, rest: string)
    requires y <= 9999 && 1 <= mo <= 12 && 1 <= dd <= 31 && h <= 23 && mi <= 59 && se <= 61
    requires rest != []
    ensures ToIsoDt(IsoText(y, mo, dd, h, mi, se) + rest) == Err(UnconvertedData)
  {
    MatchIsoText(y, mo, dd, h, mi, se, rest);
  }

  /** Formatting with ISO_FORMAT and parsing back gives the same date-time
      truncated to whole seconds. */
  lemma IsoRoundTrip(d: PyDateTime)
    ensures ToIsoDt(IsoFormat(d)) == Ok(WholeSeconds(d))
  {
    ParseIsoText(d.year, d.month, d.day, d.hour, d.minute, d.second);
  }

  /** A parsed date-time is its own canonical text's parse. */
  lemma ParsedIsCanonical(s: string)
    requires ToIsoDt(s).Ok?
    ensures ToIsoDt(IsoFormat(ToIsoDt(s).value)) == ToIsoDt(s)
  {
    IsoRoundTrip(ToIsoDt(s).value);
  }

  lemma Year2016() ensures Pad4(2016) == "2016" { assert Pad2(20) == "20" && Pad2(16) == "16"; }
  lemma Year2021() ensures Pad4(2021) == "2021" { assert Pad2(20) == "20" && Pad2(21) == "21"; }

  lemma TestText()
    ensures IsoText(2021, 1, 1, 1, 0, 0) == "2021-01-01 01:00:00"
  {
    Year2021();
    assert Pad2(1) == "01" && Pad2(0) == "00";
  }

  lemma February30Text()
    ensures IsoText(2021, 2, 30, 0, 0, 0) == "2021-02-30 00:00:00"
  {
    Year2021();
    assert Pad2(2) == "02" && Pad2(30) == "30" && Pad2(0) == "00";
  }

  lemma LeapSecondText()
    ensures IsoText(2016, 12, 31, 23, 59, 60) == "2016-12-31 23:59:60"
  {
    Year2016();
    assert Pad2(12) == "12" && Pad2(31) == "31" && Pad2(23) == "23";
    assert Pad2(59) == "59" && Pad2(60) == "60";
  }

  /** The assertion in the repository's test of `to_iso_dt`. */
  lemma ToIsoDtExample()
    ensures ToIsoDt("2021-01-01 01:00:00") == Ok(DateTime(2021, 1, 1, 1, 0, 0, 0))
  {
    ParseIsoText(2021, 1, 1, 1, 0, 0);
    TestText();
  }

  /** The 30th of February is rejected by the `datetime` constructor. */
  lemma ToIsoDtRejectsFebruary30()
    ensures ToIsoDt("2021-02-30 00:00:00") == Err(OutOfRange)
  {
    ParseIsoText(2021, 2, 30, 0, 0, 0);
    February30Text();
  }

  /** A leap second matches the pattern but is rejected by the `datetime` constructor. */
  lemma ToIsoDtRejectsLeapSecond()
    ensures ToIsoDt("2016-12-31 23:59:60") == Err(OutOfRange)
  {
    ParseIsoText(2016, 12, 31, 23, 59, 60);
    LeapSecondText();
  }
}
