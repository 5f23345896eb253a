/**
 * `datetime.strptime(text, "%Y-%m-%d")` as CPython's `_strptime` module
 * performs it. The format becomes the regular expression
 *
 *   Y: four digits         m: 1[0-2] | 0[1-9] | [1-9]
 *   d: 3[01] | [12]digit | 0[1-9] | [1-9] | " "[1-9]
 *
 * joined by literal dashes and matched at the START of the text only, the
 * alternatives tried in the order written. A text the expression does not
 * match is "time data does not match format"; a match that stops short of
 * the end is "unconverted data remains"; the numbers read are then handed to
 * `date(year, month, day)`, which rejects year 0 and a day past the end of
 * the month. All of these are ValueError.
 */
module Strptime {
  import opened Calendar

  datatype Option<T> = None | Some(value: T)

  /** Why the text is not a date in `%Y-%m-%d` form. */
  datatype DateError =
    | NoMatch                       // time data does not match format
    | UnconvertedData(rest: string) // unconverted data remains
    | YearOutOfRange(year: int)     // year 0 is out of range
    | DayOutOfRange                 // day is out of range for month

  datatype ParseResult = Parsed(date: Date) | Failed(error: DateError)

  /** A field the expression matched: the number it denotes and how many characters it took. */
  datatype Field = Field(value: int, width: nat)

  predicate IsDigit(c: char) {
    '0' <= c <= '9'
  }

  function DigitValue(c: char): (v: int)
    requires IsDigit(c)
    ensures 0 <= v <= 9
  {
    c as int - '0' as int
  }

  function DigitChar(v: int): (c: char)
    requires 0 <= v <= 9
    ensures IsDigit(c) && DigitValue(c) == v
  {
    ('0' as int + v) as char
  }

  predicate AllDigits(t: string) {
    forall i :: 0 <= i < |t| ==> IsDigit(t[i])
  }

  /** The value of a run of four digits, as `int` reads the `Y` group. */
  function Number4(t: string): (n: int)
    requires |t| == 4 && AllDigits(t)
    ensures 0 <= n <= 9999
  {
    1000 * DigitValue(t[0]) + 100 * DigitValue(t[1]) + 10 * DigitValue(t[2]) + DigitValue(t[3])
  }

  /** The month group, matched at the start of `t`: the first alternative that fits.
    * (The alternative chosen is also the only one after which a dash can follow,
    * so backtracking never picks another; see MatchMonthUnique.) */
  function MatchMonth(t: string): (r: Option<Field>)
    ensures r.Some? ==> 1 <= r.value.value <= 12 && 1 <= r.value.width <= 2 && r.value.width <= |t|
  {
    if |t| >= 2 && t[0] == '1' && '0' <= t[1] <= '2' then Some(Field(10 + DigitValue(t[1]), 2))
    else if |t| >= 2 && t[0] == '0' && '1' <= t[1] <= '9' then Some(Field(DigitValue(t[1]), 2))
    else if |t| >= 1 && '1' <= t[0] <= '9' then Some(Field(DigitValue(t[0]), 1))
    else None
  }

  /** The day group, matched at the start of `t`: the first alternative that fits.
    * It ends the expression, so the match stops there even if text is left over. */
  function MatchDay(t: string): (r: Option<Field>)
    ensures r.Some? ==> 1 <= r.value.value <= 31 && 1 <= r.value.width <= 2 && r.value.width <= |t|
  {
    if |t| >= 2 && t[0] == '3' && '0' <= t[1] <= '1' then Some(Field(30 + DigitValue(t[1]), 2))
    else if |t| >= 2 && '1' <= t[0] <= '2' && IsDigit(t[1]) then Some(Field(10 * DigitValue(t[0]) + DigitValue(t[1]), 2))
    else if |t| >= 2 && t[0] == '0' && '1' <= t[1] <= '9' then Some(Field(DigitValue(t[1]), 2))
    else if |t| >= 1 && '1' <= t[0] <= '9' then Some(Field(DigitValue(t[0]), 1))
    else if |t| >= 2 && t[0] == ' ' && '1' <= t[1] <= '9' then Some(Field(DigitValue(t[1]), 2))
    else None
  }

  /** The checks `date(year, month, day)` makes, in its order: year first, then day. */
  function MakeDate(y: int, m: int, d: int): (r: ParseResult)
    requires 1 <= m <= 12 && 1 <= d <= 31
    ensures r.Parsed? <==> ValidDate(Date(y, m, d))
    ensures r.Parsed? ==> r.date == Date(y, m, d)
    ensures r.Failed? ==> r.error == YearOutOfRange(y) || r.error == DayOutOfRange
  {
    if y < MinYear || y > MaxYear then Failed(YearOutOfRange(y))
    else if d > DaysInMonth(y, m) then Failed(DayOutOfRange)
    else Parsed(Date(y, m, d))
  }

  /** `strptime(s, "%Y-%m-%d")` on a string argument. */
  function ParseDate(s: string): (r: ParseResult)
    ensures r.Parsed? ==> ValidDate(r.date)
  {
    if |s| < 5 || !AllDigits(s[..4]) || s[4] != '-' then Failed(NoMatch)
    else
      var rest := s[5..];
      match MatchMonth(rest)
      case None => Failed(NoMatch)
      case Some(m) =>
        if |rest| <= m.width || rest[m.width] != '-' then Failed(NoMatch)
        else
          var dayText := rest[m.width + 1..];
          match MatchDay(dayText)
          case None => Failed(NoMatch)
          case Some(d) =>
            if d.width < |dayText| then Failed(UnconvertedData(dayText[d.width..]))
            else MakeDate(Number4(s[..4]), m.value, d.value)
  }

  // ---------------------------------------------------------------------
  // The accepted spellings.

  /** `v` written with exactly four digits, zero-padded on the left. */
  function Pad4(v: int): (t: string)
    requires 0 <= v <= 9999
    ensures |t| == 4 && AllDigits(t)
  {
    [DigitChar(v / 1000), DigitChar(v / 100 % 10), DigitChar(v / 10 % 10), DigitChar(v % 10)]
  }

  /** `v` written with exactly two digits, zero-padded on the left. */
  function Pad2(v: int): (t: string)
    requires 0 <= v <= 99
    ensures |t| == 2 && AllDigits(t)
  {
    [DigitChar(v / 10), DigitChar(v % 10)]
  }

  /** The canonical text of a date, as `date.isoformat` and `strftime("%Y-%m-%d")` write it. */
  function FormatDate(d: Date): (t: string)
    requires ValidDate(d)
    ensures |t| == 10
  {
    Pad4(d.year) + "-" + Pad2(d.month) + "-" + Pad2(d.day)
  }

  /** The texts the month group accepts for month `m`: the two-digit form, and
    * for months below ten the one-digit form as well. */
  function MonthSpellings(m: int): set<string>
    requires 1 <= m <= 12
  {
    if m < 10 then {Pad2(m), [DigitChar(m)]} else {Pad2(m)}
  }

  /** The texts the day group accepts, to the end of the input, for day `d`:
    * the two-digit form, and for days below ten the one-digit form and the
    * one-digit form after a space. */
  function DaySpellings(d: int): set<string>
    requires 1 <= d <= 31
  {
    if d < 10 then {Pad2(d), [DigitChar(d)], [' ', DigitChar(d)]} else {Pad2(d)}
  }

  /** Every text that `%Y-%m-%d` reads as the date `d`. */
  function Spellings(d: Date): set<string>
    requires ValidDate(d)
  {
    set mt, dt | mt in MonthSpellings(d.month) && dt in DaySpellings(d.day) :: Pad4(d.year) + "-" + mt + "-" + dt
  }

  // ---------------------------------------------------------------------
  // Lemmas.

  lemma Pad4Value(v: int)
    requires 0 <= v <= 9999
    ensures Number4(Pad4(v)) == v
  {
    var q1, q2, q3 := v / 10, v / 100, v / 1000;
    assert v == 10 * q1 + v % 10;
    assert q1 == 10 * (q1 / 10) + q1 % 10;
    assert q1 / 10 == q2;
    assert q2 == 10 * (q2 / 10) + q2 % 10;
    assert q2 / 10 == q3;
    assert v / 100 % 10 == q2 % 10 && v / 10 % 10 == q1 % 10;
  }

  lemma DigitsOfNumber(a: int, b: int, c: int, d: int)
    requires 0 <= a <= 9 && 0 <= b <= 9 && 0 <= c <= 9 && 0 <= d <= 9
    ensures var n := 1000 * a + 100 * b + 10 * c + d;
            n / 1000 == a && n / 100 % 10 == b && n / 10 % 10 == c && n % 10 == d
  {
    var n := 1000 * a + 100 * b + 10 * c + d;
    assert n == 10 * (100 * a + 10 * b + c) + d;
    assert n / 10 == 100 * a + 10 * b + c;
    assert n == 100 * (10 * a + b) + (10 * c + d);
    assert n / 100 == 10 * a + b;
    assert n == 1000 * a + (100 * b + 10 * c + d);
  }

  lemma Number4Pad(t: string)
    requires |t| == 4 && AllDigits(t)
    ensures Pad4(Number4(t)) == t
  {
    var a, b, c, d := DigitValue(t[0]), DigitValue(t[1]), DigitValue(t[2]), DigitValue(t[3]);
    DigitsOfNumber(a, b, c, d);
    assert DigitChar(a) == t[0] && DigitChar(b) == t[1] && DigitChar(c) == t[2] && DigitChar(d) == t[3];
  }

  /** Any alternative of the month group that is followed by a dash is the one MatchMonth chose. */
  lemma MatchMonthUnique(t: string, n: nat, v: int)
    requires n < |t| && t[n] == '-'
    requires (n == 2 && t[0] == '1' && '0' <= t[1] <= '2' && v == 10 + DigitValue(t[1]))
          || (n == 2 && t[0] == '0' && '1' <= t[1] <= '9' && v == DigitValue(t[1]))
          || (n == 1 && '1' <= t[0] <= '9' && v == DigitValue(t[0]))
    ensures MatchMonth(t) == Some(Field(v, n))
  {
  }

  lemma MatchMonthSpelling(mt: string, m: int, tail: string)
    requires 1 <= m <= 12 && mt in MonthSpellings(m) && |tail| > 0 && tail[0] == '-'
    ensures MatchMonth(mt + tail) == Some(Field(m, |mt|))
  {
    var t := mt + tail;
    if mt == Pad2(m) {
      assert t[0] == DigitChar(m / 10) && t[1] == DigitChar(m % 10) && t[2] == '-';
    } else {
      assert t[0] == DigitChar(m) && t[1] == '-';
    }
  }

  lemma MatchDaySpelling(dt: string, d: int)
    requires 1 <= d <= 31 && dt in DaySpellings(d)
    ensures MatchDay(dt) == Some(Field(d, |dt|))
  {
  }

  lemma MatchMonthSpelled(t: string)
    requires MatchMonth(t).Some?
    ensures t[..MatchMonth(t).value.width] in MonthSpellings(MatchMonth(t).value.value)
  {
    var f := MatchMonth(t).value;
    var mt := t[..f.width];
    if f.width == 2 {
      assert mt == [t[0], t[1]];
      assert mt == Pad2(f.value);
    } else {
      assert mt == [t[0]];
      assert mt == [DigitChar(f.value)];
    }
  }

  lemma MatchDaySpelled(t: string)
    requires MatchDay(t).Some? && MatchDay(t).value.width == |t|
    ensures t in DaySpellings(MatchDay(t).value.value)
  {
    var f := MatchDay(t).value;
    if f.width == 2 {
      assert t == [t[0], t[1]];
      if t[0] == ' ' {
        assert t == [' ', DigitChar(f.value)];
      } else {
        assert t == Pad2(f.value);
      }
    } else {
      assert t == [t[0]];
      assert t == [DigitChar(f.value)];
    }
  }

  /** Every spelling of a valid date parses back to that date. */
  lemma ParseSpelling(d: Date, s: string)
    requires ValidDate(d) && s in Spellings(d)
    ensures ParseDate(s) == Parsed(d)
  {
    var mt, dt :| mt in MonthSpellings(d.month) && dt in DaySpellings(d.day)
                  && s == Pad4(d.year) + "-" + mt + "-" + dt;
    var rest := s[5..];
    assert s[..4] == Pad4(d.year);
    assert s[4] == '-';
    assert rest == mt + ("-" + dt);
    MatchMonthSpelling(mt, d.month, "-" + dt);
    assert rest[|mt|] == '-';
    assert rest[|mt| + 1..] == dt;
    MatchDaySpelling(dt, d.day);
    Pad4Value(d.year);
  }

  /** A text that parses is one of the spellings of the date it parses to. */
  lemma ParsedIsSpelling(s: string)
    requires ParseDate(s).Parsed?
    ensures s in Spellings(ParseDate(s).date)
  {
    var d := ParseDate(s).date;
    var rest := s[5..];
    var m := MatchMonth(rest).value;
    var dayText := rest[m.width + 1..];
    var f := MatchDay(dayText).value;
    var mt := rest[..m.width];
    MatchMonthSpelled(rest);
    MatchDaySpelled(dayText);
    Number4Pad(s[..4]);
    assert d == Date(Number4(s[..4]), m.value, f.value);
    assert s == s[..4] + "-" + mt + "-" + dayText;
  }

  /** The accepted texts for a date are exactly its spellings. */
  lemma ParseDateExactly(d: Date, s: string)
    requires ValidDate(d)
    ensures ParseDate(s) == Parsed(d) <==> s in Spellings(d)
  {
    if s in Spellings(d) {
      ParseSpelling(d, s);
    }
    if ParseDate(s) == Parsed(d) {
      ParsedIsSpelling(s);
    }
  }

  /** The canonical text round-trips. */
  lemma ParseFormat(d: Date)
    requires ValidDate(d)
    ensures ParseDate(FormatDate(d)) == Parsed(d)
  {
    assert Pad2(d.month) in MonthSpellings(d.month) && Pad2(d.day) in DaySpellings(d.day);
    assert FormatDate(d) in Spellings(d);
    ParseSpelling(d, FormatDate(d));
  }

  /** Text after a complete canonical date is never accepted: `strptime` reports it as unconverted. */
  lemma TrailingTextRejected(d: Date, extra: string)
    requires ValidDate(d) && |extra| > 0
    ensures ParseDate(FormatDate(d) + extra) == Failed(UnconvertedData(extra))
  {
    var s := FormatDate(d) + extra;
    var rest := s[5..];
    assert s[..4] == Pad4(d.year);
    assert rest == Pad2(d.month) + ("-" + Pad2(d.day) + extra);
    MatchMonthSpelling(Pad2(d.month), d.month, "-" + Pad2(d.day) + extra);
    var dayText := rest[3..];
    assert dayText == Pad2(d.day) + extra;
    assert dayText[2..] == extra;
  }
}
