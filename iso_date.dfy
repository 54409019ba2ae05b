/**
 * `formatDateISO` (utils/date.ts:2-4): a date as its `YYYY-MM-DD` key, the
 * complete calendar date in extended format of ISO 8601:2004 section
 * 4.1.2.2 (RFC 3339 section 5.6, `full-date`), with the expanded
 * `+YYYYYY`/`-YYYYYY` year `toISOString` uses outside 0000..9999.
 *
 * The source renders the UTC date of a `Date` built at local midnight, so on
 * a host east of UTC a key can name the previous day. This model uses one
 * civil-date convention throughout and does not reproduce that shift.
 */
module IsoDate {
  import opened Wrappers
  import opened Text
  import opened Civil

  /** The year field of `toISOString`: four digits for years 0..9999, and
      otherwise a sign followed by at least six digits. */
  function YearText(y: int): (t: string)
    ensures 0 <= y <= 9999 ==> |t| == 4 && AllDigits(t) && ParseNat(t) == y
    ensures !(0 <= y <= 9999) ==>
      |t| >= 7 && t[0] == (if y < 0 then '-' else '+')
      && AllDigits(t[1..]) && ParseNat(t[1..]) == (if y < 0 then -y else y)
  {
    if 0 <= y <= 9999 then Numeral(y, 4)
    else (if y < 0 then "-" else "+") + Numeral(if y < 0 then -y else y, 6)
  }

  /** The ISO key of a date. For years 0..9999 it is ten characters: four
      year digits, `-`, two month digits, `-`, two day digits. */
  function Key(d: Date): (k: string)
    requires ValidDate(d)
    ensures 0 <= d.year <= 9999 ==>
      |k| == 10 && k[4] == '-' && k[7] == '-'
      && AllDigits(k[..4]) && AllDigits(k[5..7]) && AllDigits(k[8..])
  {
    var y, m, dd := YearText(d.year), Numeral(d.month, 2), Numeral(d.day, 2);
    var k := y + "-" + m + "-" + dd;
    assert 0 <= d.year <= 9999 ==> k[..4] == y && k[5..7] == m && k[8..] == dd;
    k
  }

  function ParseYear(t: string): Option<int>
  {
    if |t| == 4 && AllDigits(t) then Some(ParseNat(t))
    else if |t| >= 7 && (t[0] == '+' || t[0] == '-') && AllDigits(t[1..]) then
      var v: int := ParseNat(t[1..]);
      Some(if t[0] == '-' then -v else v)
    else None
  }

  /** Reads a key back: a year, then `-MM-DD`. */
  function ParseKey(s: string): Option<Date>
  {
    if |s| < 10 then None
    else
      var t := s[|s| - 6..];
      if t[0] == '-' && t[3] == '-' && AllDigits(t[1..3]) && AllDigits(t[4..]) then
        match ParseYear(s[..|s| - 6])
        case None => None
        case Some(y) => Some(Date(y, ParseNat(t[1..3]), ParseNat(t[4..])))
      else None
  }

  lemma YearRoundTrip(y: int)
    ensures |YearText(y)| >= 4
    ensures ParseYear(YearText(y)) == Some(y)
  {
    if !(0 <= y <= 9999) {
      var sign := if y < 0 then '-' else '+';
      var digits := Numeral(if y < 0 then -y else y, 6);
      assert YearText(y) == [sign] + digits;
      ParseExpanded(sign, digits);
    }
  }

  lemma ParseExpanded(sign: char, digits: string)
    requires (sign == '+' || sign == '-') && |digits| >= 6 && AllDigits(digits)
    ensures ParseYear([sign] + digits) ==
      Some(if sign == '-' then -(ParseNat(digits) as int) else ParseNat(digits))
  {
    assert ([sign] + digits)[1..] == digits;
  }

  /** Parsing a key gives back the year, month and day it was made from. */
  lemma KeyRoundTrip(d: Date)
    requires ValidDate(d)
    ensures ParseKey(Key(d)) == Some(d)
  {
    YearRoundTrip(d.year);
    ParseJoined(YearText(d.year), Numeral(d.month, 2), Numeral(d.day, 2), d.year);
  }

  lemma ParseJoined(y: string, m: string, dd: string, year: int)
    requires |y| >= 4 && |m| == 2 && |dd| == 2 && AllDigits(m) && AllDigits(dd)
    requires ParseYear(y) == Some(year)
    ensures ParseKey(y + "-" + m + "-" + dd) == Some(Date(year, ParseNat(m), ParseNat(dd)))
  {
    var t := "-" + m + "-" + dd;
    assert t[1..3] == m && t[4..] == dd;
    assert y + "-" + m + "-" + dd == y + t;
    assert (y + t)[..|y|] == y && (y + t)[|y|..] == t;
  }

  /** Different dates have different keys. */
  lemma KeyInjective(a: Date, b: Date)
    requires ValidDate(a) && ValidDate(b)
    requires Key(a) == Key(b)
    ensures a == b
  {
    KeyRoundTrip(a);
    KeyRoundTrip(b);
  }

  /** For years 0..9999 a key is the three padded fields joined by dashes. */
  lemma KeyFields(d: Date)
    requires ValidDate(d) && 0 <= d.year <= 9999
    ensures Key(d) == Numeral(d.year, 4) + MonthDayText(d)
    ensures |Numeral(d.year, 4)| == 4
  {
  }

  /** The `-MM-DD` tail of a key. */
  function MonthDayText(d: Date): string
    requires ValidDate(d)
  {
    "-" + (Numeral(d.month, 2) + ("-" + Numeral(d.day, 2)))
  }

  /** Within one year the `-MM-DD` tails compare as the month and day do. */
  lemma MonthDayOrder(a: Date, b: Date)
    requires ValidDate(a) && ValidDate(b)
    ensures LexLess(MonthDayText(a), MonthDayText(b))
      <==> a.month < b.month || (a.month == b.month && a.day < b.day)
  {
    var ma, da := Numeral(a.month, 2), Numeral(a.day, 2);
    var mb, db := Numeral(b.month, 2), Numeral(b.day, 2);
    NumeralOrder(a.month, b.month, 2);
    NumeralOrder(a.day, b.day, 2);
    LexAppend("-", "-", ma + ("-" + da), mb + ("-" + db));
    LexAppend(ma, mb, "-" + da, "-" + db);
    LexAppend("-", "-", da, db);
    LexIrreflexive("-");
  }

  /** For years 0..9999 the string order of keys is chronological order: the
      ordering that sorting the reminders by key relies on. */
  lemma KeyOrder(a: Date, b: Date)
    requires ValidDate(a) && ValidDate(b)
    requires 0 <= a.year <= 9999 && 0 <= b.year <= 9999
    ensures LexLess(Key(a), Key(b)) <==> Precedes(a, b)
  {
    KeyFields(a);
    KeyFields(b);
    NumeralOrder(a.year, b.year, 4);
    LexAppend(Numeral(a.year, 4), Numeral(b.year, 4), MonthDayText(a), MonthDayText(b));
    MonthDayOrder(a, b);
  }
}
