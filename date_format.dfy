/** Reading a date written as `MM/DD/YYYY`, the format the custom availability
    rules give to `datetime.strptime(text, '%m/%d/%Y')`. This reader is strict:
    it takes two-digit months and days and a four-digit year, and nothing else. */
module DateFormat {
  import opened Wrappers
  import opened Calendar

  predicate IsDigit(c: char) {
    '0' <= c <= '9'
  }

  function DigitValue(c: char): (v: int)
    requires IsDigit(c)
    ensures 0 <= v <= 9
  {
    c as int - '0' as int
  }

  function DigitChar(v: int): (c: char)
    requires 0 <= v <= 9
    ensures IsDigit(c) && DigitValue(c) == v
  {
    ('0' as int + v) as char
  }

  /** The decimal digits of `v`, padded with zeros to width 2. */
  function Pad2(v: int): string
    requires 0 <= v <= 99
  {
    [DigitChar(v / 10), DigitChar(v % 10)]
  }

  /** The decimal digits of `v`, padded with zeros to width 4. */
  function Pad4(v: int): string
    requires 0 <= v <= 9999
  {
    [DigitChar(v / 1000), DigitChar(v / 100 % 10), DigitChar(v / 10 % 10), DigitChar(v % 10)]
  }

  /** `s` has the shape `DD/DD/DDDD`, with D a decimal digit. */
  predicate WellShaped(s: string) {
    && |s| == 10 && s[2] == '/' && s[5] == '/'
    && IsDigit(s[0]) && IsDigit(s[1]) && IsDigit(s[3]) && IsDigit(s[4])
    && IsDigit(s[6]) && IsDigit(s[7]) && IsDigit(s[8]) && IsDigit(s[9])
  }

  /** The date a well-shaped text spells, checked or not. */
  function Fields(s: string): Ymd
    requires WellShaped(s)
  {
    Ymd(1000 * DigitValue(s[6]) + 100 * DigitValue(s[7]) + 10 * DigitValue(s[8]) + DigitValue(s[9]),
        10 * DigitValue(s[0]) + DigitValue(s[1]),
        10 * DigitValue(s[3]) + DigitValue(s[4]))
  }

  /** `strptime(s, '%m/%d/%Y').date()` on zero-padded text: `None` where strptime
      raises, that is on a malformed text, a month outside 1..12, a day the month
      does not have, or year 0. */
  function ParseDate(s: string): Option<Date> {
    if WellShaped(s) && Fields(s).year >= 1 && ValidYmd(Fields(s)) then Some(ToOrdinal(Fields(s)))
    else None
  }

  /** `date.strftime('%m/%d/%Y')` for a date of years 1 to 9999. */
  function FormatDate(n: Date): string
    requires 1 <= Year(n) <= 9999
  {
    var d := FromOrdinal(n);
    Pad2(d.month) + "/" + Pad2(d.day) + "/" + Pad4(d.year)
  }

  lemma Pad2Digits(v: int)
    requires 0 <= v <= 99
    ensures 10 * DigitValue(Pad2(v)[0]) + DigitValue(Pad2(v)[1]) == v
  {
  }

  lemma Pad4Digits(v: int)
    requires 0 <= v <= 9999
    ensures 1000 * DigitValue(Pad4(v)[0]) + 100 * DigitValue(Pad4(v)[1])
            + 10 * DigitValue(Pad4(v)[2]) + DigitValue(Pad4(v)[3]) == v
  {
    var a, r1 := v / 1000, v % 1000;
    var b, r2 := r1 / 100, r1 % 100;
    var c, d := r2 / 10, r2 % 10;
    DivMod(v, 100, 10 * a + b, r2);
    DivMod(10 * a + b, 10, a, b);
    DivMod(v, 10, 100 * a + 10 * b + c, d);
    DivMod(100 * a + 10 * b + c, 10, 10 * a + b, c);
  }

  lemma DigitCharValue(c: char)
    requires IsDigit(c)
    ensures DigitChar(DigitValue(c)) == c
  {
  }

  lemma Pad2OfDigits(c0: char, c1: char)
    requires IsDigit(c0) && IsDigit(c1)
    ensures Pad2(10 * DigitValue(c0) + DigitValue(c1)) == [c0, c1]
  {
    var v := 10 * DigitValue(c0) + DigitValue(c1);
    DivMod(v, 10, DigitValue(c0), DigitValue(c1));
    DigitCharValue(c0);
    DigitCharValue(c1);
  }

  lemma Pad4OfDigits(c0: char, c1: char, c2: char, c3: char)
    requires IsDigit(c0) && IsDigit(c1) && IsDigit(c2) && IsDigit(c3)
    ensures Pad4(1000 * DigitValue(c0) + 100 * DigitValue(c1) + 10 * DigitValue(c2) + DigitValue(c3))
            == [c0, c1, c2, c3]
  {
    var a, b, c, d := DigitValue(c0), DigitValue(c1), DigitValue(c2), DigitValue(c3);
    var v := 1000 * a + 100 * b + 10 * c + d;
    DivMod(v, 1000, a, 100 * b + 10 * c + d);
    DivMod(v, 100, 10 * a + b, 10 * c + d);
    DivMod(10 * a + b, 10, a, b);
    DivMod(v, 10, 100 * a + 10 * b + c, d);
    DivMod(100 * a + 10 * b + c, 10, 10 * a + b, c);
    DigitCharValue(c0);
    DigitCharValue(c1);
    DigitCharValue(c2);
    DigitCharValue(c3);
  }

  /** The text of date `d`, taken apart, gives back `d`. */
  lemma FieldsOfText(d: Ymd)
    requires 1 <= d.year <= 9999 && ValidYmd(d)
    ensures var s := Pad2(d.month) + "/" + Pad2(d.day) + "/" + Pad4(d.year);
            WellShaped(s) && Fields(s) == d
  {
    Pad2Digits(d.month);
    Pad2Digits(d.day);
    Pad4Digits(d.year);
  }

  /** Every date of years 1 to 9999 is read back from its own text. */
  lemma ParseFormatDate(n: Date)
    requires 1 <= Year(n) <= 9999
    ensures ParseDate(FormatDate(n)) == Some(n)
  {
    FieldsOfText(FromOrdinal(n));
  }

  /** A well-shaped text is the text of the fields it spells. */
  lemma TextOfFields(s: string)
    requires WellShaped(s)
    ensures Fields(s).month <= 99 && Fields(s).day <= 99 && Fields(s).year <= 9999
    ensures Pad2(Fields(s).month) + "/" + Pad2(Fields(s).day) + "/" + Pad4(Fields(s).year) == s
  {
    Pad2OfDigits(s[0], s[1]);
    Pad2OfDigits(s[3], s[4]);
    Pad4OfDigits(s[6], s[7], s[8], s[9]);
    assert s == [s[0], s[1]] + "/" + [s[3], s[4]] + "/" + [s[6], s[7], s[8], s[9]];
  }

  /** A text that is read as a date is that date's own text: the reader accepts
      one spelling per date. */
  lemma FormatParsedDate(s: string, n: Date)
    requires ParseDate(s) == Some(n)
    ensures 1 <= Year(n) <= 9999 && FormatDate(n) == s
  {
    FromToOrdinal(Fields(s));
    TextOfFields(s);
  }
}
