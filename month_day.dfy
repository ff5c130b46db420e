/**
 * The model-date fallback of the prediction script: when no model directory
 * exists for today's `%m%d` date, the date is parsed with `strptime('%m%d')`
 * (which puts it in the default year 1900, not a leap year), moved back one
 * day and formatted again with `%m%d`.
 */
module MonthDay {
  import opened Wrappers

  /** A calendar day without a year. */
  datatype MonthDay = MonthDay(month: nat, day: nat)

  /** Month lengths of 1900: February has 28 days. */
  function DaysIn(month: nat): nat
  {
    if month == 2 then 28
    else if month == 4 || month == 6 || month == 9 || month == 11 then 30
    else 31
  }

  predicate Valid(d: MonthDay)
  {
    1 <= d.month <= 12 && 1 <= d.day <= DaysIn(d.month)
  }

  predicate IsDigit(c: char)
  {
    '0' <= c <= '9'
  }

  /** The `%m%d` shape: exactly four decimal digits. */
  predicate FourDigits(s: string)
  {
    |s| == 4 && IsDigit(s[0]) && IsDigit(s[1]) && IsDigit(s[2]) && IsDigit(s[3])
  }

  function DigitValue(c: char): (v: nat)
    requires IsDigit(c)
    ensures v < 10
  {
    c as int - '0' as int
  }

  function Digit(v: nat): (c: char)
    requires v < 10
    ensures IsDigit(c) && DigitValue(c) == v
  {
    ('0' as int + v) as char
  }

  /**
   * `strptime(s, '%m%d')` on four digits: the month must be 01..12 and the day
   * must exist in that month of 1900; otherwise `strptime` raises ValueError
   * (None here). "0229" is refused because 1900 is not a leap year.
   */
  function Parse(s: string): (r: Option<MonthDay>)
    requires FourDigits(s)
    ensures r.Some? ==> Valid(r.value)
    ensures r.Some? <==> (var m := 10 * DigitValue(s[0]) + DigitValue(s[1]);
                          1 <= m <= 12 && 1 <= 10 * DigitValue(s[2]) + DigitValue(s[3]) <= DaysIn(m))
  {
    var m := 10 * DigitValue(s[0]) + DigitValue(s[1]);
    var d := 10 * DigitValue(s[2]) + DigitValue(s[3]);
    if 1 <= m <= 12 && 1 <= d <= DaysIn(m) then Some(MonthDay(m, d)) else None
  }

  /** `strftime(d, '%m%d')`: month and day, each zero-padded to two digits. */
  function Format(d: MonthDay): (s: string)
    requires Valid(d)
    ensures FourDigits(s)
  {
    [Digit(d.month / 10), Digit(d.month % 10), Digit(d.day / 10), Digit(d.day % 10)]
  }

  /** Formatting a valid day and parsing it back gives the same day. */
  lemma ParseFormat(d: MonthDay)
    requires Valid(d)
    ensures Parse(Format(d)) == Some(d)
  {
    var s := Format(d);
    assert 10 * DigitValue(s[0]) + DigitValue(s[1]) == d.month;
    assert 10 * DigitValue(s[2]) + DigitValue(s[3]) == d.day;
  }

  /** A string that parses is the formatting of what it parses to. */
  lemma FormatParse(s: string)
    requires FourDigits(s) && Parse(s).Some?
    ensures Format(Parse(s).value) == s
  {
    var d := Parse(s).value;
    var m0, m1, d0, d1 := DigitValue(s[0]), DigitValue(s[1]), DigitValue(s[2]), DigitValue(s[3]);
    assert d.month / 10 == m0 && d.month % 10 == m1;
    assert d.day / 10 == d0 && d.day % 10 == d1;
    var f := Format(d);
    assert f[0] == s[0] && f[1] == s[1] && f[2] == s[2] && f[3] == s[3];
  }

  /**
   * `strptime(s, '%m%d')` returns exactly the valid day that `strftime` writes
   * as `s`, and fails exactly when no valid day is written as `s`.
   */
  lemma ParseInvertsFormat(s: string)
    requires FourDigits(s)
    ensures forall d :: Valid(d) ==> (Parse(s) == Some(d) <==> Format(d) == s)
    ensures Parse(s).None? <==> forall d :: Valid(d) ==> Format(d) != s
  {
    forall d | Valid(d)
      ensures Parse(s) == Some(d) <==> Format(d) == s
    {
      if Parse(s) == Some(d) {
        FormatParse(s);
      }
      if Format(d) == s {
        ParseFormat(d);
      }
    }
    if Parse(s).Some? {
      FormatParse(s);
    }
  }

  /** `date - timedelta(days=1)`, leaving the year aside (Jan 1 goes back to Dec 31). */
  function PreviousDay(d: MonthDay): (p: MonthDay)
    requires Valid(d)
    ensures Valid(p)
  {
    if d.day > 1 then MonthDay(d.month, d.day - 1)
    else if d.month > 1 then MonthDay(d.month - 1, DaysIn(d.month - 1))
    else MonthDay(12, 31)
  }

  /** The following day of the 1900 calendar, as an independent reference. */
  function NextDay(d: MonthDay): (n: MonthDay)
    requires Valid(d)
    ensures Valid(n)
  {
    if d.day < DaysIn(d.month) then MonthDay(d.month, d.day + 1)
    else if d.month < 12 then MonthDay(d.month + 1, 1)
    else MonthDay(1, 1)
  }

  /** Going back a day and then forward a day returns to the start, and vice versa. */
  lemma PreviousNextInverse(d: MonthDay)
    requires Valid(d)
    ensures NextDay(PreviousDay(d)) == d
    ensures PreviousDay(NextDay(d)) == d
  {
  }

  /**
   * The date whose models are loaded: today's `%m%d` date when its model
   * directory exists, else the previous day; None where `strptime` raises.
   */
  function ModelDate(today: string, modelDirExists: bool): (r: Option<string>)
    requires FourDigits(today)
    ensures modelDirExists ==> r == Some(today)
    ensures !modelDirExists ==> (r.Some? <==> Parse(today).Some?)
    ensures !modelDirExists && r.Some? ==>
      FourDigits(r.value) && Parse(r.value).Some? && NextDay(Parse(r.value).value) == Parse(today).value
  {
    if modelDirExists then Some(today)
    else match Parse(today)
      case None => None
      case Some(d) =>
        var p := PreviousDay(d);
        ParseFormat(p);
        PreviousNextInverse(d);
        Some(Format(p))
  }

  /** New Year wraps to the last day of December; March 1 goes back to February 28; "0229" fails. */
  lemma ModelDateExamples()
    ensures ModelDate("0101", false) == Some("1231")
    ensures ModelDate("0301", false) == Some("0228")
    ensures ModelDate("0229", false) == None
    ensures ModelDate("0229", true) == Some("0229")
  {
    assert Parse("0101") == Some(MonthDay(1, 1));
    assert Format(MonthDay(12, 31)) == "1231";
    assert Parse("0301") == Some(MonthDay(3, 1));
    assert Format(MonthDay(2, 28)) == "0228";
  }
}
