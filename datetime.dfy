/**
 * Timestamps of date cells: `strftime("%Y-%m-%dT%H:%M:%S")` on the writing side and
 * `Datetime.strptime(..., "%Y-%m-%dT%H:%M:%S")` on the reading side.
 *
 * `%Y` writes the year without padding (so a year before 1000 has fewer than four digits), the
 * other fields are zero-padded to two digits; the parser accepts exactly four year digits and two
 * digits for each other field, and rejects a date that a `datetime` cannot hold.
 */
module DateTimes {
  import opened Wrappers
  import opened Text

  datatype DateTime = DateTime(year: nat, month: nat, day: nat, hour: nat, minute: nat, second: nat)

  predicate IsLeapYear(y: nat) {
    y % 4 == 0 && (y % 100 != 0 || y % 400 == 0)
  }

  function DaysInMonth(y: nat, m: nat): (d: nat)
    requires 1 <= m <= 12
    ensures 28 <= d <= 31
  {
    if m == 2 then (if IsLeapYear(y) then 29 else 28)
    else if m == 4 || m == 6 || m == 9 || m == 11 then 30
    else 31
  }

  /** The values a `datetime` can hold: years 1 to 9999, real calendar days, a time of day. */
  predicate ValidDateTime(dt: DateTime) {
    1 <= dt.year <= 9999 && 1 <= dt.month <= 12 && 1 <= dt.day <= DaysInMonth(dt.year, dt.month)
    && dt.hour < 24 && dt.minute < 60 && dt.second < 60
  }

  /** `%02d`: at least two digits, zero-padded. */
  function Pad2(n: nat): string
  {
    if n < 10 then "0" + NatToString(n) else NatToString(n)
  }

  /** `dt.strftime("%Y-%m-%dT%H:%M:%S")`. */
  function FormatDateTime(dt: DateTime): string
  {
    NatToString(dt.year) + "-" + Pad2(dt.month) + "-" + Pad2(dt.day) + "T"
      + Pad2(dt.hour) + ":" + Pad2(dt.minute) + ":" + Pad2(dt.second)
  }

  /** The fixed layout `YYYY-MM-DDTHH:MM:SS`. */
  predicate Layout(s: string) {
    |s| == 19 && s[4] == '-' && s[7] == '-' && s[10] == 'T' && s[13] == ':' && s[16] == ':'
    && IsDigit(s[0]) && IsDigit(s[1]) && IsDigit(s[2]) && IsDigit(s[3])
    && IsDigit(s[5]) && IsDigit(s[6]) && IsDigit(s[8]) && IsDigit(s[9])
    && IsDigit(s[11]) && IsDigit(s[12]) && IsDigit(s[14]) && IsDigit(s[15])
    && IsDigit(s[17]) && IsDigit(s[18])
  }

  function Two(a: char, b: char): nat
    requires IsDigit(a) && IsDigit(b)
  {
    10 * DigitValue(a) + DigitValue(b)
  }

  function Four(a: char, b: char, c: char, d: char): nat
    requires IsDigit(a) && IsDigit(b) && IsDigit(c) && IsDigit(d)
  {
    100 * Two(a, b) + Two(c, d)
  }

  /** `Datetime.strptime(s, "%Y-%m-%dT%H:%M:%S")`, None where it raises. */
  function ParseDateTime(s: string): (r: Option<DateTime>)
    ensures r.Some? ==> ValidDateTime(r.value)
    ensures r.Some? <==> Layout(s) && ValidDateTime(DateTime(Four(s[0], s[1], s[2], s[3]), Two(s[5], s[6]),
      Two(s[8], s[9]), Two(s[11], s[12]), Two(s[14], s[15]), Two(s[17], s[18])))
  {
    if !Layout(s) then None
    else
      var dt := DateTime(Four(s[0], s[1], s[2], s[3]), Two(s[5], s[6]), Two(s[8], s[9]),
        Two(s[11], s[12]), Two(s[14], s[15]), Two(s[17], s[18]));
      if ValidDateTime(dt) then Some(dt) else None
  }

  lemma NatToStringTwo(n: nat)
    requires n < 100
    ensures var s := Pad2(n); |s| == 2 && IsDigit(s[0]) && IsDigit(s[1]) && Two(s[0], s[1]) == n
  {
    if n >= 10 {
      assert NatToString(n) == NatToString(n / 10) + [DigitChar(n % 10)];
    }
  }

  lemma NatToStringFour(n: nat)
    requires 1000 <= n <= 9999
    ensures var s := NatToString(n);
      |s| == 4 && IsDigit(s[0]) && IsDigit(s[1]) && IsDigit(s[2]) && IsDigit(s[3])
      && Four(s[0], s[1], s[2], s[3]) == n
  {
    var a, b, c := n / 10, n / 100, n / 1000;
    assert a / 10 == b && b / 10 == c;
    assert NatToString(n) == NatToString(a) + [DigitChar(n % 10)];
    assert NatToString(a) == NatToString(b) + [DigitChar(a % 10)];
    assert NatToString(b) == NatToString(c) + [DigitChar(b % 10)];
    assert NatToString(c) == [DigitChar(c)];
    assert n == 1000 * c + 100 * (b % 10) + 10 * (a % 10) + n % 10;
  }

  /** The written timestamp has the fixed layout once the year has four digits. */
  lemma FormatLayout(dt: DateTime)
    requires ValidDateTime(dt) && 1000 <= dt.year
    ensures var s := FormatDateTime(dt);
      Layout(s) && Four(s[0], s[1], s[2], s[3]) == dt.year && Two(s[5], s[6]) == dt.month
      && Two(s[8], s[9]) == dt.day && Two(s[11], s[12]) == dt.hour && Two(s[14], s[15]) == dt.minute
      && Two(s[17], s[18]) == dt.second
  {
    NatToStringFour(dt.year);
    NatToStringTwo(dt.month);
    NatToStringTwo(dt.day);
    NatToStringTwo(dt.hour);
    NatToStringTwo(dt.minute);
    NatToStringTwo(dt.second);
  }

  /** A date cell written for a year from 1000 on reads back as the same timestamp. */
  lemma ParseFormat(dt: DateTime)
    requires ValidDateTime(dt) && 1000 <= dt.year
    ensures ParseDateTime(FormatDateTime(dt)) == Some(dt)
  {
    FormatLayout(dt);
  }

  /** A year before 1000 is written with fewer than four digits, which the reader rejects. */
  lemma ParseFormatShortYear(dt: DateTime)
    requires ValidDateTime(dt) && dt.year < 1000
    ensures ParseDateTime(FormatDateTime(dt)) == None
  {
    NatToStringShort(dt.year);
    NatToStringTwo(dt.month);
    NatToStringTwo(dt.day);
    NatToStringTwo(dt.hour);
    NatToStringTwo(dt.minute);
    NatToStringTwo(dt.second);
    assert |FormatDateTime(dt)| == |NatToString(dt.year)| + 15;
  }

  lemma NatToStringShort(n: nat)
    requires n < 1000
    ensures |NatToString(n)| <= 3
  {
    if n >= 10 {
      assert NatToString(n) == NatToString(n / 10) + [DigitChar(n % 10)];
      if n / 10 >= 10 {
        assert NatToString(n / 10) == NatToString(n / 100) + [DigitChar((n / 10) % 10)];
      }
    }
  }

  /** `strftime` writes distinct timestamps for distinct dates, whatever the year: the unpadded year ends at the first `-`. */
  lemma FormatInjective(a: DateTime, b: DateTime)
    requires ValidDateTime(a) && ValidDateTime(b) && FormatDateTime(a) == FormatDateTime(b)
    ensures a == b
  {
    var ya, yb := NatToString(a.year), NatToString(b.year);
    var ra, rb := TimeFields(a), TimeFields(b);
    FormatSplit(a);
    FormatSplit(b);
    assert '-' !in ya by { assert forall i | 0 <= i < |ya| :: IsDigit(ya[i]); }
    assert '-' !in yb by { assert forall i | 0 <= i < |yb| :: IsDigit(yb[i]); }
    var s := FormatDateTime(a);
    IndexOfAppend(ya, ra, '-');
    IndexOfAppend(yb, rb, '-');
    assert IndexOf(ra, '-') == Some(0) && IndexOf(rb, '-') == Some(0);
    assert |ya| == |yb|;
    assert ya == s[..|ya|] == yb;
    DigitsValueOfNat(a.year);
    DigitsValueOfNat(b.year);
    assert ra == s[|ya|..] == rb;
    TimeFieldsDigits(a);
    TimeFieldsDigits(b);
  }

  /** What `strftime` writes after the year. */
  function TimeFields(dt: DateTime): string
  {
    "-" + Pad2(dt.month) + "-" + Pad2(dt.day) + "T" + Pad2(dt.hour) + ":" + Pad2(dt.minute) + ":" + Pad2(dt.second)
  }

  lemma FormatSplit(dt: DateTime)
    ensures FormatDateTime(dt) == NatToString(dt.year) + TimeFields(dt)
  {
  }

  /** After the year every field has two digits at a fixed place. */
  lemma TimeFieldsDigits(dt: DateTime)
    requires ValidDateTime(dt)
    ensures var r := TimeFields(dt);
      && |r| == 15 && r[0] == '-'
      && IsDigit(r[1]) && IsDigit(r[2]) && Two(r[1], r[2]) == dt.month
      && IsDigit(r[4]) && IsDigit(r[5]) && Two(r[4], r[5]) == dt.day
      && IsDigit(r[7]) && IsDigit(r[8]) && Two(r[7], r[8]) == dt.hour
      && IsDigit(r[10]) && IsDigit(r[11]) && Two(r[10], r[11]) == dt.minute
      && IsDigit(r[13]) && IsDigit(r[14]) && Two(r[13], r[14]) == dt.second
  {
    NatToStringTwo(dt.month);
    NatToStringTwo(dt.day);
    NatToStringTwo(dt.hour);
    NatToStringTwo(dt.minute);
    NatToStringTwo(dt.second);
  }

  /** Conversely, every timestamp the reader accepts with a year from 1000 on is the one the writer produces. */
  lemma FormatParse(s: string)
    requires ParseDateTime(s).Some? && ParseDateTime(s).value.year >= 1000
    ensures FormatDateTime(ParseDateTime(s).value) == s
  {
    var dt := ParseDateTime(s).value;
    FormatLayout(dt);
    var t := FormatDateTime(dt);
    DigitsDetermined(s, t);
  }

  lemma DigitsDetermined(s: string, t: string)
    requires Layout(s) && Layout(t)
    requires Four(s[0], s[1], s[2], s[3]) == Four(t[0], t[1], t[2], t[3])
    requires Two(s[5], s[6]) == Two(t[5], t[6]) && Two(s[8], s[9]) == Two(t[8], t[9])
    requires Two(s[11], s[12]) == Two(t[11], t[12]) && Two(s[14], s[15]) == Two(t[14], t[15])
    requires Two(s[17], s[18]) == Two(t[17], t[18])
    ensures t == s
  {
    TwoDetermined(s[0], s[1], t[0], t[1], s[2], s[3], t[2], t[3]);
    PairDetermined(s[2], s[3], t[2], t[3]);
    PairDetermined(s[5], s[6], t[5], t[6]);
    PairDetermined(s[8], s[9], t[8], t[9]);
    PairDetermined(s[11], s[12], t[11], t[12]);
    PairDetermined(s[14], s[15], t[14], t[15]);
    PairDetermined(s[17], s[18], t[17], t[18]);
    forall i | 0 <= i < 19 ensures s[i] == t[i] {
    }
  }

  lemma PairDetermined(a: char, b: char, c: char, d: char)
    requires IsDigit(a) && IsDigit(b) && IsDigit(c) && IsDigit(d) && Two(a, b) == Two(c, d)
    ensures a == c && b == d
  {
  }

  lemma TwoDetermined(a: char, b: char, c: char, d: char, e: char, f: char, g: char, h: char)
    requires IsDigit(a) && IsDigit(b) && IsDigit(c) && IsDigit(d)
    requires IsDigit(e) && IsDigit(f) && IsDigit(g) && IsDigit(h)
    requires Four(a, b, e, f) == Four(c, d, g, h)
    ensures a == c && b == d && Two(e, f) == Two(g, h)
  {
    var x, y, z, w := Two(a, b), Two(e, f), Two(c, d), Two(g, h);
    assert 100 * x + y == 100 * z + w && y < 100 && w < 100;
    assert (100 * x + y) / 100 == x && (100 * z + w) / 100 == z;
    PairDetermined(a, b, c, d);
  }
}
