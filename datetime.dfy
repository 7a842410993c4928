/**
 * The part of Python's `datetime` that app.py relies on: a naive date and time, its `isoformat()`
 * text, and the chronological comparison `ORDER BY created_at` uses.
 */
module PyDateTime {
  import opened Common

  datatype DateTime = DateTime(year: int, month: int, day: int, hour: int, minute: int, second: int, microsecond: int)

  /** The field ranges a `datetime` object enforces (every month is allowed 31 days here). */
  predicate InRange(t: DateTime) {
    && 1 <= t.year <= 9999 && 1 <= t.month <= 12 && 1 <= t.day <= 31
    && 0 <= t.hour < 24 && 0 <= t.minute < 60 && 0 <= t.second < 60 && 0 <= t.microsecond < 1000000
  }

  function Pow10(k: nat): (p: nat)
    ensures p >= 1
  {
    if k == 0 then 1 else 10 * Pow10(k - 1)
  }

  /** A number below 10^k has at most k digits. */
  lemma {:induction false} DecimalLength(n: nat, k: nat)
    requires 1 <= k && n < Pow10(k)
    ensures |Decimal(n)| <= k
    decreases k
  {
    if n >= 10 {
      assert k >= 2;
      DecimalLength(n / 10, k - 1);
    }
  }

  /** `n` in decimal, left-padded with zeros to `w` digits, as `%0*d` prints it. */
  function Pad(n: nat, w: nat): (r: string)
    ensures |r| == if |Decimal(n)| >= w then |Decimal(n)| else w
    ensures forall i :: 0 <= i < |r| ==> IsDigit(r[i])
    decreases w
  {
    if |Decimal(n)| >= w then Decimal(n) else "0" + Pad(n, w - 1)
  }

  lemma {:induction false} LeadingZero(s: string)
    requires forall i :: 0 <= i < |s| ==> IsDigit(s[i])
    ensures DigitsValue("0" + s) == DigitsValue(s)
    decreases |s|
  {
    var t := "0" + s;
    if s == [] {
      assert t[..0] == [];
    } else {
      assert t[..|t| - 1] == "0" + s[..|s| - 1];
      LeadingZero(s[..|s| - 1]);
    }
  }

  /** Padding does not change the value the digits are read back as. */
  lemma {:induction false} PadValue(n: nat, w: nat)
    ensures DigitsValue(Pad(n, w)) == n
    decreases w
  {
    if |Decimal(n)| >= w {
      DecimalRoundTrip(n);
    } else {
      PadValue(n, w - 1);
      LeadingZero(Pad(n, w - 1));
    }
  }

  /** A field that fits in `w` digits is printed with exactly `w`. */
  lemma PadWidth(n: nat, w: nat)
    requires 1 <= w && n < Pow10(w)
    ensures |Pad(n, w)| == w
  {
    DecimalLength(n, w);
  }

  /** `date.isoformat()`: `YYYY-MM-DD`. */
  function DatePart(t: DateTime): string
    requires InRange(t)
  {
    Pad(t.year, 4) + "-" + Pad(t.month, 2) + "-" + Pad(t.day, 2)
  }

  /** `HH:MM:SS`. */
  function TimePart(t: DateTime): string
    requires InRange(t)
  {
    Pad(t.hour, 2) + ":" + Pad(t.minute, 2) + ":" + Pad(t.second, 2)
  }

  /** The microseconds, printed only when they are not zero. */
  function FractionPart(t: DateTime): string
    requires InRange(t)
  {
    if t.microsecond != 0 then "." + Pad(t.microsecond, 6) else ""
  }

  /** `datetime.isoformat()` for a naive datetime. */
  function IsoFormat(t: DateTime): string
    requires InRange(t)
  {
    DatePart(t) + "T" + TimePart(t) + FractionPart(t)
  }

  /** The digits from `i` up to `j`. */
  predicate DigitsAt(r: string, i: nat, j: nat) {
    i <= j <= |r| && forall k :: i <= k < j ==> IsDigit(r[k])
  }

  function Field(r: string, i: nat, j: nat): nat
    requires DigitsAt(r, i, j)
  {
    DigitsValue(r[i..j])
  }

  /** Reads an ISO text of the shape `isoformat()` prints back into its fields. */
  function ParseIso(r: string): Option<DateTime> {
    if && (|r| == 19 || (|r| == 26 && r[19] == '.' && DigitsAt(r, 20, 26)))
       && DigitsAt(r, 0, 4) && r[4] == '-' && DigitsAt(r, 5, 7) && r[7] == '-' && DigitsAt(r, 8, 10)
       && r[10] == 'T' && DigitsAt(r, 11, 13) && r[13] == ':' && DigitsAt(r, 14, 16) && r[16] == ':'
       && DigitsAt(r, 17, 19)
    then
      Some(DateTime(Field(r, 0, 4), Field(r, 5, 7), Field(r, 8, 10), Field(r, 11, 13), Field(r, 14, 16),
        Field(r, 17, 19), if |r| == 26 then Field(r, 20, 26) else 0))
    else None
  }

  lemma DatePartShape(t: DateTime)
    requires InRange(t)
    ensures var d := DatePart(t);
      && |d| == 10 && d[4] == '-' && d[7] == '-'
      && d[..4] == Pad(t.year, 4) && d[5..7] == Pad(t.month, 2) && d[8..] == Pad(t.day, 2)
  {
    PadWidth(t.year, 4);
    PadWidth(t.month, 2);
    PadWidth(t.day, 2);
  }

  lemma TimePartShape(t: DateTime)
    requires InRange(t)
    ensures var h := TimePart(t);
      && |h| == 8 && h[2] == ':' && h[5] == ':'
      && h[..2] == Pad(t.hour, 2) && h[3..5] == Pad(t.minute, 2) && h[6..] == Pad(t.second, 2)
  {
    PadWidth(t.hour, 2);
    PadWidth(t.minute, 2);
    PadWidth(t.second, 2);
  }

  lemma FractionPartShape(t: DateTime)
    requires InRange(t)
    ensures var f := FractionPart(t);
      && |f| == (if t.microsecond == 0 then 0 else 7)
      && (t.microsecond != 0 ==> f[0] == '.' && f[1..] == Pad(t.microsecond, 6))
  {
    PadWidth(t.microsecond, 6);
  }

  /** The ISO text is 19 characters, or 26 with microseconds, with its separators in fixed places. */
  lemma IsoShape(t: DateTime)
    requires InRange(t)
    ensures var r := IsoFormat(t);
      && |r| == (if t.microsecond == 0 then 19 else 26)
      && r[4] == '-' && r[7] == '-' && r[10] == 'T' && r[13] == ':' && r[16] == ':'
      && (t.microsecond != 0 ==> r[19] == '.')
  {
    DatePartShape(t);
    TimePartShape(t);
    FractionPartShape(t);
  }

  /** A slice of a part placed at offset `o` of `r` is the same slice of `r`, shifted. */
  lemma SliceOfPart(r: string, d: string, o: nat, i: nat, j: nat)
    requires o + |d| <= |r| && r[o..o + |d|] == d && i <= j <= |d|
    ensures r[o + i..o + j] == d[i..j]
  {
    forall k | 0 <= k < j - i ensures r[o + i..o + j][k] == d[i..j][k] {
      assert r[o + i + k] == r[o..o + |d|][i + k];
    }
  }

  /** A field printed with `Pad` reads back as digits with its value. */
  lemma PaddedField(r: string, i: nat, j: nat, n: nat, w: nat)
    requires i <= j <= |r| && r[i..j] == Pad(n, w)
    ensures DigitsAt(r, i, j) && Field(r, i, j) == n
  {
    PadValue(n, w);
    forall k | i <= k < j ensures IsDigit(r[k]) {
      assert r[k] == r[i..j][k - i];
    }
  }

  /** The date fields of the ISO text read back. */
  lemma DateFields(t: DateTime)
    requires InRange(t)
    ensures var r := IsoFormat(t);
      && DigitsAt(r, 0, 4) && Field(r, 0, 4) == t.year
      && DigitsAt(r, 5, 7) && Field(r, 5, 7) == t.month
      && DigitsAt(r, 8, 10) && Field(r, 8, 10) == t.day
  {
    var r, d := IsoFormat(t), DatePart(t);
    DatePartShape(t);
    assert r[0..10] == d;
    SliceOfPart(r, d, 0, 0, 4);
    PaddedField(r, 0, 4, t.year, 4);
    SliceOfPart(r, d, 0, 5, 7);
    PaddedField(r, 5, 7, t.month, 2);
    SliceOfPart(r, d, 0, 8, 10);
    PaddedField(r, 8, 10, t.day, 2);
  }

  /** The time fields of the ISO text read back. */
  lemma TimeFields(t: DateTime)
    requires InRange(t)
    ensures var r := IsoFormat(t);
      && DigitsAt(r, 11, 13) && Field(r, 11, 13) == t.hour
      && DigitsAt(r, 14, 16) && Field(r, 14, 16) == t.minute
      && DigitsAt(r, 17, 19) && Field(r, 17, 19) == t.second
  {
    var r, h := IsoFormat(t), TimePart(t);
    DatePartShape(t);
    TimePartShape(t);
    assert r[11..19] == h;
    SliceOfPart(r, h, 11, 0, 2);
    PaddedField(r, 11, 13, t.hour, 2);
    SliceOfPart(r, h, 11, 3, 5);
    PaddedField(r, 14, 16, t.minute, 2);
    SliceOfPart(r, h, 11, 6, 8);
    PaddedField(r, 17, 19, t.second, 2);
  }

  /** When printed, the microseconds read back. */
  lemma FractionField(t: DateTime)
    requires InRange(t) && t.microsecond != 0
    ensures var r := IsoFormat(t);
      |r| == 26 && DigitsAt(r, 20, 26) && Field(r, 20, 26) == t.microsecond
  {
    var r, f := IsoFormat(t), FractionPart(t);
    DatePartShape(t);
    TimePartShape(t);
    FractionPartShape(t);
    assert r[19..26] == f;
    SliceOfPart(r, f, 19, 1, 7);
    PaddedField(r, 20, 26, t.microsecond, 6);
  }

  /** Round trip: the ISO text gives back the datetime it was printed from. */
  lemma IsoRoundTrip(t: DateTime)
    requires InRange(t)
    ensures ParseIso(IsoFormat(t)) == Some(t)
  {
    IsoShape(t);
    DateFields(t);
    TimeFields(t);
    if t.microsecond != 0 {
      FractionField(t);
    }
  }

  /** Python's comparison of datetimes: field by field, most significant first. */
  predicate Earlier(a: DateTime, b: DateTime) {
    || a.year < b.year
    || (a.year == b.year && (a.month < b.month
    || (a.month == b.month && (a.day < b.day
    || (a.day == b.day && (a.hour < b.hour
    || (a.hour == b.hour && (a.minute < b.minute
    || (a.minute == b.minute && (a.second < b.second
    || (a.second == b.second && a.microsecond < b.microsecond)))))))))))
  }

  /** The months since year 0, and so on down to the microseconds: the fields as digits of a mixed radix. */
  function Months(t: DateTime): int {
    t.year * 12 + (t.month - 1)
  }

  function Days(t: DateTime): int {
    Months(t) * 31 + (t.day - 1)
  }

  function Hours(t: DateTime): int {
    Days(t) * 24 + t.hour
  }

  function Minutes(t: DateTime): int {
    Hours(t) * 60 + t.minute
  }

  function Seconds(t: DateTime): int {
    Minutes(t) * 60 + t.second
  }

  /** A number that orders valid datetimes chronologically. */
  function Ticks(t: DateTime): int {
    Seconds(t) * 1000000 + t.microsecond
  }

  lemma MulMonotone(p: int, q: int, b: int)
    requires p <= q && b >= 0
    ensures p * b <= q * b
  {
    assert q * b - p * b == (q - p) * b;
  }

  /** A smaller higher part wins whatever the digit below it. */
  lemma Carry(h1: int, x1: int, h2: int, x2: int, b: int)
    requires 0 <= x1 < b && 0 <= x2 < b && h1 < h2
    ensures h1 * b + x1 < h2 * b + x2
  {
    MulMonotone(h1 + 1, h2, b);
    assert (h1 + 1) * b == h1 * b + b;
  }

  /** An earlier second is an earlier tick, and so on up: each level carries to the ticks. */
  lemma CarrySeconds(a: DateTime, b: DateTime)
    requires InRange(a) && InRange(b) && Seconds(a) < Seconds(b)
    ensures Ticks(a) < Ticks(b)
  {
    Carry(Seconds(a), a.microsecond, Seconds(b), b.microsecond, 1000000);
  }

  lemma CarryMinutes(a: DateTime, b: DateTime)
    requires InRange(a) && InRange(b) && Minutes(a) < Minutes(b)
    ensures Ticks(a) < Ticks(b)
  {
    Carry(Minutes(a), a.second, Minutes(b), b.second, 60);
    CarrySeconds(a, b);
  }

  lemma CarryHours(a: DateTime, b: DateTime)
    requires InRange(a) && InRange(b) && Hours(a) < Hours(b)
    ensures Ticks(a) < Ticks(b)
  {
    Carry(Hours(a), a.minute, Hours(b), b.minute, 60);
    CarryMinutes(a, b);
  }

  lemma CarryDays(a: DateTime, b: DateTime)
    requires InRange(a) && InRange(b) && Days(a) < Days(b)
    ensures Ticks(a) < Ticks(b)
  {
    Carry(Days(a), a.hour, Days(b), b.hour, 24);
    CarryHours(a, b);
  }

  lemma CarryMonths(a: DateTime, b: DateTime)
    requires InRange(a) && InRange(b) && Months(a) < Months(b)
    ensures Ticks(a) < Ticks(b)
  {
    Carry(Months(a), a.day - 1, Months(b), b.day - 1, 31);
    CarryDays(a, b);
  }

  /** Earlier by Python's comparison means fewer ticks: the first field that differs decides. */
  lemma EarlierTicks(a: DateTime, b: DateTime)
    requires InRange(a) && InRange(b) && Earlier(a, b)
    ensures Ticks(a) < Ticks(b)
  {
    if a.year < b.year {
      Carry(a.year, a.month - 1, b.year, b.month - 1, 12);
      CarryMonths(a, b);
    } else if a.month < b.month {
      CarryMonths(a, b);
    } else if a.day < b.day {
      CarryDays(a, b);
    } else if a.hour < b.hour {
      CarryHours(a, b);
    } else if a.minute < b.minute {
      CarryMinutes(a, b);
    } else if a.second < b.second {
      CarrySeconds(a, b);
    }
  }

  /** Python's comparison is total: two datetimes are equal or one is earlier. */
  lemma EarlierTotal(a: DateTime, b: DateTime)
    ensures a == b || Earlier(a, b) || Earlier(b, a)
  {
  }

  /** The ticks order valid datetimes exactly as Python compares them, and tell them apart. */
  lemma TicksOrder(a: DateTime, b: DateTime)
    requires InRange(a) && InRange(b)
    ensures Ticks(a) < Ticks(b) <==> Earlier(a, b)
    ensures Ticks(a) == Ticks(b) <==> a == b
  {
    EarlierTotal(a, b);
    if Earlier(a, b) {
      EarlierTicks(a, b);
    } else if Earlier(b, a) {
      EarlierTicks(b, a);
    }
  }
}
