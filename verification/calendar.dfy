/** Proleptic Gregorian dates as Python's `datetime.date` handles them: `str(date)`,
    parsing a `YYYY-MM-DD` form value, `date.toordinal()` and the age computation of the
    patients page. */
module Calendar {
  import opened Base
  import opened Text

  datatype Date = Date(year: int, month: int, day: int)

  predicate IsLeap(y: int) {
    y % 4 == 0 && (y % 100 != 0 || y % 400 == 0)
  }

  function DaysInMonth(y: int, m: int): int
    requires 1 <= m <= 12
  {
    if m == 2 then (if IsLeap(y) then 29 else 28)
    else if m == 4 || m == 6 || m == 9 || m == 11 then 30
    else 31
  }

  /** A date `datetime.date` accepts: years 1 to 9999 and a day that exists. */
  predicate ValidDate(d: Date) {
    1 <= d.year <= 9999 && 1 <= d.month <= 12 && 1 <= d.day <= DaysInMonth(d.year, d.month)
  }

  /** A valid date, the only kind a `datetime.date` object can hold. */
  type Day = d: Date | ValidDate(d) witness Date(1, 1, 1)

  /** Days in the year before the first day of month `m`. */
  function DaysBeforeMonth(y: int, m: int): int
    requires 1 <= m <= 12
  {
    [0, 31, 59, 90, 120, 151, 181, 212, 243, 273, 304, 334][m - 1] + (if m > 2 && IsLeap(y) then 1 else 0)
  }

  /** `date.toordinal()`: 1 January of year 1 is day 1. */
  function Ordinal(d: Day): int {
    var y := d.year - 1;
    y * 365 + y / 4 - y / 100 + y / 400 + DaysBeforeMonth(d.year, d.month) + d.day
  }

  /** `(today - dob).days // 365` as the patients page computes an age; the divisor is
      positive, so Dafny's division floors exactly as Python's `//` does, also for a
      date of birth in the future. */
  function AgeInYears(dob: Day, today: Day): (age: int)
    ensures 365 * age <= Ordinal(today) - Ordinal(dob) < 365 * (age + 1)
  {
    (Ordinal(today) - Ordinal(dob)) / 365
  }

  // ---------------------------------------------------------------------------
  // Text form
  // ---------------------------------------------------------------------------

  /** `s` left-padded with '0' to width `w`. */
  function PadZeros(s: string, w: nat): (r: string)
    ensures |s| <= w ==> |r| == w
    ensures |s| >= w ==> r == s
  {
    if |s| >= w then s else seq(w - |s|, _ => '0') + s
  }

  /** `str(date)`: `YYYY-MM-DD` with zero padding. */
  function DateText(d: Day): string {
    Join([PadZeros(NatToString(d.year), 4), PadZeros(NatToString(d.month), 2),
          PadZeros(NatToString(d.day), 2)], '-')
  }

  predicate AllDigits(s: string) {
    forall i :: 0 <= i < |s| ==> '0' <= s[i] <= '9'
  }

  /** The number a string of decimal digits denotes. */
  function DigitsValue(s: string): nat
    requires AllDigits(s)
    decreases |s|
  {
    if |s| == 0 then 0 else DigitsValue(s[..|s| - 1]) * 10 + (s[|s| - 1] as int - '0' as int)
  }

  /** The date a `YYYY-MM-DD` form value denotes (month and day may have one digit), or
      `None` when the value is not such a date. */
  function ParseIsoDate(s: string): (r: Option<Day>)
    ensures r.Some? ==> 8 <= |s| <= 10
  {
    var parts := Split(s, '-');
    if |parts| != 3 then None
    else if !(|parts[0]| == 4 && 1 <= |parts[1]| <= 2 && 1 <= |parts[2]| <= 2) then None
    else if !(AllDigits(parts[0]) && AllDigits(parts[1]) && AllDigits(parts[2])) then None
    else
      var d := Date(DigitsValue(parts[0]), DigitsValue(parts[1]), DigitsValue(parts[2]));
      assert s == parts[0] + "-" + parts[1] + "-" + parts[2] by {
        assert parts[1..][1..] == parts[2..];
        assert Join(parts[2..], '-') == parts[2];
        assert Join(parts[1..], '-') == parts[1] + "-" + parts[2];
      }
      if ValidDate(d) then Some(d) else None
  }

  /** `str(n)` read back as digits gives `n`. */
  lemma {:induction false} DigitsOfNat(n: nat)
    ensures AllDigits(NatToString(n)) && DigitsValue(NatToString(n)) == n
    decreases n
  {
    var s := NatToString(n);
    if n >= 10 {
      DigitsOfNat(n / 10);
      assert s[..|s| - 1] == NatToString(n / 10);
    }
  }

  /** Leading zeros do not change the value of a digit string. */
  lemma {:induction false} DigitsLeadingZeros(k: nat, s: string)
    requires AllDigits(s)
    ensures AllDigits(seq(k, _ => '0') + s)
    ensures DigitsValue(seq(k, _ => '0') + s) == DigitsValue(s)
    decreases |s|
  {
    var z: string := seq(k, _ => '0');
    if |s| == 0 {
      assert z + s == z;
      ZerosValue(k);
    } else {
      assert (z + s)[..|z + s| - 1] == z + s[..|s| - 1];
      DigitsLeadingZeros(k, s[..|s| - 1]);
    }
  }

  lemma {:induction false} ZerosValue(k: nat)
    ensures AllDigits(seq(k, _ => '0')) && DigitsValue(seq(k, _ => '0')) == 0
    decreases k
  {
    if k > 0 {
      var z: string := seq(k, _ => '0');
      assert z[..k - 1] == seq(k - 1, _ => '0');
      ZerosValue(k - 1);
    }
  }

  /** A number below 10^w has at most w digits. */
  lemma {:induction false} NatToStringLength(n: nat, w: nat)
    requires n < Pow10(w)
    ensures |NatToString(n)| <= if w == 0 then 1 else w
    decreases n
  {
    if n >= 10 {
      assert Pow10(0) == 1 && Pow10(1) == 10;
      Pow10Step(w - 1);
      NatToStringLength(n / 10, w - 1);
    }
  }

  function Pow10(w: nat): (r: nat)
    ensures r >= 1
  {
    if w == 0 then 1 else 10 * Pow10(w - 1)
  }

  lemma Pow10Step(w: nat)
    ensures Pow10(w + 1) == 10 * Pow10(w)
  {
  }

  /** One padded number reads back as itself. */
  lemma PaddedReadsBack(n: nat, w: nat)
    requires 1 <= w && n < Pow10(w)
    ensures var t := PadZeros(NatToString(n), w);
      |t| == w && AllDigits(t) && DigitsValue(t) == n
  {
    NatToStringLength(n, w);
    DigitsOfNat(n);
    var s := NatToString(n);
    if |s| < w {
      DigitsLeadingZeros(w - |s|, s);
    }
  }

  /** Parsing a string that splits into three well-formed digit groups reads them as a
      date. */
  lemma ParseThreeGroups(s: string, y: string, m: string, dd: string)
    requires Split(s, '-') == [y, m, dd]
    requires |y| == 4 && |m| == 2 && |dd| == 2
    requires AllDigits(y) && AllDigits(m) && AllDigits(dd)
    requires ValidDate(Date(DigitsValue(y), DigitsValue(m), DigitsValue(dd)))
    ensures ParseIsoDate(s) == Some(Date(DigitsValue(y), DigitsValue(m), DigitsValue(dd)))
  {
  }

  /** Three digit groups joined by '-' split back into the same groups. */
  lemma SplitThreeGroups(y: string, m: string, dd: string)
    requires AllDigits(y) && AllDigits(m) && AllDigits(dd)
    ensures Split(Join([y, m, dd], '-'), '-') == [y, m, dd]
  {
    var parts := [y, m, dd];
    forall i | 0 <= i < 3
      ensures '-' !in parts[i]
    {
      assert AllDigits(parts[i]);
    }
    SplitJoin(parts, '-');
  }

  /** Parsing inverts `str(date)` on every valid date. */
  lemma ParseDateText(d: Day)
    ensures ParseIsoDate(DateText(d)) == Some(d)
  {
    assert Pow10(2) == 100 && Pow10(4) == 10000;
    PaddedReadsBack(d.year, 4);
    PaddedReadsBack(d.month, 2);
    PaddedReadsBack(d.day, 2);
    SplitThreeGroups(PadZeros(NatToString(d.year), 4), PadZeros(NatToString(d.month), 2),
                     PadZeros(NatToString(d.day), 2));
    ParseThreeGroups(DateText(d), PadZeros(NatToString(d.year), 4), PadZeros(NatToString(d.month), 2),
                     PadZeros(NatToString(d.day), 2));
  }
}
