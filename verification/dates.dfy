/** Calendar dates as `datetime.strptime(s, "%Y-%m-%d")` accepts them: a
    four-digit year, a month of one or two digits, a day of one or two digits
    (or a space and one digit), separated by `-`, naming a real day of the
    proleptic Gregorian calendar between years 1 and 9999. */
module Dates {
  import opened Outcomes
  import opened Text
  import opened Numbers

  datatype Date = Date(year: nat, month: nat, day: nat)

  predicate IsLeap(y: nat) {
    y % 4 == 0 && (y % 100 != 0 || y % 400 == 0)
  }

  function DaysInMonth(y: nat, m: nat): (n: nat)
    requires 1 <= m <= 12
    ensures 28 <= n <= 31
  {
    if m == 2 then (if IsLeap(y) then 29 else 28)
    else if m == 4 || m == 6 || m == 9 || m == 11 then 30
    else 31
  }

  /** A day `datetime.date` can represent. */
  predicate ValidDate(d: Date) {
    && 1 <= d.year <= 9999
    && 1 <= d.month <= 12
    && 1 <= d.day <= DaysInMonth(d.year, d.month)
  }

  /** `%Y`: exactly four digits. */
  predicate YearText(y: string) {
    |y| == 4 && AllDigits(y)
  }

  /** `%m`: `1[0-2]`, `0[1-9]` or `[1-9]`, i.e. one or two digits worth 1..12. */
  predicate MonthText(m: string) {
    1 <= |m| <= 2 && AllDigits(m) && 1 <= DigitsValue(m) <= 12
  }

  /** `%d`: `3[01]`, `[12]\d`, `0[1-9]`, `[1-9]` or a space then `[1-9]`. */
  predicate DayText(d: string) {
    || (1 <= |d| <= 2 && AllDigits(d) && 1 <= DigitsValue(d) <= 31)
    || (|d| == 2 && d[0] == ' ' && IsDigit(d[1]) && d[1] != '0')
  }

  function DayValue(d: string): nat
    requires DayText(d)
  {
    if d[0] == ' ' then DigitValue(d[1]) else DigitsValue(d)
  }

  /** `datetime.strptime(s, "%Y-%m-%d")`: the date named, or `None` for the
      `ValueError` (text of another shape, or a day the calendar lacks). */
  function ParseIsoDate(s: string): (r: Option<Date>)
    ensures r.Some? ==> ValidDate(r.value)
  {
    var parts := SplitOn(s, '-');
    if |parts| == 3 && YearText(parts[0]) && MonthText(parts[1]) && DayText(parts[2]) then
      var d := Date(DigitsValue(parts[0]), DigitsValue(parts[1]), DayValue(parts[2]));
      if ValidDate(d) then Some(d) else None
    else None
  }

  predicate IsIsoDate(s: string) {
    ParseIsoDate(s).Some?
  }

  // ---------------------------------------------------------------------
  // Canonical rendering, the partner of parsing

  /** `n` as exactly `w` digits, zero-padded (`%04d` / `%02d`). */
  function Pad(n: nat, w: nat): (r: string)
    ensures |r| == w && AllDigits(r)
    ensures DigitsValue(r) == n % Pow10(w)
  {
    if w == 0 then ""
    else
      var prefix := Pad(n / 10, w - 1);
      var r := prefix + [DigitChar(n % 10)];
      assert r[..|r| - 1] == prefix;
      PadStep(n, w);
      r
  }

  /** The arithmetic behind one more digit of padding. */
  lemma PadStep(n: nat, w: nat)
    requires w > 0
    ensures (n / 10) % Pow10(w - 1) * 10 + n % 10 == n % Pow10(w)
  {
    var p := Pow10(w - 1);
    var q := n / 10;
    assert n == q * 10 + n % 10;
    assert q == (q / p) * p + q % p;
    assert n == (q / p) * (p * 10) + (q % p * 10 + n % 10);
    assert 0 <= q % p * 10 + n % 10 < p * 10;
    DivModUnique(n, p * 10, q / p, q % p * 10 + n % 10);
  }

  lemma DivModUnique(n: nat, m: nat, a: int, b: int)
    requires m > 0 && 0 <= b < m && n == a * m + b
    ensures n % m == b
  {
    var q, r := n / m, n % m;
    assert n == q * m + r;
    assert (a - q) * m == r - b;
    MulSmall(a - q, m);
  }

  lemma MulSmall(k: int, m: int)
    requires m > 0 && -m < k * m < m
    ensures k == 0
  {
  }

  /** `date.isoformat()`: `YYYY-MM-DD`, zero-padded. */
  function FormatDate(d: Date): string {
    Pad(d.year, 4) + "-" + Pad(d.month, 2) + "-" + Pad(d.day, 2)
  }

  /** Three dash-free pieces joined by dashes split back into the pieces. */
  lemma SplitThree(y: string, m: string, d: string)
    requires '-' !in y && '-' !in m && '-' !in d
    ensures SplitOn(y + "-" + m + "-" + d, '-') == [y, m, d]
  {
    assert y + "-" + m + "-" + d == y + ['-'] + (m + ['-'] + d);
    SplitOnCons(y, '-', m + ['-'] + d);
    SplitOnCons(m, '-', d);
    SplitOnNoSep(d, '-');
  }

  /** A number that fits in `w` digits pads to a text worth that number. */
  lemma PadSmall(n: nat, w: nat)
    requires n < Pow10(w)
    ensures DigitsValue(Pad(n, w)) == n
    ensures '-' !in Pad(n, w) && ' ' !in Pad(n, w)
  {
    DivModUnique(n, Pow10(w), 0, n);
    NoCharInDigits(Pad(n, w), '-');
    NoCharInDigits(Pad(n, w), ' ');
  }

  /** Every real day renders to text that parses back to that day. */
  lemma ParseFormat(d: Date)
    requires ValidDate(d)
    ensures ParseIsoDate(FormatDate(d)) == Some(d)
  {
    var y, m, dd := Pad(d.year, 4), Pad(d.month, 2), Pad(d.day, 2);
    assert Pow10(2) == 100 && Pow10(4) == 10000;
    PadSmall(d.year, 4);
    PadSmall(d.month, 2);
    PadSmall(d.day, 2);
    SplitThree(y, m, dd);
    var parts := SplitOn(FormatDate(d), '-');
    assert parts == [y, m, dd];
    assert YearText(y) && MonthText(m);
    assert dd[0] != ' ';
    assert DayText(dd) && DayValue(dd) == d.day;
  }

  /** Parsing accepts only canonical-or-short spellings of the same day:
      whatever it accepts, rendering the result and parsing again gives the
      same day back. */
  lemma ParseIsCanonical(s: string)
    requires IsIsoDate(s)
    ensures ParseIsoDate(FormatDate(ParseIsoDate(s).value)) == ParseIsoDate(s)
  {
    ParseFormat(ParseIsoDate(s).value);
  }

  // ---------------------------------------------------------------------
  // Text order of rendered dates

  /** Calendar order: earlier year, else earlier month, else earlier day. */
  predicate Before(a: Date, b: Date) {
    a.year < b.year || (a.year == b.year && (a.month < b.month || (a.month == b.month && a.day < b.day)))
  }

  /** Zero-padded numbers of one width compare as text exactly as they
      compare as numbers. */
  lemma {:induction false} PadOrder(n: nat, m: nat, w: nat)
    requires n < Pow10(w) && m < Pow10(w)
    ensures LexLess(Pad(n, w), Pad(m, w)) <==> n < m
    ensures Pad(n, w) == Pad(m, w) <==> n == m
    decreases w
  {
    if w > 0 {
      var p := Pow10(w - 1);
      DropLastDigit(n, p);
      DropLastDigit(m, p);
      PadOrder(n / 10, m / 10, w - 1);
      var a, b := Pad(n / 10, w - 1), Pad(m / 10, w - 1);
      assert Pad(n, w) == a + [DigitChar(n % 10)] && Pad(m, w) == b + [DigitChar(m % 10)];
      DigitStepOrder(a, b, n, m);
    } else {
      LexIrreflexive("");
    }
  }

  lemma DropLastDigit(n: nat, p: nat)
    requires n < 10 * p
    ensures n / 10 < p
  {
  }

  /** Appending one digit to texts that already compare as the numbers
      without their last digits makes them compare as the whole numbers. */
  lemma DigitStepOrder(a: string, b: string, n: nat, m: nat)
    requires |a| == |b|
    requires LexLess(a, b) <==> n / 10 < m / 10
    requires a == b <==> n / 10 == m / 10
    ensures LexLess(a + [DigitChar(n % 10)], b + [DigitChar(m % 10)]) <==> n < m
    ensures a + [DigitChar(n % 10)] == b + [DigitChar(m % 10)] <==> n == m
  {
    var c, d := DigitChar(n % 10), DigitChar(m % 10);
    LexConcat(a, b, [c], [d]);
    assert LexLess([c], [d]) <==> n % 10 < m % 10 by {
      assert [c][1..] == [] && [d][1..] == [];
      LexIrreflexive([]);
    }
    if a + [c] == b + [d] {
      assert (a + [c])[..|a|] == a && (b + [d])[..|b|] == b;
      assert (a + [c])[|a|] == c && (b + [d])[|b|] == d;
    }
    LastDigitOrder(n, m);
  }

  /** Numbers compare by all but their last digits, then by the last. */
  lemma LastDigitOrder(n: nat, m: nat)
    ensures n < m <==> n / 10 < m / 10 || (n / 10 == m / 10 && n % 10 < m % 10)
    ensures n == m <==> n / 10 == m / 10 && n % 10 == m % 10
  {
  }

  /** Three dash-separated pieces, the first two of equal widths on both
      sides, compare piece by piece. */
  lemma LexThree(y1: string, m1: string, d1: string, y2: string, m2: string, d2: string)
    requires |y1| == |y2| && |m1| == |m2|
    ensures LexLess(y1 + "-" + m1 + "-" + d1, y2 + "-" + m2 + "-" + d2) <==>
            LexLess(y1, y2) || (y1 == y2 && (LexLess(m1, m2) || (m1 == m2 && LexLess(d1, d2))))
  {
    var dash := "-";
    assert y1 + dash + m1 + dash + d1 == y1 + (dash + (m1 + (dash + d1)));
    assert y2 + dash + m2 + dash + d2 == y2 + (dash + (m2 + (dash + d2)));
    LexConcat(y1, y2, dash + (m1 + (dash + d1)), dash + (m2 + (dash + d2)));
    LexIrreflexive(dash);
    LexConcat(dash, dash, m1 + (dash + d1), m2 + (dash + d2));
    LexConcat(m1, m2, dash + d1, dash + d2);
    LexConcat(dash, dash, d1, d2);
  }

  /** Dates rendered as `YYYY-MM-DD` compare as text exactly as they compare
      on the calendar. */
  lemma IsoTextOrder(a: Date, b: Date)
    requires ValidDate(a) && ValidDate(b)
    ensures LexLess(FormatDate(a), FormatDate(b)) <==> Before(a, b)
  {
    assert Pow10(2) == 100 && Pow10(4) == 10000;
    PadOrder(a.year, b.year, 4);
    PadOrder(a.month, b.month, 2);
    PadOrder(a.day, b.day, 2);
    LexThree(Pad(a.year, 4), Pad(a.month, 2), Pad(a.day, 2), Pad(b.year, 4), Pad(b.month, 2), Pad(b.day, 2));
  }
}
