/** Python's `int()` and `float()` applied to text, and `str()` of a natural
    number.  Only ASCII digits are modelled; `float()` yields exact reals
    rather than binary64 values. */
module Numbers {
  import opened Outcomes
  import opened Text

  // ---------------------------------------------------------------------
  // Digits

  predicate IsDigit(c: char) {
    '0' <= c <= '9'
  }

  predicate AllDigits(s: string) {
    forall i :: 0 <= i < |s| ==> IsDigit(s[i])
  }

  predicate DigitOrUnderscore(c: char) {
    IsDigit(c) || c == '_'
  }

  predicate DigitsAndUnderscores(s: string) {
    forall i :: 0 <= i < |s| ==> DigitOrUnderscore(s[i])
  }

  /** Python's `digitpart`: decimal digits, where a single underscore may
      stand between two digits (`1_000`). */
  predicate IsDigitPart(s: string) {
    && |s| > 0
    && IsDigit(s[0])
    && IsDigit(s[|s| - 1])
    && DigitsAndUnderscores(s)
    && (forall i :: 0 < i < |s| && s[i] == '_' ==> s[i - 1] != '_')
  }

  function DigitValue(c: char): nat
    requires IsDigit(c)
  {
    c as int - '0' as int
  }

  function DigitChar(d: nat): char
    requires d < 10
  {
    ('0' as int + d) as char
  }

  /** The value of a digit part, most significant digit first; underscores
      only separate groups. */
  function DigitsValue(s: string): nat
    requires DigitsAndUnderscores(s)
    decreases |s|
  {
    if |s| == 0 then 0
    else if s[|s| - 1] == '_' then DigitsValue(s[..|s| - 1])
    else DigitsValue(s[..|s| - 1]) * 10 + DigitValue(s[|s| - 1])
  }

  /** How many digits (not underscores) a digit part holds. */
  function DigitCount(s: string): nat
    decreases |s|
  {
    if |s| == 0 then 0
    else DigitCount(s[..|s| - 1]) + (if IsDigit(s[|s| - 1]) then 1 else 0)
  }

  function Pow10(n: nat): (p: nat)
    ensures p > 0
  {
    if n == 0 then 1 else 10 * Pow10(n - 1)
  }

  // ---------------------------------------------------------------------
  // str(n)

  /** `str(n)` for a natural number: digits only, no superfluous leading
      zero, and reading the digits back yields `n`. */
  function NatToString(n: nat): (r: string)
    ensures |r| > 0 && AllDigits(r)
    ensures r[0] != '0' || r == "0"
    ensures DigitsValue(r) == n
    decreases n
  {
    if n < 10 then [DigitChar(n)]
    else
      var prefix := NatToString(n / 10);
      var r := prefix + [DigitChar(n % 10)];
      assert r[..|r| - 1] == prefix;
      r
  }

  lemma AllDigitsIsDigitPart(s: string)
    requires |s| > 0 && AllDigits(s)
    ensures IsDigitPart(s)
    ensures !IsSpace(s[0]) && !IsSpace(s[|s| - 1])
  {
    assert IsDigit(s[0]) && IsDigit(s[|s| - 1]);
  }

  // ---------------------------------------------------------------------
  // int()

  /** The digits after an optional sign, as an integer. */
  function SignedDigits(t: string): Option<int> {
    if |t| > 0 && (t[0] == '+' || t[0] == '-') then
      if IsDigitPart(t[1..]) then
        var v: int := DigitsValue(t[1..]);
        Some(if t[0] == '-' then -v else v)
      else None
    else if IsDigitPart(t) then Some(DigitsValue(t))
    else None
  }

  /** `int(s)` on text: surrounding whitespace, an optional sign and a digit
      part.  `None` stands for the `ValueError`. */
  function ParseInt(s: string): (r: Option<int>)
    ensures AllSpace(s) ==> r.None?
    ensures r.Some? ==> IsDigit(Strip(s)[|Strip(s)| - 1])
  {
    SignedDigits(Strip(s))
  }

  /** `int(str(n)) == n`, also with whitespace around the digits. */
  lemma ParseIntOfNat(n: nat, pre: string, post: string)
    requires AllSpace(pre) && AllSpace(post)
    ensures ParseInt(pre + NatToString(n) + post) == Some(n)
  {
    var d := NatToString(n);
    AllDigitsIsDigitPart(d);
    StripAround(pre, d, post);
  }

  /** `int(d)` for a non-empty run of digits is the value they spell. */
  lemma ParseIntOfDigits(d: string)
    requires |d| > 0 && AllDigits(d)
    ensures ParseInt(d) == Some(DigitsValue(d) as int)
  {
    AllDigitsIsDigitPart(d);
    StripTrimmed(d);
    assert d[0] != '+' && d[0] != '-';
  }

  // ---------------------------------------------------------------------
  // float()

  /** What `float()` can return: a finite value, an infinity, or NaN. */
  datatype Float = Finite(v: real) | Infinite(negative: bool) | NaN

  /** Python's `number`: `digitpart`, `digitpart.`, `.digitpart` or
      `digitpart.digitpart`. */
  function Mantissa(m: string): Option<real> {
    var parts := SplitOn(m, '.');
    if |parts| == 1 then
      if IsDigitPart(m) then Some(DigitsValue(m) as real) else None
    else if && |parts| == 2
            && (parts[0] == "" || IsDigitPart(parts[0]))
            && (parts[1] == "" || IsDigitPart(parts[1]))
            && (parts[0] != "" || parts[1] != "") then
      Some(DigitsValue(parts[0]) as real
           + (DigitsValue(parts[1]) as real) / (Pow10(DigitCount(parts[1])) as real))
    else None
  }

  /** `x * 10 ** e` computed exactly. */
  function Scale(x: real, e: int): real {
    if e >= 0 then x * (Pow10(e) as real) else x / (Pow10(-e) as real)
  }

  /** An unsigned float literal, already lower-cased. */
  function UnsignedFloat(b: string): Option<Float> {
    if b == "inf" || b == "infinity" then Some(Infinite(false))
    else if b == "nan" then Some(NaN)
    else
      var parts := SplitOn(b, 'e');
      if |parts| == 1 then
        match Mantissa(b)
        case Some(x) => Some(Finite(x))
        case None => None
      else if |parts| == 2 then
        match (Mantissa(parts[0]), SignedDigits(parts[1]))
        case (Some(x), Some(e)) => Some(Finite(Scale(x, e)))
        case _ => None
      else None
  }

  function Negate(f: Float): Float {
    match f
    case Finite(v) => Finite(-v)
    case Infinite(neg) => Infinite(!neg)
    case NaN => NaN
  }

  /** `float(s)` on text: surrounding whitespace, an optional sign, then a
      decimal with optional exponent, or `inf`/`infinity`/`nan` in any case.
      `None` stands for the `ValueError`. */
  function ParseFloat(s: string): (r: Option<Float>)
    ensures AllSpace(s) ==> r.None?
  {
    var t := Lower(Strip(s));
    if |t| > 0 && (t[0] == '+' || t[0] == '-') then
      match UnsignedFloat(t[1..])
      case Some(f) => Some(if t[0] == '-' then Negate(f) else f)
      case None => None
    else UnsignedFloat(t)
  }

  /** Text `float()` accepts. */
  predicate IsNumber(s: string) {
    ParseFloat(s).Some?
  }

  /** A finite number within `[lo, hi]`; NaN and the infinities fail every
      such comparison chain. */
  predicate InRange(f: Float, lo: real, hi: real) {
    f.Finite? && lo <= f.v <= hi
  }

  lemma LowerDigits(d: string)
    requires AllDigits(d)
    ensures Lower(d) == d
  {
  }

  lemma NoCharInDigits(d: string, c: char)
    requires AllDigits(d) && !IsDigit(c)
    ensures c !in d
  {
    forall i | 0 <= i < |d|
      ensures d[i] != c
    {
      assert IsDigit(d[i]);
    }
  }

  /** A plain run of digits is an unsigned float literal of its value. */
  lemma UnsignedFloatOfDigits(d: string)
    requires |d| > 0 && AllDigits(d)
    ensures UnsignedFloat(d) == Some(Finite(DigitsValue(d) as real))
  {
    AllDigitsIsDigitPart(d);
    NoCharInDigits(d, 'e');
    NoCharInDigits(d, '.');
    SplitOnNoSep(d, 'e');
    SplitOnNoSep(d, '.');
    assert Mantissa(d) == Some(DigitsValue(d) as real);
    assert d != "inf" && d != "infinity" && d != "nan" by {
      assert IsDigit(d[0]);
    }
  }

  /** A run of digits, with whitespace around it or not, reads as its
      integer value. */
  lemma ParseFloatOfDigits(pre: string, d: string, post: string)
    requires AllSpace(pre) && AllSpace(post)
    requires |d| > 0 && AllDigits(d)
    ensures ParseFloat(pre + d + post) == Some(Finite(DigitsValue(d) as real))
  {
    AllDigitsIsDigitPart(d);
    StripAround(pre, d, post);
    LowerDigits(d);
    assert IsDigit(d[0]);
    UnsignedFloatOfDigits(d);
  }

  /** `float(str(n)) == n` for every natural number. */
  lemma ParseFloatOfNat(n: nat)
    ensures ParseFloat(NatToString(n)) == Some(Finite(n as real))
  {
    var d := NatToString(n);
    ParseFloatOfDigits("", d, "");
    assert "" + d + "" == d;
  }
}
