/** The handful of Python string built-ins the application leans on, written
    out over `seq<char>`: `strip`, `split`, `join`, `upper`/`lower` and the
    lexicographic `<` of `str`.  Only ASCII whitespace and letters are
    modelled. */
module Text {
  // ---------------------------------------------------------------------
  // Whitespace, strip

  /** Whitespace as `str.strip()` / `str.split()` see it, ASCII part only:
      space, \t \n \v \f \r and the separators \x1c..\x1f. */
  predicate IsSpace(c: char) {
    c == ' ' || ('\t' <= c <= '\r') || ('\U{1C}' <= c <= '\U{1F}')
  }

  predicate AllSpace(s: string) {
    forall i :: 0 <= i < |s| ==> IsSpace(s[i])
  }

  predicate NoSpace(s: string) {
    forall i :: 0 <= i < |s| ==> !IsSpace(s[i])
  }

  /** No whitespace at either end: the texts `strip()` leaves alone. */
  predicate Trimmed(s: string) {
    s == [] || (!IsSpace(s[0]) && !IsSpace(s[|s| - 1]))
  }

  /** `s.lstrip()`: the suffix left after dropping leading whitespace. */
  function TrimLeft(s: string): (r: string)
    ensures |r| <= |s| && r == s[|s| - |r|..]
    ensures forall i :: 0 <= i < |s| - |r| ==> IsSpace(s[i])
    ensures r == [] || !IsSpace(r[0])
    decreases |s|
  {
    if |s| > 0 && IsSpace(s[0]) then TrimLeft(s[1..]) else s
  }

  /** `s.rstrip()`: the prefix left after dropping trailing whitespace. */
  function TrimRight(s: string): (r: string)
    ensures |r| <= |s| && r == s[..|r|]
    ensures forall i :: |r| <= i < |s| ==> IsSpace(s[i])
    ensures r == [] || !IsSpace(r[|r| - 1])
    decreases |s|
  {
    if |s| > 0 && IsSpace(s[|s| - 1]) then TrimRight(s[..|s| - 1]) else s
  }

  /** `s.strip()`. */
  function Strip(s: string): (r: string)
    ensures |r| <= |s|
    ensures r == [] || (!IsSpace(r[0]) && !IsSpace(r[|r| - 1]))
    ensures r == [] <==> AllSpace(s)
  {
    var t := TrimLeft(s);
    TrimLeftEmpty(s);
    var r := TrimRight(t);
    assert t != [] ==> !IsSpace(t[0]);
    r
  }

  /** Left-trimming empties exactly the all-whitespace texts. */
  lemma TrimLeftEmpty(s: string)
    ensures TrimLeft(s) == [] <==> AllSpace(s)
  {
    var t := TrimLeft(s);
    if t != [] {
      assert s[|s| - |t|] == t[0];
    }
  }

  /** Leading whitespace makes no difference to `lstrip`. */
  lemma {:induction false} TrimLeftSkips(pre: string, x: string)
    requires AllSpace(pre)
    ensures TrimLeft(pre + x) == TrimLeft(x)
    decreases |pre|
  {
    if |pre| > 0 {
      assert (pre + x)[0] == pre[0];
      assert (pre + x)[1..] == pre[1..] + x;
      TrimLeftSkips(pre[1..], x);
    } else {
      assert pre + x == x;
    }
  }

  /** Trailing whitespace makes no difference to `rstrip`. */
  lemma {:induction false} TrimRightSkips(x: string, post: string)
    requires AllSpace(post)
    ensures TrimRight(x + post) == TrimRight(x)
    decreases |post|
  {
    if |post| > 0 {
      var xp := x + post;
      assert xp[|xp| - 1] == post[|post| - 1];
      assert xp[..|xp| - 1] == x + post[..|post| - 1];
      TrimRightSkips(x, post[..|post| - 1]);
    } else {
      assert x + post == x;
    }
  }

  /** Stripping a text that neither starts nor ends with whitespace, padded
      with whitespace on both sides, gives the text back. */
  lemma StripAround(pre: string, d: string, post: string)
    requires AllSpace(pre) && AllSpace(post)
    requires |d| > 0 && !IsSpace(d[0]) && !IsSpace(d[|d| - 1])
    ensures Strip(pre + d + post) == d
  {
    assert pre + d + post == pre + (d + post);
    TrimLeftSkips(pre, d + post);
    assert (d + post)[0] == d[0];
    assert TrimLeft(d + post) == d + post;
    TrimRightSkips(d, post);
    assert TrimRight(d) == d;
  }

  /** A text with no whitespace at either end strips to itself. */
  lemma StripTrimmed(d: string)
    requires |d| > 0 && !IsSpace(d[0]) && !IsSpace(d[|d| - 1])
    ensures Strip(d) == d
  {
    assert TrimLeft(d) == d;
    assert TrimRight(d) == d;
  }

  /** Stripping twice is stripping once. */
  lemma StripIdempotent(s: string)
    ensures Strip(Strip(s)) == Strip(s)
  {
    var r := Strip(s);
    if r != [] {
      assert TrimLeft(r) == r;
      assert TrimRight(r) == r;
    }
  }

  // ---------------------------------------------------------------------
  // Case mapping (ASCII letters; every other character is unchanged)

  function LowerChar(c: char): char {
    if 'A' <= c <= 'Z' then (c as int + 32) as char else c
  }

  function UpperChar(c: char): char {
    if 'a' <= c <= 'z' then (c as int - 32) as char else c
  }

  /** `s.lower()`. */
  function Lower(s: string): (r: string)
    ensures |r| == |s|
    ensures forall i :: 0 <= i < |s| ==> r[i] == LowerChar(s[i])
  {
    seq(|s|, i requires 0 <= i < |s| => LowerChar(s[i]))
  }

  /** `s.upper()`. */
  function Upper(s: string): (r: string)
    ensures |r| == |s|
    ensures forall i :: 0 <= i < |s| ==> r[i] == UpperChar(s[i])
  {
    seq(|s|, i requires 0 <= i < |s| => UpperChar(s[i]))
  }

  /** Lower-casing leaves no upper-case ASCII letter and is idempotent. */
  lemma LowerIdempotent(s: string)
    ensures forall i :: 0 <= i < |s| ==> !('A' <= Lower(s)[i] <= 'Z')
    ensures Lower(Lower(s)) == Lower(s)
  {
  }

  // ---------------------------------------------------------------------
  // split / join

  /** `"".join` with a separator: `sep.join(parts)`. */
  function JoinWith(parts: seq<string>, sep: string): string
    decreases |parts|
  {
    if |parts| == 0 then ""
    else if |parts| == 1 then parts[0]
    else parts[0] + sep + JoinWith(parts[1..], sep)
  }

  /** `s.split(sep)` for a one-character separator: always at least one
      part, no part contains the separator, and joining the parts back with
      the separator gives `s` again. */
  function SplitOn(s: string, sep: char): (parts: seq<string>)
    ensures |parts| >= 1
    ensures forall i :: 0 <= i < |parts| ==> sep !in parts[i]
    ensures JoinWith(parts, [sep]) == s
    decreases |s|
  {
    if |s| == 0 then [""]
    else
      var rest := SplitOn(s[1..], sep);
      if s[0] == sep then
        assert JoinWith([""] + rest, [sep]) == "" + [sep] + JoinWith(rest, [sep]);
        [""] + rest
      else
        var parts := [[s[0]] + rest[0]] + rest[1..];
        assert parts[1..] == rest[1..];
        assert JoinWith(parts, [sep]) == [s[0]] + JoinWith(rest, [sep]);
        parts
  }

  /** Splitting a text whose first part is `a` yields `a`, then the parts of
      the remainder. */
  lemma {:induction false} SplitOnCons(a: string, sep: char, rest: string)
    requires sep !in a
    ensures SplitOn(a + [sep] + rest, sep) == [a] + SplitOn(rest, sep)
    decreases |a|
  {
    if |a| == 0 {
      assert (a + [sep] + rest)[0] == sep;
      assert (a + [sep] + rest)[1..] == rest;
    } else {
      assert (a + [sep] + rest)[1..] == a[1..] + [sep] + rest;
      SplitOnCons(a[1..], sep, rest);
      assert a == [a[0]] + a[1..];
    }
  }

  /** A text without the separator splits into itself alone. */
  lemma {:induction false} SplitOnNoSep(s: string, sep: char)
    requires sep !in s
    ensures SplitOn(s, sep) == [s]
    decreases |s|
  {
    if |s| > 0 {
      SplitOnNoSep(s[1..], sep);
      assert s == [s[0]] + s[1..];
    }
  }

  /** The longest prefix of `t` that holds no whitespace. */
  function Word(t: string): (w: string)
    ensures |w| <= |t| && w == t[..|w|]
    ensures NoSpace(w)
    ensures |w| == |t| || IsSpace(t[|w|])
    decreases |t|
  {
    if |t| == 0 || IsSpace(t[0]) then []
    else [t[0]] + Word(t[1..])
  }

  /** A list of words: non-empty runs of non-whitespace. */
  predicate Words(ws: seq<string>) {
    forall i :: 0 <= i < |ws| ==> |ws[i]| > 0 && NoSpace(ws[i])
  }

  lemma WordsCons(w: string, ws: seq<string>)
    requires |w| > 0 && NoSpace(w) && Words(ws)
    ensures Words([w] + ws)
  {
  }

  /** `s.split()` with no argument: the maximal runs of non-whitespace;
      there are none exactly when `s` is all whitespace. */
  function SplitWs(s: string): (words: seq<string>)
    ensures Words(words)
    ensures |words| == 0 <==> AllSpace(s)
    decreases |s|
  {
    var t := TrimLeft(s);
    TrimLeftEmpty(s);
    if |t| == 0 then []
    else
      var w := Word(t);
      assert |w| > 0;
      var tail := SplitWs(t[|w|..]);
      WordsCons(w, tail);
      [w] + tail
  }

  /** A word followed by nothing or by a blank reads back as that word. */
  lemma {:induction false} WordOfPrefix(w: string, rest: string)
    requires NoSpace(w) && (rest == [] || IsSpace(rest[0]))
    ensures Word(w + rest) == w
    decreases |w|
  {
    if |w| == 0 {
      assert w + rest == rest;
    } else {
      assert (w + rest)[0] == w[0];
      assert (w + rest)[1..] == w[1..] + rest;
      WordOfPrefix(w[1..], rest);
      assert w == [w[0]] + w[1..];
    }
  }

  /** Blanks, a word, then a text that starts with a blank (or nothing):
      the split is that word followed by the split of the rest. */
  lemma SplitWsCons(pre: string, w: string, rest: string)
    requires AllSpace(pre) && |w| > 0 && NoSpace(w)
    requires rest == [] || IsSpace(rest[0])
    ensures SplitWs(pre + w + rest) == [w] + SplitWs(rest)
  {
    var t := w + rest;
    BlanksBeforeWord(pre, w, rest);
    WordOfPrefix(w, rest);
    assert t[|w|..] == rest;
  }

  lemma BlanksBeforeWord(pre: string, w: string, rest: string)
    requires AllSpace(pre) && |w| > 0 && NoSpace(w)
    ensures TrimLeft(pre + w + rest) == w + rest
  {
    assert pre + w + rest == pre + (w + rest);
    TrimLeftSkips(pre, w + rest);
    assert (w + rest)[0] == w[0];
  }

  // ---------------------------------------------------------------------
  // Lexicographic order of str

  /** Python's `a < b` on `str`: code-point lexicographic order, a proper
      prefix being smaller. */
  predicate LexLess(a: string, b: string)
    decreases |a|
  {
    if |a| == 0 then |b| > 0
    else if |b| == 0 then false
    else if a[0] == b[0] then LexLess(a[1..], b[1..])
    else a[0] < b[0]
  }

  lemma {:induction false} LexIrreflexive(a: string)
    ensures !LexLess(a, a)
    decreases |a|
  {
    if |a| > 0 {
      LexIrreflexive(a[1..]);
    }
  }

  lemma {:induction false} LexTrichotomy(a: string, b: string)
    ensures a == b || LexLess(a, b) || LexLess(b, a)
    decreases |a|
  {
    if |a| > 0 && |b| > 0 && a[0] == b[0] {
      LexTrichotomy(a[1..], b[1..]);
      if a[1..] == b[1..] {
        assert a == [a[0]] + a[1..] && b == [b[0]] + b[1..];
      }
    }
  }

  lemma {:induction false} LexAsymmetric(a: string, b: string)
    requires LexLess(a, b)
    ensures !LexLess(b, a)
    decreases |a|
  {
    if |a| > 0 && a[0] == b[0] {
      LexAsymmetric(a[1..], b[1..]);
    }
  }

  lemma {:induction false} LexTransitive(a: string, b: string, c: string)
    requires LexLess(a, b) && LexLess(b, c)
    ensures LexLess(a, c)
    decreases |a|
  {
    if |a| > 0 && a[0] == b[0] && b[0] == c[0] {
      LexTransitive(a[1..], b[1..], c[1..]);
    }
  }

  /** Comparing two texts that start with pieces of equal length compares
      those pieces first and the remainders only on a tie. */
  lemma {:induction false} LexConcat(p: string, q: string, r: string, t: string)
    requires |p| == |q|
    ensures LexLess(p + r, q + t) <==> LexLess(p, q) || (p == q && LexLess(r, t))
    decreases |p|
  {
    if |p| == 0 {
      assert p + r == r && q + t == t;
    } else {
      assert (p + r)[0] == p[0] && (q + t)[0] == q[0];
      assert (p + r)[1..] == p[1..] + r && (q + t)[1..] == q[1..] + t;
      LexConcat(p[1..], q[1..], r, t);
      if p[0] == q[0] && p[1..] == q[1..] {
        assert p == [p[0]] + p[1..] && q == [q[0]] + q[1..];
      }
    }
  }
}
