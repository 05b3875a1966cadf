/** String helpers with PHP meaning: `trim()`, string truthiness, `strpos()`
    as a containment test, `implode()`, and decimal rendering of integers. */
module Text {

  // ---------------------------------------------------------------------
  // trim()
  // ---------------------------------------------------------------------

  /** The characters PHP's `trim()` strips when no character list is given:
      space, tab, line feed, carriage return, NUL and vertical tab. */
  predicate IsTrimChar(c: char) {
    c == ' ' || c == '\t' || c == '\n' || c == '\r' || c == 0 as char || c == 11 as char
  }

  predicate AllTrimChars(s: string) {
    forall i :: 0 <= i < |s| ==> IsTrimChar(s[i])
  }

  /** Drops the leading run of trim characters. */
  function TrimStart(s: string): (r: string)
    ensures |r| <= |s| && r == s[|s| - |r|..]
    ensures AllTrimChars(s[..|s| - |r|])
    ensures r == [] || !IsTrimChar(r[0])
  {
    if s != [] && IsTrimChar(s[0]) then TrimStart(s[1..]) else s
  }

  /** Drops the trailing run of trim characters. */
  function TrimEnd(s: string): (r: string)
    ensures |r| <= |s| && r == s[..|r|]
    ensures AllTrimChars(s[|r|..])
    ensures r == [] || !IsTrimChar(r[|r| - 1])
  {
    if s != [] && IsTrimChar(s[|s| - 1]) then TrimEnd(s[..|s| - 1]) else s
  }

  /** `r` sits at offset `a` of `s` with only trim characters around it. */
  predicate TrimmedAt(s: string, r: string, a: nat) {
    a + |r| <= |s| && r == s[a..a + |r|] && AllTrimChars(s[..a]) && AllTrimChars(s[a + |r|..])
  }

  /** PHP `trim($s)`: the infix of `s` that neither starts nor ends with a
      trim character and around which there are trim characters only. */
  function Trim(s: string): (r: string)
    ensures exists a: nat :: TrimmedAt(s, r, a)
    ensures r == [] || (!IsTrimChar(r[0]) && !IsTrimChar(r[|r| - 1]))
  {
    var t := TrimStart(s);
    var r := TrimEnd(t);
    TrimWitness(s, t, r);
    r
  }

  /** Dropping a leading run and then a trailing run leaves an infix at the
      offset where the leading run stopped, with non-trim characters at both
      ends. */
  lemma TrimWitness(s: string, t: string, r: string)
    requires |t| <= |s| && t == s[|s| - |t|..] && AllTrimChars(s[..|s| - |t|]) && (t == [] || !IsTrimChar(t[0]))
    requires |r| <= |t| && r == t[..|r|] && AllTrimChars(t[|r|..]) && (r == [] || !IsTrimChar(r[|r| - 1]))
    ensures TrimmedAt(s, r, |s| - |t|)
    ensures r == [] || (!IsTrimChar(r[0]) && !IsTrimChar(r[|r| - 1]))
  {
    var a := |s| - |t|;
    assert s[a..][..|r|] == s[a..a + |r|];
    assert s[a..][|r|..] == s[a + |r|..];
    assert r != [] ==> r[0] == t[0];
  }

  lemma {:induction false} TrimStartOfPadded(w: string, x: string)
    requires AllTrimChars(w)
    requires x == [] || !IsTrimChar(x[0])
    ensures TrimStart(w + x) == x
    decreases |w|
  {
    if w != [] {
      assert (w + x)[1..] == w[1..] + x;
      TrimStartOfPadded(w[1..], x);
    } else {
      assert w + x == x;
    }
  }

  lemma {:induction false} TrimEndOfPadded(x: string, w: string)
    requires AllTrimChars(w)
    requires x == [] || !IsTrimChar(x[|x| - 1])
    ensures TrimEnd(x + w) == x
    decreases |w|
  {
    if w != [] {
      assert (x + w)[..|x + w| - 1] == x + w[..|w| - 1];
      TrimEndOfPadded(x, w[..|w| - 1]);
    } else {
      assert x + w == x;
    }
  }

  /** Trimming recovers exactly the text between two runs of trim characters,
      and only that text: the reference description of `trim()` agrees with `Trim`. */
  lemma TrimOfPadded(w1: string, x: string, w2: string)
    requires AllTrimChars(w1) && AllTrimChars(w2)
    requires x == [] || (!IsTrimChar(x[0]) && !IsTrimChar(x[|x| - 1]))
    ensures Trim(w1 + x + w2) == x
  {
    if x == [] {
      assert w1 + x + w2 == w1 + w2;
      assert AllTrimChars(w1 + w2);
      TrimStartOfPadded(w1 + w2, []);
      assert w1 + w2 + [] == w1 + w2;
    } else {
      assert w1 + x + w2 == w1 + (x + w2);
      TrimStartOfPadded(w1, x + w2);
      TrimEndOfPadded(x, w2);
    }
  }

  /** Trimming an already trimmed string changes nothing. */
  lemma TrimIdempotent(s: string)
    ensures Trim(Trim(s)) == Trim(s)
  {
    var r := Trim(s);
    TrimOfPadded("", r, "");
    Unpadded(r);
  }

  lemma Unpadded(r: string)
    ensures "" + r + "" == r
  {
  }

  // ---------------------------------------------------------------------
  // truthiness, prefixes and containment
  // ---------------------------------------------------------------------

  /** PHP truthiness of a string: every string except "" and "0" is true. */
  predicate IsTruthy(s: string) {
    s != "" && s != "0"
  }

  predicate HasPrefix(s: string, p: string) {
    |p| <= |s| && s[..|p|] == p
  }

  /** `p + r` starts with `p` and continues with `r`. */
  lemma PrefixThen(p: string, r: string)
    ensures HasPrefix(p + r, p) && (p + r)[..|p|] == p && (p + r)[|p|..] == r
  {
  }

  lemma Assoc(a: string, b: string, c: string)
    ensures a + b + c == a + (b + c)
  {
  }

  /** Moves the parts after `a + b` into one right-nested tail. */
  lemma SplitAfter(a: string, b: string, c: string, d: string)
    ensures a + b + c + d == a + (b + (c + d))
  {
    Assoc(a + b, c, d);
    Assoc(a, b, c + d);
  }

  /** `strpos($s, $p) !== false`: `p` occurs somewhere in `s`. */
  predicate Contains(s: string, p: string)
    decreases |s|
  {
    HasPrefix(s, p) || (s != [] && Contains(s[1..], p))
  }

  lemma {:induction false} ContainsAppendRight(a: string, b: string, p: string)
    requires Contains(b, p)
    ensures Contains(a + b, p)
    decreases |a|
  {
    if a == [] {
      assert a + b == b;
    } else {
      assert (a + b)[1..] == a[1..] + b;
      ContainsAppendRight(a[1..], b, p);
    }
  }

  lemma {:induction false} ContainsAppendLeft(a: string, b: string, p: string)
    requires Contains(a, p)
    ensures Contains(a + b, p)
    decreases |a|
  {
    if HasPrefix(a, p) {
      assert (a + b)[..|p|] == a[..|p|];
    } else {
      assert (a + b)[1..] == a[1..] + b;
      ContainsAppendLeft(a[1..], b, p);
    }
  }

  /** Containment is the same as an occurrence at some position. */
  lemma {:induction false} ContainsAt(s: string, p: string, i: nat)
    requires i + |p| <= |s| && s[i..i + |p|] == p
    ensures Contains(s, p)
    decreases i
  {
    if i == 0 {
      assert s[..|p|] == s[0..|p|];
    } else {
      assert s[1..][i - 1..i - 1 + |p|] == s[i..i + |p|];
      ContainsAt(s[1..], p, i - 1);
    }
  }

  // ---------------------------------------------------------------------
  // implode()
  // ---------------------------------------------------------------------

  /** PHP `implode($sep, $xs)`. */
  function Join(xs: seq<string>, sep: string): string
  {
    if |xs| == 0 then ""
    else if |xs| == 1 then xs[0]
    else xs[0] + sep + Join(xs[1..], sep)
  }

  /** Every joined piece occurs in the joined string. */
  lemma {:induction false} JoinContainsEach(xs: seq<string>, sep: string, i: nat)
    requires i < |xs|
    ensures Contains(Join(xs, sep), xs[i])
    decreases |xs|
  {
    if i == 0 {
      if |xs| == 1 {
        assert HasPrefix(xs[0], xs[0]);
      } else {
        assert HasPrefix(xs[0] + sep + Join(xs[1..], sep), xs[0]);
      }
    } else {
      JoinContainsEach(xs[1..], sep, i - 1);
      ContainsAppendRight(xs[0] + sep, Join(xs[1..], sep), xs[i]);
    }
  }

  // ---------------------------------------------------------------------
  // decimal numbers
  // ---------------------------------------------------------------------

  predicate IsDigit(c: char) {
    '0' <= c <= '9'
  }

  predicate AllDigits(s: string) {
    forall i :: 0 <= i < |s| ==> IsDigit(s[i])
  }

  function DigitChar(d: nat): (c: char)
    requires d < 10
    ensures IsDigit(c) && c as int - '0' as int == d
  {
    (d + '0' as int) as char
  }

  /** A decimal numeral as PHP prints one: at least one digit, and no
      leading zero unless the numeral is `0` itself. */
  predicate Canonical(d: string) {
    d != [] && AllDigits(d) && (d[0] == '0' ==> |d| == 1)
  }

  /** Decimal rendering of a natural number, as PHP casts an int to a string. */
  function NatToString(n: nat): (r: string)
    ensures Canonical(r)
    ensures r[0] == '0' ==> n == 0
    decreases n
  {
    if n < 10 then [DigitChar(n)] else NatToString(n / 10) + [DigitChar(n % 10)]
  }

  /** The number a string of decimal digits denotes. */
  function DigitsValue(s: string): nat
    requires AllDigits(s)
  {
    if s == [] then 0 else DigitsValue(s[..|s| - 1]) * 10 + (s[|s| - 1] as int - '0' as int)
  }

  lemma {:induction false} NatToStringRoundTrip(n: nat)
    ensures DigitsValue(NatToString(n)) == n
    decreases n
  {
    if n >= 10 {
      NatToStringRoundTrip(n / 10);
      var r := NatToString(n);
      assert r[..|r| - 1] == NatToString(n / 10);
    }
  }

  /** Two canonical numerals with the same value are the same string, so a
      count has exactly one rendering. */
  lemma {:induction false} CanonicalUnique(a: string, b: string)
    requires Canonical(a) && Canonical(b) && DigitsValue(a) == DigitsValue(b)
    ensures a == b
    decreases |a|
  {
    if |a| >= 2 {
      LeadingValue(a);
      if |b| == 1 {
        assert false;
      }
      LeadingValue(b);
      CanonicalStep(a, b);
      CanonicalUnique(a[..|a| - 1], b[..|b| - 1]);
      assert a == a[..|a| - 1] + [a[|a| - 1]];
      assert b == b[..|b| - 1] + [b[|b| - 1]];
    } else if |b| >= 2 {
      LeadingValue(b);
      assert false;
    }
  }

  /** Dropping the last digit of two equal-valued numerals of two or more
      digits leaves equal-valued canonical numerals and equal last digits. */
  lemma CanonicalStep(a: string, b: string)
    requires Canonical(a) && Canonical(b) && |a| >= 2 && |b| >= 2 && DigitsValue(a) == DigitsValue(b)
    ensures Canonical(a[..|a| - 1]) && Canonical(b[..|b| - 1])
    ensures DigitsValue(a[..|a| - 1]) == DigitsValue(b[..|b| - 1]) && a[|a| - 1] == b[|b| - 1]
  {
    var x := a[|a| - 1] as int - '0' as int;
    var y := b[|b| - 1] as int - '0' as int;
    DigitSplit(DigitsValue(a[..|a| - 1]), x, DigitsValue(b[..|b| - 1]), y);
  }

  lemma DigitSplit(p: nat, x: int, q: nat, y: int)
    requires 0 <= x < 10 && 0 <= y < 10 && p * 10 + x == q * 10 + y
    ensures p == q && x == y
  {
    assert (p - q) * 10 == y - x;
  }

  /** A numeral of two or more digits without a leading zero is at least 10. */
  lemma {:induction false} LeadingValue(a: string)
    requires AllDigits(a) && |a| >= 1 && a[0] != '0'
    ensures DigitsValue(a) >= 1
    ensures |a| >= 2 ==> DigitsValue(a) >= 10
    decreases |a|
  {
    if |a| >= 2 {
      var init := a[..|a| - 1];
      assert init[0] == a[0];
      LeadingValue(init);
    }
  }

  /** Decimal rendering of an integer, with a leading minus sign when negative. */
  function IntToString(i: int): string
  {
    if i < 0 then "-" + NatToString(-i) else NatToString(i)
  }
}
