/** Decimal digits: rendering a non-negative integer the way Python's
    `str()` and `format(n, "0Nd")` do, and reading one back the way
    Python's `int(text)` does. */
module Decimal {
  import opened Wrappers
  import opened Text

  predicate IsDigit(c: char) {
    '0' <= c <= '9'
  }

  predicate AllDigits(s: string) {
    forall i :: 0 <= i < |s| ==> IsDigit(s[i])
  }

  function DigitValue(c: char): nat
    requires IsDigit(c)
  {
    (c as int) - ('0' as int)
  }

  function DigitChar(d: nat): (c: char)
    requires d < 10
    ensures IsDigit(c) && DigitValue(c) == d
  {
    ('0' as int + d) as char
  }

  /** The number a string of decimal digits denotes (leading zeros allowed). */
  function Value(s: string): nat
    requires AllDigits(s)
  {
    if |s| == 0 then 0 else Value(s[..|s| - 1]) * 10 + DigitValue(s[|s| - 1])
  }

  /** Python's `str(n)` for `n >= 0`: the shortest decimal rendering. */
  function Dec(n: nat): (s: string)
    ensures |s| >= 1 && AllDigits(s) && Value(s) == n
    ensures s[0] == '0' ==> s == "0"
  {
    if n < 10 then [DigitChar(n)]
    else
      var h := Dec(n / 10);
      var s := h + [DigitChar(n % 10)];
      assert s[..|s| - 1] == h;
      s
  }

  function Pow10(k: nat): (p: nat)
    ensures p >= 1
  {
    if k == 0 then 1 else 10 * Pow10(k - 1)
  }

  /** A number below `10^k` needs at most `k` digits. */
  lemma {:induction false} DecWidth(n: nat, k: nat)
    requires k >= 1 && n < Pow10(k)
    ensures |Dec(n)| <= k
  {
    if n >= 10 {
      DecWidth(n / 10, k - 1);
    }
  }

  function Zeros(k: nat): (z: string)
    ensures |z| == k && AllDigits(z)
    ensures forall i :: 0 <= i < k ==> z[i] == '0'
  {
    if k == 0 then "" else "0" + Zeros(k - 1)
  }

  /** Leading zeros do not change the value of a digit string. */
  lemma {:induction false} ValueLeadingZeros(k: nat, s: string)
    requires AllDigits(s)
    ensures AllDigits(Zeros(k) + s) && Value(Zeros(k) + s) == Value(s)
    decreases k, |s|
  {
    var t := Zeros(k) + s;
    assert AllDigits(t) by {
      forall i | 0 <= i < |t| ensures IsDigit(t[i]) {
        if i >= k {
          assert t[i] == s[i - k];
        }
      }
    }
    if k > 0 {
      if |s| == 0 {
        ValueLeadingZeros(k - 1, s);
        assert t == Zeros(k);
        assert t[..|t| - 1] == Zeros(k - 1) == Zeros(k - 1) + s;
        assert Value(t) == Value(Zeros(k - 1)) * 10 + DigitValue(t[|t| - 1]);
      } else {
        ValueLeadingZeros(k, s[..|s| - 1]);
        assert t[..|t| - 1] == Zeros(k) + s[..|s| - 1];
        assert t[|t| - 1] == s[|s| - 1];
        assert Value(t) == Value(Zeros(k) + s[..|s| - 1]) * 10 + DigitValue(s[|s| - 1]);
      }
    } else {
      assert t == s;
    }
  }

  /** Python's `format(n, "0{w}d")` for `n >= 0`: `str(n)` left-padded with
      zeros to width `w`. */
  function ZeroPad(n: nat, w: nat): (s: string)
    ensures AllDigits(s) && Value(s) == n
    ensures |s| == if |Dec(n)| < w then w else |Dec(n)|
  {
    var d := Dec(n);
    var k := if |d| < w then w - |d| else 0;
    ValueLeadingZeros(k, d);
    Zeros(k) + d
  }

  /** The body Python's `int()` accepts after its sign: digits, with single
      underscores allowed between two digits. */
  predicate IsDigitGroup(s: string) {
    && |s| > 0 && IsDigit(s[0]) && IsDigit(s[|s| - 1])
    && (forall i :: 0 <= i < |s| ==> IsDigit(s[i]) || s[i] == '_')
    && (forall i :: 0 <= i < |s| - 1 && s[i] == '_' ==> s[i + 1] != '_')
  }

  /** The digits of `s`, underscores dropped. */
  function DropUnderscores(s: string): (d: string)
    requires forall i :: 0 <= i < |s| ==> IsDigit(s[i]) || s[i] == '_'
    ensures AllDigits(d)
    ensures AllDigits(s) ==> d == s
  {
    if |s| == 0 then ""
    else (if s[0] == '_' then "" else [s[0]]) + DropUnderscores(s[1..])
  }

  /** The whitespace `int()` ignores around its number: the ASCII spaces
      `\t`..`\r` and ` `, and every non-ASCII character `str.isspace`
      accepts, which CPython turns into ` ` before it reads the number.
      The separators `\x1c`..`\x1f` pass `str.isspace` but are kept, so
      `int()` rejects them. */
  predicate IsIntSpace(c: char) {
    IsSpace(c) && !('\U{1C}' <= c <= '\U{1F}')
  }

  function IntStripLeft(s: string): (r: string)
    ensures |r| <= |s| && r == s[|s| - |r|..]
    ensures |r| > 0 ==> !IsIntSpace(r[0])
    ensures forall i :: 0 <= i < |s| - |r| ==> IsIntSpace(s[i])
  {
    if |s| > 0 && IsIntSpace(s[0]) then IntStripLeft(s[1..]) else s
  }

  function IntStripRight(s: string): (r: string)
    ensures |r| <= |s| && r == s[..|r|]
    ensures |r| > 0 ==> !IsIntSpace(r[|r| - 1])
    ensures forall i :: |r| <= i < |s| ==> IsIntSpace(s[i])
  {
    if |s| > 0 && IsIntSpace(s[|s| - 1]) then IntStripRight(s[..|s| - 1]) else s
  }

  /** The text `int()` reads: `text` without the whitespace `int()` ignores
      at either end. */
  function IntStrip(text: string): (t: string)
    ensures |t| <= |text|
    ensures |t| > 0 ==> !IsIntSpace(t[0]) && !IsIntSpace(t[|t| - 1])
  {
    IntStripRight(IntStripLeft(text))
  }

  /** Text with a non-space character at either end is read as it is. */
  lemma IntStripNoSpaceEnds(s: string)
    requires |s| > 0 && !IsIntSpace(s[0]) && !IsIntSpace(s[|s| - 1])
    ensures IntStrip(s) == s
  {
  }

  /** Python's `int(text)` on a string: `None` where it raises ValueError.
      Blank text raises; a number ends in a digit and is negative only
      after a `-`. */
  function PyInt(text: string): (r: Option<int>)
    ensures |IntStrip(text)| == 0 ==> r.None?
    ensures r.Some? ==> IsDigit(IntStrip(text)[|IntStrip(text)| - 1])
    ensures r.Some? && r.value < 0 ==> IntStrip(text)[0] == '-'
  {
    Stripped(IntStrip(text))
  }

  /** `int()` on text with no surrounding whitespace. */
  function Stripped(t: string): (r: Option<int>)
    ensures |t| == 0 ==> r.None?
    ensures r.Some? ==> IsDigit(t[|t| - 1])
    ensures r.Some? && r.value < 0 ==> t[0] == '-'
  {
    if |t| > 0 && (t[0] == '-' || t[0] == '+') then
      match Unsigned(t[1..])
      case None => None
      case Some(v) => Some(if t[0] == '-' then -v else v)
    else Unsigned(t)
  }

  /** The value of a digit group, `None` for anything else. */
  function Unsigned(t: string): Option<int> {
    if IsDigitGroup(t) then Some(Value(DropUnderscores(t))) else None
  }

  /** `int()` reads back any zero-padded decimal rendering. */
  lemma PyIntOfDigits(s: string)
    requires |s| > 0 && AllDigits(s)
    ensures PyInt(s) == Some(Value(s))
  {
    assert IntStrip(s) == s by {
      assert IsDigit(s[0]) && IsDigit(s[|s| - 1]);
      IntStripNoSpaceEnds(s);
    }
    StrippedDigits(s);
  }

  lemma StrippedDigits(s: string)
    requires |s| > 0 && AllDigits(s)
    ensures Stripped(s) == Some(Value(s))
  {
    assert s[0] != '-' && s[0] != '+' by {
      assert IsDigit(s[0]);
    }
    DigitsAreGroup(s);
    PyIntUnsigned(s);
  }

  lemma DigitsAreGroup(s: string)
    requires |s| > 0 && AllDigits(s)
    ensures IsDigitGroup(s) && DropUnderscores(s) == s
  {
    assert IsDigit(s[0]) && IsDigit(s[|s| - 1]);
  }

  /** An unsigned digit group reads as its value. */
  lemma PyIntUnsigned(t: string)
    requires |t| > 0 && t[0] != '-' && t[0] != '+' && IsDigitGroup(t)
    ensures Stripped(t) == Some(Value(DropUnderscores(t)))
  {
  }

  /** `int(str(n)) == n` for every `n >= 0`. */
  lemma PyIntDec(n: nat)
    ensures PyInt(Dec(n)) == Some(n)
  {
    PyIntOfDigits(Dec(n));
  }

  /** `int("-" + str(n)) == -n`. */
  lemma PyIntNegDec(n: nat)
    ensures PyInt("-" + Dec(n)).Some? && PyInt("-" + Dec(n)).value == 0 - n as int
  {
    var s := "-" + Dec(n);
    var d := Dec(n);
    assert s[|s| - 1] == d[|d| - 1];
    assert IsDigit(s[|s| - 1]);
    IntStripNoSpaceEnds(s);
    assert IntStrip(s) == s;
    assert s[1..] == d;
    assert IsDigitGroup(d);
    assert DropUnderscores(d) == d;
  }

  /** `int()` rejects text that starts with a character that is neither
      whitespace it ignores, a sign, nor a digit. */
  lemma PyIntRejectsStart(c: char, rest: string)
    requires !IsIntSpace(c) && !IsDigit(c) && c != '-' && c != '+'
    requires |rest| > 0 && !IsIntSpace(rest[|rest| - 1])
    ensures PyInt([c] + rest) == None
  {
    var t := [c] + rest;
    assert t[|t| - 1] == rest[|rest| - 1];
    IntStripNoSpaceEnds(t);
    assert !IsDigitGroup(t);
  }

  /** `k` digits denote a number below `10^k`. */
  lemma {:induction false} ValueBelow(s: string)
    requires AllDigits(s)
    ensures Value(s) < Pow10(|s|)
  {
    if |s| > 0 {
      var p := s[..|s| - 1];
      ValueBelow(p);
      assert Value(s) == Value(p) * 10 + DigitValue(s[|s| - 1]);
      assert Pow10(|s|) == 10 * Pow10(|p|);
    }
  }

  lemma DivTen(x: nat, q: nat, d: nat)
    requires d < 10 && x == q * 10 + d
    ensures x / 10 == q && x % 10 == d
  {
  }

  /** Digit strings of one length with one value are equal. */
  lemma {:induction false} ValueInjective(a: string, b: string)
    requires AllDigits(a) && AllDigits(b) && |a| == |b| && Value(a) == Value(b)
    ensures a == b
  {
    if |a| > 0 {
      var pa, pb := a[..|a| - 1], b[..|b| - 1];
      DivTen(Value(a), Value(pa), DigitValue(a[|a| - 1]));
      DivTen(Value(b), Value(pb), DigitValue(b[|b| - 1]));
      ValueInjective(pa, pb);
      assert a == pa + [a[|a| - 1]] && b == pb + [b[|b| - 1]];
    }
  }

  /** A digit string that starts with a non-zero digit denotes a positive
      number. */
  lemma {:induction false} ValuePositive(s: string)
    requires |s| > 0 && AllDigits(s) && s[0] != '0'
    ensures Value(s) >= 1
  {
    if |s| > 1 {
      var p := s[..|s| - 1];
      assert p[0] == s[0];
      ValuePositive(p);
    }
  }

  /** A digit string without a leading zero, or `0` itself, is `str()` of
      its value. */
  lemma {:induction false} DecOfMinimal(s: string)
    requires |s| > 0 && AllDigits(s) && (s[0] == '0' ==> |s| == 1)
    ensures Dec(Value(s)) == s
  {
    if |s| == 1 {
      assert Value(s) == Value(s[..0]) * 10 + DigitValue(s[0]);
      assert s == [DigitChar(Value(s))];
    } else {
      var p := s[..|s| - 1];
      var d := DigitValue(s[|s| - 1]);
      assert p[0] == s[0];
      ValuePositive(p);
      DecOfMinimal(p);
      DivTen(Value(s), Value(p), d);
      assert DigitChar(d) == s[|s| - 1];
      assert s == p + [s[|s| - 1]];
    }
  }
}
