/** The Option datatype used for results that may be absent. */
module Wrappers {
  datatype Option<T> = None | Some(value: T)
}

/**
 * The small pieces of Python's text handling the tracker relies on:
 * `str.strip()`, `int(...)` on a string, `str(int)` and the `>w` format
 * specification that right-aligns a value in a field of width w.
 */
module Text {
  import opened Wrappers

  /** The characters for which Python's `str.isspace()` holds, which `strip()` discards. */
  predicate IsSpace(c: char) {
    || ('\t' <= c <= '\r')
    || ('\U{1C}' <= c <= ' ')
    || c == '\U{85}' || c == '\U{A0}' || c == '\U{1680}'
    || ('\U{2000}' <= c <= '\U{200A}')
    || c == '\U{2028}' || c == '\U{2029}' || c == '\U{202F}' || c == '\U{205F}' || c == '\U{3000}'
  }

  /** Drops leading white space: the result is the longest suffix of `s` that starts with a non-space. */
  function TrimLeft(s: string): (r: string)
    ensures |r| <= |s| && r == s[|s| - |r|..]
    ensures r != [] ==> !IsSpace(r[0])
    ensures forall i :: 0 <= i < |s| - |r| ==> IsSpace(s[i])
  {
    if s != [] && IsSpace(s[0]) then TrimLeft(s[1..]) else s
  }

  /** Drops trailing white space: the result is the longest prefix of `s` that ends with a non-space. */
  function TrimRight(s: string): (r: string)
    ensures |r| <= |s| && r == s[..|r|]
    ensures r != [] ==> !IsSpace(r[|r| - 1])
    ensures forall i :: |r| <= i < |s| ==> IsSpace(s[i])
  {
    if s != [] && IsSpace(s[|s| - 1]) then TrimRight(s[..|s| - 1]) else s
  }

  /** Python's `s.strip()`. */
  function Strip(s: string): (r: string)
    ensures |r| <= |s|
    ensures r != [] ==> !IsSpace(r[0]) && !IsSpace(r[|r| - 1])
  {
    TrimRight(TrimLeft(s))
  }

  /** `strip()` leaves nothing exactly when the text is all white space. */
  lemma StripBlank(s: string)
    ensures Strip(s) == [] <==> forall i :: 0 <= i < |s| ==> IsSpace(s[i])
  {
  }

  predicate IsDigit(c: char) { '0' <= c <= '9' }

  predicate AllDigits(d: string) { forall i :: 0 <= i < |d| ==> IsDigit(d[i]) }

  function DigitValue(c: char): (n: nat)
    requires IsDigit(c)
    ensures n < 10
  {
    c as int - '0' as int
  }

  function DigitChar(n: nat): (c: char)
    requires n < 10
    ensures IsDigit(c) && DigitValue(c) == n
  {
    ('0' as int + n) as char
  }

  /** The value of a string of decimal digits, most significant digit first. */
  function DigitsValue(d: string): nat
    requires AllDigits(d)
  {
    if d == [] then 0 else 10 * DigitsValue(d[..|d| - 1]) + DigitValue(d[|d| - 1])
  }

  function ParseDigits(d: string): (r: Option<nat>)
    ensures r.Some? <==> d != [] && AllDigits(d)
  {
    if d != [] && AllDigits(d) then Some(DigitsValue(d)) else None
  }

  /**
   * Python's `int(s)` restricted to ASCII decimal digits: surrounding white
   * space is ignored, then an optional sign and at least one digit must make
   * up the rest. `None` stands for the `ValueError` Python raises. The white
   * space ignored here is whatever `strip()` removes; CPython's `int()` skips
   * a slightly smaller set (it rejects the separators U+001C to U+001F in an
   * otherwise ASCII text), which matters only for loaded fields, since the
   * add action strips its input first.
   */
  function ParseInt(s: string): (r: Option<int>)
    ensures r.Some? ==> Strip(s) != [] && !IsSpace(Strip(s)[0])
    ensures r.Some? ==> (Strip(s)[0] == '-' <==> r.value < 0) || r.value == 0
  {
    var t := Strip(s);
    if t != [] && (t[0] == '-' || t[0] == '+') then
      match ParseDigits(t[1..])
      case Some(n) => Some(if t[0] == '-' then -(n as int) else n as int)
      case None => None
    else
      ParseDigits(t)
  }

  /** The decimal digits of `n`, without leading zeros. */
  function NatStr(n: nat): (r: string)
    ensures r != [] && AllDigits(r)
    ensures |r| == 1 <==> n < 10
    ensures r[0] == '0' <==> n == 0
    decreases n
  {
    if n < 10 then [DigitChar(n)] else NatStr(n / 10) + [DigitChar(n % 10)]
  }

  /** Python's `str(n)` for an integer. */
  function Str(n: int): (r: string)
    ensures r != [] && !IsSpace(r[0]) && !IsSpace(r[|r| - 1])
    ensures r[0] == '-' <==> n < 0
    ensures r[0] == '0' <==> n == 0
  {
    if n < 0 then "-" + NatStr(-n) else NatStr(n)
  }

  function Spaces(n: nat): (r: string)
    ensures |r| == n && forall i :: 0 <= i < n ==> r[i] == ' '
  {
    if n == 0 then "" else " " + Spaces(n - 1)
  }

  /** Python's format specification `>w`: pad on the left with spaces to width `w`, never truncate. */
  function RightAlign(s: string, w: nat): (r: string)
    ensures |r| == if |s| < w then w else |s|
    ensures r[|r| - |s|..] == s
    ensures forall i :: 0 <= i < |r| - |s| ==> r[i] == ' '
  {
    if |s| < w then Spaces(w - |s|) + s else s
  }

  lemma {:induction false} DigitsValueOfNatStr(n: nat)
    ensures DigitsValue(NatStr(n)) == n
    decreases n
  {
    var d := NatStr(n);
    if n >= 10 {
      DigitsValueOfNatStr(n / 10);
      assert d[..|d| - 1] == NatStr(n / 10);
    }
  }

  lemma StripUnpadded(s: string)
    requires s != [] && !IsSpace(s[0]) && !IsSpace(s[|s| - 1])
    ensures Strip(s) == s
  {
  }

  /** Stripping twice is stripping once. */
  lemma StripIdempotent(s: string)
    ensures Strip(Strip(s)) == Strip(s)
  {
    if Strip(s) != [] {
      StripUnpadded(Strip(s));
    }
  }

  /** `int()` sees only the stripped text. */
  lemma ParseIntSameStrip(s: string, t: string)
    requires Strip(s) == Strip(t)
    ensures ParseInt(s) == ParseInt(t)
  {
  }

  /** `int()` strips its argument itself, so stripping first changes nothing. */
  lemma ParseIntStripped(s: string)
    ensures ParseInt(Strip(s)) == ParseInt(s)
  {
    StripIdempotent(s);
    ParseIntSameStrip(Strip(s), s);
  }

  /** Leading white space does not reach `int()`. */
  lemma {:induction false} TrimLeftSkipsSpaces(p: string, s: string)
    requires forall i :: 0 <= i < |p| ==> IsSpace(p[i])
    ensures TrimLeft(p + s) == TrimLeft(s)
    decreases |p|
  {
    if p == [] {
      assert p + s == s;
    } else {
      assert (p + s)[1..] == p[1..] + s;
      TrimLeftSkipsSpaces(p[1..], s);
    }
  }

  /** `int(str(n)) == n`: printing an integer and reading it back is the identity. */
  lemma ParseStr(n: int)
    ensures ParseInt(Str(n)) == Some(n)
  {
    var s := Str(n);
    StripUnpadded(s);
    if n < 0 {
      DigitsValueOfNatStr(-n);
      assert s[1..] == NatStr(-n);
    } else {
      DigitsValueOfNatStr(n);
    }
  }

  /** Reading back a right-aligned integer: the padding is white space, which `int()` ignores. */
  lemma ParseRightAligned(n: int, w: nat)
    ensures ParseInt(RightAlign(Str(n), w)) == Some(n)
  {
    var s := Str(n);
    var r := RightAlign(s, w);
    assert Strip(r) == Strip(s) by {
      if |s| < w {
        TrimLeftSkipsSpaces(Spaces(w - |s|), s);
      }
    }
    ParseIntSameStrip(r, s);
    ParseStr(n);
  }
}
