/** The string handling the loader and the record model rely on: Python's
    `str.strip()`, `str.split("\t")`, fixed-width decimal digits, and the
    decimal subset of `float()` used for lab values. */
module Text {
  import opened Errors

  /** The characters for which Python's `str.isspace()` holds. */
  predicate IsSpace(c: char) {
    c == ' ' || ('\t' <= c <= '\r') || ('\U{1C}' <= c <= '\U{1F}')
    || c == '\U{85}' || c == '\U{A0}' || c == '\U{1680}'
    || ('\U{2000}' <= c <= '\U{200A}') || c == '\U{2028}' || c == '\U{2029}'
    || c == '\U{202F}' || c == '\U{205F}' || c == '\U{3000}'
  }

  predicate AllSpace(s: string) {
    forall i :: 0 <= i < |s| ==> IsSpace(s[i])
  }

  /** Drops the leading whitespace. */
  function TrimLeft(s: string): string {
    if |s| > 0 && IsSpace(s[0]) then TrimLeft(s[1..]) else s
  }

  /** `TrimLeft` keeps the suffix of `s` that starts at its first non-space
      character. */
  lemma {:induction false} TrimLeftShape(s: string)
    ensures var r := TrimLeft(s);
      |r| <= |s| && r == s[|s| - |r|..] && AllSpace(s[..|s| - |r|])
      && (r == [] || !IsSpace(r[0]))
    decreases |s|
  {
    if |s| > 0 && IsSpace(s[0]) {
      TrimLeftShape(s[1..]);
      var r := TrimLeft(s[1..]);
      assert s[..|s| - |r|] == [s[0]] + s[1..][..|s| - 1 - |r|];
    }
  }

  /** Drops the trailing whitespace. */
  function TrimRight(s: string): string {
    if |s| > 0 && IsSpace(s[|s| - 1]) then TrimRight(s[..|s| - 1]) else s
  }

  /** `TrimRight` keeps the prefix of `s` that ends at its last non-space
      character. */
  lemma {:induction false} TrimRightShape(s: string)
    ensures var r := TrimRight(s);
      |r| <= |s| && r == s[..|r|] && AllSpace(s[|r|..])
      && (r == [] || !IsSpace(r[|r| - 1]))
    decreases |s|
  {
    if |s| > 0 && IsSpace(s[|s| - 1]) {
      TrimRightShape(s[..|s| - 1]);
      var r := TrimRight(s[..|s| - 1]);
      assert s[|r|..] == s[..|s| - 1][|r|..] + [s[|s| - 1]];
    }
  }

  /** Python's `str.strip()` without an argument. */
  function Strip(s: string): (r: string)
    ensures |r| <= |s|
    ensures r == [] || (!IsSpace(r[0]) && !IsSpace(r[|r| - 1]))
  {
    TrimLeftShape(s);
    TrimRightShape(TrimLeft(s));
    TrimRight(TrimLeft(s))
  }

  lemma {:induction false} TrimLeftPadded(w: string, m: string)
    requires AllSpace(w)
    requires m == [] || !IsSpace(m[0])
    ensures TrimLeft(w + m) == m
    decreases |w|
  {
    if |w| > 0 {
      assert (w + m)[1..] == w[1..] + m;
      TrimLeftPadded(w[1..], m);
    } else {
      assert w + m == m;
    }
  }

  lemma {:induction false} TrimRightPadded(m: string, w: string)
    requires AllSpace(w)
    requires m == [] || !IsSpace(m[|m| - 1])
    ensures TrimRight(m + w) == m
    decreases |w|
  {
    if |w| > 0 {
      assert (m + w)[..|m + w| - 1] == m + w[..|w| - 1];
      TrimRightPadded(m, w[..|w| - 1]);
    } else {
      assert m + w == m;
    }
  }

  /** `strip()` removes exactly the surrounding whitespace: whatever sits
      between two runs of whitespace, and neither starts nor ends with one,
      is what comes back. */
  lemma StripPadded(w1: string, m: string, w2: string)
    requires AllSpace(w1) && AllSpace(w2)
    requires m == [] || (!IsSpace(m[0]) && !IsSpace(m[|m| - 1]))
    ensures Strip(w1 + m + w2) == m
  {
    if m == [] {
      assert w1 + m + w2 == w1 + w2;
      assert AllSpace(w1 + w2);
      TrimLeftPadded(w1 + w2, []);
      assert w1 + w2 + [] == w1 + w2;
    } else {
      assert w1 + m + w2 == w1 + (m + w2);
      TrimLeftPadded(w1, m + w2);
      TrimRightPadded(m, w2);
    }
  }

  /** Python's `sep.join(fields)` for a one-character separator. */
  function Join(fields: seq<string>, sep: char): string
    requires |fields| >= 1
    decreases |fields|
  {
    if |fields| == 1 then fields[0] else fields[0] + [sep] + Join(fields[1..], sep)
  }

  lemma JoinGlue(c: char, fields: seq<string>, sep: char)
    requires |fields| >= 1
    ensures Join([[c] + fields[0]] + fields[1..], sep) == [c] + Join(fields, sep)
  {
    var g := [[c] + fields[0]] + fields[1..];
    assert g[0] == [c] + fields[0];
    assert g[1..] == fields[1..];
  }

  /** Python's `s.split(sep)` with an explicit one-character separator: the
      pieces between separators, empty pieces included, never an empty list. */
  function Split(s: string, sep: char): (r: seq<string>)
    ensures |r| >= 1
    ensures forall k :: 0 <= k < |r| ==> sep !in r[k]
    ensures Join(r, sep) == s
    decreases |s|
  {
    if |s| == 0 then [""]
    else
      var rest := Split(s[1..], sep);
      if s[0] == sep then
        assert ([""] + rest)[1..] == rest;
        assert s == [sep] + s[1..];
        [""] + rest
      else
        JoinGlue(s[0], rest, sep);
        assert s == [s[0]] + s[1..];
        [[s[0]] + rest[0]] + rest[1..]
  }

  lemma {:induction false} SplitWithoutSeparator(x: string, sep: char)
    requires sep !in x
    ensures Split(x, sep) == [x]
    decreases |x|
  {
    if |x| > 0 {
      SplitWithoutSeparator(x[1..], sep);
      assert x == [x[0]] + x[1..];
    }
  }

  lemma {:induction false} SplitAtSeparator(x: string, y: string, sep: char)
    requires sep !in x
    ensures Split(x + [sep] + y, sep) == [x] + Split(y, sep)
    decreases |x|
  {
    var s := x + [sep] + y;
    if |x| == 0 {
      assert s[1..] == y;
    } else {
      assert s[1..] == x[1..] + [sep] + y;
      SplitAtSeparator(x[1..], y, sep);
      assert x == [x[0]] + x[1..];
    }
  }

  /** Splitting undoes joining: fields that hold no separator come back one
      for one, empty fields included. */
  lemma {:induction false} SplitJoin(fields: seq<string>, sep: char)
    requires |fields| >= 1
    requires forall k :: 0 <= k < |fields| ==> sep !in fields[k]
    ensures Split(Join(fields, sep), sep) == fields
    decreases |fields|
  {
    if |fields| == 1 {
      SplitWithoutSeparator(fields[0], sep);
    } else {
      SplitJoin(fields[1..], sep);
      SplitAtSeparator(fields[0], Join(fields[1..], sep), sep);
      assert fields == [fields[0]] + fields[1..];
    }
  }

  predicate IsDigit(c: char) {
    '0' <= c <= '9'
  }

  predicate AllDigits(s: string) {
    forall i :: 0 <= i < |s| ==> IsDigit(s[i])
  }

  function Pow10(n: nat): (p: nat)
    ensures p >= 1
  {
    if n == 0 then 1 else 10 * Pow10(n - 1)
  }

  /** The number a string of decimal digits denotes (Python's `int()` on ASCII digits). */
  function DigitsValue(ds: string): (v: nat)
    requires AllDigits(ds)
    ensures v < Pow10(|ds|)
  {
    if |ds| == 0 then 0
    else DigitsValue(ds[..|ds| - 1]) * 10 + (ds[|ds| - 1] as int - '0' as int)
  }

  /** `n` written with exactly `width` decimal digits, zero-padded on the left
      (the fields of a timestamp). */
  function Pad(n: nat, width: nat): (s: string)
    ensures |s| == width && AllDigits(s)
  {
    if width == 0 then [] else Pad(n / 10, width - 1) + [('0' as int + n % 10) as char]
  }

  /** A number below `10^width` reads back from its padded digits. */
  lemma {:induction false} PadValue(n: nat, width: nat)
    requires n < Pow10(width)
    ensures DigitsValue(Pad(n, width)) == n
  {
    if width > 0 {
      PadValue(n / 10, width - 1);
      var s := Pad(n, width);
      assert s[..|s| - 1] == Pad(n / 10, width - 1);
    }
  }

  /** Reading digits and writing them back at the same width gives the same string. */
  lemma {:induction false} PadDigitsValue(ds: string)
    requires AllDigits(ds)
    ensures Pad(DigitsValue(ds), |ds|) == ds
    decreases |ds|
  {
    if |ds| > 0 {
      var init := ds[..|ds| - 1];
      var d := ds[|ds| - 1] as int - '0' as int;
      PadDigitsValue(init);
      var v := DigitsValue(ds);
      assert v == DigitsValue(init) * 10 + d;
      assert v / 10 == DigitsValue(init) && v % 10 == d;
      assert ds == init + [ds[|ds| - 1]];
    }
  }

  /** Index of the first `c` in `s`, or `|s|` when there is none. */
  function FirstIndexOf(s: string, c: char): (k: nat)
    ensures k <= |s|
    ensures k < |s| ==> s[k] == c
    ensures forall j :: 0 <= j < k ==> s[j] != c
  {
    if |s| == 0 then 0
    else if s[0] == c then 0
    else 1 + FirstIndexOf(s[1..], c)
  }

  /** The value of the digits after a decimal point: ".25" is 0.25. */
  function FractionValue(frac: string): (r: real)
    requires AllDigits(frac)
    ensures 0.0 <= r < 1.0
  {
    if frac == [] then 0.0
    else ((frac[0] as int - '0' as int) as real + FractionValue(frac[1..])) / 10.0
  }

  /** The number written as `whole` digits, a point and `frac` digits. */
  function DecimalValue(whole: string, frac: string): (r: real)
    requires AllDigits(whole) && AllDigits(frac)
    ensures r >= 0.0
  {
    DigitsValue(whole) as real + FractionValue(frac)
  }

  /** An unsigned decimal: digits, at most one point, at least one digit. */
  function ParseUnsigned(t: string): (r: Option<real>)
    ensures r.Some? ==> r.value >= 0.0
  {
    var k := FirstIndexOf(t, '.');
    var whole := t[..k];
    var frac := if k < |t| then t[k + 1..] else [];
    if AllDigits(whole) && AllDigits(frac) && |whole| + |frac| > 0 then
      Some(DecimalValue(whole, frac))
    else None
  }

  /** The part of Python's `float()` the lab values use: surrounding
      whitespace, an optional sign, and an unsigned decimal. */
  function ParseNumber(s: string): (r: Option<real>)
    ensures r.Some? ==> |Strip(s)| > 0
    ensures r.Some? && r.value < 0.0 ==> Strip(s)[0] == '-'
  {
    ParseSigned(Strip(s))
  }

  /** A stripped number: an optional sign, then an unsigned decimal. */
  function ParseSigned(t: string): (r: Option<real>)
    ensures r.Some? ==> |t| > 0
    ensures r.Some? && r.value < 0.0 ==> t[0] == '-'
  {
    var signed := |t| > 0 && (t[0] == '+' || t[0] == '-');
    match ParseUnsigned(if signed then t[1..] else t)
    case None => None
    case Some(v) => Some(if signed && t[0] == '-' then -v else v)
  }

  /** A plain run of digits is an unsigned decimal with no fractional part. */
  lemma ParseUnsignedDigits(ds: string)
    requires |ds| >= 1 && AllDigits(ds)
    ensures ParseUnsigned(ds) == Some(DigitsValue(ds) as real)
  {
    var k := FirstIndexOf(ds, '.');
    assert forall j :: 0 <= j < |ds| ==> ds[j] != '.';
    assert k == |ds|;
    assert ds[..k] == ds;
  }

  /** A string that neither starts nor ends with whitespace is its own strip. */
  lemma StripUnpadded(s: string)
    requires s == [] || (!IsSpace(s[0]) && !IsSpace(s[|s| - 1]))
    ensures Strip(s) == s
  {
    StripPadded([], s, []);
    assert [] + s + [] == s;
  }

  /** A whole number written in decimal reads back as the number its digits
      denote ("50" is 50.0). */
  lemma {:induction false} ParseNumberOfDigits(ds: string)
    requires |ds| >= 1 && AllDigits(ds)
    ensures ParseNumber(ds) == Some(DigitsValue(ds) as real)
  {
    assert IsDigit(ds[0]) && IsDigit(ds[|ds| - 1]);
    StripUnpadded(ds);
    ParseUnsignedDigits(ds);
    assert "" + ds == ds;
    ParseSignedOf("", ds);
  }

  /** With a minus sign in front it reads back as the negated number. */
  lemma {:induction false} ParseNumberOfNegativeDigits(s: string)
    requires |s| >= 2 && s[0] == '-' && AllDigits(s[1..])
    ensures ParseNumber(s) == Some(-(DigitsValue(s[1..]) as real))
  {
    var ds := s[1..];
    assert IsDigit(ds[0]) && IsDigit(ds[|ds| - 1]) && s[|s| - 1] == ds[|ds| - 1];
    StripUnpadded(s);
    ParseUnsignedDigits(ds);
    assert "-" + ds == s;
    ParseSignedOf("-", ds);
  }

  lemma ShiftDigit(a: int, q: int, x: int, l: int)
    ensures (a * q + x) * 10 + l == a * (10 * q) + (x * 10 + l)
  {
  }

  /** A number of digits read from the front: the first digit counts
      `10^(n-1)` times. */
  lemma {:induction false} DigitsValueCons(d: char, rest: string)
    requires IsDigit(d) && AllDigits(rest)
    ensures AllDigits([d] + rest)
    ensures DigitsValue([d] + rest) == (d as int - '0' as int) * Pow10(|rest|) + DigitsValue(rest)
    decreases |rest|
  {
    var ds := [d] + rest;
    assert AllDigits(ds) by {
      forall i | 0 <= i < |ds| ensures IsDigit(ds[i]) {
        if i > 0 { assert ds[i] == rest[i - 1]; }
      }
    }
    if |rest| > 0 {
      var init := rest[..|rest| - 1];
      var l := rest[|rest| - 1] as int - '0' as int;
      DigitsValueCons(d, init);
      assert DigitsValue(ds) == DigitsValue([d] + init) * 10 + l by {
        assert ds[..|ds| - 1] == [d] + init;
        assert ds[|ds| - 1] == rest[|rest| - 1];
      }
      assert DigitsValue(rest) == DigitsValue(init) * 10 + l;
      ShiftDigit(d as int - '0' as int, Pow10(|init|), DigitsValue(init), l);
    }
  }

  /** `x` times ten, `n` times over. */
  function Scale(x: real, n: nat): real
  {
    if n == 0 then x else Scale(x, n - 1) * 10.0
  }

  lemma {:induction false} ScaleSum(x: real, y: real, n: nat)
    ensures Scale(x + y, n) == Scale(x, n) + Scale(y, n)
  {
    if n > 0 { ScaleSum(x, y, n - 1); }
  }

  lemma {:induction false} ScaleTenth(x: real, n: nat)
    ensures Scale(x / 10.0, n + 1) == Scale(x, n)
  {
    if n > 0 { ScaleTenth(x, n - 1); }
  }

  lemma {:induction false} ScaleInt(m: int, n: nat)
    ensures Scale(m as real, n) == (m * Pow10(n)) as real
  {
    if n > 0 {
      ScaleInt(m, n - 1);
      ShiftDigit(m, Pow10(n - 1), 0, 0);
    }
  }

  /** The digits after a decimal point denote their value over the matching
      power of ten: ".25" is 25 / 100. */
  lemma {:induction false} FractionValueDigits(frac: string)
    requires AllDigits(frac)
    ensures Scale(FractionValue(frac), |frac|) == DigitsValue(frac) as real
    decreases |frac|
  {
    if frac != [] {
      var rest := frac[1..];
      var a := frac[0] as int - '0' as int;
      FractionValueDigits(rest);
      ScaleTenth(a as real + FractionValue(rest), |rest|);
      ScaleSum(a as real, FractionValue(rest), |rest|);
      ScaleInt(a, |rest|);
      assert frac == [frac[0]] + rest;
      DigitsValueCons(frac[0], rest);
    }
  }

  /** The first occurrence of a character that `x` does not hold is right
      after `x`. */
  lemma {:induction false} FirstIndexAfter(x: string, c: char, y: string)
    requires c !in x
    ensures FirstIndexOf(x + [c] + y, c) == |x|
    decreases |x|
  {
    if |x| > 0 {
      assert (x + [c] + y)[1..] == x[1..] + [c] + y;
      FirstIndexAfter(x[1..], c, y);
    }
  }

  /** Digits, a point and further digits: the whole part plus the fraction. */
  lemma {:induction false} ParseUnsignedDecimal(whole: string, frac: string)
    requires |whole| >= 1 && AllDigits(whole) && AllDigits(frac)
    ensures ParseUnsigned(whole + "." + frac) == Some(DecimalValue(whole, frac))
  {
    var u := whole + "." + frac;
    assert '.' !in whole by {
      forall i | 0 <= i < |whole| ensures whole[i] != '.' {
        assert IsDigit(whole[i]);
      }
    }
    FirstIndexAfter(whole, '.', frac);
    assert u == whole + ['.'] + frac;
    assert u[..|whole|] == whole && u[|whole| + 1..] == frac;
  }

  /** A sign in front negates or keeps the unsigned reading of the rest,
      whatever that reading is. */
  lemma {:induction false} ParseSignedOf(sign: string, u: string)
    requires sign == "" || sign == "+" || sign == "-"
    requires |u| > 0 && (IsDigit(u[0]) || u[0] == '.')
    ensures ParseSigned(sign + u) == match ParseUnsigned(u)
      case None => None
      case Some(v) => Some(if sign == "-" then -v else v)
  {
    var t := sign + u;
    if sign != "" {
      assert t[0] == sign[0] && t[1..] == u;
    } else {
      assert t == u && !(t[0] == '+' || t[0] == '-');
    }
  }

  lemma AppendAssoc(a: string, b: string, c: string)
    ensures a + b + c == a + (b + c)
  {
  }

  /** `strip()` of a signed number between whitespace is the signed number. */
  lemma {:induction false} StripSigned(w1: string, sign: string, u: string, w2: string)
    requires AllSpace(w1) && AllSpace(w2)
    requires sign == "" || sign == "+" || sign == "-"
    requires |u| > 0 && !IsSpace(u[0]) && !IsSpace(u[|u| - 1])
    ensures Strip(w1 + sign + u + w2) == sign + u
  {
    var m := sign + u;
    assert m[0] == (if sign == "" then u[0] else sign[0]);
    assert m[|m| - 1] == u[|u| - 1];
    StripPadded(w1, m, w2);
    AppendAssoc(w1, sign, u);
  }

  /** Surrounding whitespace is ignored and a sign in front negates or keeps
      the unsigned reading of the rest, whatever that reading is. */
  lemma {:induction false} ParseNumberPadded(w1: string, sign: string, u: string, w2: string)
    requires AllSpace(w1) && AllSpace(w2)
    requires sign == "" || sign == "+" || sign == "-"
    requires |u| > 0 && (IsDigit(u[0]) || u[0] == '.') && (IsDigit(u[|u| - 1]) || u[|u| - 1] == '.')
    ensures ParseNumber(w1 + sign + u + w2) == match ParseUnsigned(u)
      case None => None
      case Some(v) => Some(if sign == "-" then -v else v)
  {
    StripSigned(w1, sign, u, w2);
    ParseSignedOf(sign, u);
  }
}
