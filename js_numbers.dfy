/** JavaScript's number coercions as the bot uses them: `~~x` (ToInt32 of
    ToNumber) on strings and on integral numbers, and `String(n)` for the
    integers it prints. Numbers are kept as exact decimal values; the
    rounding of ToNumber to the nearest IEEE double is not modelled. */
module JsNumbers {
  import opened JsStrings

  const TWO_31: int := 0x8000_0000
  const TWO_32: int := 0x1_0000_0000

  predicate IsInt32(n: int)
  {
    -TWO_31 <= n < TWO_31
  }

  /** ToInt32 of an integral number, which is what `~~n` computes: the value
      modulo 2^32, read as a signed 32-bit integer. */
  function Wrap32(n: int): (r: int)
    ensures IsInt32(r)
    ensures (r - n) % TWO_32 == 0
    ensures IsInt32(n) ==> r == n
  {
    var m := n % TWO_32;
    if m >= TWO_31 then m - TWO_32 else m
  }

  /** The result of ToNumber on a string: NaN, an infinity, or the exact
      value (-1)^negative * mantissa * 10^exponent of the literal read. */
  datatype Number = NaN | Infinite(negative: bool) | Finite(negative: bool, mantissa: nat, exponent: int)

  function Pow(base: nat, e: nat): (r: nat)
    ensures base >= 1 ==> r >= 1
  {
    if e == 0 then 1 else base * Pow(base, e - 1)
  }

  /** The absolute value of a finite number, truncated toward zero: with a
      negative exponent, the largest m with m * 10^-exponent <= mantissa. */
  function Magnitude(x: Number): (m: nat)
    requires x.Finite?
    ensures x.exponent == 0 ==> m == x.mantissa
    ensures x.exponent < 0 ==>
      m * Pow(10, -x.exponent) <= x.mantissa < (m + 1) * Pow(10, -x.exponent)
  {
    if x.exponent >= 0 then x.mantissa * Pow(10, x.exponent)
    else Quotient(x.mantissa, Pow(10, -x.exponent))
  }

  /** Integer division of naturals, with the bounds that define it. */
  function Quotient(a: nat, b: nat): (q: nat)
    requires b >= 1
    ensures q * b <= a < (q + 1) * b
  {
    var q := a / b;
    DivisionBounds(a, b);
    assert q * b <= a < (q + 1) * b;
    q
  }

  lemma DivisionBounds(a: nat, b: nat)
    requires b >= 1
    ensures (a / b) * b <= a < (a / b + 1) * b
  {
    var q, r := a / b, a % b;
    assert a == q * b + r && 0 <= r < b;
  }

  /** Truncation toward zero, the first step of ToInt32: the sign of the
      number and its magnitude with any fractional part dropped. */
  function Truncate(x: Number): (r: int)
    requires x.Finite?
    ensures x.negative ==> r <= 0
    ensures !x.negative ==> r >= 0
    ensures var a := if r < 0 then -r else r;
      && (x.exponent >= 0 ==> a == x.mantissa * Pow(10, x.exponent))
      && (x.exponent < 0 ==> a * Pow(10, -x.exponent) <= x.mantissa < (a + 1) * Pow(10, -x.exponent))
  {
    if x.negative then 0 - Magnitude(x) else Magnitude(x)
  }

  /** ToInt32: NaN and the infinities become 0; a finite number becomes its
      truncation modulo 2^32, read as a signed 32-bit integer. */
  function NumberToInt32(x: Number): (r: int)
    ensures IsInt32(r)
    ensures !x.Finite? ==> r == 0
    ensures x.Finite? ==> (r - Truncate(x)) % TWO_32 == 0
  {
    if x.Finite? then Wrap32(Truncate(x)) else 0
  }

  /** A digit of the given radix (2, 8, 10 or 16; letters in either case). */
  predicate IsDigit(c: char, radix: nat)
  {
    ('0' <= c <= '9' && (c as int - '0' as int) < radix) ||
    (radix == 16 && ('a' <= c <= 'f' || 'A' <= c <= 'F'))
  }

  function DigitValue(c: char): (d: nat)
  {
    if '0' <= c <= '9' then c as int - '0' as int
    else if 'a' <= c <= 'f' then c as int - 'a' as int + 10
    else if 'A' <= c <= 'F' then c as int - 'A' as int + 10
    else 0
  }

  predicate AllDigits(s: string, radix: nat)
  {
    forall i :: 0 <= i < |s| ==> IsDigit(s[i], radix)
  }

  /** The value of a digit string, most significant digit first. */
  function DigitsValue(s: string, radix: nat): (v: nat)
    requires AllDigits(s, radix)
  {
    if s == [] then 0
    else DigitsValue(s[..|s| - 1], radix) * radix + DigitValue(s[|s| - 1])
  }

  /** Index of the first character of `s` that occurs in `cs`, or `|s|`. */
  function IndexOfAny(s: string, cs: string): (i: nat)
    ensures i <= |s|
    ensures i < |s| ==> s[i] in cs
    ensures forall k :: 0 <= k < i ==> s[k] !in cs
  {
    if s == [] then 0
    else if s[0] in cs then 0
    else 1 + IndexOfAny(s[1..], cs)
  }

  /** SignedInteger of the exponent part: an optional sign and at least one
      decimal digit. */
  predicate IsSignedInteger(s: string)
  {
    if |s| > 0 && (s[0] == '+' || s[0] == '-') then |s| > 1 && AllDigits(s[1..], 10)
    else |s| > 0 && AllDigits(s, 10)
  }

  function SignedIntegerValue(s: string): int
    requires IsSignedInteger(s)
  {
    if s[0] == '+' then DigitsValue(s[1..], 10)
    else if s[0] == '-' then 0 - DigitsValue(s[1..], 10)
    else DigitsValue(s, 10)
  }

  /** StrUnsignedDecimalLiteral: `Infinity`, or digits with an optional
      fraction and an optional exponent, where at least one digit stands
      before or after the point. Anything else reads as NaN. */
  function ParseUnsignedDecimal(u: string): (x: Number)
    ensures x.Finite? ==> !x.negative
    ensures x.Infinite? ==> !x.negative
  {
    if u == "Infinity" then Infinite(false)
    else
      var e := IndexOfAny(u, "eE");
      var mantissa := u[..e];
      var dot := IndexOfAny(mantissa, ".");
      var intPart := mantissa[..dot];
      var fraction := if dot < |mantissa| then mantissa[dot + 1..] else "";
      var exponentText := if e < |u| then u[e + 1..] else "";
      if !AllDigits(intPart, 10) || !AllDigits(fraction, 10) || (intPart == [] && fraction == []) then NaN
      else if e < |u| && !IsSignedInteger(exponentText) then NaN
      else
        var exponent := if e < |u| then SignedIntegerValue(exponentText) else 0;
        Finite(false, DigitsValue(intPart + fraction, 10), exponent - |fraction|)
  }

  function Negate(x: Number): Number
  {
    match x
    case NaN => NaN
    case Infinite(n) => Infinite(!n)
    case Finite(n, m, e) => Finite(!n, m, e)
  }

  /** ToNumber applied to a string (StringToNumber): surrounding whitespace is
      ignored, the empty string is 0, `0x`/`0o`/`0b` introduce an unsigned
      hexadecimal, octal or binary integer, and otherwise an optionally
      signed decimal literal is read. */
  function StringToNumber(s: string): (x: Number)
    ensures Trim(s) == [] ==> x == Finite(false, 0, 0)
    ensures |s| >= 1 && AllDigits(s, 10) ==> x == Finite(false, DigitsValue(s, 10), 0)
  {
    var t := Trim(s);
    if t == [] then Finite(false, 0, 0)
    else if |t| >= 2 && t[0] == '0' && t[1] in "xXoObB" then
      var radix := if t[1] in "xX" then 16 else if t[1] in "oO" then 8 else 2;
      if |t| > 2 && AllDigits(t[2..], radix) then Finite(false, DigitsValue(t[2..], radix), 0) else NaN
    else if t[0] == '+' then ParseUnsignedDecimal(t[1..])
    else if t[0] == '-' then Negate(ParseUnsignedDecimal(t[1..]))
    else
      assert |s| >= 1 && AllDigits(s, 10) ==> ParseUnsignedDecimal(t) == Finite(false, DigitsValue(s, 10), 0) by {
        if |s| >= 1 && AllDigits(s, 10) {
          DigitsHaveNoWhitespace(s);
          DigitStringIsUnsignedDecimal(s);
        }
      }
      ParseUnsignedDecimal(t)
  }

  /** `~~v` for a string `v`: a 32-bit integer; for a string of decimal
      digits, leading zeros included, the value of the digits modulo 2^32. */
  function StringToInt32(s: string): (r: int)
    ensures IsInt32(r)
    ensures |s| >= 1 && AllDigits(s, 10) ==> r == Wrap32(DigitsValue(s, 10))
  {
    NumberToInt32(StringToNumber(s))
  }

  /** `String(n)` for a natural number: its decimal digits, no leading zero. */
  function NatToString(n: nat): (s: string)
    ensures |s| >= 1 && AllDigits(s, 10)
    ensures |s| > 1 ==> s[0] != '0'
  {
    var last := [('0' as int + n % 10) as char];
    if n < 10 then last else NatToString(n / 10) + last
  }

  /** `String(n)` for an integer: a minus sign before the digits of `|n|`. */
  function IntToString(n: int): (s: string)
    ensures |s| >= 1
    ensures forall i :: 0 <= i < |s| ==> IsDigit(s[i], 10) || (i == 0 && n < 0 && s[i] == '-')
  {
    if n < 0 then "-" + NatToString(-n) else NatToString(n)
  }

  lemma {:induction false} NatToStringValue(n: nat)
    ensures DigitsValue(NatToString(n), 10) == n
  {
    var s := NatToString(n);
    if n >= 10 {
      NatToStringValue(n / 10);
      assert s[..|s| - 1] == NatToString(n / 10);
    }
  }

  lemma DigitsHaveNoWhitespace(u: string)
    requires AllDigits(u, 10)
    ensures NoWhitespace(u)
  {
    assert forall i :: 0 <= i < |u| ==> '0' <= u[i] <= '9';
  }

  lemma DigitStringIsUnsignedDecimal(u: string)
    requires |u| >= 1 && AllDigits(u, 10)
    ensures ParseUnsignedDecimal(u) == Finite(false, DigitsValue(u, 10), 0)
  {
    assert u != "Infinity" by { assert !IsDigit("Infinity"[0], 10); }
    DigitsHaveNoMarker(u, "eE");
    DigitsHaveNoMarker(u, ".");
    PlainMantissa(u);
  }

  /** A literal without exponent or point is read as its digits. */
  lemma PlainMantissa(u: string)
    requires |u| >= 1 && AllDigits(u, 10) && u != "Infinity"
    requires IndexOfAny(u, "eE") == |u| && IndexOfAny(u, ".") == |u|
    ensures ParseUnsignedDecimal(u) == Finite(false, DigitsValue(u, 10), 0)
  {
    assert u[..|u|] == u;
    assert u + "" == u;
  }

  /** A digit string holds none of the characters that end a mantissa. */
  lemma {:induction false} DigitsHaveNoMarker(u: string, cs: string)
    requires AllDigits(u, 10)
    requires forall i :: 0 <= i < |cs| ==> !('0' <= cs[i] <= '9')
    ensures IndexOfAny(u, cs) == |u|
  {
    if u != [] {
      assert '0' <= u[0] <= '9';
      assert AllDigits(u[1..], 10) by {
        forall i | 0 <= i < |u[1..]| ensures IsDigit(u[1..][i], 10) {
          assert u[1..][i] == u[i + 1];
        }
      }
      DigitsHaveNoMarker(u[1..], cs);
    }
  }

  /** Reading back what `String(n)` prints gives `n` exactly. */
  lemma IntToStringParses(n: int)
    ensures StringToNumber(IntToString(n)) == Finite(n < 0, if n < 0 then -n else n, 0)
  {
    var s := IntToString(n);
    var m: nat := if n < 0 then -n else n;
    var digits := NatToString(m);
    DigitsHaveNoWhitespace(digits);
    DigitStringIsUnsignedDecimal(digits);
    NatToStringValue(m);
    if n < 0 {
      assert s == "-" + digits;
      assert NoWhitespace(s) by {
        forall i | 0 <= i < |s| ensures !IsWhitespace(s[i]) {
          if i > 0 { assert s[i] == digits[i - 1]; }
        }
      }
      assert Trim(s) == s;
      assert s[1..] == digits;
    } else {
      assert Trim(s) == s;
    }
  }

  /** `~~String(n) === ~~n`: the whitelist and length settings, printed by the
      bot and typed back by the operator, set the same 32-bit value. */
  lemma RenderedIntRoundTrip(n: int)
    ensures StringToInt32(IntToString(n)) == Wrap32(n)
    ensures IsInt32(n) ==> StringToInt32(IntToString(n)) == n
  {
    IntToStringParses(n);
  }

  /** An argument whose first non-blank character cannot begin a numeric
      literal (a digit, a sign, a point, or the `I` of `Infinity`) is read as
      0: in particular `开` and `关` given to the length setting. */
  lemma NonNumericIsZero(s: string)
    requires Trim(s) != [] && Trim(s)[0] !in "0123456789+-.I"
    ensures StringToInt32(s) == 0
  {
    var t := Trim(s);
    assert !IsDigit(t[0], 10);
    var e := IndexOfAny(t, "eE");
    var mantissa := t[..e];
    var dot := IndexOfAny(mantissa, ".");
    if e > 0 {
      assert dot > 0 && mantissa[..dot][0] == t[0];
    }
    assert ParseUnsignedDecimal(t) == NaN;
  }

  /** A sign before decimal digits: `+` is ignored and `-` negates. */
  lemma SignedDigits(u: string)
    requires |u| >= 1 && AllDigits(u, 10)
    ensures StringToInt32("+" + u) == Wrap32(DigitsValue(u, 10))
    ensures StringToInt32("-" + u) == Wrap32(0 - DigitsValue(u, 10))
  {
    var v := DigitsValue(u, 10);
    assert StringToNumber("+" + u) == Finite(false, v, 0) by {
      DigitsHaveNoWhitespace(u);
      DigitStringIsUnsignedDecimal(u);
      SignedIsTrimmed('+', u);
      assert ("+" + u)[1..] == u;
    }
    assert StringToNumber("-" + u) == Finite(true, v, 0) by {
      DigitsHaveNoWhitespace(u);
      DigitStringIsUnsignedDecimal(u);
      SignedIsTrimmed('-', u);
      assert ("-" + u)[1..] == u;
    }
    IntegerToInt32(false, v);
    IntegerToInt32(true, v);
  }

  /** ToInt32 of a whole number is its 32-bit wrap. */
  lemma IntegerToInt32(negative: bool, m: nat)
    ensures NumberToInt32(Finite(negative, m, 0)) == Wrap32(if negative then 0 - m else m)
  {
  }

  lemma SignedIsTrimmed(sign: char, u: string)
    requires sign == '+' || sign == '-'
    requires NoWhitespace(u)
    ensures Trim([sign] + u) == [sign] + u
  {
    var s := [sign] + u;
    assert NoWhitespace(s) by {
      forall i | 0 <= i < |s| ensures !IsWhitespace(s[i]) {
        if i > 0 { assert s[i] == u[i - 1]; }
      }
    }
  }

  /** `0x` before hexadecimal digits reads them in base 16. */
  lemma HexDigits(h: string)
    requires |h| >= 1 && AllDigits(h, 16)
    ensures StringToInt32("0x" + h) == Wrap32(DigitsValue(h, 16))
  {
    var s := "0x" + h;
    assert StringToNumber(s) == Finite(false, DigitsValue(h, 16), 0) by {
      HexTextHasNoWhitespace(h);
      assert Trim(s) == s;
      assert s[2..] == h;
    }
    IntegerToInt32(false, DigitsValue(h, 16));
  }

  lemma HexTextHasNoWhitespace(h: string)
    requires AllDigits(h, 16)
    ensures NoWhitespace("0x" + h)
  {
    var s := "0x" + h;
    forall i | 0 <= i < |s| ensures !IsWhitespace(s[i]) {
      if i >= 2 { assert s[i] == h[i - 2] && IsDigit(h[i - 2], 16); }
    }
  }

  /** Appending digits scales what stands before them. */
  lemma {:induction false} DigitsAppend(a: string, b: string)
    requires AllDigits(a, 10) && AllDigits(b, 10)
    ensures AllDigits(a + b, 10)
    ensures DigitsValue(a + b, 10) == DigitsValue(a, 10) * Pow(10, |b|) + DigitsValue(b, 10)
    decreases |b|
  {
    if b != [] {
      var b' := b[..|b| - 1];
      var d := DigitValue(b[|b| - 1]);
      assert (a + b)[..|a + b| - 1] == a + b';
      assert (a + b)[|a + b| - 1] == b[|b| - 1];
      DigitsAppend(a, b');
      var va, vb' := DigitsValue(a, 10), DigitsValue(b', 10);
      var p' := Pow(10, |b'|);
      assert DigitsValue(a + b, 10) == (va * p' + vb') * 10 + d;
      ShiftDigit(va, p', vb', d);
      assert Pow(10, |b|) == 10 * p';
      assert DigitsValue(b, 10) == vb' * 10 + d;
    } else {
      assert a + b == a;
    }
  }

  lemma ShiftDigit(va: nat, scale: nat, vb: nat, d: nat)
    ensures (va * scale + vb) * 10 + d == va * (10 * scale) + (vb * 10 + d)
  {
  }

  /** A string of n decimal digits has a value below 10^n. */
  lemma {:induction false} DigitsBelowPower(b: string)
    requires AllDigits(b, 10)
    ensures DigitsValue(b, 10) < Pow(10, |b|)
  {
    if b != [] {
      var b' := b[..|b| - 1];
      DigitsBelowPower(b');
      assert DigitValue(b[|b| - 1]) <= 9 by { assert IsDigit(b[|b| - 1], 10); }
      assert DigitsValue(b', 10) + 1 <= Pow(10, |b'|);
      assert (DigitsValue(b', 10) + 1) * 10 <= Pow(10, |b'|) * 10;
    }
  }

  /** Dividing v * scale + w by scale, with w below scale, gives v. */
  lemma ScaledQuotient(m: nat, v: nat, w: nat, scale: nat)
    requires scale >= 1 && w < scale
    requires m * scale <= v * scale + w < (m + 1) * scale
    ensures m == v
  {
    assert (v + 1) * scale == v * scale + scale;
    QuotientIsUnique(v * scale + w, m, v, scale);
  }

  /** The quotient bounds of a division determine the quotient. */
  lemma QuotientIsUnique(m: nat, q: nat, q': nat, scale: nat)
    requires scale >= 1
    requires q * scale <= m < (q + 1) * scale
    requires q' * scale <= m < (q' + 1) * scale
    ensures q == q'
  {
  }

  /** A decimal fraction is truncated toward zero: `~~"3.7"` is 3 and
      `~~"-3.7"` is -3. */
  lemma FractionIsTruncated(i: string, f: string)
    requires |i| >= 1 && AllDigits(i, 10) && AllDigits(f, 10)
    ensures StringToInt32(i + "." + f) == Wrap32(DigitsValue(i, 10))
    ensures StringToInt32("-" + (i + "." + f)) == Wrap32(0 - DigitsValue(i, 10))
  {
    FractionReads(i, f);
    FractionToInt32(false, i, f);
    FractionToInt32(true, i, f);
  }

  /** ToInt32 of `i.f`, with either sign, is the 32-bit wrap of `i`'s value. */
  lemma FractionToInt32(negative: bool, i: string, f: string)
    requires AllDigits(i, 10) && AllDigits(f, 10)
    ensures AllDigits(i + f, 10)
    ensures NumberToInt32(Finite(negative, DigitsValue(i + f, 10), 0 - |f|))
      == Wrap32(if negative then 0 - DigitsValue(i, 10) else DigitsValue(i, 10))
  {
    FractionMagnitude(negative, i, f);
  }

  /** `i.f` and `-i.f` as numbers: the digits of both parts, scaled by
      10^-|f|. */
  lemma FractionReads(i: string, f: string)
    requires |i| >= 1 && AllDigits(i, 10) && AllDigits(f, 10)
    ensures AllDigits(i + f, 10)
    ensures StringToNumber(i + "." + f) == Finite(false, DigitsValue(i + f, 10), 0 - |f|)
    ensures StringToNumber("-" + (i + "." + f)) == Finite(true, DigitsValue(i + f, 10), 0 - |f|)
  {
    DigitsConcat(i, f);
    var x := Finite(false, DigitsValue(i + f, 10), 0 - |f|);
    assert StringToNumber(i + "." + f) == x by {
      FractionShape(i, f);
      UnsignedLiteral(i + "." + f);
      ReadsFraction(i, f);
    }
    assert StringToNumber("-" + (i + "." + f)) == Negate(x) by {
      FractionShape(i, f);
      UnsignedLiteral(i + "." + f);
      ReadsFraction(i, f);
    }
  }

  lemma FractionShape(i: string, f: string)
    requires |i| >= 1 && AllDigits(i, 10) && AllDigits(f, 10)
    ensures var u := i + "." + f;
      NoWhitespace(u) && IsDigit(u[0], 10) && (|u| >= 2 ==> u[1] !in "xXoObB")
  {
    var u := i + "." + f;
    forall k | 0 <= k < |u| ensures !IsWhitespace(u[k]) {
      if k < |i| { assert IsDigit(i[k], 10); }
      else if k > |i| { assert u[k] == f[k - |i| - 1] && IsDigit(f[k - |i| - 1], 10); }
    }
    assert u[0] == i[0];
    assert |u| >= 2 ==> u[1] == '.' || u[1] == i[1];
  }

  /** A literal that starts with a decimal digit and is no `0x`, `0o` or `0b`
      literal is read by the decimal grammar, with or without a minus sign. */
  lemma UnsignedLiteral(u: string)
    requires NoWhitespace(u) && |u| >= 1 && IsDigit(u[0], 10)
    requires |u| >= 2 ==> u[1] !in "xXoObB"
    ensures StringToNumber(u) == ParseUnsignedDecimal(u)
    ensures StringToNumber("-" + u) == Negate(ParseUnsignedDecimal(u))
  {
    assert Trim(u) == u;
    SignedIsTrimmed('-', u);
    assert ("-" + u)[1..] == u;
  }

  /** Dropping the |f| digits after the point leaves the value of `i`. */
  lemma FractionMagnitude(negative: bool, i: string, f: string)
    requires AllDigits(i, 10) && AllDigits(f, 10)
    ensures AllDigits(i + f, 10)
    ensures Magnitude(Finite(negative, DigitsValue(i + f, 10), 0 - |f|)) == DigitsValue(i, 10)
  {
    DigitsAppend(i, f);
    if f == [] {
      assert i + f == i;
    } else {
      DigitsBelowPower(f);
      var x := Finite(negative, DigitsValue(i + f, 10), 0 - |f|);
      ScaledQuotient(Magnitude(x), DigitsValue(i, 10), DigitsValue(f, 10), Pow(10, |f|));
    }
  }

  /** `i.f` is read as the digits of `i` and `f` with the point |f| places
      from the right. */
  lemma ReadsFraction(i: string, f: string)
    requires |i| >= 1 && AllDigits(i, 10) && AllDigits(f, 10)
    ensures AllDigits(i + f, 10)
    ensures ParseUnsignedDecimal(i + "." + f) == Finite(false, DigitsValue(i + f, 10), 0 - |f|)
  {
    var u := i + "." + f;
    FractionMarkers(i, f);
    assert u[..|u|] == u;
    assert u[..|i|] == i;
    assert u[|i| + 1..] == f;
    DigitsConcat(i, f);
  }

  lemma DigitsConcat(a: string, b: string)
    requires AllDigits(a, 10) && AllDigits(b, 10)
    ensures AllDigits(a + b, 10)
  {
    forall k | 0 <= k < |a + b| ensures IsDigit((a + b)[k], 10) {
      if k >= |a| { assert (a + b)[k] == b[k - |a|]; }
    }
  }

  /** In `i.f` the mantissa runs to the end and the point follows `i`. */
  lemma FractionMarkers(i: string, f: string)
    requires |i| >= 1 && AllDigits(i, 10) && AllDigits(f, 10)
    ensures var u := i + "." + f;
      u != "Infinity" && IndexOfAny(u, "eE") == |u| && IndexOfAny(u, ".") == |i|
  {
    var u := i + "." + f;
    assert u != "Infinity" by { assert u[0] == i[0] && IsDigit(i[0], 10); }
    forall k | 0 <= k < |u| ensures u[k] !in "eE" {
      if k < |i| { assert IsDigit(i[k], 10); }
      else if k > |i| { assert u[k] == f[k - |i| - 1] && IsDigit(f[k - |i| - 1], 10); }
    }
    assert u[|i|] == '.';
    forall k | 0 <= k < |i| ensures u[k] !in "." { assert u[k] == i[k] && IsDigit(i[k], 10); }
  }

  /** Worked readings of `~~v`: a number, the empty argument and a
      non-numeric argument. */
  lemma ReadsDecimal()
    ensures StringToInt32("12") == 12
  {
    var u := "12";
    assert AllDigits(u, 10);
    assert u[..1] == "1" && u[..1][..0] == [];
    assert DigitsValue("1", 10) == 1;
    assert DigitsValue(u, 10) == 12;
  }

  /** `~~"-3.7"` is -3: the fraction is dropped toward zero. */
  lemma ReadsNegativeFraction(s: string)
    requires s == "-3.7"
    ensures StringToInt32(s) == -3
  {
    var i, f := ['3'], ['7'];
    SingleDigit('3');
    SingleDigit('7');
    FractionIsTruncated(i, f);
    assert "-" + (i + "." + f) == s;
  }

  lemma SingleDigit(c: char)
    requires '0' <= c <= '9'
    ensures AllDigits([c], 10) && DigitsValue([c], 10) == c as int - '0' as int
  {
    assert [c][..0] == [];
  }

  /** `~~"0x10"` is 16. */
  lemma ReadsHexadecimal()
    ensures StringToInt32("0x10") == 16
  {
    HexDigits("10");
    assert "0x" + "10" == "0x10";
  }

  /** `~~"+12"` is 12. */
  lemma ReadsPlusSign()
    ensures StringToInt32("+12") == 12
  {
    SignedDigits("12");
    assert "+" + "12" == "+12";
  }

  /** `~~"007"` is 7: leading zeros are ignored. */
  lemma ReadsLeadingZeros()
    ensures StringToInt32("007") == 7
  {
    var u := "007";
    assert AllDigits(u, 10);
    assert u[..2] == "00" && u[..2][..1] == "0" && u[..2][..1][..0] == [];
    assert DigitsValue("0", 10) == 0;
    assert DigitsValue("00", 10) == 0;
    assert DigitsValue(u, 10) == 7;
  }

  /** Text after the digits makes the literal NaN: `~~"12abc"` is 0. */
  lemma TrailingTextIsZero()
    ensures StringToInt32("12abc") == 0
  {
    var u := "12abc";
    assert NoWhitespace(u) && IsDigit(u[0], 10) && u[1] !in "xXoObB";
    UnsignedLiteral(u);
    TrailingTextIsNaN(u);
  }

  lemma TrailingTextIsNaN(u: string)
    requires u == "12abc"
    ensures ParseUnsignedDecimal(u) == NaN
  {
    assert forall k :: 0 <= k < |u| ==> u[k] !in "eE.";
    assert u[..5] == u;
    assert !IsDigit(u[2], 10);
  }

  /** An exponent scales the mantissa: `~~"1e3"` is 1000. */
  lemma ExponentScales()
    ensures StringToInt32("1e3") == 1000
  {
    var u := "1e3";
    assert NoWhitespace(u) && IsDigit(u[0], 10) && u[1] !in "xXoObB";
    UnsignedLiteral(u);
    ExponentLiteral();
    var x := Finite(false, 1, 3);
    assert Pow(10, 3) == 1000;
    assert Truncate(x) == 1000;
  }

  lemma ExponentLiteral()
    ensures ParseUnsignedDecimal("1e3") == Finite(false, 1, 3)
  {
    var u := "1e3";
    assert IndexOfAny(u, "eE") == 1;
    var m := u[..1];
    assert m == "1" && u[2..] == "3";
    assert IndexOfAny(m, ".") == 1 && m[..1] == m && m + "" == m;
    assert DigitsValue(m, 10) == 1;
    assert SignedIntegerValue("3") == 3;
  }

  lemma EmptyIsZero()
    ensures StringToInt32("") == 0
  {
  }

  lemma OnTokenIsZero()
    ensures StringToInt32("开") == 0
  {
    NonNumericIsZero("开");
  }
}
