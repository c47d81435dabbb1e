/**
 * ECMAScript's `Number(string)` and `Number.prototype.toFixed` over `real`.
 *
 * `Number(string)` is modelled on the decimal literals the table's data uses:
 * an optional sign, digits with an optional fraction (`"12"`, `"12."`,
 * `"12.5"`, `".5"`), surrounded by optional white space; a string that is
 * empty or all white space is 0. `toFixed(d)` is modelled exactly for
 * magnitudes below 10^21: the magnitude is scaled by 10^d, rounded to the
 * nearest integer with ties going up, written in decimal with at least one
 * digit before the point and exactly `d` after it, and a negative number gets
 * a leading `-`.
 */
module JsNumber {
  import opened Options
  import opened JsString

  function Pow10(d: nat): (p: nat)
    ensures p >= 1
  {
    if d == 0 then 1 else 10 * Pow10(d - 1)
  }

  predicate IsDigit(c: char) {
    '0' <= c <= '9'
  }

  predicate AllDigits(s: string) {
    forall i :: 0 <= i < |s| ==> IsDigit(s[i])
  }

  function DigitChar(k: nat): (c: char)
    requires k < 10
    ensures IsDigit(c)
  {
    ('0' as int + k) as char
  }

  /** The value of a string of decimal digits, most significant first. */
  function DigitsValue(s: string): nat
    requires AllDigits(s)
  {
    if s == [] then 0 else 10 * DigitsValue(s[..|s| - 1]) + (s[|s| - 1] as int - '0' as int)
  }

  /** Appending `b` shifts the value of `a` left by `|b|` decimal places. */
  lemma {:induction false} DigitsValueAppend(a: string, b: string)
    requires AllDigits(a) && AllDigits(b)
    ensures AllDigits(a + b)
    ensures DigitsValue(a + b) == DigitsValue(a) * Pow10(|b|) + DigitsValue(b)
  {
    if b == [] {
      assert a + b == a;
    } else {
      var b' := b[..|b| - 1];
      DigitsValueAppend(a, b');
      assert (a + b)[..|a + b| - 1] == a + b';
      var c := b[|b| - 1] as int - '0' as int;
      assert DigitsValue(b) == 10 * DigitsValue(b') + c;
      assert DigitsValue(a + b) == 10 * DigitsValue(a + b') + c;
      ShiftDigit(DigitsValue(a), Pow10(|b'|), DigitsValue(b'), c);
    }
  }

  lemma ShiftDigit(x: int, p: int, y: int, c: int)
    ensures 10 * (x * p + y) + c == x * (10 * p) + (10 * y + c)
  {
  }

  /** The decimal digits of `n` as JavaScript writes an integer ("0" for 0). */
  function NatDigits(n: nat): (s: string)
    ensures |s| >= 1 && AllDigits(s)
    ensures DigitsValue(s) == n
  {
    if n < 10 then
      var s := [DigitChar(n)];
      assert s[..0] == [];
      s
    else
      var prefix := NatDigits(n / 10);
      var s := prefix + [DigitChar(n % 10)];
      assert s[..|s| - 1] == prefix;
      s
  }

  function Zeros(k: nat): (z: string)
    ensures |z| == k && AllDigits(z) && DigitsValue(z) == 0
  {
    if k == 0 then [] else
      var z := Zeros(k - 1) + ['0'];
      assert z[..|z| - 1] == Zeros(k - 1);
      z
  }

  /** Left-pads a digit string with zeros to at least `w` characters; the
      value does not change. */
  function PadLeft(s: string, w: nat): (r: string)
    requires AllDigits(s)
    ensures |r| >= w && |r| >= |s| && AllDigits(r)
    ensures DigitsValue(r) == DigitsValue(s)
  {
    if |s| >= w then s else
      DigitsValueAppend(Zeros(w - |s|), s);
      Zeros(w - |s|) + s
  }

  /** `r` is digits with a point before the last `d` of them (and no point
      when `d` is 0), as `toFixed(d)` writes a magnitude. */
  predicate FixedShape(r: string, d: nat) {
    && |r| > d
    && forall i :: 0 <= i < |r| ==>
         if d > 0 && i == |r| - d - 1 then r[i] == '.' else IsDigit(r[i])
  }

  /** Inserts a decimal point before the last `d` digits of `m` (none when
      `d` is 0). */
  function WithPoint(m: string, d: nat): (r: string)
    requires AllDigits(m) && |m| > d
    ensures FixedShape(r, d)
    ensures IsDigit(r[0]) && IsDigit(r[|r| - 1])
    ensures d == 0 ==> r == m
    ensures d > 0 ==> r == m[..|m| - d] + "." + m[|m| - d..]
  {
    if d == 0 then m else
      var a, b := m[..|m| - d], m[|m| - d..];
      var r := a + "." + b;
      assert forall i :: 0 <= i < |a| ==> r[i] == a[i];
      assert forall i :: |a| < i < |r| ==> r[i] == b[i - |a| - 1];
      r
  }

  /** The digits of `n / 10^d` written with exactly `d` decimals. */
  function FixedDigits(n: nat, d: nat): (r: string)
    ensures FixedShape(r, d)
    ensures IsDigit(r[0]) && IsDigit(r[|r| - 1])
  {
    WithPoint(PadLeft(NatDigits(n), d + 1), d)
  }

  /** `v * 10^d`. */
  function Scale(v: real, d: nat): (r: real)
    ensures v >= 0.0 ==> r >= 0.0
  {
    if d == 0 then v else Scale(v, d - 1) * 10.0
  }

  /** `v / 10^d`. */
  function Unscale(v: real, d: nat): (r: real)
    ensures v >= 0.0 ==> r >= 0.0
    decreases d
  {
    if d == 0 then v else Unscale(v / 10.0, d - 1)
  }

  /** `n / 10^d` for a natural number `n`. */
  function Shifted(n: nat, d: nat): real {
    Unscale(n as real, d)
  }

  /** The integer `toFixed(d)` writes for a magnitude `y`: the integer
      nearest `y * 10^d`, the larger one on a tie. */
  function ScaledRound(y: real, d: nat): (n: nat)
    requires y >= 0.0
  {
    (Scale(y, d) + 0.5).Floor
  }

  /** The value that `x.toFixed(d)` denotes. */
  function Rounded(x: real, d: nat): real {
    if x < 0.0 then -Shifted(ScaledRound(-x, d), d) else Shifted(ScaledRound(x, d), d)
  }

  /** `x.toFixed(d)`, for |x| < 10^21: a `-` exactly for a negative `x`,
      then the rounded magnitude with exactly `d` decimals. */
  function ToFixed(x: real, d: nat): (r: string)
    ensures x < 0.0 ==> |r| > 1 && r[0] == '-' && IsDigit(r[1]) && FixedShape(r[1..], d)
    ensures x >= 0.0 ==> |r| > 0 && IsDigit(r[0]) && FixedShape(r, d)
  {
    var f := FixedDigits(ScaledRound(if x < 0.0 then -x else x, d), d);
    if x < 0.0 then
      var r := "-" + f;
      assert r[1..] == f;
      r
    else
      f
  }

  /** What `toFixed` writes holds no white space, no `%` and no `+`. */
  lemma ToFixedChars(x: real, d: nat)
    ensures NoSpace(ToFixed(x, d))
    ensures '%' !in ToFixed(x, d) && '+' !in ToFixed(x, d)
  {
    var f := FixedDigits(ScaledRound(if x < 0.0 then -x else x, d), d);
    FixedShapeChars(f, d);
    if x < 0.0 {
      NegativeParts(x, d);
      MinusChars(f);
    } else {
      assert ToFixed(x, d) == f;
    }
    NumericCharsFacts(ToFixed(x, d));
  }

  /** Every character is a digit, a point or a minus sign. */
  predicate NumericChars(r: string) {
    forall i :: 0 <= i < |r| ==> r[i] == '-' || r[i] == '.' || IsDigit(r[i])
  }

  lemma NumericCharsFacts(r: string)
    requires NumericChars(r)
    ensures NoSpace(r) && '%' !in r && '+' !in r
  {
  }

  lemma FixedShapeChars(r: string, d: nat)
    requires FixedShape(r, d)
    ensures NumericChars(r)
  {
  }

  lemma MinusChars(f: string)
    requires NumericChars(f)
    ensures NumericChars("-" + f)
  {
    var r := "-" + f;
    assert forall i :: 0 < i < |r| ==> r[i] == f[i - 1];
  }

  /** `Number(s)` when that is a finite number; `None` stands for NaN and the
      infinities. Empty or all-space text is 0, not NaN. */
  function NumberOf(s: string): (r: Option<real>)
    ensures Trim(s) == "" ==> r == Some(0.0)
  {
    var t := Trim(s);
    if t == "" then Some(0.0) else SignedDecimal(t)
  }

  function Negate(o: Option<real>): Option<real> {
    match o
    case Some(v) => Some(-v)
    case None => None
  }

  function SignedDecimal(t: string): Option<real> {
    if |t| > 0 && t[0] == '-' then Negate(UnsignedDecimal(t[1..]))
    else if |t| > 0 && t[0] == '+' then UnsignedDecimal(t[1..])
    else UnsignedDecimal(t)
  }

  /** Digits, then optionally a point and more digits, with at least one
      digit in all; the value is that of all the digits, shifted right by
      the number of fraction digits. */
  function UnsignedDecimal(u: string): (r: Option<real>)
    ensures r.Some? ==> r.value >= 0.0
  {
    var p := IndexOf(u, '.');
    DecimalParts(u[..p], if p < |u| then u[p + 1..] else "")
  }

  /** The value of the digits `whole` before a point and `frac` after it;
      at least one digit is needed. */
  function DecimalParts(whole: string, frac: string): (r: Option<real>)
    ensures r.Some? ==> r.value >= 0.0
  {
    if AllDigits(whole) && AllDigits(frac) && |whole| + |frac| > 0 then
      assert AllDigits(whole + frac);
      Some(Shifted(DigitsValue(whole + frac), |frac|))
    else
      None
  }

  /** Splitting a digit string anywhere and reading it as whole and
      fractional digits gives its value shifted by the fraction length. */
  lemma DecimalPartsSplit(m: string, k: nat)
    requires AllDigits(m) && 0 < |m| && k <= |m|
    ensures DecimalParts(m[..k], m[k..]) == Some(Shifted(DigitsValue(m), |m| - k))
  {
    var a, b := m[..k], m[k..];
    assert AllDigits(a) by {
      assert forall i :: 0 <= i < |a| ==> a[i] == m[i];
    }
    assert AllDigits(b) by {
      assert forall i :: 0 <= i < |b| ==> b[i] == m[k + i];
    }
    assert a + b == m;
  }

  /** The point `WithPoint` inserts is the first one in its result. */
  lemma WithPointSplit(m: string, d: nat)
    requires AllDigits(m) && |m| > d
    ensures var u, p := WithPoint(m, d), IndexOf(WithPoint(m, d), '.');
      && p == |m| - d
      && u[..p] == m[..|m| - d]
      && (if p < |u| then u[p + 1..] else "") == m[|m| - d..]
  {
    var u, p := WithPoint(m, d), IndexOf(WithPoint(m, d), '.');
    var a := m[..|m| - d];
    assert forall k :: 0 <= k < |a| ==> u[k] != '.';
    if d > 0 {
      assert u[|a|] == '.';
    }
    assert u[..p] == a;
  }

  /** `UnsignedDecimal` on a string whose first point comes before the
      last `d` digits of the digit string `m`, with `m`'s other digits on
      either side of it. */
  lemma UnsignedDecimalAt(u: string, m: string, d: nat)
    requires AllDigits(m) && |m| > d
    requires IndexOf(u, '.') == |m| - d && u[..|m| - d] == m[..|m| - d]
    requires (if |m| - d < |u| then u[|m| - d + 1..] else "") == m[|m| - d..]
    ensures UnsignedDecimal(u) == Some(Shifted(DigitsValue(m), d))
  {
    DecimalPartsSplit(m, |m| - d);
  }

  /** Reading back a digit string with a point before its last `d` digits
      gives its value divided by 10^d. */
  lemma WithPointValue(m: string, d: nat)
    requires AllDigits(m) && |m| > d
    ensures UnsignedDecimal(WithPoint(m, d)) == Some(Shifted(DigitsValue(m), d))
  {
    WithPointSplit(m, d);
    UnsignedDecimalAt(WithPoint(m, d), m, d);
  }

  /** A character that is neither a digit nor a point makes the unsigned
      grammar fail. */
  lemma UnsignedRejects(u: string, c: char)
    requires c in u && !IsDigit(c) && c != '.'
    ensures UnsignedDecimal(u) == None
  {
    var p := IndexOf(u, '.');
    var k :| 0 <= k < |u| && u[k] == c;
    if k < p {
      assert u[..p][k] == c;
    } else {
      assert p < |u|;
      assert u[p + 1..][k - p - 1] == c;
    }
  }

  /** `Number(s)` is NaN whenever `s` holds a character outside the grammar
      (not white space, a digit, a sign or a point). */
  lemma NumberOfRejects(s: string, c: char)
    requires c in s && !IsSpace(c) && !IsDigit(c) && c != '.' && c != '+' && c != '-'
    ensures NumberOf(s) == None
  {
    TrimKeeps(s, c);
    var t := Trim(s);
    var k :| 0 <= k < |t| && t[k] == c;
    if t[0] == '-' || t[0] == '+' {
      assert t[1..][k - 1] == c;
      UnsignedRejects(t[1..], c);
    } else {
      UnsignedRejects(t, c);
    }
  }

  /** Reading back the digits `FixedDigits` writes gives `n / 10^d`. */
  lemma FixedDigitsValue(n: nat, d: nat)
    ensures UnsignedDecimal(FixedDigits(n, d)) == Some(Shifted(n, d))
  {
    WithPointValue(PadLeft(NatDigits(n), d + 1), d);
  }

  lemma SignedDecimalMinus(f: string)
    ensures SignedDecimal("-" + f) == Negate(UnsignedDecimal(f))
  {
    assert ("-" + f)[1..] == f;
  }

  lemma SignedDecimalPlus(f: string)
    ensures SignedDecimal("+" + f) == UnsignedDecimal(f)
  {
    assert ("+" + f)[1..] == f;
  }

  lemma NegateOf(o: Option<real>, v: real)
    requires o == Some(v)
    ensures Negate(o) == Some(-v)
  {
  }

  /** Away from white space, `Number` reads a signed decimal. */
  lemma NumberOfTrimmed(t: string)
    requires |t| > 0 && !IsSpace(t[0]) && !IsSpace(t[|t| - 1])
    ensures NumberOf(t) == SignedDecimal(t)
  {
    TrimOfTrimmed(t);
  }

  /** An unsigned decimal that starts and ends with a digit is read by
      `Number` as it stands... */
  lemma ReadPlain(f: string, v: real)
    requires |f| > 0 && IsDigit(f[0]) && IsDigit(f[|f| - 1])
    requires UnsignedDecimal(f) == Some(v)
    ensures NumberOf(f) == Some(v)
  {
    NumberOfTrimmed(f);
  }

  /** ... with a `-` in front, as its negation... */
  lemma ReadMinus(f: string, v: real)
    requires |f| > 0 && IsDigit(f[|f| - 1])
    requires UnsignedDecimal(f) == Some(v)
    ensures NumberOf("-" + f) == Some(-v)
  {
    var r := "-" + f;
    assert r[|r| - 1] == f[|f| - 1];
    NumberOfTrimmed(r);
    SignedDecimalMinus(f);
    NegateOf(UnsignedDecimal(f), v);
  }

  /** ... and with a `+` in front, unchanged. */
  lemma ReadPlus(f: string, v: real)
    requires |f| > 0 && IsDigit(f[|f| - 1])
    requires UnsignedDecimal(f) == Some(v)
    ensures NumberOf("+" + f) == Some(v)
  {
    var r := "+" + f;
    assert r[|r| - 1] == f[|f| - 1];
    NumberOfTrimmed(r);
    SignedDecimalPlus(f);
  }

  /** `Number(x.toFixed(d))` is the rounded value of `x`. */
  lemma ToFixedRoundTrip(x: real, d: nat)
    ensures NumberOf(ToFixed(x, d)) == Some(Rounded(x, d))
  {
    if x < 0.0 {
      NegativeRoundTrip(x, d);
    } else {
      var n := ScaledRound(x, d);
      FixedDigitsValue(n, d);
      ReadPlain(FixedDigits(n, d), Shifted(n, d));
    }
  }

  lemma NegativeRoundTrip(x: real, d: nat)
    requires x < 0.0
    ensures NumberOf(ToFixed(x, d)) == Some(Rounded(x, d))
  {
    var n := ScaledRound(-x, d);
    calc {
      NumberOf(ToFixed(x, d));
      { NegativeParts(x, d); }
      NumberOf("-" + FixedDigits(n, d));
      { ReadMinusFixed(n, d); }
      Some(-Shifted(n, d));
      { NegativeParts(x, d); }
      Some(Rounded(x, d));
    }
  }

  lemma ReadMinusFixed(n: nat, d: nat)
    ensures NumberOf("-" + FixedDigits(n, d)) == Some(-Shifted(n, d))
  {
    FixedDigitsValue(n, d);
    ReadMinus(FixedDigits(n, d), Shifted(n, d));
  }

  lemma NegativeParts(x: real, d: nat)
    requires x < 0.0
    ensures ToFixed(x, d) == "-" + FixedDigits(ScaledRound(-x, d), d)
    ensures Rounded(x, d) == -Shifted(ScaledRound(-x, d), d)
  {
  }

  /** The same holds with an explicit `+` in front of a non-negative number. */
  lemma PlusToFixedRoundTrip(x: real, d: nat)
    requires x >= 0.0
    ensures NumberOf("+" + ToFixed(x, d)) == Some(Rounded(x, d))
  {
    var n := ScaledRound(x, d);
    var f := FixedDigits(n, d);
    FixedDigitsValue(n, d);
    ReadPlus(f, Shifted(n, d));
    assert ToFixed(x, d) == f;
  }

  lemma {:induction false} UnscaleScale(y: real, d: nat)
    ensures Unscale(Scale(y, d), d) == y
  {
    if d > 0 {
      UnscaleScale(y, d - 1);
    }
  }

  lemma {:induction false} UnscaleSub(a: real, b: real, d: nat)
    ensures Unscale(a, d) - Unscale(b, d) == Unscale(a - b, d)
    decreases d
  {
    if d > 0 {
      UnscaleSub(a / 10.0, b / 10.0, d - 1);
    }
  }

  lemma {:induction false} UnscaleMonotone(a: real, b: real, d: nat)
    requires a <= b
    ensures Unscale(a, d) <= Unscale(b, d)
    decreases d
  {
    if d > 0 {
      UnscaleMonotone(a / 10.0, b / 10.0, d - 1);
    }
  }

  lemma {:induction false} UnscaleNegate(a: real, d: nat)
    ensures Unscale(-a, d) == -Unscale(a, d)
    decreases d
  {
    if d > 0 {
      UnscaleNegate(a / 10.0, d - 1);
    }
  }

  /** `Unscale` divides by 10^d. */
  lemma {:induction false} UnscaleIsDivision(v: real, d: nat)
    ensures Unscale(v, d) == v / Pow10(d) as real
    decreases d
  {
    if d > 0 {
      UnscaleIsDivision(v / 10.0, d - 1);
      DivideTwice(v, 10.0, Pow10(d - 1) as real);
    }
  }

  lemma DivideTwice(v: real, a: real, b: real)
    requires a > 0.0 && b > 0.0
    ensures v / a / b == v / (a * b)
  {
  }

  /** `toFixed(d)` is off by at most half a unit in the last place:
      `|Rounded(x, d) - x| <= 0.5 / 10^d`. */
  lemma RoundedClose(x: real, d: nat)
    ensures -Unscale(0.5, d) <= Rounded(x, d) - x <= Unscale(0.5, d)
  {
    if x < 0.0 {
      ScaledRoundClose(-x, d);
    } else {
      ScaledRoundClose(x, d);
    }
  }

  lemma ScaledRoundClose(y: real, d: nat)
    requires y >= 0.0
    ensures -Unscale(0.5, d) <= Shifted(ScaledRound(y, d), d) - y <= Unscale(0.5, d)
  {
    var s := Scale(y, d);
    var n := ScaledRound(y, d) as real;
    assert s - 0.5 < n <= s + 0.5;
    UnscaleScale(y, d);
    UnscaleSub(n, s, d);
    UnscaleMonotone(n - s, 0.5, d);
    UnscaleMonotone(-0.5, n - s, d);
    UnscaleNegate(0.5, d);
  }
}
