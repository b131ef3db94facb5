/** Decimal numbers as the C library reads and prints them: the subset of
    `strtod` grammar the record and price formats use (optional sign,
    digits, optional fraction), exact values instead of `double`s, and the
    canonical rendering `[-]W.FF…` that `printf("%.Nf")` would produce for a
    value that has exactly N fractional digits. */
module Numbers {
  import opened Text

  function Pow10(n: nat): (r: nat)
    ensures r >= 1
  {
    if n == 0 then 1 else 10 * Pow10(n - 1)
  }

  predicate AllDigits(s: seq<char>) {
    forall c <- s :: IsDigit(c)
  }

  function DigitValue(c: char): (d: nat)
    requires IsDigit(c)
    ensures d < 10
  {
    c as int - '0' as int
  }

  function DigitChar(d: nat): (c: char)
    requires d < 10
    ensures IsDigit(c) && DigitValue(c) == d
  {
    (d + '0' as int) as char
  }

  /** The value of a string of decimal digits, most significant first. */
  function DigitsValue(ds: seq<char>): (v: nat)
    requires AllDigits(ds)
    ensures v < Pow10(|ds|)
  {
    if ds == [] then 0
    else DigitsValue(ds[..|ds| - 1]) * 10 + DigitValue(ds[|ds| - 1])
  }

  /** `printf("%u")`: the shortest decimal numeral of `n`. */
  function NatStr(n: nat): (r: seq<char>)
    ensures r != [] && AllDigits(r)
  {
    if n < 10 then [DigitChar(n)] else NatStr(n / 10) + [DigitChar(n % 10)]
  }

  /** Zero padding on the left up to `width` characters (`%0Nd`). */
  function PadLeft(ds: seq<char>, width: nat): (r: seq<char>)
    ensures |r| == if |ds| < width then width else |ds|
  {
    if |ds| < width then seq(width - |ds|, _ => '0') + ds else ds
  }

  lemma {:induction false} NatStrValue(n: nat)
    ensures DigitsValue(NatStr(n)) == n
  {
    if n >= 10 {
      var r := NatStr(n);
      NatStrValue(n / 10);
      assert r[..|r| - 1] == NatStr(n / 10);
    }
  }

  lemma {:induction false} NatStrLength(n: nat, k: nat)
    requires k >= 1 && n < Pow10(k)
    ensures |NatStr(n)| <= k
  {
    if n >= 10 {
      assert k >= 2;
      NatStrLength(n / 10, k - 1);
    }
  }

  lemma {:induction false} DigitsValueAppend(a: seq<char>, b: seq<char>)
    requires AllDigits(a) && AllDigits(b)
    ensures DigitsValue(a + b) == DigitsValue(a) * Pow10(|b|) + DigitsValue(b)
    decreases |b|
  {
    if b == [] {
      assert a + b == a;
    } else {
      var b' := b[..|b| - 1];
      assert (a + b)[..|a + b| - 1] == a + b';
      assert (a + b)[|a + b| - 1] == b[|b| - 1];
      DigitsValueAppend(a, b');
      ShiftDigit(DigitsValue(a), Pow10(|b'|), DigitsValue(b'), DigitValue(b[|b| - 1]));
    }
  }

  /** Appending a digit `d` to `x` followed by the digits worth `y` (with
      `x` shifted by `p`) shifts both parts one place. */
  lemma ShiftDigit(x: nat, p: nat, y: nat, d: nat)
    ensures (x * p + y) * 10 + d == x * (10 * p) + (y * 10 + d)
  {
  }

  lemma {:induction false} LeadingZeros(k: nat, ds: seq<char>)
    requires AllDigits(ds)
    ensures AllDigits(seq(k, _ => '0') + ds)
    ensures DigitsValue(seq(k, _ => '0') + ds) == DigitsValue(ds)
  {
    var z := seq(k, _ => '0');
    DigitsValueAppend(z, ds);
    ZerosValue(k);
  }

  lemma {:induction false} ZerosValue(k: nat)
    ensures AllDigits(seq(k, _ => '0')) && DigitsValue(seq(k, _ => '0')) == 0
  {
    if k > 0 {
      assert seq(k, _ => '0')[..k - 1] == seq(k - 1, _ => '0');
      ZerosValue(k - 1);
    }
  }

  /** Length of the run of digits at the head of `s`. */
  function DigitRun(s: seq<char>): (n: nat)
    ensures n <= |s| && AllDigits(s[..n])
    ensures n < |s| ==> !IsDigit(s[n])
  {
    if s != [] && IsDigit(s[0]) then
      assert s[..1 + DigitRun(s[1..])] == [s[0]] + s[1..][..DigitRun(s[1..])];
      1 + DigitRun(s[1..])
    else 0
  }

  lemma DigitRunOf(ds: seq<char>, rest: seq<char>)
    requires AllDigits(ds)
    requires rest == [] || !IsDigit(rest[0])
    ensures DigitRun(ds + rest) == |ds|
  {
    var s := ds + rest;
    var n := DigitRun(s);
    assert s[..|ds|] == ds;
    assert forall k :: 0 <= k < n ==> IsDigit(s[..n][k]);
    assert forall k :: 0 <= k < |ds| ==> IsDigit(s[k]);
  }

  /** The integer nearest to `q`, a tie going to the even one; `q` itself
      when it is whole. This is how `printf` rounds a value to the digits
      it prints. */
  function NearestEven(q: real): (n: int)
    ensures -0.5 <= n as real - q <= 0.5
    ensures q.Floor as real == q <==> n as real == q
  {
    var k := q.Floor;
    var frac := q - k as real;
    if frac > 0.5 || (frac == 0.5 && k % 2 != 0) then k + 1 else k
  }

  /** An exact decimal number: `mantissa / 10^scale`. */
  datatype Decimal = Decimal(mantissa: int, scale: nat) {
    function Value(): real {
      mantissa as real / Pow10(scale) as real
    }
  }

  function Abs(x: int): nat { if x < 0 then -x else x }

  /** The canonical text of a decimal: sign when negative, the integer part
      without padding, and, when the scale is positive, a point followed by
      exactly `scale` fractional digits. The digits of the magnitude are
      zero-padded to at least `scale + 1` and the point is put before the
      last `scale` of them. */
  function Render(d: Decimal): (r: seq<char>)
  {
    (if d.mantissa < 0 then "-" else "") + PointAt(Magnitude(d), d.scale)
  }

  function Signed(negative: bool, ds: seq<char>, scale: nat): Decimal
    requires AllDigits(ds)
  {
    var v: int := DigitsValue(ds);
    Decimal(if negative then -v else v, scale)
  }

  /** A `%lf` conversion (and `strtod`) on the remaining input: leading
      whitespace, an optional sign, digits, and an optional point with more
      digits; at least one digit in all. Returns the exact value read and the
      input after it, or None when no number starts here. */
  function ScanNumber(s: seq<char>): Option<(Decimal, seq<char>)>
  {
    var t := SkipSpace(s);
    if t != [] && (t[0] == '-' || t[0] == '+') then ScanUnsigned(t[1..], t[0] == '-')
    else ScanUnsigned(t, false)
  }

  /** The digits and optional fraction of a number whose sign was read. */
  function ScanUnsigned(u: seq<char>, negative: bool): Option<(Decimal, seq<char>)>
  {
    var w := DigitRun(u);
    if w < |u| && u[w] == '.' then
      var v := u[w + 1..];
      var f := DigitRun(v);
      if w + f == 0 then None
      else
        AllDigitsConcat(u[..w], v[..f]);
        Some((Signed(negative, u[..w] + v[..f], f), v[f..]))
    else if w == 0 then None
    else Some((Signed(negative, u[..w], 0), u[w..]))
  }

  lemma AllDigitsConcat(a: seq<char>, b: seq<char>)
    requires AllDigits(a) && AllDigits(b)
    ensures AllDigits(a + b)
  {
  }

  /** A number of at least `k + 1` digits has a numeral longer than `k`. */
  lemma {:induction false} NatStrLong(n: nat, k: nat)
    requires n >= Pow10(k)
    ensures |NatStr(n)| > k
  {
    if k > 0 {
      assert Pow10(k) == 10 * Pow10(k - 1);
      assert n / 10 >= Pow10(k - 1);
      NatStrLong(n / 10, k - 1);
    }
  }

  /** A number may be followed by anything that cannot continue it: not a
      digit, not a point, not the `e` or `E` with which `%lf` would start an
      exponent, and not the `x` or `X` with which it reads a `0` as the
      start of a hexadecimal number. */
  predicate EndsNumber(rest: seq<char>) {
    rest == [] || (!IsDigit(rest[0]) && rest[0] != '.' && rest[0] != 'e' && rest[0] != 'E'
                   && rest[0] != 'x' && rest[0] != 'X')
  }

  /** The text after the sign in `Render`: the digits with a point put
      before the last `scale` of them. */
  function PointAt(ds: seq<char>, scale: nat): seq<char>
    requires scale < |ds|
  {
    var k := |ds| - scale;
    ds[..k] + (if scale == 0 then "" else "." + ds[k..])
  }

  lemma ScanPointAt(ds: seq<char>, scale: nat, rest: seq<char>, negative: bool)
    requires scale < |ds| && AllDigits(ds)
    requires EndsNumber(rest)
    ensures ScanUnsigned(PointAt(ds, scale) + rest, negative) == Some((Signed(negative, ds, scale), rest))
  {
    var k := |ds| - scale;
    if scale == 0 {
      assert PointAt(ds, scale) == ds;
      ScanWhole(ds, rest, negative);
    } else {
      assert PointAt(ds, scale) + rest == ds[..k] + ("." + ds[k..] + rest);
      assert ds[..k] + ds[k..] == ds;
      ScanFraction(ds[..k], ds[k..], rest, negative);
    }
  }

  /** Digits without a point are read as a whole number. */
  lemma ScanWhole(w: seq<char>, rest: seq<char>, negative: bool)
    requires w != [] && AllDigits(w) && EndsNumber(rest)
    ensures ScanUnsigned(w + rest, negative) == Some((Signed(negative, w, 0), rest))
  {
    DigitRunOf(w, rest);
    assert (w + rest)[..|w|] == w && (w + rest)[|w|..] == rest;
  }

  /** Digits, a point and more digits are read as one number whose scale
      is the count of digits after the point. */
  lemma ScanFraction(w: seq<char>, f: seq<char>, rest: seq<char>, negative: bool)
    requires AllDigits(w) && AllDigits(f) && f != [] && EndsNumber(rest)
    ensures ScanUnsigned(w + ("." + f + rest), negative) == Some((Signed(negative, w + f, |f|), rest))
  {
    var u := w + ("." + f + rest);
    DigitRunOf(w, "." + f + rest);
    assert u[..|w|] == w;
    assert u[|w|] == '.';
    var v := u[|w| + 1..];
    assert v == f + rest;
    DigitRunOf(f, rest);
    assert v[..|f|] == f && v[|f|..] == rest;
  }

  /** The zero-padded digits of a decimal's magnitude: digits only, at
      least one more than the scale, and, read with the decimal's sign and
      scale, the decimal itself. */
  function Magnitude(d: Decimal): (ds: seq<char>)
    ensures AllDigits(ds) && d.scale < |ds|
  {
    var n := NatStr(Abs(d.mantissa));
    if |n| < d.scale + 1 then LeadingZeros(d.scale + 1 - |n|, n); PadLeft(n, d.scale + 1)
    else n
  }

  /** The length of the canonical text: the sign, the magnitude's digits,
      zero-padded to one more than the scale, and the point. */
  lemma RenderLength(d: Decimal)
    ensures var n := |NatStr(Abs(d.mantissa))|;
            |Render(d)| == (if d.mantissa < 0 then 1 else 0) + (if n < d.scale + 1 then d.scale + 1 else n)
                           + (if d.scale == 0 then 0 else 1)
  {
  }

  lemma MagnitudeValue(d: Decimal)
    ensures Signed(d.mantissa < 0, Magnitude(d), d.scale) == d
  {
    var n := NatStr(Abs(d.mantissa));
    if |n| < d.scale + 1 {
      LeadingZeros(d.scale + 1 - |n|, n);
    }
    NatStrValue(Abs(d.mantissa));
    assert DigitsValue(Magnitude(d)) == Abs(d.mantissa);
  }

  /** A sign in front of an unsigned number is read as its sign. */
  lemma ScanSigned(negative: bool, u: seq<char>)
    requires u != [] && IsDigit(u[0])
    ensures ScanNumber((if negative then "-" else "") + u) == ScanUnsigned(u, negative)
  {
    if negative {
      ScanMinus(u);
    } else {
      assert "" + u == u;
      ScanPlain(u);
    }
  }

  lemma ScanMinus(u: seq<char>)
    requires u != [] && IsDigit(u[0])
    ensures ScanNumber("-" + u) == ScanUnsigned(u, true)
  {
    var s := "-" + u;
    SkipNoSpace(s);
    assert s[0] == '-' && s[1..] == u;
  }

  lemma ScanPlain(u: seq<char>)
    requires u != [] && IsDigit(u[0])
    ensures ScanNumber(u) == ScanUnsigned(u, false)
  {
    SkipNoSpace(u);
  }

  /** Reading back the canonical text of a decimal gives the same decimal,
      and stops exactly where the text ends. */
  lemma ScanRender(d: Decimal, rest: seq<char>)
    requires EndsNumber(rest)
    ensures ScanNumber(Render(d) + rest) == Some((d, rest))
  {
    var ds := Magnitude(d);
    var sign: seq<char> := if d.mantissa < 0 then "-" else "";
    var u := PointAt(ds, d.scale) + rest;
    assert Render(d) == sign + PointAt(ds, d.scale);
    assert Render(d) + rest == sign + u;
    assert u[0] == ds[0];
    ScanSigned(d.mantissa < 0, u);
    ScanPointAt(ds, d.scale, rest, d.mantissa < 0);
    MagnitudeValue(d);
  }

  /** The number read when the digits `ds` directly follow the canonical
      text of `d`: its own digits, then those, all after the point. */
  function Extended(d: Decimal, ds: seq<char>): (e: Decimal)
    requires AllDigits(ds)
    ensures e.scale == d.scale + |ds|
  {
    var m := Magnitude(d);
    AllDigitsConcat(m, ds);
    Signed(d.mantissa < 0, m + ds, d.scale + |ds|)
  }

  /** The extended number keeps the sign, and its magnitude is the old one
      shifted left by the new digits, plus their value. */
  lemma ExtendedDigits(d: Decimal, ds: seq<char>)
    requires AllDigits(ds)
    ensures Abs(Extended(d, ds).mantissa) == Abs(d.mantissa) * Pow10(|ds|) + DigitsValue(ds)
    ensures d.mantissa < 0 ==> Extended(d, ds).mantissa <= 0
    ensures d.mantissa >= 0 ==> Extended(d, ds).mantissa >= 0
  {
    var m := Magnitude(d);
    MagnitudeValue(d);
    assert DigitsValue(m) == Abs(d.mantissa);
    DigitsValueAppend(m, ds);
  }

  /** Digits right after the canonical text of a decimal that has a
      fractional part continue that fraction: `%lf` reads them as part of
      the same number. */
  lemma Pow10Add(a: nat, b: nat)
    ensures Pow10(a + b) == Pow10(a) * Pow10(b)
  {
    if a > 0 {
      Pow10Add(a - 1, b);
    }
  }

  /** Digits that are not all zeros change the number's value. */
  lemma ExtendedValue(d: Decimal, ds: seq<char>)
    requires AllDigits(ds) && DigitsValue(ds) > 0
    ensures Extended(d, ds).Value() != d.Value()
  {
    ExtendedDigits(d, ds);
    Pow10Add(d.scale, |ds|);
    ShiftedValue(Extended(d, ds), d, Pow10(|ds|), DigitsValue(ds));
  }

  /** A decimal whose magnitude is another's shifted left, plus a positive
      amount, at the correspondingly larger scale, has another value. */
  lemma ShiftedValue(e: Decimal, d: Decimal, p: int, v: int)
    requires Pow10(e.scale) == Pow10(d.scale) * p
    requires Abs(e.mantissa) == Abs(d.mantissa) * p + v && v > 0
    requires d.mantissa < 0 ==> e.mantissa <= 0
    requires d.mantissa >= 0 ==> e.mantissa >= 0
    ensures e.Value() != d.Value()
  {
    var a: int := Abs(d.mantissa);
    var sc: int := Pow10(d.scale);
    ShiftedDiffers(a, p, v, sc);
    if d.mantissa < 0 {
      assert e.mantissa == -(a * p + v) && d.mantissa == -a;
      assert e.mantissa * sc == -((a * p + v) * sc);
      assert d.mantissa * (sc * p) == -(a * (sc * p));
    } else {
      assert e.mantissa == a * p + v && d.mantissa == a;
    }
    SameValue(e, d);
  }

  lemma ShiftedDiffers(a: int, p: int, v: int, sc: int)
    requires v > 0 && sc >= 1
    ensures (a * p + v) * sc != a * (sc * p)
  {
    assert (a * p + v) * sc == a * (sc * p) + v * sc;
    assert v * sc >= 1;
  }

  /** Two decimals have the same value exactly when their mantissas agree
      once brought to a common scale. */
  lemma SameValue(x: Decimal, y: Decimal)
    ensures x.Value() == y.Value() <==> x.mantissa * Pow10(y.scale) == y.mantissa * Pow10(x.scale)
  {
    var a, b := x.mantissa as real, y.mantissa as real;
    var px, py := Pow10(x.scale) as real, Pow10(y.scale) as real;
    assert (x.mantissa * Pow10(y.scale)) as real == a * py;
    assert (y.mantissa * Pow10(x.scale)) as real == b * px;
    CrossRatio(a, b, px, py);
  }

  lemma CrossRatio(a: real, b: real, px: real, py: real)
    requires px > 0.0 && py > 0.0
    ensures a / px == b / py <==> a * py == b * px
  {
  }

  lemma ScanRenderExtended(d: Decimal, ds: seq<char>, rest: seq<char>)
    requires d.scale > 0 && ds != [] && AllDigits(ds) && EndsNumber(rest)
    ensures ScanNumber(Render(d) + ds + rest) == Some((Extended(d, ds), rest))
  {
    var m := Magnitude(d);
    ScanDigitsAfter(d.mantissa < 0, m, d.scale, ds, rest);
  }

  lemma ScanDigitsAfter(negative: bool, m: seq<char>, scale: nat, ds: seq<char>, rest: seq<char>)
    requires AllDigits(m) && 0 < scale < |m|
    requires ds != [] && AllDigits(ds) && EndsNumber(rest)
    ensures ScanNumber((if negative then "-" else "") + PointAt(m, scale) + ds + rest)
         == Some((Signed(negative, m + ds, scale + |ds|), rest))
  {
    var sign: seq<char> := if negative then "-" else "";
    var e := m + ds;
    var u := PointAt(e, scale + |ds|) + rest;
    assert sign + PointAt(m, scale) + ds + rest == sign + u by {
      var p := PointAt(m, scale);
      PointAtExtend(m, scale, ds);
      Assoc(sign, p, ds);
      Assoc(sign, p + ds, rest);
    }
    AllDigitsConcat(m, ds);
    ScanPointAt(e, scale + |ds|, rest, negative);
    assert u[0] == m[0];
    ScanSigned(negative, u);
  }

  lemma PointAtExtend(m: seq<char>, scale: nat, ds: seq<char>)
    requires 0 < scale < |m|
    ensures PointAt(m, scale) + ds == PointAt(m + ds, scale + |ds|)
  {
    var k := |m| - scale;
    assert (m + ds)[..k] == m[..k] && (m + ds)[k..] == m[k..] + ds;
  }

  lemma SkipSpaceIdempotent(s: seq<char>)
    ensures SkipSpace(SkipSpace(s)) == SkipSpace(s)
  {
    var t := SkipSpace(s);
    if t != [] {
      SkipNoSpace(t);
    }
  }

  /** A number may be preceded by any whitespace. */
  lemma ScanNumberSkips(s: seq<char>)
    ensures ScanNumber(s) == ScanNumber(SkipSpace(s))
  {
    SkipSpaceIdempotent(s);
  }

  lemma SkipNoSpace(s: seq<char>)
    requires s != [] && !IsSpace(s[0])
    ensures SkipSpace(s) == s
  {
  }

  /** The canonical text holds only digits, a minus sign and a point. */
  lemma RenderChars(d: Decimal)
    ensures forall i :: 0 <= i < |Render(d)| ==> IsDigit(Render(d)[i]) || Render(d)[i] == '-' || Render(d)[i] == '.'
  {
    var ds := Magnitude(d);
    PointAtChars(ds, d.scale);
    var sign: seq<char> := if d.mantissa < 0 then "-" else "";
    assert Render(d) == sign + PointAt(ds, d.scale);
  }

  lemma PointAtChars(ds: seq<char>, scale: nat)
    requires AllDigits(ds) && scale < |ds|
    ensures forall i :: 0 <= i < |PointAt(ds, scale)| ==> IsDigit(PointAt(ds, scale)[i]) || PointAt(ds, scale)[i] == '.'
  {
    var k := |ds| - scale;
    assert forall i :: 0 <= i < k ==> ds[..k][i] == ds[i];
    assert forall i :: k <= i < |ds| ==> ds[k..][i - k] == ds[i];
  }

  lemma RenderedNumber(d: Decimal)
    ensures Render(d) != [] && (IsDigit(Render(d)[0]) || Render(d)[0] == '-')
    ensures !IsSpace(Render(d)[0])
  {
  }
}
