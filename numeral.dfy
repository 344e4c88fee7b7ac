/** Lexical layer of the ESATAN record pattern used by `read_fx_t`:
    character classes, digit and whitespace runs, the value `int()` gives a
    digit run, and the signed decimal numeral
      [+-]?\d+(?:\.\d+)?(?:[Ee][+-]?\d+)?
    kept as a lexeme together with the exact decimal number it denotes. */
module Numeral {

  datatype Option<+T> = None | Some(value: T)

  /** Python's `\s`, restricted to ASCII: space, tab, line feed, carriage
      return, vertical tab and form feed. */
  predicate IsSpace(c: char) {
    c == ' ' || c == '\t' || c == '\n' || c == '\r' || c == '\U{000B}' || c == '\U{000C}'
  }

  /** Python's `\d`, restricted to ASCII. */
  predicate IsDigit(c: char) {
    '0' <= c <= '9'
  }

  predicate AllSpace(s: string) {
    forall i :: 0 <= i < |s| ==> IsSpace(s[i])
  }

  predicate AllDigits(s: string) {
    forall i :: 0 <= i < |s| ==> IsDigit(s[i])
  }

  /** Putting back the first character of `s` after splitting the rest of it. */
  lemma HeadTail(s: string, x: string, rest: string)
    requires |s| > 0 && x + rest == s[1..]
    ensures [s[0]] + x + rest == s
  {
    assert [s[0]] + (x + rest) == s;
  }

  /** `s` split after its longest all-whitespace prefix (what a greedy `\s*` consumes). */
  function SpanSpaces(s: string): (r: (string, string))
    ensures r.0 + r.1 == s && AllSpace(r.0)
    ensures r.1 == [] || !IsSpace(r.1[0])
  {
    if s == [] || !IsSpace(s[0]) then ([], s)
    else
      var (w, rest) := SpanSpaces(s[1..]);
      HeadTail(s, w, rest);
      ([s[0]] + w, rest)
  }

  /** `s` split after its longest all-digit prefix (what a greedy `\d*` consumes). */
  function SpanDigits(s: string): (r: (string, string))
    ensures r.0 + r.1 == s && AllDigits(r.0)
    ensures r.1 == [] || !IsDigit(r.1[0])
  {
    if s == [] || !IsDigit(s[0]) then ([], s)
    else
      var (d, rest) := SpanDigits(s[1..]);
      HeadTail(s, d, rest);
      ([s[0]] + d, rest)
  }

  /** A run of whitespace stops exactly where the whitespace does. */
  lemma {:induction false} SpanSpacesOf(w: string, rest: string)
    requires AllSpace(w)
    requires rest == [] || !IsSpace(rest[0])
    ensures SpanSpaces(w + rest) == (w, rest)
    decreases |w|
  {
    if w != [] {
      var s := w + rest;
      assert s[0] == w[0] && IsSpace(s[0]);
      assert s[1..] == w[1..] + rest;
      SpanSpacesOf(w[1..], rest);
      assert SpanSpaces(s) == ([s[0]] + SpanSpaces(s[1..]).0, SpanSpaces(s[1..]).1);
      assert [w[0]] + w[1..] == w;
    } else {
      assert w + rest == rest;
    }
  }

  /** A run of digits stops exactly where the digits do. */
  lemma {:induction false} SpanDigitsOf(d: string, rest: string)
    requires AllDigits(d)
    requires rest == [] || !IsDigit(rest[0])
    ensures SpanDigits(d + rest) == (d, rest)
    decreases |d|
  {
    if d != [] {
      assert (d + rest)[0] == d[0] && IsDigit(d[0]);
      assert (d + rest)[1..] == d[1..] + rest;
      SpanDigitsOf(d[1..], rest);
      assert [d[0]] + d[1..] == d;
    } else {
      assert d + rest == rest;
    }
  }

  function Pow10(k: nat): (r: nat)
    ensures r >= 1
  {
    if k == 0 then 1 else 10 * Pow10(k - 1)
  }

  function DigitValue(c: char): (v: nat)
    requires IsDigit(c)
    ensures v <= 9
  {
    (c as int) - ('0' as int)
  }

  /** The number Python's `int()` gives an ASCII digit string, read left to right. */
  function DigitsValue(s: string): (v: nat)
    requires AllDigits(s)
    ensures v < Pow10(|s|)
  {
    if s == [] then 0
    else 10 * DigitsValue(s[..|s| - 1]) + DigitValue(s[|s| - 1])
  }

  /** One more digit on the right multiplies the value by ten and adds the digit. */
  lemma DigitsValueSnoc(s: string, c: char)
    requires AllDigits(s) && IsDigit(c)
    ensures AllDigits(s + [c]) && DigitsValue(s + [c]) == 10 * DigitsValue(s) + DigitValue(c)
  {
    assert (s + [c])[..|s|] == s;
  }

  predicate AllZeros(s: string) {
    forall i :: 0 <= i < |s| ==> s[i] == '0'
  }

  /** Leading zeros do not change the value of a digit string: `int("099999") == 99999`. */
  lemma {:induction false} DigitsValueLeadingZeros(z: string, s: string)
    requires AllZeros(z) && AllDigits(s)
    ensures AllDigits(z + s)
    ensures DigitsValue(z + s) == DigitsValue(s)
    decreases |s|
  {
    if s == [] {
      assert z + s == z;
      ZerosValue(z);
    } else {
      var zs := z + s;
      assert zs[..|zs| - 1] == z + s[..|s| - 1];
      assert zs[|zs| - 1] == s[|s| - 1];
      DigitsValueLeadingZeros(z, s[..|s| - 1]);
    }
  }

  /** A string of zeros has value zero. */
  lemma {:induction false} ZerosValue(z: string)
    requires AllZeros(z)
    ensures AllDigits(z) && DigitsValue(z) == 0
    decreases |z|
  {
    if z != [] {
      ZerosValue(z[..|z| - 1]);
    }
  }

  datatype Sign = Unsigned | Plus | Minus

  /** The `[Ee][+-]?\d+` part of a numeral; `upper` records which letter was written. */
  datatype Exponent = Exponent(upper: bool, sign: Sign, digits: string)

  /** A numeral as written: sign, integer digits, fraction digits (empty when
      there is no `.` part) and an optional exponent. */
  datatype Numeral = Numeral(sign: Sign, whole: string, fraction: string, exponent: Option<Exponent>)

  function SignText(s: Sign): string {
    match s
    case Unsigned => ""
    case Plus => "+"
    case Minus => "-"
  }

  function FractionText(f: string): string {
    if f == [] then "" else "." + f
  }

  function ExponentText(e: Option<Exponent>): string {
    match e
    case None => ""
    case Some(x) => (if x.upper then "E" else "e") + SignText(x.sign) + x.digits
  }

  /** The characters of a numeral, in the order the pattern reads them. */
  function Text(n: Numeral): string {
    SignText(n.sign) + n.whole + FractionText(n.fraction) + ExponentText(n.exponent)
  }

  /** A numeral the pattern accepts: at least one integer digit, a fraction
      (when present) of at least one digit, an exponent (when present) of at
      least one digit. `1.` and `.5` are not of this form. */
  predicate WellFormed(n: Numeral) {
    |n.whole| > 0 && AllDigits(n.whole) && AllDigits(n.fraction) &&
    (n.exponent.Some? ==> |n.exponent.value.digits| > 0 && AllDigits(n.exponent.value.digits))
  }

  function ScanSign(s: string): (r: (Sign, string))
    ensures SignText(r.0) + r.1 == s
    ensures r.1 == if |s| > 0 && (s[0] == '+' || s[0] == '-') then s[1..] else s
  {
    if |s| > 0 && s[0] == '+' then (Plus, s[1..])
    else if |s| > 0 && s[0] == '-' then (Minus, s[1..])
    else (Unsigned, s)
  }

  /** `(?:\.\d+)?` taken greedily: the fraction digits and what follows them. */
  function ScanFraction(s: string): (r: (string, string))
    ensures FractionText(r.0) + r.1 == s && AllDigits(r.0)
  {
    if |s| > 0 && s[0] == '.' then
      var (d, rest) := SpanDigits(s[1..]);
      if d != [] then
        HeadTail(s, d, rest);
        FractionTextPoint(d, s[0], rest);
        (d, rest)
      else ([], s)
    else ([], s)
  }

  /** `(?:[Ee][+-]?\d+)?` taken greedily: the exponent and what follows it. */
  function ScanExponent(s: string): (r: (Option<Exponent>, string))
    ensures ExponentText(r.0) + r.1 == s
    ensures r.0.Some? ==> |r.0.value.digits| > 0 && AllDigits(r.0.value.digits)
  {
    if |s| > 0 && (s[0] == 'e' || s[0] == 'E') then
      match ScanExponentAfter(s[0] == 'E', s[1..])
      case None => (None, s)
      case Some((e, rest)) =>
        HeadTail(s, SignText(e.sign) + e.digits, rest);
        ExponentTextLetter(e, s[0], rest);
        (Some(e), rest)
    else (None, s)
  }

  /** The signed digits of an exponent written with the letter given by
      `upper`, read from `t` (the text after the letter). */
  function ScanExponentAfter(upper: bool, t: string): (r: Option<(Exponent, string)>)
    ensures r.Some? ==> r.value.0.upper == upper && |r.value.0.digits| > 0 && AllDigits(r.value.0.digits)
    ensures r.Some? ==> SignText(r.value.0.sign) + r.value.0.digits + r.value.1 == t
  {
    var (sg, u) := ScanSign(t);
    var (d, rest) := SpanDigits(u);
    if d != [] then Some((Exponent(upper, sg, d), rest)) else None
  }

  lemma FractionTextPoint(d: string, c: char, rest: string)
    requires c == '.' && d != []
    ensures FractionText(d) + rest == [c] + d + rest
  {
  }

  lemma ExponentTextLetter(e: Exponent, c: char, rest: string)
    requires (c == 'e' || c == 'E') && e.upper == (c == 'E')
    ensures ExponentText(Some(e)) + rest == [c] + (SignText(e.sign) + e.digits) + rest
  {
    assert (if e.upper then "E" else "e") == [c];
  }

  /** A numeral's text followed by `rest`, regrouped part by part. */
  lemma TextOf(n: Numeral, rest: string)
    ensures Text(n) + rest == SignText(n.sign) + (n.whole + (FractionText(n.fraction) + (ExponentText(n.exponent) + rest)))
  {
  }

  /** The numeral at the head of `s`, read the way the backtracking matcher
      first finds it: sign, all digits, then the fraction if one follows, then
      the exponent if one follows; with it, the text after it. `None` exactly
      when no digit follows the optional sign. */
  function ScanNumeral(s: string): (r: Option<(Numeral, string)>)
    ensures r.Some? <==>
      (|s| > 0 && IsDigit(s[0])) || (|s| > 1 && (s[0] == '+' || s[0] == '-') && IsDigit(s[1]))
    ensures r.Some? ==> WellFormed(r.value.0) && Text(r.value.0) + r.value.1 == s
  {
    var (sg, t) := ScanSign(s);
    ScanUnsigned(sg, t)
  }

  /** The part of `ScanNumeral` after the sign `sg` has been read off, `t` being what follows it. */
  function ScanUnsigned(sg: Sign, t: string): (r: Option<(Numeral, string)>)
    ensures r.Some? <==> |t| > 0 && IsDigit(t[0])
    ensures r.Some? ==> WellFormed(r.value.0) && r.value.0.sign == sg
    ensures r.Some? ==> Text(r.value.0) + r.value.1 == SignText(sg) + t
  {
    var (w, u) := SpanDigits(t);
    assert w != [] ==> t[0] == w[0];
    if w == [] then None
    else
      var (f, v) := ScanFraction(u);
      var (e, rest) := ScanExponent(v);
      var n := Numeral(sg, w, f, e);
      TextOf(n, rest);
      Some((n, rest))
  }

  /** A numeral ends with a digit. */
  lemma TextEndsInDigit(n: Numeral)
    requires WellFormed(n)
    ensures |Text(n)| > 0 && IsDigit(Text(n)[|Text(n)| - 1])
  {
    var p := SignText(n.sign) + n.whole;
    assert Text(n) == p + FractionText(n.fraction) + ExponentText(n.exponent);
    match n.exponent
    case Some(x) =>
      assert ExponentText(n.exponent)[|ExponentText(n.exponent)| - 1] == x.digits[|x.digits| - 1];
    case None =>
      assert Text(n) == p + FractionText(n.fraction);
      if n.fraction != [] {
        assert FractionText(n.fraction)[|FractionText(n.fraction)| - 1] == n.fraction[|n.fraction| - 1];
      } else {
        assert Text(n) == p;
        assert p[|p| - 1] == n.whole[|n.whole| - 1];
      }
  }

  /** `rest` cannot carry on a numeral: it is empty or begins with a
      character that is not a digit, `.`, `e` or `E` (whitespace, say). */
  predicate Delimits(rest: string) {
    rest == [] || !(IsDigit(rest[0]) || rest[0] == '.' || rest[0] == 'e' || rest[0] == 'E')
  }

  /** A well-formed numeral followed by text that cannot carry it on (such as
      whitespace, or nothing) is read back whole and unchanged: on such text
      the scanner inverts `Text`. */
  lemma ScanNumeralToken(n: Numeral, rest: string)
    requires WellFormed(n)
    requires Delimits(rest)
    ensures ScanNumeral(Text(n) + rest) == Some((n, rest))
  {
    var fe := FractionText(n.fraction) + (ExponentText(n.exponent) + rest);
    TextOf(n, rest);
    ScanSignOf(n.sign, n.whole + fe);
    ScanUnsignedToken(n, rest);
  }

  lemma ScanUnsignedToken(n: Numeral, rest: string)
    requires WellFormed(n)
    requires Delimits(rest)
    ensures ScanUnsigned(n.sign, n.whole + (FractionText(n.fraction) + (ExponentText(n.exponent) + rest))) == Some((n, rest))
  {
    var ex := ExponentText(n.exponent) + rest;
    var fe := FractionText(n.fraction) + ex;
    ScanExponentOf(n.exponent, rest);
    assert ex == [] || (ex[0] != '.' && !IsDigit(ex[0])) by {
      if n.exponent.Some? { assert ex[0] == ExponentText(n.exponent)[0]; }
    }
    ScanFractionOf(n.fraction, ex);
    assert fe == [] || !IsDigit(fe[0]) by {
      if n.fraction != [] { assert fe[0] == '.'; }
    }
    SpanDigitsOf(n.whole, fe);
  }

  /** A point with no digit after it is not part of a numeral: the `.` of
      `1.` is left unread, so `1.` followed by whitespace is not a field. */
  lemma ScanNumeralBarePoint(w: string, rest: string)
    requires |w| > 0 && AllDigits(w)
    requires |rest| > 0 && rest[0] == '.' && (|rest| == 1 || !IsDigit(rest[1]))
    ensures ScanNumeral(w + rest) == Some((Numeral(Unsigned, w, [], None), rest))
  {
    assert SignText(Unsigned) + (w + rest) == w + rest;
    ScanSignOf(Unsigned, w + rest);
    SpanDigitsOf(w, rest);
    assert [] + rest[1..] == rest[1..];
    SpanDigitsOf([], rest[1..]);
  }

  lemma ScanSignOf(sg: Sign, t: string)
    requires |t| > 0 && IsDigit(t[0])
    ensures ScanSign(SignText(sg) + t) == (sg, t)
  {
    match sg {
      case Unsigned => assert SignText(sg) + t == t;
      case Plus => assert (SignText(sg) + t)[1..] == t;
      case Minus => assert (SignText(sg) + t)[1..] == t;
    }
  }

  lemma ScanFractionOf(f: string, ex: string)
    requires AllDigits(f)
    requires ex == [] || (ex[0] != '.' && !IsDigit(ex[0]))
    ensures ScanFraction(FractionText(f) + ex) == (f, ex)
  {
    if f != [] {
      assert (FractionText(f) + ex)[1..] == f + ex;
      SpanDigitsOf(f, ex);
    } else {
      assert FractionText(f) + ex == ex;
    }
  }

  lemma ScanExponentOf(e: Option<Exponent>, rest: string)
    requires e.Some? ==> |e.value.digits| > 0 && AllDigits(e.value.digits)
    requires Delimits(rest)
    ensures ScanExponent(ExponentText(e) + rest) == (e, rest)
  {
    match e
    case None =>
      assert ExponentText(e) + rest == rest;
    case Some(x) =>
      var s := ExponentText(e) + rest;
      assert s[1..] == SignText(x.sign) + (x.digits + rest);
      ScanSignOf(x.sign, x.digits + rest);
      SpanDigitsOf(x.digits, rest);
  }

  /** A digit run read after known digits `d` carries on from them. */
  lemma {:induction false} SpanDigitsAppend(d: string, x: string)
    requires AllDigits(d)
    ensures SpanDigits(d + x) == (d + SpanDigits(x).0, SpanDigits(x).1)
    decreases |d|
  {
    if d == [] {
      assert d + x == x;
      assert d + SpanDigits(x).0 == SpanDigits(x).0;
    } else {
      var s := d + x;
      assert s[0] == d[0] && IsDigit(s[0]);
      assert s[1..] == d[1..] + x;
      SpanDigitsAppend(d[1..], x);
      assert [d[0]] + (d[1..] + SpanDigits(x).0) == d + SpanDigits(x).0;
    }
  }

  /** The scanner takes at least every numeral that `s` begins with: what it
      leaves over is no longer than what any other reading leaves over. This is
      the greedy choice the backtracking matcher makes for a field whose end is
      not checked. */
  lemma ScanNumeralLongest(m: Numeral, tail: string)
    requires WellFormed(m)
    ensures ScanNumeral(Text(m) + tail).Some?
    ensures |ScanNumeral(Text(m) + tail).value.1| <= |tail|
  {
    var fe := FractionText(m.fraction) + ExponentText(m.exponent) + tail;
    assert Text(m) + tail == SignText(m.sign) + (m.whole + fe);
    ScanSignOf(m.sign, m.whole + fe);
    SpanDigitsAppend(m.whole, fe);
    AfterWholeLongest(m, tail);
  }

  /** What follows the integer digits of `m`: whatever the scanner reads there,
      it reads at least the fraction and exponent of `m`. */
  lemma AfterWholeLongest(m: Numeral, tail: string)
    requires WellFormed(m)
    ensures var fe := FractionText(m.fraction) + ExponentText(m.exponent) + tail;
      |ScanExponent(ScanFraction(SpanDigits(fe).1).1).1| <= |tail|
  {
    var fe := FractionText(m.fraction) + ExponentText(m.exponent) + tail;
    if SpanDigits(fe).0 != [] {
      MoreWholeDigits(m, tail);
    } else if m.fraction != [] {
      FractionAfterWhole(m, tail);
    } else {
      ExponentStart(m.exponent, tail);
      assert SpanDigits(fe).1 == fe == ExponentText(m.exponent) + tail;
      if m.exponent.Some? {
        assert ScanFraction(fe).1 == fe;
      } else {
        assert fe == tail;
        ConsumesOnly(fe);
        ConsumesOnly(ScanFraction(fe).1);
      }
      ScanExponentLongest(m.exponent, tail);
    }
  }

  /** Reading a digit run, a fraction or an exponent only ever consumes text. */
  lemma ConsumesOnly(u: string)
    ensures |SpanDigits(u).1| <= |u|
    ensures |ScanFraction(u).1| <= |u|
    ensures |ScanExponent(u).1| <= |u|
  {
    var (d, r0) := SpanDigits(u);
    assert |d + r0| == |u|;
    var (f, r1) := ScanFraction(u);
    assert |FractionText(f) + r1| == |u|;
    var (e, r2) := ScanExponent(u);
    assert |ExponentText(e) + r2| == |u|;
  }

  /** When the digit run goes on past the integer digits of `m`, `m` ended there. */
  lemma MoreWholeDigits(m: Numeral, tail: string)
    requires WellFormed(m)
    requires var fe := FractionText(m.fraction) + ExponentText(m.exponent) + tail;
      SpanDigits(fe).0 != []
    ensures var fe := FractionText(m.fraction) + ExponentText(m.exponent) + tail;
      |ScanExponent(ScanFraction(SpanDigits(fe).1).1).1| <= |tail|
  {
    var ex := ExponentText(m.exponent) + tail;
    var fe := FractionText(m.fraction) + ex;
    ExponentStart(m.exponent, tail);
    FractionStart(m.fraction, ex);
    var u := SpanDigits(fe).1;
    assert fe[0] == SpanDigits(fe).0[0];
    assert fe == ex == tail;
    ConsumesOnly(fe);
    ConsumesOnly(u);
    ConsumesOnly(ScanFraction(u).1);
  }

  /** When `m` has a fraction, the scanner reads it and possibly more digits. */
  lemma FractionAfterWhole(m: Numeral, tail: string)
    requires WellFormed(m) && m.fraction != []
    ensures var fe := FractionText(m.fraction) + ExponentText(m.exponent) + tail;
      |ScanExponent(ScanFraction(SpanDigits(fe).1).1).1| <= |tail|
  {
    var ex := ExponentText(m.exponent) + tail;
    var fe := FractionText(m.fraction) + ex;
    assert fe == FractionText(m.fraction) + ExponentText(m.exponent) + tail;
    FractionStart(m.fraction, ex);
    SpanDigitsOf([], fe);
    assert SpanDigits(fe).1 == fe;
    FractionLongest(m.fraction, ex);
    var u2 := SpanDigits(ex).1;
    assert ScanFraction(fe).1 == u2;
    if SpanDigits(ex).0 != [] {
      MoreFractionDigits(m.exponent, tail);
    } else {
      assert u2 == ex;
      ScanExponentLongest(m.exponent, tail);
    }
  }

  /** When the fraction's digit run goes on past the fraction of `m`, `m` had no exponent. */
  lemma MoreFractionDigits(e: Option<Exponent>, tail: string)
    requires SpanDigits(ExponentText(e) + tail).0 != []
    ensures |ScanExponent(SpanDigits(ExponentText(e) + tail).1).1| <= |tail|
  {
    var ex := ExponentText(e) + tail;
    assert ex[0] == SpanDigits(ex).0[0];
    ExponentStart(e, tail);
    assert ex == tail;
    ConsumesOnly(ex);
    ConsumesOnly(SpanDigits(ex).1);
  }

  /** How the text after the integer digits begins: with `.`, or with what follows the fraction. */
  lemma FractionStart(f: string, x: string)
    ensures f != [] ==> |FractionText(f) + x| > 0 && (FractionText(f) + x)[0] == '.'
    ensures f == [] ==> FractionText(f) + x == x
  {
  }

  /** How the text after the fraction begins: with the exponent letter, or with the tail itself. */
  lemma ExponentStart(e: Option<Exponent>, tail: string)
    ensures e.Some? ==>
      (|ExponentText(e) + tail| > 0 &&
       ((ExponentText(e) + tail)[0] == 'e' || (ExponentText(e) + tail)[0] == 'E'))
    ensures e.None? ==> ExponentText(e) + tail == tail
    ensures FractionText([]) + (ExponentText(e) + tail) == ExponentText(e) + tail
  {
  }

  /** A fraction read after a `.` and known digits `f` carries on from them. */
  lemma FractionLongest(f: string, ex: string)
    requires |f| > 0 && AllDigits(f)
    ensures ScanFraction(FractionText(f) + ex) == (f + SpanDigits(ex).0, SpanDigits(ex).1)
  {
    assert (FractionText(f) + ex)[1..] == f + ex;
    SpanDigitsAppend(f, ex);
  }

  /** The exponent reader, given an exponent followed by anything, consumes at least that exponent. */
  lemma ScanExponentLongest(e: Option<Exponent>, tail: string)
    requires e.Some? ==> |e.value.digits| > 0 && AllDigits(e.value.digits)
    ensures |ScanExponent(ExponentText(e) + tail).1| <= |tail|
  {
    var s := ExponentText(e) + tail;
    match e
    case None =>
      assert s == tail;
      var (e1, rest) := ScanExponent(s);
      assert |ExponentText(e1) + rest| == |s|;
    case Some(x) =>
      ExponentLongest(x, tail);
  }

  /** A written exponent followed by `tail`: the scanner reads at least all of it. */
  lemma ExponentLongest(x: Exponent, tail: string)
    requires |x.digits| > 0 && AllDigits(x.digits)
    ensures |ScanExponent(ExponentText(Some(x)) + tail).1| <= |tail|
  {
    var s := ExponentText(Some(x)) + tail;
    assert s[1..] == SignText(x.sign) + (x.digits + tail);
    ScanSignOf(x.sign, x.digits + tail);
    SpanDigitsAppend(x.digits, tail);
    var (d1, u) := SpanDigits(tail);
    assert |d1 + u| == |tail|;
  }

  /** Exact decimal number `mantissa * 10^exponent`. */
  datatype Decimal = Decimal(mantissa: int, exponent: int)

  function SignFactor(s: Sign): int {
    if s == Minus then -1 else 1
  }

  /** The exact number a well-formed numeral denotes, before `float()` rounds
      it to the nearest double. */
  function Value(n: Numeral): (v: Decimal)
    requires WellFormed(n)
  {
    var e := match n.exponent
      case None => 0
      case Some(x) => SignFactor(x.sign) * DigitsValue(x.digits);
    Decimal(SignFactor(n.sign) * DigitsValue(n.whole + n.fraction), e - |n.fraction|)
  }

  /** A zero written after the last fraction digit (`1.5` against `1.50`)
      denotes the same number: the mantissa gains a factor ten and the
      exponent loses one. */
  lemma ValueTrailingZero(n: Numeral)
    requires WellFormed(n)
    ensures var z := n.(fraction := n.fraction + ['0']);
      WellFormed(z) && Value(z) == Decimal(10 * Value(n).mantissa, Value(n).exponent - 1)
  {
    var z := n.(fraction := n.fraction + ['0']);
    DigitsValueSnoc(n.whole + n.fraction, '0');
    assert z.whole + z.fraction == (n.whole + n.fraction) + ['0'];
  }
}
