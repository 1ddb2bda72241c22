/**
 * JavaScript number handling used throughout the core, over exact reals:
 * `Number(text)` restricted to decimal notation, the `Number(v) || d`
 * defaulting idiom, `Math.round`, the two-decimal rounding helper and
 * `toFixed(2)` (which also describes MySQL's `ROUND(x, 2)` on exact decimals).
 */
module Numbers {
  import opened Base
  import opened Text

  predicate IsDigit(c: char) {
    '0' <= c <= '9'
  }

  predicate AllDigits(s: string) {
    forall i :: 0 <= i < |s| ==> IsDigit(s[i])
  }

  function DigitValue(c: char): nat
    requires IsDigit(c)
  {
    c as int - '0' as int
  }

  /** The value of a run of decimal digits, read most significant first. */
  function DigitsValue(ds: string): nat
    requires AllDigits(ds)
    decreases |ds|
  {
    if ds == [] then 0 else 10 * DigitsValue(ds[..|ds| - 1]) + DigitValue(ds[|ds| - 1])
  }

  function Pow10(n: nat): (r: nat)
    ensures r >= 1
  {
    if n == 0 then 1 else 10 * Pow10(n - 1)
  }

  /** Length of the run of digits at the start of `s`. */
  function DigitRun(s: string): (k: nat)
    ensures k <= |s|
    ensures AllDigits(s[..k])
    ensures k < |s| ==> !IsDigit(s[k])
    decreases |s|
  {
    if s != [] && IsDigit(s[0]) then 1 + DigitRun(s[1..]) else 0
  }

  function Signed(negative: bool, v: real): real {
    if negative then -v else v
  }

  /** `s` without its leading sign, if it has one. */
  function Unsigned(s: string): string {
    if |s| > 0 && (s[0] == '+' || s[0] == '-') then s[1..] else s
  }

  /**
   * Decimal notation: an optional sign, then digits with at most one decimal
   * point, holding at least one digit.
   */
  predicate IsDecimal(s: string) {
    DecimalBody(Unsigned(s))
  }

  /** Digits with at most one decimal point, holding at least one digit. */
  predicate DecimalBody(body: string) {
    && (forall i :: 0 <= i < |body| ==> IsDigit(body[i]) || body[i] == '.')
    && (forall i, j :: 0 <= i < j < |body| && body[i] == '.' ==> body[j] != '.')
    && body != [] && body != "."
  }

  /**
   * `Number(s)` on a trimmed, non-empty string, for decimal notation:
   * an optional sign, digits, and an optional fraction, with at least one digit
   * (`"12"`, `"-3.5"`, `".5"`, `"7."`). Anything else is NaN, here `None`.
   */
  function ParseDecimal(s: string): (r: Option<real>)
    ensures s == [] ==> r == None
    ensures s != [] && AllDigits(s) ==> r == Some(DigitsValue(s) as real)
  {
    assert s != [] && AllDigits(s) ==> Unsigned(s) == s && !Negative(s) by {
      if s != [] && AllDigits(s) {
        assert IsDigit(s[0]);
      }
    }
    match ParseUnsigned(Unsigned(s))
    case None => None
    case Some(v) => Some(Signed(Negative(s), v))
  }

  /** The text starts with a minus sign. */
  predicate Negative(s: string) {
    |s| > 0 && s[0] == '-'
  }

  /** Decimal notation without a sign: digits, then optionally a point and more digits, with a digit somewhere. */
  function ParseUnsigned(body: string): (r: Option<real>)
    ensures body != [] && AllDigits(body) ==> r == Some(DigitsValue(body) as real)
    ensures body == [] ==> r == None
  {
    assert AllDigits(body) ==> DigitRun(body) == |body| && body[..|body|] == body;
    var k := DigitRun(body);
    var whole := DigitsValue(body[..k]) as real;
    var rest := body[k..];
    if rest == [] then
      if k == 0 then None else Some(whole)
    else if rest[0] != '.' || !AllDigits(rest[1..]) || (k == 0 && |rest| == 1) then None
    else
      Some(PointValue(body[..k], rest[1..]))
  }

  /** The value of `w.f`: the whole digits plus the fraction digits. */
  function PointValue(w: string, f: string): real
    requires AllDigits(w) && AllDigits(f)
  {
    DigitsValue(w) as real + Fraction(f)
  }

  /** The value of the digits after a decimal point. */
  function Fraction(f: string): real
    requires AllDigits(f)
  {
    DigitsValue(f) as real / Pow10(|f|) as real
  }

  /** `Number` reads exactly the texts in decimal notation. */
  lemma ParseDecimalAccepts(s: string)
    ensures ParseDecimal(s).Some? <==> IsDecimal(s)
  {
    UnsignedAccepts(Unsigned(s));
  }

  /** The unsigned reader accepts exactly digits with at most one point and at least one digit. */
  lemma UnsignedAccepts(body: string)
    ensures ParseUnsigned(body).Some? <==> DecimalBody(body)
  {
    var k := DigitRun(body);
    var rest := body[k..];
    if rest == [] {
      AllDigitsAccepted(body);
    } else if rest[0] != '.' {
      StrayCharRejected(body, k);
    } else if !AllDigits(rest[1..]) {
      FractionNotDigits(body, k);
    } else if k == 0 && |rest| == 1 {
      assert body == ".";
    } else {
      PointAccepted(body, k);
    }
  }

  /** A run of digits alone is read when it is not empty. */
  lemma AllDigitsAccepted(body: string)
    requires DigitRun(body) == |body|
    ensures ParseUnsigned(body).Some? <==> DecimalBody(body)
  {
    assert body[..|body|] == body;
  }

  /** A character after the digit run that is neither a digit nor a point is rejected. */
  lemma StrayCharRejected(body: string, k: nat)
    requires k == DigitRun(body) && k < |body| && body[k] != '.'
    ensures ParseUnsigned(body).None? && !DecimalBody(body)
  {
    assert body[k..][0] == body[k];
  }

  /** After the point, a character that is not a digit is rejected, whether a stray character or a second point. */
  lemma FractionNotDigits(body: string, k: nat)
    requires k == DigitRun(body) && k < |body| && body[k] == '.' && !AllDigits(body[k + 1..])
    ensures ParseUnsigned(body).None? && !DecimalBody(body)
  {
    var rest := body[k..];
    assert rest[0] == '.' && rest[1..] == body[k + 1..];
    var i :| 0 <= i < |body[k + 1..]| && !IsDigit(body[k + 1..][i]);
    assert body[k + 1 + i] == body[k + 1..][i];
  }

  /** Digits, a point and digits, with a digit somewhere, are read. */
  lemma PointAccepted(body: string, k: nat)
    requires k == DigitRun(body) && k < |body| && body[k] == '.' && AllDigits(body[k + 1..])
    requires k > 0 || |body| > 1
    ensures ParseUnsigned(body).Some? && DecimalBody(body)
  {
    var rest := body[k..];
    assert rest[0] == '.' && rest[1..] == body[k + 1..];
    PointShape(body, k);
  }

  /** Digits, one point and digits form a decimal body. */
  lemma PointShape(body: string, k: nat)
    requires k <= |body| && AllDigits(body[..k])
    requires k < |body| && body[k] == '.' && AllDigits(body[k + 1..])
    requires k > 0 || |body| > 1
    ensures DecimalBody(body)
  {
    forall m | 0 <= m < k
      ensures IsDigit(body[m])
    {
      assert body[m] == body[..k][m];
    }
    forall i | k < i < |body|
      ensures IsDigit(body[i])
    {
      assert body[i] == body[k + 1..][i - k - 1];
    }
  }

  /**
   * Reading back decimal notation: an optional sign, the whole digits `w`, a
   * point and the fraction digits `f` (either may be empty, not both) give
   * the signed value of `w.f`.
   */
  lemma ParseDecimalReadsBack(sign: string, w: string, f: string)
    requires sign == "" || sign == "+" || sign == "-"
    requires AllDigits(w) && AllDigits(f) && (w != [] || f != [])
    ensures ParseDecimal(sign + w + "." + f)
         == Some(Signed(sign == "-", PointValue(w, f)))
  {
    var body := w + "." + f;
    var v := PointValue(w, f);
    SignedPointText(sign, w, f);
    SignPrefix(sign, body);
    UnsignedReadsBack(w, f);
    SignedRead(sign + body, body, v);
  }

  /** `sign + w + "." + f` is the sign followed by an unsigned text. */
  lemma SignedPointText(sign: string, w: string, f: string)
    requires AllDigits(w)
    ensures sign + w + "." + f == sign + (w + "." + f)
    ensures var body := w + "." + f; body != [] && body[0] != '+' && body[0] != '-'
  {
    Assoc(sign + w, ".", f);
    Assoc(sign, w, ".");
    Assoc(sign, w + ".", f);
    var body := w + "." + f;
    assert body[0] == if w != [] then w[0] else '.';
  }

  /** `Number` of a signed text is the signed value of the text after the sign. */
  lemma SignedRead(s: string, body: string, v: real)
    requires Unsigned(s) == body
    requires ParseUnsigned(body) == Some(v)
    ensures ParseDecimal(s) == Some(Signed(Negative(s), v))
  {
  }

  /** A sign in front of a text that does not itself start with a sign is read as the sign. */
  lemma SignPrefix(sign: string, body: string)
    requires sign == "" || sign == "+" || sign == "-"
    requires body != [] && body[0] != '+' && body[0] != '-'
    ensures Unsigned(sign + body) == body
    ensures Negative(sign + body) == (sign == "-")
  {
    if sign != "" {
      assert (sign + body)[0] == sign[0] && (sign + body)[1..] == body;
    } else {
      assert sign + body == body;
    }
  }

  /** Whole digits, a point and fraction digits read as the whole part plus the fraction. */
  lemma UnsignedReadsBack(w: string, f: string)
    requires AllDigits(w) && AllDigits(f) && (w != [] || f != [])
    ensures ParseUnsigned(w + "." + f) == Some(PointValue(w, f))
  {
    PointSplit(w, f);
    UnsignedAtPoint(w + "." + f, w, f);
  }

  /** The pieces of `w + "." + f`, and its digit run when `w` is all digits. */
  lemma PointSplit(w: string, f: string)
    requires AllDigits(w)
    ensures var b := w + "." + f;
      |b| == |w| + 1 + |f| && b[..|w|] == w && b[|w|] == '.' && b[|w| + 1..] == f && DigitRun(b) == |w|
  {
    Assoc(w, ".", f);
    DigitRunPrefix(w, "." + f);
  }

  /** Whole digits `w` ended by a point and followed by the digits `f` read as whole part plus fraction. */
  lemma UnsignedAtPoint(body: string, w: string, f: string)
    requires |body| == |w| + 1 + |f| && body[..|w|] == w && body[|w|] == '.' && body[|w| + 1..] == f
    requires DigitRun(body) == |w| && AllDigits(f) && (w != [] || f != [])
    ensures ParseUnsigned(body) == Some(PointValue(w, f))
  {
    var rest := body[|w|..];
    assert rest[0] == '.' && rest[1..] == f;
  }

  /** Reading back a signed run of digits gives its signed value. */
  lemma ParseIntegerReadsBack(sign: string, w: string)
    requires sign == "" || sign == "+" || sign == "-"
    requires AllDigits(w) && w != []
    ensures ParseDecimal(sign + w) == Some(Signed(sign == "-", DigitsValue(w) as real))
  {
    assert IsDigit(w[0]);
    SignPrefix(sign, w);
    SignedRead(sign + w, w, DigitsValue(w) as real);
  }

  /** The digit run of `w + t` is `w` when `t` does not start with a digit. */
  lemma {:induction false} DigitRunPrefix(w: string, t: string)
    requires AllDigits(w) && (t == [] || !IsDigit(t[0]))
    ensures DigitRun(w + t) == |w|
    decreases |w|
  {
    if w != [] {
      assert (w + t)[0] == w[0] && (w + t)[1..] == w[1..] + t;
      DigitRunPrefix(w[1..], t);
    } else {
      assert w + t == t;
    }
  }

  /** Decimal notation has no upper-case letters, so lower-casing leaves it as it is and cannot produce it. */
  lemma LowerDecimal(t: string)
    ensures IsDecimal(t) ==> Lower(t) == t
    ensures IsDecimal(Lower(t)) ==> Lower(t) == t
  {
    if IsDecimal(t) {
      DecimalChars(t);
    }
    if IsDecimal(Lower(t)) {
      DecimalChars(Lower(t));
      forall i | 0 <= i < |t|
        ensures LowerChar(t[i]) == t[i]
      {
        assert Lower(t)[i] == LowerChar(t[i]);
      }
    }
  }

  /** Every character of decimal notation is a digit, a point or a sign, none of them changed by lower-casing. */
  lemma DecimalChars(s: string)
    requires IsDecimal(s)
    ensures forall i :: 0 <= i < |s| ==> LowerChar(s[i]) == s[i]
  {
    var body := Unsigned(s);
    forall i | 0 <= i < |s|
      ensures LowerChar(s[i]) == s[i]
    {
      if body != s && i > 0 {
        assert s[i] == body[i - 1];
      } else if body == s {
        assert s[i] == body[i];
      }
    }
  }

  /** `Number(s)` for a string: surrounding whitespace ignored, blank is 0, otherwise decimal notation. */
  function ToNumber(s: string): (r: Option<real>)
    ensures AllSpace(s) ==> r == Some(0.0)
    ensures !AllSpace(s) ==> (r.Some? <==> IsDecimal(Trim(s)))
    ensures r.Some? && !AllSpace(s) ==> r == ParseDecimal(Trim(s))
  {
    var t := Trim(s);
    ParseDecimalAccepts(t);
    if t == [] then Some(0.0) else ParseDecimal(t)
  }

  /** `Number(text) || 0`: the value of decimal notation, and 0 for anything else. */
  lemma NumberOrZero(text: string)
    ensures !IsDecimal(Trim(text)) ==> OrDefault(ToNumber(text), 0.0) == 0.0
    ensures IsDecimal(Trim(text)) ==> Some(OrDefault(ToNumber(text), 0.0)) == ParseDecimal(Trim(text))
  {
    ParseDecimalAccepts(Trim(text));
    assert AllSpace(text) ==> !IsDecimal(Trim(text));
  }

  /** A number JavaScript treats as false: NaN (here also null) or zero. */
  predicate Falsy(v: Option<real>) {
    v.None? || v.value == 0.0
  }

  /** `Number(v) || d`: a falsy number gives way to the default. */
  function OrDefault(v: Option<real>, d: real): (r: real)
    ensures Falsy(v) ==> r == d
    ensures !Falsy(v) ==> r == v.value
  {
    if Falsy(v) then d else v.value
  }

  /** Decimal representation of a natural number, as `String(n)` prints it. */
  function NatToString(n: nat): string
    decreases n
  {
    var last := ['0' + (n % 10) as char];
    if n < 10 then last else NatToString(n / 10) + last
  }

  lemma {:induction false} NatToStringDigits(n: nat)
    ensures NatToString(n) != [] && AllDigits(NatToString(n))
    ensures DigitsValue(NatToString(n)) == n
    decreases n
  {
    var s := NatToString(n);
    if n >= 10 {
      NatToStringDigits(n / 10);
      assert s[..|s| - 1] == NatToString(n / 10);
    }
  }

  /** Reading back a printed natural number gives the number: `Number(String(n)) == n`. */
  lemma ParsePrinted(n: nat)
    ensures ParseDecimal(NatToString(n)) == Some(n as real)
    ensures ToNumber(NatToString(n)) == Some(n as real)
  {
    NatToStringDigits(n);
    DigitsTrimmed(NatToString(n));
  }

  /** A run of digits has no surrounding whitespace to trim. */
  lemma DigitsTrimmed(s: string)
    requires s != [] && AllDigits(s)
    ensures Trim(s) == s
  {
    assert !IsSpace(s[0]) && !IsSpace(s[|s| - 1]) by {
      assert IsDigit(s[0]) && IsDigit(s[|s| - 1]);
    }
    TrimPadded([], s, []);
    assert [] + s + [] == s;
  }

  function Clamp(x: real, lo: real, hi: real): (r: real)
    requires lo <= hi
    ensures lo <= r <= hi
    ensures lo <= x <= hi ==> r == x
    ensures x < lo ==> r == lo
    ensures x > hi ==> r == hi
  {
    if x < lo then lo else if x > hi then hi else x
  }

  /** `Math.round`: the nearest integer, halves rounded towards +infinity. */
  function Round0(x: real): (r: int)
    ensures x - 0.5 < r as real <= x + 0.5
  {
    (x + 0.5).Floor
  }

  /** `x` has at most two decimal places. */
  predicate IsCents(x: real) {
    (x * 100.0).Floor as real == x * 100.0
  }

  /** `Math.round(x * 100) / 100`: rounding to two decimal places, halves upward. */
  function Round2(x: real): (r: real)
    ensures IsCents(r)
    ensures x - 0.005 < r <= x + 0.005
  {
    var k := Round0(x * 100.0);
    assert (k as real / 100.0) * 100.0 == k as real;
    k as real / 100.0
  }

  /**
   * `Number(x.toFixed(2))`, and MySQL `ROUND(x, 2)` on an exact decimal:
   * two decimal places with halves rounded away from zero.
   */
  function RoundAway2(x: real): (r: real)
    ensures IsCents(r)
    ensures x - 0.005 <= r <= x + 0.005
    ensures x >= 0.0 ==> r == Round2(x)
  {
    if x < 0.0 then
      var y := Round2(-x);
      CentsNegate(y);
      -y
    else Round2(x)
  }

  lemma CentsNegate(y: real)
    requires IsCents(y)
    ensures IsCents(-y)
  {
    var k := (y * 100.0).Floor;
    assert (-y) * 100.0 == (-k) as real;
  }

  /** A whole number is its own `Math.round`. */
  lemma Round0Whole(n: int)
    ensures Round0(n as real) == n
  {
  }

  lemma Round0Monotone(x: real, y: real)
    requires x <= y
    ensures Round0(x) <= Round0(y)
  {
  }

  /** Rounding to cents twice is rounding once. */
  lemma Round2Idempotent(x: real)
    ensures Round2(Round2(x)) == Round2(x)
  {
    var r := Round2(x);
    var k := (r * 100.0).Floor;
    assert r * 100.0 == k as real;
    assert Round0(r * 100.0) == k;
  }

  /** `toFixed(2)` leaves a value that already has two decimals unchanged. */
  lemma RoundAway2Cents(x: real)
    requires IsCents(x)
    ensures RoundAway2(x) == x
  {
    var k := (x * 100.0).Floor;
    assert x * 100.0 == k as real;
    if x < 0.0 {
      assert (-x) * 100.0 == (-k) as real;
      assert Round0((-x) * 100.0) == -k;
    } else {
      assert Round0(x * 100.0) == k;
    }
  }

  /** `toFixed(2)` rounds symmetrically about zero. */
  lemma RoundAway2Symmetric(x: real)
    ensures RoundAway2(-x) == -RoundAway2(x)
  {
    if x == 0.0 {
      assert -x == 0.0;
    }
  }
}
