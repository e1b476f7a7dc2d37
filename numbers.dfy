/**
 * Numbers as text: the part of Python's `int()` and `float()` the record
 * file uses (surrounding whitespace, an optional sign, decimal digits and,
 * for floats, one decimal point), and the `str()` forms written back to it.
 */
module Numbers {
  import opened Wrappers
  import opened Text

  predicate IsDigit(c: char) {
    '0' <= c <= '9'
  }

  predicate AllDigits(s: string) {
    forall i :: 0 <= i < |s| ==> IsDigit(s[i])
  }

  function DigitValue(c: char): (d: nat)
    requires IsDigit(c)
    ensures d < 10
  {
    (c as int) - ('0' as int)
  }

  function DigitChar(d: nat): (c: char)
    requires d < 10
    ensures IsDigit(c) && DigitValue(c) == d
  {
    (('0' as int) + d) as char
  }

  /** The value of a string of decimal digits (0 for the empty string). */
  function DigitsValue(s: string): nat
    requires AllDigits(s)
  {
    if s == [] then 0 else DigitsValue(s[..|s| - 1]) * 10 + DigitValue(s[|s| - 1])
  }

  function Pow10(k: nat): (r: nat)
    ensures r >= 1
  {
    if k == 0 then 1 else 10 * Pow10(k - 1)
  }

  /** The last `width` decimal digits of `n`, with leading zeros. */
  function Pad(n: nat, width: nat): (s: string)
    ensures |s| == width && AllDigits(s)
  {
    if width == 0 then [] else Pad(n / 10, width - 1) + [DigitChar(n % 10)]
  }

  /** `str(n)` for a natural number: digits without leading zeros. */
  function NatStr(n: nat): (s: string)
    ensures |s| >= 1 && AllDigits(s)
  {
    if n < 10 then [DigitChar(n)] else NatStr(n / 10) + [DigitChar(n % 10)]
  }

  lemma {:induction false} PadValue(n: nat, width: nat)
    requires n < Pow10(width)
    ensures DigitsValue(Pad(n, width)) == n
  {
    if width > 0 {
      PadValue(n / 10, width - 1);
      var s := Pad(n, width);
      assert s[..|s| - 1] == Pad(n / 10, width - 1);
    }
  }

  lemma {:induction false} NatStrValue(n: nat)
    ensures DigitsValue(NatStr(n)) == n
  {
    if n >= 10 {
      NatStrValue(n / 10);
      var s := NatStr(n);
      assert s[..|s| - 1] == NatStr(n / 10);
    }
  }

  /** Text made only of digits, signs and decimal points. */
  predicate NumberText(s: string) {
    forall i :: 0 <= i < |s| ==> IsDigit(s[i]) || s[i] == '-' || s[i] == '+' || s[i] == '.'
  }

  /** A non-empty string of digits, read as a number. */
  function ParseNat(s: string): (r: Option<nat>)
    ensures r.Some? ==> NumberText(s)
  {
    if |s| > 0 && AllDigits(s) then Some(DigitsValue(s)) else None
  }

  /** `int(s)`: surrounding whitespace, an optional sign, then at least one digit. */
  function ParseInt(s: string): (r: Option<int>)
    ensures r.Some? ==> NumberText(Strip(s, NumberSpace))
  {
    var t := Strip(s, NumberSpace);
    if |t| > 0 && (t[0] == '-' || t[0] == '+') then
      match ParseNat(t[1..])
      case Some(m) => Some(if t[0] == '-' then -(m as int) else m)
      case None => None
    else ParseNat(t)
  }

  /** `int()` rejects a number after an information separator, which
      `str.strip()` would drop, and skips an ideographic space. */
  lemma SeparatorNotSkipped()
    ensures Strip("\U{1C}80", AnySpace) == "80" && ParseInt("\U{1C}80") == None
    ensures ParseInt("80\U{3000}") == Some(80)
  {
    var sep, eighty := "\U{1C}80", "80";
    assert !Blank(NumberSpace, sep[0]) && !Blank(NumberSpace, sep[2]);
    assert Strip(sep, NumberSpace) == sep;
    assert eighty[..1] == "8" && "8"[..0] == [];
    assert DigitsValue(eighty) == 80;
    assert Strip(sep, AnySpace) == eighty by {
      assert Blank(AnySpace, sep[0]) && sep[1..] == eighty;
      assert TrimStart(sep, AnySpace) == TrimStart(eighty, AnySpace) == eighty;
    }
    var wide := "80\U{3000}";
    assert Strip(wide, NumberSpace) == eighty by {
      assert Blank(NumberSpace, wide[2]) && wide[..2] == eighty;
      assert TrimStart(wide, NumberSpace) == wide;
      assert TrimEnd(wide, NumberSpace) == TrimEnd(eighty, NumberSpace) == eighty;
    }
  }

  /** `str(n)` for an integer. */
  function IntStr(n: int): (s: string)
    ensures |s| >= 1 && IsDigit(s[|s| - 1]) && (IsDigit(s[0]) || s[0] == '-')
    ensures NumberText(s)
  {
    if n < 0 then "-" + NatStr(-n) else NatStr(n)
  }

  lemma ParseNatStr(n: nat)
    ensures ParseNat(NatStr(n)) == Some(n)
  {
    NatStrValue(n);
  }

  /** The text of an integer has no surrounding whitespace. */
  lemma IntStrStripped(n: int)
    ensures Strip(IntStr(n), NumberSpace) == IntStr(n)
  {
    var s := IntStr(n);
    assert !Blank(NumberSpace, s[0]) && !Blank(NumberSpace, s[|s| - 1]);
  }

  /** `int(str(n)) == n`. */
  lemma IntRoundTrip(n: int)
    ensures ParseInt(IntStr(n)) == Some(n)
  {
    var s := IntStr(n);
    IntStrStripped(n);
    if n < 0 {
      assert s[0] == '-' && s[1..] == NatStr(-n) by {
        assert s == "-" + NatStr(-n);
      }
      ParseNatStr(-n);
    } else {
      assert s == NatStr(n) && IsDigit(s[0]);
      ParseNatStr(n);
    }
  }

  /** Number text holds no other character. */
  lemma NumberTextAvoids(s: string, c: char)
    requires NumberText(s)
    requires !IsDigit(c) && c != '-' && c != '+' && c != '.'
    ensures c !in s
  {
    assert forall i :: 0 <= i < |s| ==> s[i] != c;
  }

  /** A parsed integer's text holds no character outside the whitespace
      `int()` skips, signs and digits. */
  lemma ParsedIntAvoids(s: string, c: char)
    requires ParseInt(s).Some?
    requires !Blank(NumberSpace, c) && !IsDigit(c) && c != '-' && c != '+' && c != '.'
    ensures c !in s
  {
    if c in s {
      StripKeeps(s, NumberSpace, c);
      NumberTextAvoids(Strip(s, NumberSpace), c);
    }
  }

  /** `n` has at most `|NatStr(n)|` digits. */
  lemma {:induction false} NatStrBound(n: nat)
    ensures n < Pow10(|NatStr(n)|)
  {
    if n >= 10 {
      NatStrBound(n / 10);
    }
  }

  /**
   * An exact decimal: (-1 if negative) * digits / 10^scale. A Python float
   * read from, or written as, a short decimal is one of these in canonical
   * form (no trailing fractional zero); the sign is kept apart so that -0.0
   * is distinct from 0.0, as it is for floats.
   */
  datatype Decimal = Decimal(negative: bool, digits: nat, scale: nat)

  predicate Canonical(d: Decimal) {
    d.scale == 0 || d.digits % 10 != 0
  }

  type Float = d: Decimal | Canonical(d) witness Decimal(false, 0, 0)

  function Value(d: Decimal): real {
    (if d.negative then -1.0 else 1.0) * (d.digits as real) / (Pow10(d.scale) as real)
  }

  /** `lo <= Value(d) <= hi`, compared on integers scaled by 10^scale. */
  predicate Within(d: Decimal, lo: int, hi: int) {
    var m: int := if d.negative then -(d.digits as int) else d.digits;
    var p := Pow10(d.scale);
    lo * p <= m <= hi * p
  }

  lemma ShiftScale(q: nat, p: nat)
    requires p >= 1
    ensures ((10 * q) as real) / ((10 * p) as real) == (q as real) / (p as real)
  {
    var x, y := q as real, p as real;
    assert (10 * q) as real == 10.0 * x;
    assert (10 * p) as real == 10.0 * y;
    assert (10.0 * x) / (10.0 * y) == x / y;
  }

  lemma ScaledBound(a: int, m: int, p: nat)
    requires p >= 1
    ensures a * p <= m <==> (a as real) <= (m as real) / (p as real)
    ensures m <= a * p <==> (m as real) / (p as real) <= (a as real)
  {
    var ar, mr, pr := a as real, m as real, p as real;
    assert (a * p) as real == ar * pr;
    var q := mr / pr;
    assert q * pr == mr;
    if a * p <= m {
      assert ar * pr <= q * pr;
    }
    if ar <= q {
      assert ar * pr <= q * pr;
    }
    if m <= a * p {
      assert q * pr <= ar * pr;
    }
    if q <= ar {
      assert q * pr <= ar * pr;
    }
  }

  /** The integer comparison is the comparison of values the source makes. */
  lemma WithinValue(d: Decimal, lo: int, hi: int)
    ensures Within(d, lo, hi) <==> lo as real <= Value(d) <= hi as real
  {
    var m: int := if d.negative then -(d.digits as int) else d.digits;
    var p := Pow10(d.scale);
    if d.negative {
      assert (m as real) == -1.0 * (d.digits as real);
    } else {
      assert (m as real) == 1.0 * (d.digits as real);
    }
    assert Value(d) == (m as real) / (p as real);
    ScaledBound(lo, m, p);
    ScaledBound(hi, m, p);
  }

  /** Drops trailing fractional zeros. */
  function Canonicalize(negative: bool, digits: nat, scale: nat): (f: Float)
    ensures f.negative == negative && f.scale <= scale
    ensures Canonical(Decimal(negative, digits, scale)) ==> f == Decimal(negative, digits, scale)
    decreases scale
  {
    if scale > 0 && digits % 10 == 0 then Canonicalize(negative, digits / 10, scale - 1)
    else Decimal(negative, digits, scale)
  }

  /** Canonicalizing keeps the value. */
  lemma {:induction false} CanonicalizeValue(negative: bool, digits: nat, scale: nat)
    ensures Value(Canonicalize(negative, digits, scale)) == Value(Decimal(negative, digits, scale))
    decreases scale
  {
    if scale > 0 && digits % 10 == 0 {
      CanonicalizeValue(negative, digits / 10, scale - 1);
      ShiftScale(digits / 10, Pow10(scale - 1));
      assert digits == 10 * (digits / 10);
    }
  }

  /** The value of `whole.frac`, signed, in canonical form: the digits of
      both parts read as one number, scaled by the length of the fraction. */
  function ReadDecimal(negative: bool, whole: string, frac: string): Float
    requires AllDigits(whole) && AllDigits(frac)
  {
    Canonicalize(negative, DigitsValue(whole + frac), |frac|)
  }

  /** Runs of digits joined by points are number text. */
  lemma DigitsJoinText(parts: seq<string>)
    requires |parts| >= 1 && forall i :: 0 <= i < |parts| ==> AllDigits(parts[i])
    ensures NumberText(Join(parts, '.'))
  {
    var s := Join(parts, '.');
    forall i | 0 <= i < |s| ensures IsDigit(s[i]) || s[i] == '-' || s[i] == '+' || s[i] == '.' {
      var c := s[i];
      if !IsDigit(c) && c != '.' {
        forall j | 0 <= j < |parts| ensures c !in parts[j] {
          assert forall m :: 0 <= m < |parts[j]| ==> parts[j][m] != c;
        }
        JoinAvoids(parts, '.', c);
      }
    }
  }

  /** Unsigned decimal text: digits with at most one decimal point, and at
      least one digit. What it reads carries the given sign. */
  function ParseUnsigned(negative: bool, body: string): (r: Option<Float>)
    ensures r.Some? ==> r.value.negative == negative && |body| > 0 && NumberText(body)
  {
    var parts := Split(body, '.');
    JoinSplit(body, '.');
    if |parts| == 1 && AllDigits(parts[0]) && |parts[0]| > 0 then
      DigitsJoinText(parts);
      Some(ReadDecimal(negative, parts[0], ""))
    else if |parts| == 2 && AllDigits(parts[0]) && AllDigits(parts[1]) && |parts[0]| + |parts[1]| > 0 then
      DigitsJoinText(parts);
      Some(ReadDecimal(negative, parts[0], parts[1]))
    else None
  }

  /** `float(s)` for decimal text: surrounding whitespace, an optional sign,
      then unsigned decimal text. What it reads is negative exactly when the
      stripped text starts with '-'. */
  function ParseFloat(s: string): (r: Option<Float>)
    ensures var t := Strip(s, NumberSpace);
      r.Some? ==> |t| > 0 && NumberText(t) && (r.value.negative <==> t[0] == '-')
  {
    var t := Strip(s, NumberSpace);
    if |t| > 0 && (t[0] == '-' || t[0] == '+') then
      assert NumberText(t[1..]) ==> NumberText(t) by {
        if NumberText(t[1..]) {
          forall i | 1 <= i < |t| ensures IsDigit(t[i]) || t[i] == '-' || t[i] == '+' || t[i] == '.' {
            assert t[i] == t[1..][i - 1];
          }
        }
      }
      ParseUnsigned(t[0] == '-', t[1..])
    else ParseUnsigned(false, t)
  }

  /** The digits of `f` with enough leading zeros to leave at least one digit
      before the point. */
  function PointDigits(f: Float): (s: string)
    ensures |s| > f.scale && AllDigits(s)
  {
    var n := |NatStr(f.digits)|;
    Pad(f.digits, if n > f.scale then n else f.scale + 1)
  }

  /** `str(f)` (Python's shortest repr) for a float written without an
      exponent: at least one digit on each side of the point. */
  function FloatStr(f: Float): (s: string)
    ensures |s| >= 1 && IsDigit(s[|s| - 1]) && (IsDigit(s[0]) || s[0] == '-')
    ensures NumberText(s)
  {
    var d := PointDigits(f);
    var whole := d[..|d| - f.scale];
    var frac := if f.scale == 0 then "0" else d[|d| - f.scale..];
    assert AllDigits(whole) && AllDigits(frac);
    (if f.negative then "-" else "") + whole + "." + frac
  }

  lemma PointDigitsValue(f: Float)
    ensures DigitsValue(PointDigits(f)) == f.digits
  {
    var n := |NatStr(f.digits)|;
    NatStrBound(f.digits);
    var w := if n > f.scale then n else f.scale + 1;
    assert Pow10(n) <= Pow10(w) by { Pow10Monotone(n, w); }
    PadValue(f.digits, w);
  }

  lemma {:induction false} Pow10Monotone(a: nat, b: nat)
    requires a <= b
    ensures Pow10(a) <= Pow10(b)
    decreases b
  {
    if a < b {
      Pow10Monotone(a, b - 1);
    }
  }

  /** The text after the sign splits at the point into the two digit strings. */
  lemma SplitAtPoint(whole: string, frac: string)
    requires AllDigits(whole) && AllDigits(frac)
    ensures Split(whole + "." + frac, '.') == [whole, frac]
  {
    assert Join([whole, frac], '.') == whole + "." + frac;
    assert '.' !in whole by { assert forall i :: 0 <= i < |whole| ==> IsDigit(whole[i]); }
    assert '.' !in frac by { assert forall i :: 0 <= i < |frac| ==> IsDigit(frac[i]); }
    SplitJoin([whole, frac], '.');
  }

  lemma ParseNegative(s: string)
    requires |s| > 0 && s[0] == '-' && Strip(s, NumberSpace) == s
    ensures ParseFloat(s) == ParseUnsigned(true, s[1..])
  {
  }

  lemma ParseNonNegative(s: string)
    requires |s| > 0 && s[0] != '-' && s[0] != '+' && Strip(s, NumberSpace) == s
    ensures ParseFloat(s) == ParseUnsigned(false, s)
  {
  }

  /** Unsigned decimal text with a point reads as its digits. */
  lemma ReadPointed(negative: bool, whole: string, frac: string)
    requires AllDigits(whole) && AllDigits(frac) && |whole| > 0
    ensures ParseUnsigned(negative, whole + "." + frac) == Some(ReadDecimal(negative, whole, frac))
  {
    SplitAtPoint(whole, frac);
  }

  /** Signed decimal text with a point parses to the value of its digits. */
  lemma ParsePointed(negative: bool, whole: string, frac: string)
    requires AllDigits(whole) && AllDigits(frac) && |whole| > 0 && |frac| > 0
    ensures ParseFloat((if negative then "-" else "") + whole + "." + frac)
         == Some(ReadDecimal(negative, whole, frac))
  {
    var body := whole + "." + frac;
    ReadPointed(negative, whole, frac);
    assert IsDigit(whole[0]) && IsDigit(frac[|frac| - 1]);
    assert body[0] == whole[0] && body[|body| - 1] == frac[|frac| - 1];
    var s := (if negative then "-" else "") + whole + "." + frac;
    if negative {
      assert s == "-" + body;
      assert s[1..] == body;
      ParseNegative(s);
    } else {
      assert s == body;
      ParseNonNegative(s);
    }
  }

  /** A whole number written with the fraction "0" reads back as itself. */
  lemma ReadBackWhole(f: Float)
    requires f.scale == 0
    ensures ReadDecimal(f.negative, PointDigits(f), "0") == f
  {
    var d := PointDigits(f);
    var t := d + "0";
    assert DigitsValue(t) == 10 * f.digits by {
      PointDigitsValue(f);
      assert t[..|t| - 1] == d && t[|t| - 1] == '0';
    }
    assert Canonicalize(f.negative, 10 * f.digits, 1) == f by {
      assert (10 * f.digits) % 10 == 0 && (10 * f.digits) / 10 == f.digits;
    }
  }

  /** A number with a fraction reads back from its digits split at the scale. */
  lemma ReadBackFraction(f: Float)
    requires f.scale > 0
    ensures var d := PointDigits(f); ReadDecimal(f.negative, d[..|d| - f.scale], d[|d| - f.scale..]) == f
  {
    var d := PointDigits(f);
    PointDigitsValue(f);
    assert d[..|d| - f.scale] + d[|d| - f.scale..] == d;
  }

  /** The digits `FloatStr` writes read back as `f`. */
  lemma ReadBack(f: Float)
    ensures var d := PointDigits(f);
      ReadDecimal(f.negative, d[..|d| - f.scale], if f.scale == 0 then "0" else d[|d| - f.scale..]) == f
  {
    var d := PointDigits(f);
    if f.scale == 0 {
      assert d[..|d| - f.scale] == d;
      ReadBackWhole(f);
    } else {
      ReadBackFraction(f);
    }
  }

  /** `float(str(f)) == f`. */
  lemma FloatRoundTrip(f: Float)
    ensures ParseFloat(FloatStr(f)) == Some(f)
  {
    var d := PointDigits(f);
    var whole := d[..|d| - f.scale];
    var frac := if f.scale == 0 then "0" else d[|d| - f.scale..];
    assert FloatStr(f) == (if f.negative then "-" else "") + whole + "." + frac;
    assert AllDigits(whole) && AllDigits(frac) && |whole| > 0 && |frac| > 0 by {
      assert |d| > f.scale && AllDigits(d);
    }
    assert ReadDecimal(f.negative, whole, frac) == f by {
      ReadBack(f);
    }
    ParsePointed(f.negative, whole, frac);
  }
}
