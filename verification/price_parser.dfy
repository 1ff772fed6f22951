/** `AmazonAPI.convert_price`: a raw price text is cut at the currency
    symbol, a newline-separated whole/fraction pair is joined with a decimal
    point, one thousands comma is removed, and the result goes to Python's
    `float()`. Every Python exception becomes `None`. The module also holds
    a model of Python's `float()` on the decimal literals a price can form. */
module PriceParser {
  import opened Wrappers
  import opened PyStr

  // ---------------------------------------------------------------------
  // Python's float() on the decimal forms a price can take
  // ---------------------------------------------------------------------

  /** The characters Python's `str.isspace()` accepts. */
  const Whitespace: set<char> := {
    '\t', '\n', '\U{0B}', '\U{0C}', '\r', '\U{1C}', '\U{1D}', '\U{1E}', '\U{1F}', ' ',
    '\U{85}', '\U{A0}', '\U{1680}',
    '\U{2000}', '\U{2001}', '\U{2002}', '\U{2003}', '\U{2004}', '\U{2005}',
    '\U{2006}', '\U{2007}', '\U{2008}', '\U{2009}', '\U{200A}',
    '\U{2028}', '\U{2029}', '\U{202F}', '\U{205F}', '\U{3000}'
  }

  /** Python's `str.isspace()` for one character. */
  predicate IsSpace(c: char)
  {
    c in Whitespace
  }

  /** Python's `s.lstrip()`: drops the leading whitespace and nothing else. */
  function StripLeft(s: string): (r: string)
    ensures |r| <= |s| && r == s[|s| - |r|..]
    ensures forall k :: 0 <= k < |s| - |r| ==> IsSpace(s[k])
    ensures |r| > 0 ==> !IsSpace(r[0])
    decreases |s|
  {
    if |s| > 0 && IsSpace(s[0]) then StripLeft(s[1..]) else s
  }

  /** Python's `s.rstrip()`: drops the trailing whitespace and nothing else. */
  function StripRight(s: string): (r: string)
    ensures |r| <= |s| && r == s[..|r|]
    ensures forall k :: |r| <= k < |s| ==> IsSpace(s[k])
    ensures |r| > 0 ==> !IsSpace(r[|r| - 1])
    decreases |s|
  {
    if |s| > 0 && IsSpace(s[|s| - 1]) then StripRight(s[..|s| - 1]) else s
  }

  /** `r` is `s[i..]` cut short, with only whitespace around it in `s`. */
  predicate TrimmedAt(s: string, r: string, i: int)
  {
    0 <= i && i + |r| <= |s| && r == s[i..i + |r|]
    && (forall k :: 0 <= k < i ==> IsSpace(s[k]))
    && (forall k :: i + |r| <= k < |s| ==> IsSpace(s[k]))
  }

  /** Python's `s.strip()`: a stretch of `s` with whitespace, and only
      whitespace, removed around it; none is left at either end. */
  function Strip(s: string): (r: string)
    ensures exists i :: TrimmedAt(s, r, i)
    ensures |r| > 0 ==> !IsSpace(r[0]) && !IsSpace(r[|r| - 1])
  {
    StripTrims(s);
    StripRight(StripLeft(s))
  }

  /** The stretch `strip` keeps starts where the leading whitespace ends. */
  lemma {:induction false} StripTrims(s: string)
    ensures TrimmedAt(s, StripRight(StripLeft(s)), |s| - |StripLeft(s)|)
  {
    var l := StripLeft(s);
    var r := StripRight(l);
    var i := |s| - |l|;
    TrimmedInside(s, i, l, r);
  }

  /** Trimming the tail of a suffix `l == s[i..]` of `s` trims `s` itself. */
  lemma TrimmedInside(s: string, i: nat, l: string, r: string)
    requires i <= |s| && l == s[i..] && |r| <= |l| && r == l[..|r|]
    requires forall k :: 0 <= k < i ==> IsSpace(s[k])
    requires forall k :: |r| <= k < |l| ==> IsSpace(l[k])
    ensures TrimmedAt(s, r, i)
  {
    assert r == s[i..i + |r|];
    forall k | i + |r| <= k < |s|
      ensures IsSpace(s[k])
    {
      assert s[k] == l[k - i];
    }
  }

  predicate IsDigit(c: char)
  {
    '0' <= c <= '9'
  }

  predicate AllDigits(s: string)
  {
    forall i :: 0 <= i < |s| ==> IsDigit(s[i])
  }

  function Pow10(n: nat): (r: nat)
    ensures r >= 1
  {
    if n == 0 then 1 else 10 * Pow10(n - 1)
  }

  /** The value of a string of decimal digits. */
  function DigitsValue(s: string): (r: nat)
    requires AllDigits(s)
    ensures r < Pow10(|s|)
    decreases |s|
  {
    if |s| == 0 then 0
    else DigitsValue(s[..|s| - 1]) * 10 + (s[|s| - 1] as int - '0' as int)
  }

  /** `n` zero digits. */
  function Zeros(n: nat): (r: string)
    ensures |r| == n && AllDigits(r)
  {
    seq(n, _ => '0')
  }

  lemma {:induction false} Pow10Add(m: nat, n: nat)
    ensures Pow10(m + n) == Pow10(m) * Pow10(n)
    decreases n
  {
    if n > 0 {
      Pow10Add(m, n - 1);
    }
  }

  lemma DigitsConcat(a: string, b: string)
    requires AllDigits(a) && AllDigits(b)
    ensures AllDigits(a + b)
  {
    forall k | 0 <= k < |a + b|
      ensures IsDigit((a + b)[k])
    {
      if k < |a| { assert (a + b)[k] == a[k]; }
      else { assert (a + b)[k] == b[k - |a|]; }
    }
  }

  lemma ShiftDistributes(high: int, scale: int, low: int, digit: int)
    ensures (high * scale + low) * 10 + digit == high * (scale * 10) + (low * 10 + digit)
  {
  }

  /** Digits written after others shift them left by their count. */
  lemma {:induction false} DigitsValueConcat(a: string, b: string)
    requires AllDigits(a) && AllDigits(b)
    ensures AllDigits(a + b)
    ensures DigitsValue(a + b) == DigitsValue(a) * Pow10(|b|) + DigitsValue(b)
    decreases |b|
  {
    DigitsConcat(a, b);
    if |b| == 0 {
      assert a + b == a;
    } else {
      var s := a + b;
      var b' := b[..|b| - 1];
      var d := b[|b| - 1] as int - '0' as int;
      assert s[..|s| - 1] == a + b';
      assert s[|s| - 1] == b[|b| - 1];
      DigitsValueConcat(a, b');
      assert DigitsValue(s) == DigitsValue(a + b') * 10 + d;
      ShiftDistributes(DigitsValue(a), Pow10(|b'|), DigitsValue(b'), d);
    }
  }

  lemma {:induction false} DigitsValueZeros(n: nat)
    ensures DigitsValue(Zeros(n)) == 0
  {
    if n > 0 {
      assert Zeros(n)[..n - 1] == Zeros(n - 1);
      DigitsValueZeros(n - 1);
    }
  }

  /** The value of the decimal literal `whole.frac`. */
  function DecimalValue(whole: string, frac: string): real
    requires AllDigits(whole) && AllDigits(frac)
  {
    DigitsValue(whole) as real + DigitsValue(frac) as real / Pow10(|frac|) as real
  }

  lemma ProductAsReal(n: nat, q: nat)
    ensures (n * q) as real == n as real * q as real
  {
  }

  /** Two quotients with equal cross products are equal. */
  lemma CrossQuotient(a: real, b: real, c: real, d: real)
    requires b > 0.0 && d > 0.0 && a * d == c * b
    ensures a / b == c / d
  {
    var x := a / b;
    assert a == x * b;
    assert c * b == (x * d) * b;
  }

  /** A quotient is unchanged when both sides are scaled by `q`. */
  lemma ScaledQuotient(num: nat, den: nat, n: nat, p: nat, q: nat)
    requires num == n * q && den == p * q && p > 0 && q > 0
    ensures num as real / den as real == n as real / p as real
  {
    ProductAsReal(n, q);
    ProductAsReal(p, q);
    var nr, pr, qr := n as real, p as real, q as real;
    assert (nr * qr) * pr == nr * (pr * qr);
    CrossQuotient(num as real, den as real, nr, pr);
  }

  /** Trailing zeros in the fraction do not change a decimal's value. */
  lemma PaddedFraction(whole: string, frac: string, k: nat)
    requires AllDigits(whole) && AllDigits(frac)
    ensures AllDigits(frac + Zeros(k))
    ensures DecimalValue(whole, frac + Zeros(k)) == DecimalValue(whole, frac)
  {
    var padded := frac + Zeros(k);
    DigitsConcat(frac, Zeros(k));
    var n, p, q := DigitsValue(frac), Pow10(|frac|), Pow10(k);
    assert DigitsValue(padded) == n * q by {
      DigitsValueConcat(frac, Zeros(k));
      DigitsValueZeros(k);
    }
    assert Pow10(|padded|) == p * q by {
      Pow10Add(|frac|, k);
    }
    ScaledQuotient(DigitsValue(padded), Pow10(|padded|), n, p, q);
  }

  /** Two fraction digits read as a whole number are the value times 100. */
  lemma CentsValue(whole: string, frac: string)
    requires AllDigits(whole) && AllDigits(frac) && |frac| == 2
    ensures AllDigits(whole + frac)
    ensures DigitsValue(whole + frac) as real == 100.0 * DecimalValue(whole, frac)
  {
    DigitsValueConcat(whole, frac);
    assert Pow10(2) == 100;
  }

  /** An unsigned decimal literal: digits, or digits around one point with
      at least one digit in all. */
  function ParseUnsigned(t: string): (r: Option<real>)
    ensures r.Some? ==> r.value >= 0.0
  {
    var i := Find(t, ".");
    if i < 0 then
      if |t| > 0 && AllDigits(t) then Some(DigitsValue(t) as real) else None
    else
      var whole := t[..i];
      var frac := t[i + 1..];
      if AllDigits(whole) && AllDigits(frac) && |whole| + |frac| > 0
      then Some(DecimalValue(whole, frac))
      else None
  }

  /** Python's `float(s)` on decimal literals: surrounding whitespace is
      ignored and one leading sign is allowed; anything else fails. */
  function ParseFloat(s: string): (r: Option<real>)
    ensures Strip(s) == [] ==> r.None?
    ensures r.Some? && r.value < 0.0 ==> Strip(s)[0] == '-'
  {
    var t := Strip(s);
    if |t| > 0 && (t[0] == '+' || t[0] == '-') then
      match ParseUnsigned(t[1..])
      case None => None
      case Some(v) => Some(if t[0] == '-' then -v else v)
    else ParseUnsigned(t)
  }

  // ---------------------------------------------------------------------
  // convert_price
  // ---------------------------------------------------------------------

  /** The newline step: `p.split("\n")[0] + "." + p.split("\n")[1]`,
      skipped when the second piece does not exist. */
  function NewlineStep(p: string): (r: string)
    ensures '\n' !in r
    ensures '\n' !in p ==> r == p
  {
    var parts := Split(p, "\n");
    SplitPiecesFree(p, "\n");
    if |parts| >= 2 then
      CharContains(parts[0], '\n');
      CharContains(parts[1], '\n');
      parts[0] + "." + parts[1]
    else
      CharContains(p, '\n');
      p
  }

  /** The comma step: `p.split(",")[0] + p.split(",")[1]`, skipped when
      the second piece does not exist. It only drops characters. */
  function CommaStep(p: string): (r: string)
    ensures ',' !in r
    ensures ',' !in p ==> r == p
    ensures forall c :: c in r ==> c in p
  {
    var parts := Split(p, ",");
    SplitPiecesFree(p, ",");
    if |parts| >= 2 then
      CharContains(parts[0], ',');
      CharContains(parts[1], ',');
      JoinFirstTwo(parts, ",");
      parts[0] + parts[1]
    else
      CharContains(p, ',');
      p
  }

  /** The string `convert_price` hands to `float()`, or `None` when
      `split(currency)` raises (empty currency) or has no piece 1. */
  function NormalizePrice(price: string, currency: string): (r: Option<string>)
    ensures r.None? <==> currency == [] || !Contains(price, currency)
    ensures r.Some? ==> '\n' !in r.value && ',' !in r.value
  {
    if currency == [] then None
    else
      var pieces := Split(price, currency);
      if |pieces| < 2 then None
      else Some(CommaStep(NewlineStep(pieces[1])))
  }

  /** `convert_price(price)`: `None` stands for any exception it raises. */
  function ConvertPrice(price: string, currency: string): (r: Option<real>)
    ensures currency == [] || !Contains(price, currency) ==> r.None?
    ensures r.Some? ==> NormalizePrice(price, currency).Some?
  {
    match NormalizePrice(price, currency)
    case None => None
    case Some(n) => ParseFloat(n)
  }

  // ---------------------------------------------------------------------
  // What the normalisation does, stated on how the text is built
  // ---------------------------------------------------------------------

  /** A string with no whitespace at either end is left alone by `strip`. */
  lemma StripNoop(s: string)
    requires |s| > 0 && !IsSpace(s[0]) && !IsSpace(s[|s| - 1])
    ensures Strip(s) == s
  {
  }

  /** A digit string holds no character other than digits. */
  lemma DigitsHaveNo(s: string, c: char)
    requires AllDigits(s) && !IsDigit(c)
    ensures c !in s
  {
    forall k | 0 <= k < |s|
      ensures s[k] != c
    {
      assert IsDigit(s[k]);
    }
  }

  /** `float()` of a digit string is its value. */
  lemma ParseFloatInteger(d: string)
    requires |d| > 0 && AllDigits(d)
    ensures ParseFloat(d) == Some(DigitsValue(d) as real)
  {
    assert IsDigit(d[0]) && IsDigit(d[|d| - 1]);
    ParseFloatUnsigned(d);
    ParseUnsignedInteger(d);
  }

  /** A digit string, having no point, reads as a whole number. */
  lemma ParseUnsignedInteger(d: string)
    requires |d| > 0 && AllDigits(d)
    ensures ParseUnsigned(d) == Some(DigitsValue(d) as real)
  {
    DigitsHaveNo(d, '.');
    NotContainsChar(d, '.');
  }

  /** A string with a digit at both ends goes to `float()` unchanged and
      unsigned. */
  lemma ParseFloatUnsigned(t: string)
    requires |t| > 0 && IsDigit(t[0]) && IsDigit(t[|t| - 1])
    ensures ParseFloat(t) == ParseUnsigned(t)
  {
    assert !IsSpace(t[0]) && !IsSpace(t[|t| - 1]);
    StripNoop(t);
    assert Strip(t)[0] != '+' && Strip(t)[0] != '-';
  }

  /** The unsigned literal `whole.frac` reads as its decimal value. */
  lemma ParseUnsignedDecimal(whole: string, frac: string)
    requires AllDigits(whole) && AllDigits(frac) && |whole| + |frac| > 0
    ensures ParseUnsigned(whole + "." + frac) == Some(DecimalValue(whole, frac))
  {
    var t := whole + "." + frac;
    assert Find(t, ".") == |whole| by {
      DigitsHaveNo(whole, '.');
      CleanChar(whole, '.');
      FindAfterClean(whole, ".", frac);
    }
    assert t[..|whole|] == whole;
    assert t[|whole| + 1..] == frac;
  }

  /** `float()` of `whole.frac` is its decimal value. */
  lemma ParseFloatDecimal(whole: string, frac: string)
    requires |whole| > 0 && AllDigits(whole) && AllDigits(frac)
    ensures ParseFloat(whole + "." + frac) == Some(DecimalValue(whole, frac))
  {
    DecimalUnsigned(whole, frac);
    ParseUnsignedDecimal(whole, frac);
  }

  /** `whole.frac` has no surrounding whitespace and no sign, so `float()`
      reads it as an unsigned literal. */
  lemma DecimalUnsigned(whole: string, frac: string)
    requires |whole| > 0 && AllDigits(whole) && AllDigits(frac)
    ensures ParseFloat(whole + "." + frac) == ParseUnsigned(whole + "." + frac)
  {
    var t := whole + "." + frac;
    assert t[0] == whole[0] && IsDigit(t[0]);
    assert t[|t| - 1] == (if |frac| > 0 then frac[|frac| - 1] else '.');
    StripNoop(t);
    assert t[0] != '+' && t[0] != '-';
  }


  /** With a newline, the string becomes `piece0 + "." + piece1` and every
      later newline piece is dropped. */
  lemma {:induction false} NewlineStepJoins(a: string, b: string, rest: string)
    requires '\n' !in a && '\n' !in b
    requires rest == [] || rest[0] == '\n'
    ensures NewlineStep(a + "\n" + b + rest) == a + "." + b
  {
    SplitCharFirstTwo(a, '\n', b, rest);
  }


  /** With a comma, the string becomes `group0 + group1`: the first
      separator is removed and every later group is dropped. */
  lemma {:induction false} CommaStepConcatenates(a: string, b: string, rest: string)
    requires ',' !in a && ',' !in b
    requires rest == [] || rest[0] == ','
    ensures CommaStep(a + "," + b + rest) == a + b
  {
    SplitCharFirstTwo(a, ',', b, rest);
  }


  /** Whenever the split yields a piece 1, that piece alone is normalised. */
  lemma NormalizeSecondPiece(price: string, currency: string, seg: string)
    requires currency != [] && |Split(price, currency)| >= 2
    requires Split(price, currency)[1] == seg
    ensures NormalizePrice(price, currency) == Some(CommaStep(NewlineStep(seg)))
  {
  }

  /** When the currency occurs once, only the text after it matters. */
  lemma NormalizeLastSegment(junk: string, currency: string, seg: string)
    requires currency != [] && Clean(junk, currency) && !Contains(seg, currency)
    ensures NormalizePrice(junk + currency + seg, currency)
         == Some(CommaStep(NewlineStep(seg)))
  {
    var pieces := Split(junk + currency + seg, currency);
    assert pieces == [junk] + [seg] by {
      SplitAfterClean(junk, currency, seg);
      SplitAbsent(seg, currency);
    }
    NormalizeSecondPiece(junk + currency + seg, currency, seg);
  }

  /** When the currency occurs again, only the text between its first and
      second occurrence matters. */
  lemma NormalizeMiddleSegment(junk: string, currency: string, seg: string, rest: string)
    requires currency != [] && Clean(junk, currency) && Clean(seg, currency)
    ensures NormalizePrice(junk + currency + seg + currency + rest, currency)
         == Some(CommaStep(NewlineStep(seg)))
  {
    var t := seg + currency + rest;
    var price := junk + currency + seg + currency + rest;
    RegroupTail(junk, currency, seg, currency, rest);
    SplitSecondPiece(junk, currency, t);
    SplitFirstPiece(seg, currency, rest);
    NormalizeSecondPiece(price, currency, seg);
  }

  /** A price rendered as `<junk><symbol><whole>\n<fraction>` converts to
      `whole.fraction`. */
  lemma ConvertWholeAndFraction(junk: string, currency: string, whole: string, frac: string)
    requires currency != [] && Clean(junk, currency)
    requires |whole| > 0 && AllDigits(whole) && AllDigits(frac)
    requires !Contains(whole + "\n" + frac, currency)
    ensures ConvertPrice(junk + currency + whole + "\n" + frac, currency)
         == Some(DecimalValue(whole, frac))
  {
    NormalizeWholeAndFraction(junk, currency, whole, frac);
    ParseFloatDecimal(whole, frac);
  }

  /** The text `float()` receives for `<junk><symbol><whole>\n<fraction>`. */
  lemma NormalizeWholeAndFraction(junk: string, currency: string, whole: string, frac: string)
    requires currency != [] && Clean(junk, currency)
    requires AllDigits(whole) && AllDigits(frac)
    requires !Contains(whole + "\n" + frac, currency)
    ensures NormalizePrice(junk + currency + whole + "\n" + frac, currency)
         == Some(whole + "." + frac)
  {
    var seg := whole + "\n" + frac;
    assert junk + currency + whole + "\n" + frac == junk + currency + seg;
    NormalizeLastSegment(junk, currency, seg);
    DigitsAroundNewline(whole, frac);
  }

  /** Both steps applied to `whole\nfrac` give `whole.frac`. */
  lemma DigitsAroundNewline(whole: string, frac: string)
    requires AllDigits(whole) && AllDigits(frac)
    ensures CommaStep(NewlineStep(whole + "\n" + frac)) == whole + "." + frac
  {
    assert NewlineStep(whole + "\n" + frac) == whole + "." + frac by {
      DigitsHaveNo(whole, '\n');
      DigitsHaveNo(frac, '\n');
      assert whole + "\n" + frac == whole + "\n" + frac + [];
      NewlineStepJoins(whole, frac, []);
    }
    assert ',' !in whole + "." + frac by {
      DigitsHaveNo(whole, ',');
      DigitsHaveNo(frac, ',');
    }
  }

  /** A price with a thousands comma and no newline converts to the
      concatenated digit groups, not to a decimal fraction. */
  lemma ConvertThousands(junk: string, currency: string, high: string, low: string)
    requires currency != [] && Clean(junk, currency)
    requires |high| > 0 && AllDigits(high) && AllDigits(low)
    requires !Contains(high + "," + low, currency)
    ensures ConvertPrice(junk + currency + high + "," + low, currency)
         == Some(DigitsValue(high + low) as real)
  {
    NormalizeThousands(junk, currency, high, low);
    var digits := high + low;
    assert AllDigits(digits) by {
      forall k | 0 <= k < |digits|
        ensures IsDigit(digits[k])
      {
        if k < |high| { assert digits[k] == high[k]; }
        else { assert digits[k] == low[k - |high|]; }
      }
    }
    ParseFloatInteger(digits);
  }

  /** The text `float()` receives for `<junk><symbol><high>,<low>`. */
  lemma NormalizeThousands(junk: string, currency: string, high: string, low: string)
    requires currency != [] && Clean(junk, currency)
    requires AllDigits(high) && AllDigits(low)
    requires !Contains(high + "," + low, currency)
    ensures NormalizePrice(junk + currency + high + "," + low, currency) == Some(high + low)
  {
    var seg := high + "," + low;
    assert junk + currency + high + "," + low == junk + currency + seg;
    NormalizeLastSegment(junk, currency, seg);
    DigitsAroundComma(high, low);
  }

  /** Both steps applied to `high,low` give `high + low`. */
  lemma DigitsAroundComma(high: string, low: string)
    requires AllDigits(high) && AllDigits(low)
    ensures CommaStep(NewlineStep(high + "," + low)) == high + low
  {
    var seg := high + "," + low;
    assert NewlineStep(seg) == seg by {
      NoNewlineAroundComma(high, low);
    }
    DigitsHaveNo(high, ',');
    DigitsHaveNo(low, ',');
    assert seg == high + "," + low + [];
    CommaStepConcatenates(high, low, []);
  }

  /** Digit groups around a comma hold no newline. */
  lemma NoNewlineAroundComma(high: string, low: string)
    requires AllDigits(high) && AllDigits(low)
    ensures '\n' !in high + "," + low
  {
    DigitsHaveNo(high, '\n');
    DigitsHaveNo(low, '\n');
  }

  /** Cutting the text at the first currency symbol first, as the fallback
      price path does (`price[price.find(currency):]`), never changes the
      outcome of `convert_price`; when the symbol is missing the cut keeps
      the last character only, and both sides fail. */
  lemma ConvertIgnoresTextBeforeSymbol(text: string, currency: string)
    ensures ConvertPrice(Slice(text, Find(text, currency), |text|), currency)
         == ConvertPrice(text, currency)
  {
    var i := Find(text, currency);
    if currency != [] {
      if i >= 0 {
        assert Slice(text, i, |text|) == text[i..];
        NormalizeFromSymbol(text, currency);
      } else {
        MissingSymbolCut(text, currency);
      }
    }
  }

  /** Without the symbol, `find` gives -1 and the cut keeps only the last
      character, which does not hold the symbol either. */
  lemma MissingSymbolCut(text: string, currency: string)
    requires currency != [] && !Contains(text, currency)
    ensures !Contains(Slice(text, -1, |text|), currency)
  {
    if |text| > 0 {
      assert Slice(text, -1, |text|) == text[|text| - 1..];
      ContainsSuffix(text, |text| - 1, currency);
    }
  }

  /** The pieces after the first symbol are the same whether or not the
      text before it is kept. */
  lemma {:induction false} NormalizeFromSymbol(text: string, currency: string)
    requires currency != [] && Find(text, currency) >= 0
    ensures NormalizePrice(text[Find(text, currency)..], currency) == NormalizePrice(text, currency)
  {
    var i := Find(text, currency);
    var cut := text[i..];
    var rest := text[i + |currency|..];
    assert Split(text, currency) == [text[..i]] + Split(rest, currency) by {
      assert text[..i] + currency + rest == text;
    }
    assert Split(cut, currency) == [[]] + Split(rest, currency) by {
      OccursAtSuffix(text, i, currency, 0);
      FindIs(cut, currency, 0);
      assert cut[..0] == [];
      assert cut[|currency|..] == rest;
    }
  }
}
