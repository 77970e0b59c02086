/** The price normaliser `extract_price` of app.py, with an independent reference
    definition of the price a text denotes, and Python's `float()`: `ParseUnsigned` on
    the digits and dots that `extract_price` hands it, `ParseFloat` for the sheet reader. Prices are exact reals: no floating point. */
module PriceText {
  import opened Strings

  /** The accepted range of `extract_price`, both bounds inclusive. */
  const MinPrice: real := 0.01
  const MaxPrice: real := 10000000.0

  predicate IsPriceChar(c: char) { IsDigit(c) || c == '.' || c == ',' }

  predicate IsSeparator(c: char) { c == '.' || c == ',' }

  predicate PriceChars(s: string) { forall i :: 0 <= i < |s| ==> IsPriceChar(s[i]) }

  predicate DigitsAndDots(s: string) { forall i :: 0 <= i < |s| ==> IsDigit(s[i]) || s[i] == '.' }

  /** `re.sub(r'[^\d.,]', '', s)`: keeps digits, dots and commas. */
  function CleanPriceText(s: string): (r: string)
    ensures |r| <= |s|
  {
    if s == [] then [] else (if IsPriceChar(s[0]) then [s[0]] else []) + CleanPriceText(s[1..])
  }

  /** The separator handling of `extract_price`: decides whether '.' or ',' is the
      decimal point and leaves a string of digits and dots for `float()`. */
  function ResolveSeparators(c: string): string
  {
    if ',' in c && '.' in c then
      if LastIndexOf(c, '.') > LastIndexOf(c, ',') then RemoveAll(c, ',')
      else ReplaceChar(RemoveAll(c, '.'), ',', '.')
    else if ',' in c then
      // `c.split(',')[1]` is what follows the first comma when there is only one
      if CountOf(c, ',') == 1 && |c[IndexOf(c, ',') + 1..]| <= 2 then ReplaceChar(c, ',', '.')
      else RemoveAll(c, ',')
    else c
  }

  /** Python's `float()` on a string of digits and dots: `d`, `d.`, `.d` or `d.d`
      (at least one digit, at most one dot); any other string of digits and dots is a
      `ValueError`. `None` for a string with other characters: see `ParseNumber`. */
  function ParseUnsigned(u: string): (r: Option<real>)
    ensures r.Some? ==> r.value >= 0.0
  {
    if !DigitsAndDots(u) || CountOf(u, '.') > 1 then None
    else if '.' !in u then
      if u == [] then None
      else
        assert AllDigits(u);
        Some(DigitsValue(u) as real)
    else
      CountOfZero(u, '.');
      var k := IndexOf(u, '.');
      OnlyDotSplits(u, k);
      var whole, frac := u[..k], u[k + 1..];
      if whole == [] && frac == [] then None
      else
        AllDigitsConcat(whole, frac);
        Some(DigitsValue(whole + frac) as real / Pow10(|frac|) as real)
  }

  /** Position `i` of `s` is not a '_', or it is one between two digits. */
  predicate UnderscoreAllowedAt(s: string, i: nat)
    requires i < |s|
  {
    s[i] == '_' ==> 0 < i < |s| - 1 && IsDigit(s[i - 1]) && IsDigit(s[i + 1])
  }

  /** Python's rule for '_' in a number: every '_' stands between two digits. */
  predicate UnderscoresBetweenDigits(s: string)
  {
    forall i: nat :: i < |s| ==> UnderscoreAllowedAt(s, i)
  }

  /** The position of the first 'e' or 'E' in `s`, or `|s|` when there is none. */
  function ExponentMark(s: string): (k: nat)
    ensures k <= |s|
    ensures forall i :: 0 <= i < k ==> s[i] != 'e' && s[i] != 'E'
    ensures k < |s| ==> s[k] == 'e' || s[k] == 'E'
  {
    if s == [] || s[0] == 'e' || s[0] == 'E' then 0 else 1 + ExponentMark(s[1..])
  }

  /** The mantissa of a `float()` text: digits with at most one dot, as `ParseUnsigned`
      reads them, where '_' may stand between two digits and is then ignored. */
  function ParseMantissa(m: string): (r: Option<real>)
    ensures r.Some? ==> r.value >= 0.0
  {
    if UnderscoresBetweenDigits(m) then ParseUnsigned(RemoveAll(m, '_')) else None
  }

  /** The exponent of a `float()` text, after its 'e': an optional sign and at least one
      digit, where '_' may stand between two digits. */
  function ParseExponent(x: string): Option<int>
  {
    var negative := x != [] && x[0] == '-';
    var unsigned := if x != [] && (x[0] == '+' || x[0] == '-') then x[1..] else x;
    var d := RemoveAll(unsigned, '_');
    if unsigned == [] || !UnderscoresBetweenDigits(unsigned) || !AllDigits(d) then None
    else Some(if negative then -(DigitsValue(d) as int) else DigitsValue(d) as int)
  }

  /** `v` times ten to the power `e`. */
  function Scale(v: real, e: int): real
  {
    if e >= 0 then v * Pow10(e) as real else v / Pow10(-e) as real
  }

  /** Python's `float()` on an unsigned finite number: a mantissa, then optionally 'e' or
      'E' and an exponent. */
  function ParseNumber(u: string): (r: Option<real>)
  {
    var k := ExponentMark(u);
    match ParseMantissa(u[..k])
    case None => None
    case Some(v) =>
      if k == |u| then Some(v)
      else match ParseExponent(u[k + 1..])
        case None => None
        case Some(e) => Some(Scale(v, e))
  }

  /** The whitespace `float()` strips from its argument: every `str.isspace` character
      except U+001C to U+001F. CPython first turns each non-ASCII whitespace character
      into ' ' but copies ASCII unchanged, and then strips only ' ', '\t', '\n', '\v',
      '\f' and '\r'. */
  predicate IsFloatSpace(c: char) { IsSpace(c) && !(0x1C <= c as int <= 0x1F) }

  function FloatTrimLeft(s: string): (r: string)
    ensures |r| <= |s|
  {
    if s != [] && IsFloatSpace(s[0]) then FloatTrimLeft(s[1..]) else s
  }

  function FloatTrimRight(s: string): (r: string)
    ensures |r| <= |s|
  {
    if s != [] && IsFloatSpace(s[|s| - 1]) then FloatTrimRight(s[..|s| - 1]) else s
  }

  /** The strip inside `float()`. */
  function FloatStrip(s: string): string
  {
    FloatTrimRight(FloatTrimLeft(s))
  }

  /** A string with no `float()` whitespace at either end is left as it is. */
  lemma {:induction false} NoEndFloatSpaceStrip(r: string)
    requires r == [] || (!IsFloatSpace(r[0]) && !IsFloatSpace(r[|r| - 1]))
    ensures FloatStrip(r) == r
  {
  }

  /** Python's `float()` on a text that denotes a finite number: surrounding whitespace,
      an optional sign, then a number. "inf", "infinity" and "nan" have no real value
      and give `None` here. */
  function ParseFloat(s: string): (r: Option<real>)
  {
    var t := FloatStrip(s);
    if t != [] && (t[0] == '+' || t[0] == '-') then
      match ParseNumber(t[1..])
      case None => None
      case Some(v) => Some(if t[0] == '-' then -v else v)
    else ParseNumber(t)
  }

  /** `float()` on a signed digits-and-dots string: the unsigned value, negated after '-'. */
  lemma {:induction false} ParseFloatOfSigned(sign: string, u: string)
    requires DigitsAndDots(u) && (sign == "" || sign == "+" || sign == "-")
    ensures ParseFloat(sign + u) ==
      match ParseUnsigned(u)
      case None => None
      case Some(v) => Some(if sign == "-" then -v else v)
  {
    PlainNumber(u);
    if sign != "" {
      SignedPlain(sign, u);
    } else {
      assert sign + u == u;
      UnsignedPlain(u);
    }
  }

  /** A sign before digits and dots: `float()` reads the sign and parses the rest. */
  lemma {:induction false} SignedPlain(sign: string, u: string)
    requires DigitsAndDots(u) && (sign == "+" || sign == "-")
    ensures ParseFloat(sign + u) ==
      match ParseNumber(u)
      case None => None
      case Some(v) => Some(if sign == "-" then -v else v)
  {
    var t := sign + u;
    assert t[0] == sign[0] && t[1..] == u;
    if u != [] {
      assert t[|t| - 1] == u[|u| - 1];
      assert IsDigit(u[|u| - 1]) || u[|u| - 1] == '.';
    }
    NoEndFloatSpaceStrip(t);
    SignedParse(t);
  }

  /** Digits and dots with no sign: `float()` parses them as they are. */
  lemma {:induction false} UnsignedPlain(u: string)
    requires DigitsAndDots(u)
    ensures ParseFloat(u) == ParseNumber(u)
  {
    if u != [] {
      assert IsDigit(u[0]) || u[0] == '.';
      assert IsDigit(u[|u| - 1]) || u[|u| - 1] == '.';
    }
    NoEndFloatSpaceStrip(u);
    UnsignedParse(u);
  }

  lemma {:induction false} SignedParse(t: string)
    requires FloatStrip(t) == t && t != [] && (t[0] == '+' || t[0] == '-')
    ensures ParseFloat(t) ==
      match ParseNumber(t[1..])
      case None => None
      case Some(v) => Some(if t[0] == '-' then -v else v)
  {
  }

  lemma {:induction false} UnsignedParse(u: string)
    requires FloatStrip(u) == u && (u == [] || (u[0] != '+' && u[0] != '-'))
    ensures ParseFloat(u) == ParseNumber(u)
  {
  }

  /** Without an exponent or an underscore, a number is read as `ParseUnsigned` reads it. */
  lemma {:induction false} PlainNumber(u: string)
    requires DigitsAndDots(u)
    ensures ParseNumber(u) == ParseUnsigned(u)
  {
    assert '_' !in u && 'e' !in u && 'E' !in u by {
      forall i | 0 <= i < |u|
        ensures u[i] != '_' && u[i] != 'e' && u[i] != 'E'
      {
        assert IsDigit(u[i]) || u[i] == '.';
      }
    }
    var k := ExponentMark(u);
    assert k == |u|;
    assert u[..k] == u;
    RemoveAllAbsent(u, '_');
  }

  /** "w e x": the digits of `w` times ten to the power of the signed exponent `x`, as
      in "15e3", "1E+16" and "25e-1". */
  lemma {:induction false} ParseFloatExponent(w: string, mark: char, sign: string, x: string)
    requires AllDigits(w) && w != [] && AllDigits(x) && x != []
    requires (mark == 'e' || mark == 'E') && (sign == "" || sign == "+" || sign == "-")
    ensures ParseFloat(w + [mark] + sign + x) ==
      Some(Scale(DigitsValue(w) as real, if sign == "-" then -(DigitsValue(x) as int) else DigitsValue(x) as int))
  {
    MantissaOfDigits(w);
    ExponentOfDigits(sign, x);
    ExponentNumber(w, mark, sign, x, DigitsValue(w) as real,
      if sign == "-" then -(DigitsValue(x) as int) else DigitsValue(x) as int);
  }

  /** A mantissa, an exponent mark and an exponent part that each parse: the mantissa
      scaled by the exponent. */
  lemma {:induction false} ExponentNumber(w: string, mark: char, sign: string, x: string, v: real, ex: int)
    requires AllDigits(w) && w != [] && AllDigits(x) && x != []
    requires (mark == 'e' || mark == 'E') && (sign == "" || sign == "+" || sign == "-")
    requires ParseMantissa(w) == Some(v) && ParseExponent(sign + x) == Some(ex)
    ensures ParseFloat(w + [mark] + sign + x) == Some(Scale(v, ex))
  {
    var u := w + [mark] + sign + x;
    AppendAssoc(w + [mark], sign, x);
    ExponentTextParts(w, mark, sign + x);
    NumberWithExponent(u, |w|, w, sign + x, v, ex);
  }

  /** Digits, an exponent mark and the rest: `float()` reads the text unstripped, and the
      mark splits it into the digits and the rest. */
  lemma {:induction false} ExponentTextParts(w: string, mark: char, rest: string)
    requires AllDigits(w) && w != [] && (mark == 'e' || mark == 'E')
    requires rest != [] && !IsSpace(rest[|rest| - 1])
    ensures var u := w + [mark] + rest;
      && ParseFloat(u) == ParseNumber(u)
      && ExponentMark(u) == |w| && u[..|w|] == w && u[|w| + 1..] == rest
  {
    var u := w + [mark] + rest;
    assert u[0] == w[0] && u[|u| - 1] == rest[|rest| - 1];
    NoEndFloatSpaceStrip(u);
    UnsignedParse(u);
    var k := ExponentMark(u);
    assert u[|w|] == mark;
    assert u[..|w|] == w && u[|w| + 1..] == rest;
  }

  lemma {:induction false} NumberWithExponent(u: string, k: nat, m: string, e: string, v: real, ex: int)
    requires ExponentMark(u) == k < |u| && u[..k] == m && u[k + 1..] == e
    requires ParseMantissa(m) == Some(v) && ParseExponent(e) == Some(ex)
    ensures ParseNumber(u) == Some(Scale(v, ex))
  {
  }

  /** Digits with each '_' between two of them, as in "1_000": the digits alone. */
  lemma {:induction false} ParseFloatUnderscores(d: string)
    requires d != [] && UnderscoresBetweenDigits(d)
    requires forall i :: 0 <= i < |d| ==> IsDigit(d[i]) || d[i] == '_'
    ensures AllDigits(RemoveAll(d, '_'))
    ensures ParseFloat(d) == Some(DigitsValue(RemoveAll(d, '_')) as real)
  {
    var r := RemoveAll(d, '_');
    assert UnderscoreAllowedAt(d, 0) && UnderscoreAllowedAt(d, |d| - 1);
    assert IsDigit(d[0]) && IsDigit(d[|d| - 1]);
    NoEndFloatSpaceStrip(d);
    UnsignedParse(d);
    var k := ExponentMark(d);
    assert k == |d|;
    assert d[..k] == d;
    RemoveAllMembers(d, '_');
    assert AllDigits(r) by {
      forall i | 0 <= i < |r|
        ensures IsDigit(r[i])
      {
        assert r[i] in r;
        var j :| 0 <= j < |d| && d[j] == r[i];
      }
    }
    assert r != [] by {
      assert d[0] in r;
    }
    UndottedValue(r);
  }

  /** Digits followed by one whitespace character: `float()` strips it when it is its
      own whitespace. U+001C to U+001F are `str.isspace` characters that it does not
      strip, so after one of them the text is a `ValueError`. */
  lemma {:induction false} DigitsThenSpace(w: string, c: char)
    requires AllDigits(w) && w != [] && IsSpace(c)
    ensures ParseFloat(w + [c]) == if IsFloatSpace(c) then Some(DigitsValue(w) as real) else None
  {
    var u := w + [c];
    assert u[0] == w[0] && u[..|w|] == w && u[|w|] == c;
    assert IsDigit(w[0]) && IsDigit(w[|w| - 1]);
    if IsFloatSpace(c) {
      assert FloatTrimLeft(u) == u;
      NoEndFloatSpaceStrip(w);
      assert FloatStrip(u) == w;
      assert "" + w == w;
      ParseFloatOfSigned("", w);
      UndottedValue(w);
    } else {
      NoEndFloatSpaceStrip(u);
      UnsignedParse(u);
      assert forall i :: 0 <= i < |u| ==> u[i] != 'e' && u[i] != 'E' && u[i] != '_' by {
        forall i | 0 <= i < |u|
          ensures u[i] != 'e' && u[i] != 'E' && u[i] != '_'
        {
          if i < |w| {
            assert u[i] == w[i];
          }
        }
      }
      assert ExponentMark(u) == |u|;
      assert u[..|u|] == u;
      assert UnderscoresBetweenDigits(u) by {
        forall i: nat | i < |u|
          ensures UnderscoreAllowedAt(u, i)
        {
        }
      }
      RemoveAllAbsent(u, '_');
      assert !DigitsAndDots(u) by {
        assert !IsDigit(u[|w|]) && u[|w|] != '.';
      }
    }
  }

  /** A run of digits is its integer value. */
  lemma {:induction false} UndottedValue(d: string)
    requires AllDigits(d) && d != []
    ensures ParseUnsigned(d) == Some(DigitsValue(d) as real)
  {
    assert DigitsAndDots(d);
    ParseUnsignedMeaning(d);
    DigitsOfAllDigits(d);
    CountOfZero(d, '.');
    UnitScale(DigitsValue(d));
  }

  lemma {:induction false} MantissaOfDigits(w: string)
    requires AllDigits(w) && w != []
    ensures ParseMantissa(w) == Some(DigitsValue(w) as real)
  {
    assert '_' !in w by {
      forall i | 0 <= i < |w|
        ensures w[i] != '_'
      {
        assert IsDigit(w[i]);
      }
    }
    RemoveAllAbsent(w, '_');
    UndottedValue(w);
  }

  lemma {:induction false} ExponentOfDigits(sign: string, x: string)
    requires AllDigits(x) && x != [] && (sign == "" || sign == "+" || sign == "-")
    ensures ParseExponent(sign + x) ==
      Some(if sign == "-" then -(DigitsValue(x) as int) else DigitsValue(x) as int)
  {
    PlainDigitPart(x);
    if sign == "" {
      assert sign + x == x;
      UnsignedExponent(x);
    } else {
      SignedExponent(sign[0], x);
      assert [sign[0]] + x == sign + x;
    }
  }

  lemma {:induction false} UnsignedExponent(x: string)
    requires AllDigits(x) && x != [] && UnderscoresBetweenDigits(x) && RemoveAll(x, '_') == x
    ensures ParseExponent(x) == Some(DigitsValue(x) as int)
  {
    assert x[0] != '+' && x[0] != '-' by {
      assert IsDigit(x[0]);
    }
  }

  lemma {:induction false} SignedExponent(c: char, x: string)
    requires AllDigits(x) && x != [] && UnderscoresBetweenDigits(x) && RemoveAll(x, '_') == x
    requires c == '+' || c == '-'
    ensures ParseExponent([c] + x) == Some(if c == '-' then -(DigitsValue(x) as int) else DigitsValue(x) as int)
  {
    assert ([c] + x)[0] == c && ([c] + x)[1..] == x;
  }

  /** Digits alone are a well-formed digit part, with nothing to drop. */
  lemma {:induction false} PlainDigitPart(x: string)
    requires AllDigits(x)
    ensures UnderscoresBetweenDigits(x) && RemoveAll(x, '_') == x
  {
    assert '_' !in x by {
      forall i | 0 <= i < |x|
        ensures x[i] != '_'
      {
        assert IsDigit(x[i]);
      }
    }
    RemoveAllAbsent(x, '_');
  }

  /** `extract_price`: `None` for the empty string, for a cleaned text that is empty or
      not a number, and for a value outside [MinPrice, MaxPrice]. */
  function ExtractPrice(text: string): (r: Option<real>)
    ensures r.Some? ==> MinPrice <= r.value <= MaxPrice
    ensures text == [] ==> r == None
  {
    if text == [] then None
    else
      var c := CleanPriceText(Strip(text));
      if c == [] then None
      else match ParseUnsigned(ResolveSeparators(c))
        case None => None
        case Some(v) => InPriceRange(v)
  }

  /** The final range check of `extract_price`. */
  function InPriceRange(v: real): Option<real>
  {
    if MinPrice <= v <= MaxPrice then Some(v) else None
  }

  // ---------------------------------------------------------------------------
  // Reference definition: which separator is the decimal point, stated on the
  // cleaned text directly, and the value that the digits then denote.

  /** The last separator of `c`, read left to right. */
  function LastSeparator(c: string): (r: Option<char>)
    ensures r.Some? ==> IsSeparator(r.value)
  {
    if c == [] then None
    else match LastSeparator(c[1..])
      case Some(x) => Some(x)
      case None => if IsSeparator(c[0]) then Some(c[0]) else None
  }

  /** The decimal point of a cleaned price text: the later separator when both occur;
      a single comma followed by at most two characters; a dot when only dots occur;
      none when commas are thousands separators or there is no separator. */
  function DecimalPoint(c: string): Option<char>
  {
    if ',' in c && '.' in c then LastSeparator(c)
    else if ',' in c then
      if CountOf(c, ',') == 1 && |SuffixAfterLast(c, ',')| <= 2 then Some(',') else None
    else if '.' in c then Some('.')
    else None
  }

  /** The number the digits of `s` spell, ignoring everything else. */
  function DigitsNumber(s: string): nat
  {
    DigitsAreDigits(s);
    DigitsValue(Digits(s))
  }

  /** The price a text denotes: its digits, scaled by the digits after the decimal
      point; none without a digit, with a repeated decimal point, or out of range. */
  function ReferencePrice(text: string): Option<real>
  {
    var c := CleanPriceText(text);
    var d := Digits(c);
    var p := DecimalPoint(c);
    if d == [] || (p.Some? && CountOf(c, p.value) > 1) then None
    else
      var fracLen := if p.Some? then |SuffixAfterLast(c, p.value)| else 0;
      InPriceRange(DigitsNumber(c) as real / Pow10(fracLen) as real)
  }

  /** `extract_price` computes exactly the reference price. */
  lemma {:induction false} ExtractPriceIsReferencePrice(text: string)
    ensures ExtractPrice(text) == ReferencePrice(text)
  {
    if text != [] {
      CleanIgnoresStrip(text);
      var c := CleanPriceText(text);
      if c != [] {
        CleanKeepsPriceChars(text);
        ResolveSeparatorsMeaning(c);
        var u := ResolveSeparators(c);
        ParseUnsignedMeaning(u);
        assert DigitsNumber(u) == DigitsNumber(c);
        CountOfZero(u, '.');
      } else {
        assert Digits(c) == [];
      }
    }
  }

  /** When both separators occur, the later one is the decimal point. */
  lemma {:induction false} LaterSeparatorIsDecimalPoint(c: string)
    requires ',' in c && '.' in c
    ensures DecimalPoint(c) == Some('.') <==> LastIndexOf(c, '.') > LastIndexOf(c, ',')
    ensures DecimalPoint(c) == Some(',') <==> LastIndexOf(c, ',') > LastIndexOf(c, '.')
  {
    LastSeparatorOccurs(c);
    if LastSeparator(c) == Some('.') {
      LastSeparatorIsLast(c, '.', ',');
    } else {
      LastSeparatorIsLast(c, ',', '.');
    }
  }

  // ---------------------------------------------------------------------------
  // Proof of the reference lemma.

  lemma {:induction false} CleanKeepsPriceChars(s: string)
    ensures PriceChars(CleanPriceText(s))
  {
    if s != [] {
      CleanKeepsPriceChars(s[1..]);
    }
  }

  lemma {:induction false} AllDigitsConcat(a: string, b: string)
    requires AllDigits(a) && AllDigits(b)
    ensures AllDigits(a + b)
  {
  }

  lemma {:induction false} LastSeparatorOccurs(c: string)
    ensures LastSeparator(c).Some? ==> LastSeparator(c).value in c
    ensures LastSeparator(c).None? ==> ',' !in c && '.' !in c
  {
    if c != [] {
      LastSeparatorOccurs(c[1..]);
    }
  }

  lemma {:induction false} LastSeparatorIsLast(c: string, x: char, y: char)
    requires x != y && IsSeparator(x) && IsSeparator(y)
    requires LastSeparator(c) == Some(x)
    ensures LastIndexOf(c, x) > LastIndexOf(c, y)
  {
    var rest := LastSeparator(c[1..]);
    if rest.Some? {
      LastSeparatorIsLast(c[1..], x, y);
    } else {
      LastSeparatorOccurs(c[1..]);
      LastIndexOfIsLast(c[1..], x);
      LastIndexOfIsLast(c[1..], y);
    }
  }

  /** No separator follows the last one. */
  lemma {:induction false} OtherAbsentAfterLast(c: string, x: char, y: char)
    requires x != y && IsSeparator(x) && IsSeparator(y)
    requires LastSeparator(c) == Some(x)
    ensures y !in SuffixAfterLast(c, x)
  {
    LastSeparatorIsLast(c, x, y);
    SuffixAfterLastIsAfterLastIndex(c, x);
    LastIndexOfIsLast(c, y);
    var r := LastIndexOf(c, x);
    var ry := LastIndexOf(c, y);
    var t := c[r + 1..];
    forall q | 0 <= q < |t|
      ensures t[q] != y
    {
      if ry >= 0 {
        assert t[q] == c[ry + 1..][q + r - ry];
      }
    }
  }

  lemma {:induction false} SuffixAfterLastIsAfterLastIndex(s: string, ch: char)
    ensures SuffixAfterLast(s, ch) == s[LastIndexOf(s, ch) + 1..]
  {
    if ch in s {
      SuffixAfterLastIsAfterLastIndex(s[1..], ch);
      LastIndexOfIsLast(s[1..], ch);
      if ch in s[1..] {
        assert s[1..][LastIndexOf(s[1..], ch) + 1..] == s[LastIndexOf(s, ch) + 1..];
      }
    } else {
      LastIndexOfIsLast(s, ch);
    }
  }

  lemma {:induction false} SuffixAfterLastSplit(a: string, ch: char, b: string)
    requires ch !in b
    ensures SuffixAfterLast(a + [ch] + b, ch) == b
  {
    if a == [] {
      assert ([ch] + b)[1..] == b;
      assert ch !in b;
    } else {
      assert (a + [ch] + b)[1..] == a[1..] + [ch] + b;
      SuffixAfterLastSplit(a[1..], ch, b);
    }
  }

  lemma {:induction false} SuffixAfterLastRemoveAll(s: string, a: char, b: char)
    requires a != b
    ensures SuffixAfterLast(RemoveAll(s, a), b) == RemoveAll(SuffixAfterLast(s, b), a)
  {
    var t := RemoveAll(s, a);
    RemoveAllMembers(s, a);
    if s != [] {
      var t' := RemoveAll(s[1..], a);
      SuffixAfterLastRemoveAll(s[1..], a, b);
      RemoveAllMembers(s[1..], a);
      assert t == (if s[0] == a then [] else [s[0]]) + t';
      if b in s[1..] {
        assert b in t' && b in s;
        if s[0] != a {
          assert t[1..] == t';
          assert b in t;
          assert SuffixAfterLast(t, b) == SuffixAfterLast(t', b);
        } else {
          assert t == t';
        }
        assert SuffixAfterLast(s, b) == SuffixAfterLast(s[1..], b);
      } else if s[0] == b {
        assert b !in t';
        assert t[1..] == t';
        assert SuffixAfterLast(s, b) == SuffixAfterLast(s[1..], b) == s[1..];
        assert SuffixAfterLast(t, b) == SuffixAfterLast(t', b) == t';
      } else {
        assert b !in s && b !in t;
      }
    }
  }

  lemma {:induction false} ReplaceCharTail(s: string, a: char, b: char)
    requires s != []
    ensures ReplaceChar(s, a, b)[1..] == ReplaceChar(s[1..], a, b)
  {
  }

  lemma {:induction false} SuffixAfterLastReplace(s: string, a: char, b: char)
    requires b !in s
    ensures SuffixAfterLast(ReplaceChar(s, a, b), b) == SuffixAfterLast(s, a)
  {
    var t := ReplaceChar(s, a, b);
    if s != [] {
      ReplaceCharTail(s, a, b);
      SuffixAfterLastReplace(s[1..], a, b);
      if a in s {
        var i :| 0 <= i < |s| && s[i] == a;
        assert t[i] == b;
      } else {
        forall i | 0 <= i < |t|
          ensures t[i] == s[i]
        {
          assert s[i] in s;
        }
        assert t == s;
      }
    } else {
      assert t == [];
    }
  }

  lemma {:induction false} CountOfReplace(s: string, a: char, b: char)
    requires a != b && b !in s
    ensures CountOf(ReplaceChar(s, a, b), b) == CountOf(s, a)
  {
    if s != [] {
      ReplaceCharTail(s, a, b);
      CountOfReplace(s[1..], a, b);
    }
  }

  lemma {:induction false} DigitsRemoveAll(s: string, a: char)
    requires !IsDigit(a)
    ensures Digits(RemoveAll(s, a)) == Digits(s)
  {
    if s != [] {
      DigitsRemoveAll(s[1..], a);
      DigitsConcat(if s[0] == a then [] else [s[0]], RemoveAll(s[1..], a));
    }
  }

  lemma {:induction false} DigitsReplace(s: string, a: char, b: char)
    requires !IsDigit(a) && !IsDigit(b)
    ensures Digits(ReplaceChar(s, a, b)) == Digits(s)
  {
    if s != [] {
      ReplaceCharTail(s, a, b);
      DigitsReplace(s[1..], a, b);
    }
  }

  lemma {:induction false} CleanConcat(a: string, b: string)
    ensures CleanPriceText(a + b) == CleanPriceText(a) + CleanPriceText(b)
  {
    if a != [] {
      assert (a + b)[1..] == a[1..] + b;
      CleanConcat(a[1..], b);
    } else {
      assert a + b == b;
    }
  }

  lemma {:induction false} CleanOfSpaces(s: string)
    requires forall i :: 0 <= i < |s| ==> IsSpace(s[i])
    ensures CleanPriceText(s) == []
  {
    if s != [] {
      CleanOfSpaces(s[1..]);
    }
  }

  /** The `strip()` before cleaning changes nothing: cleaning drops whitespace anyway. */
  lemma {:induction false} CleanIgnoresStrip(s: string)
    ensures CleanPriceText(Strip(s)) == CleanPriceText(s)
  {
    StripIsSlice(s);
    var lo, hi :| && 0 <= lo <= hi <= |s| && Strip(s) == s[lo..hi]
                  && (forall i :: 0 <= i < lo ==> IsSpace(s[i]))
                  && (forall i :: hi <= i < |s| ==> IsSpace(s[i]));
    CleanOfSpaceMargins(s, lo, hi);
  }

  lemma {:induction false} CleanOfSpaceMargins(s: string, lo: int, hi: int)
    requires 0 <= lo <= hi <= |s|
    requires forall i :: 0 <= i < lo ==> IsSpace(s[i])
    requires forall i :: hi <= i < |s| ==> IsSpace(s[i])
    ensures CleanPriceText(s[lo..hi]) == CleanPriceText(s)
  {
    var a, m, b := s[..lo], s[lo..hi], s[hi..];
    assert s == a + m + b;
    CleanOfSpacePrefix(s, lo);
    CleanOfSpaceSuffix(s, hi);
    CleanConcat(a + m, b);
    CleanConcat(a, m);
  }

  lemma {:induction false} CleanOfSpacePrefix(s: string, lo: int)
    requires 0 <= lo <= |s|
    requires forall i :: 0 <= i < lo ==> IsSpace(s[i])
    ensures CleanPriceText(s[..lo]) == []
  {
    CleanOfSpaces(s[..lo]);
  }

  lemma {:induction false} CleanOfSpaceSuffix(s: string, hi: int)
    requires 0 <= hi <= |s|
    requires forall i :: hi <= i < |s| ==> IsSpace(s[i])
    ensures CleanPriceText(s[hi..]) == []
  {
    var b := s[hi..];
    forall i | 0 <= i < |b|
      ensures IsSpace(b[i])
    {
      assert b[i] == s[hi + i];
    }
    CleanOfSpaces(b);
  }

  /** A digits-and-dots string with a single dot splits into digits, the dot, digits. */
  lemma {:induction false} OnlyDotSplits(u: string, k: int)
    requires DigitsAndDots(u) && CountOf(u, '.') == 1 && k == IndexOf(u, '.')
    ensures 0 <= k < |u| && u == u[..k] + ['.'] + u[k + 1..]
    ensures AllDigits(u[..k]) && AllDigits(u[k + 1..]) && '.' !in u[k + 1..]
  {
    CountOfZero(u, '.');
    IndexOfIsFirst(u, '.');
    var w, f := u[..k], u[k + 1..];
    assert u == w + [u[k]] + f;
    CountOfConcat(w + [u[k]], f, '.');
    CountOfConcat(w, [u[k]], '.');
    CountOfZero(f, '.');
    forall i | 0 <= i < |w|
      ensures IsDigit(w[i])
    {
      assert w[i] == u[i];
      assert w[i] in w;
    }
    forall i | 0 <= i < |f|
      ensures IsDigit(f[i])
    {
      assert f[i] == u[k + 1 + i];
      assert f[i] in f;
    }
  }

  lemma {:induction false} DigitsAroundDot(whole: string, frac: string)
    requires AllDigits(whole) && AllDigits(frac)
    ensures Digits(whole + ['.'] + frac) == whole + frac
  {
    var dot := ['.'];
    assert Digits(dot) == [] by {
      assert dot[1..] == [];
    }
    DigitsConcat(whole + dot, frac);
    DigitsConcat(whole, dot);
    DigitsOfAllDigits(whole);
    DigitsOfAllDigits(frac);
    assert whole + [] + frac == whole + frac;
  }

  /** `float()` on digits and dots: the digits, scaled by the digits after the dot. */
  lemma {:induction false} ParseUnsignedMeaning(u: string)
    requires DigitsAndDots(u)
    ensures ParseUnsigned(u) ==
      if Digits(u) == [] || CountOf(u, '.') > 1 then None
      else
        Some(DigitsNumber(u) as real
             / Pow10(if '.' in u then |SuffixAfterLast(u, '.')| else 0) as real)
  {
    if CountOf(u, '.') <= 1 {
      if '.' !in u {
        ParseUndotted(u);
      } else {
        ParseOneDot(u);
      }
    }
  }

  lemma {:induction false} ParseUndotted(u: string)
    requires DigitsAndDots(u) && '.' !in u
    ensures AllDigits(u) && Digits(u) == u
    ensures ParseUnsigned(u) == if u == [] then None else Some(DigitsNumber(u) as real / Pow10(0) as real)
  {
    assert AllDigits(u);
    CountOfZero(u, '.');
    DigitsOfAllDigits(u);
    assert DigitsNumber(u) == DigitsValue(u);
    UnitScale(DigitsValue(u));
  }

  lemma {:induction false} UnitScale(n: nat)
    ensures n as real / Pow10(0) as real == n as real
  {
    assert Pow10(0) == 1;
  }

  lemma {:induction false} ParseOneDot(u: string)
    requires DigitsAndDots(u) && '.' in u && CountOf(u, '.') <= 1
    ensures ParseUnsigned(u) ==
      if Digits(u) == [] then None
      else Some(DigitsNumber(u) as real / Pow10(|SuffixAfterLast(u, '.')|) as real)
  {
    CountOfZero(u, '.');
    var k := IndexOf(u, '.');
    OnlyDotSplits(u, k);
    var whole, frac := u[..k], u[k + 1..];
    SuffixAfterLastSplit(whole, '.', frac);
    DigitsAroundDot(whole, frac);
    assert Digits(u) == whole + frac;
  }

  /** What `ResolveSeparators` leaves for `float()`: the same digits, as many dots as
      the decimal point occurs, and after the last dot what followed the decimal point. */
  lemma {:induction false} ResolveSeparatorsMeaning(c: string)
    requires PriceChars(c)
    ensures var u := ResolveSeparators(c); var p := DecimalPoint(c);
      && DigitsAndDots(u)
      && Digits(u) == Digits(c)
      && CountOf(u, '.') == (if p.Some? then CountOf(c, p.value) else 0)
      && (p.Some? ==> '.' in u && SuffixAfterLast(u, '.') == SuffixAfterLast(c, p.value))
  {
    var u := ResolveSeparators(c);
    var p := DecimalPoint(c);
    if ',' in c && '.' in c {
      LaterSeparatorIsDecimalPoint(c);
      LastSeparatorOccurs(c);
      if LastIndexOf(c, '.') > LastIndexOf(c, ',') {
        ResolveDotLater(c);
      } else {
        ResolveCommaLater(c);
      }
      CountOfZero(c, p.value);
      CountOfZero(u, '.');
    } else if ',' in c {
      ResolveCommaOnly(c);
    } else if '.' in c {
      assert u == c;
    } else {
      assert u == c;
      CountOfZero(c, '.');
    }
  }

  lemma {:induction false} ResolveDotLater(c: string)
    requires PriceChars(c) && ',' in c && '.' in c
    requires LastSeparator(c) == Some('.')
    ensures var u := RemoveAll(c, ',');
      && DigitsAndDots(u)
      && Digits(u) == Digits(c)
      && CountOf(u, '.') == CountOf(c, '.')
      && SuffixAfterLast(u, '.') == SuffixAfterLast(c, '.')
  {
    var u := RemoveAll(c, ',');
    RemoveAllMembers(c, ',');
    forall i | 0 <= i < |u|
      ensures IsDigit(u[i]) || u[i] == '.'
    {
      assert u[i] in u;
      var j :| 0 <= j < |c| && c[j] == u[i];
    }
    DigitsRemoveAll(c, ',');
    CountOfRemoveOther(c, ',', '.');
    SuffixAfterLastRemoveAll(c, ',', '.');
    OtherAbsentAfterLast(c, '.', ',');
    RemoveAllAbsent(SuffixAfterLast(c, '.'), ',');
  }

  lemma {:induction false} ResolveCommaLater(c: string)
    requires PriceChars(c) && ',' in c && '.' in c
    requires LastSeparator(c) == Some(',')
    ensures var u := ReplaceChar(RemoveAll(c, '.'), ',', '.');
      && DigitsAndDots(u)
      && Digits(u) == Digits(c)
      && CountOf(u, '.') == CountOf(c, ',')
      && SuffixAfterLast(u, '.') == SuffixAfterLast(c, ',')
  {
    var w := RemoveAll(c, '.');
    RemoveAllMembers(c, '.');
    forall i | 0 <= i < |w|
      ensures IsDigit(w[i]) || w[i] == ','
    {
      assert w[i] in w;
      var j :| 0 <= j < |c| && c[j] == w[i];
    }
    DigitsRemoveAll(c, '.');
    DigitsReplace(w, ',', '.');
    CountOfRemoveOther(c, '.', ',');
    CountOfReplace(w, ',', '.');
    SuffixAfterLastReplace(w, ',', '.');
    SuffixAfterLastRemoveAll(c, '.', ',');
    OtherAbsentAfterLast(c, ',', '.');
    RemoveAllAbsent(SuffixAfterLast(c, ','), '.');
  }

  lemma {:induction false} ResolveCommaOnly(c: string)
    requires PriceChars(c) && ',' in c && '.' !in c
    ensures var u := ResolveSeparators(c); var p := DecimalPoint(c);
      && DigitsAndDots(u)
      && Digits(u) == Digits(c)
      && CountOf(u, '.') == (if p.Some? then CountOf(c, ',') else 0)
      && (p.Some? ==> p.value == ',' && '.' in u && SuffixAfterLast(u, '.') == SuffixAfterLast(c, ','))
  {
    IndexOfIsFirst(c, ',');
    var k := IndexOf(c, ',');
    if CountOf(c, ',') == 1 {
      SingleCommaSuffix(c, k);
    }
    if CountOf(c, ',') == 1 && |c[k + 1..]| <= 2 {
      CommaBecomesDot(c, k);
    } else {
      CommasDropped(c);
    }
  }

  /** After the only comma comes the text that follows the last comma. */
  lemma {:induction false} SingleCommaSuffix(c: string, k: nat)
    requires CountOf(c, ',') == 1 && k < |c| && c[k] == ',' && ',' !in c[..k]
    ensures SuffixAfterLast(c, ',') == c[k + 1..]
  {
    assert c == c[..k] + [','] + c[k + 1..];
    assert ',' !in c[k + 1..] by {
      CountOfConcat(c[..k] + [','], c[k + 1..], ',');
      CountOfConcat(c[..k], [','], ',');
      CountOfZero(c[k + 1..], ',');
      CountOfZero(c[..k], ',');
    }
    SuffixAfterLastSplit(c[..k], ',', c[k + 1..]);
  }

  /** A single decimal comma becomes the one dot, with the same digits after it. */
  lemma {:induction false} CommaBecomesDot(c: string, k: nat)
    requires PriceChars(c) && '.' !in c && k < |c| && c[k] == ','
    ensures var u := ReplaceChar(c, ',', '.');
      && DigitsAndDots(u)
      && Digits(u) == Digits(c)
      && CountOf(u, '.') == CountOf(c, ',')
      && '.' in u
      && SuffixAfterLast(u, '.') == SuffixAfterLast(c, ',')
  {
    var u := ReplaceChar(c, ',', '.');
    DigitsReplace(c, ',', '.');
    CountOfReplace(c, ',', '.');
    SuffixAfterLastReplace(c, ',', '.');
    assert u[k] == '.';
  }

  /** Thousands commas are dropped, leaving the digits alone. */
  lemma {:induction false} CommasDropped(c: string)
    requires PriceChars(c) && '.' !in c
    ensures var u := RemoveAll(c, ',');
      && DigitsAndDots(u)
      && Digits(u) == Digits(c)
      && CountOf(u, '.') == 0
  {
    var u := RemoveAll(c, ',');
    RemoveAllMembers(c, ',');
    forall i | 0 <= i < |u|
      ensures IsDigit(u[i])
    {
      assert u[i] in u;
      var j :| 0 <= j < |c| && c[j] == u[i];
    }
    DigitsRemoveAll(c, ',');
    CountOfZero(u, '.');
  }
}
