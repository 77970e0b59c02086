/** The price formats `extract_price` is written for, each stated for all digit
    strings: plain integers, a decimal dot, a decimal comma, thousands commas, and the
    two mixed forms with thousands separators and a decimal point. */
module PriceFormats {
  import opened Strings
  import opened PriceText

  /** Digits only: the integer they spell. */
  lemma {:induction false} PlainDigits(w: string)
    requires AllDigits(w) && w != []
    ensures ExtractPrice(w) == InPriceRange(DigitsValue(w) as real)
  {
    ExtractPriceIsReferencePrice(w);
    CleanOfPriceChars(w);
    DigitsOfAllDigits(w);
    NoSeparatorInDigits(w);
    assert DecimalPoint(w) == None;
    UnitScale(DigitsValue(w));
  }

  /** Digits with one dot: the dot is the decimal point, however many digits follow
      it, so "1.500" is one and a half. */
  lemma {:induction false} DecimalDot(w: string, f: string)
    requires AllDigits(w) && AllDigits(f) && w + f != []
    ensures AllDigits(w + f)
    ensures ExtractPrice(w + "." + f) == InPriceRange(DigitsValue(w + f) as real / Pow10(|f|) as real)
  {
    var c := w + "." + f;
    SeparatedDigits(w, '.', f);
    ExtractPriceIsReferencePrice(c);
    assert ',' !in c by {
      NoSeparatorInDigits(w);
      NoSeparatorInDigits(f);
    }
  }

  /** Digits with one comma and at most two digits after it: a decimal comma. */
  lemma {:induction false} DecimalComma(w: string, f: string)
    requires AllDigits(w) && AllDigits(f) && w + f != [] && |f| <= 2
    ensures AllDigits(w + f)
    ensures ExtractPrice(w + "," + f) == InPriceRange(DigitsValue(w + f) as real / Pow10(|f|) as real)
  {
    var c := w + "," + f;
    SeparatedDigits(w, ',', f);
    ExtractPriceIsReferencePrice(c);
    assert '.' !in c by {
      NoSeparatorInDigits(w);
      NoSeparatorInDigits(f);
    }
  }

  /** Digits with one comma and three or more digits after it: a thousands comma,
      so "0,001" is one. */
  lemma {:induction false} ThousandsComma(w: string, f: string)
    requires AllDigits(w) && AllDigits(f) && |f| >= 3
    ensures AllDigits(w + f)
    ensures ExtractPrice(w + "," + f) == InPriceRange(DigitsValue(w + f) as real)
  {
    var c := w + "," + f;
    SeparatedDigits(w, ',', f);
    ExtractPriceIsReferencePrice(c);
    assert '.' !in c by {
      NoSeparatorInDigits(w);
      NoSeparatorInDigits(f);
    }
    assert DecimalPoint(c) == None;
    UnitScale(DigitsValue(w + f));
  }

  /** A thousands dot before a decimal comma, as in "1.234,50". */
  lemma {:induction false} DotThenComma(w: string, g: string, f: string)
    requires AllDigits(w) && AllDigits(g) && AllDigits(f)
    ensures AllDigits(w + g + f)
    ensures ExtractPrice(w + "." + g + "," + f)
         == InPriceRange(DigitsValue(w + g + f) as real / Pow10(|f|) as real)
  {
    MixedSeparators(w, '.', g, ',', f);
  }

  /** A thousands comma before a decimal dot, as in "1,234.50". */
  lemma {:induction false} CommaThenDot(w: string, g: string, f: string)
    requires AllDigits(w) && AllDigits(g) && AllDigits(f)
    ensures AllDigits(w + g + f)
    ensures ExtractPrice(w + "," + g + "." + f)
         == InPriceRange(DigitsValue(w + g + f) as real / Pow10(|f|) as real)
  {
    MixedSeparators(w, ',', g, '.', f);
  }

  /** Without any digit there is no price, as for "abc" or "-". */
  lemma {:induction false} NoDigitsNoPrice(text: string)
    requires Digits(CleanPriceText(text)) == []
    ensures ExtractPrice(text) == None
  {
    ExtractPriceIsReferencePrice(text);
  }

  /** Two dots and no comma: `float()` rejects the text, as for "1.2.3". */
  lemma {:induction false} RepeatedDotNoPrice(text: string)
    requires ',' !in CleanPriceText(text) && CountOf(CleanPriceText(text), '.') > 1
    ensures ExtractPrice(text) == None
  {
    ExtractPriceIsReferencePrice(text);
    CountOfZero(CleanPriceText(text), '.');
  }

  // ---------------------------------------------------------------------------

  lemma {:induction false} CleanOfPriceChars(s: string)
    requires PriceChars(s)
    ensures CleanPriceText(s) == s
  {
    if s != [] {
      CleanOfPriceChars(s[1..]);
    }
  }

  lemma {:induction false} NoSeparatorInDigits(w: string)
    requires AllDigits(w)
    ensures ',' !in w && '.' !in w
  {
  }

  /** The facts about `w + [x] + f` that the reference price reads. */
  lemma {:induction false} SeparatedDigits(w: string, x: char, f: string)
    requires AllDigits(w) && AllDigits(f) && IsSeparator(x)
    ensures var c := w + [x] + f;
      && AllDigits(w + f)
      && CleanPriceText(c) == c
      && x in c
      && Digits(c) == w + f
      && DigitsNumber(c) == DigitsValue(w + f)
      && CountOf(c, x) == 1
      && SuffixAfterLast(c, x) == f
  {
    var c := w + [x] + f;
    assert AllDigits(w + f);
    CleanOfPriceChars(c);
    assert c[|w|] == x;
    SeparatedDigitsOf(w, x, f);
    SeparatedCount(w, x, f);
  }

  lemma {:induction false} SeparatedDigitsOf(w: string, x: char, f: string)
    requires AllDigits(w) && AllDigits(f) && IsSeparator(x)
    ensures Digits(w + [x] + f) == w + f
    ensures DigitsNumber(w + [x] + f) == DigitsValue(w + f)
  {
    DigitsAroundSeparator(w, x, f);
    DigitsOfAllDigits(w);
    DigitsOfAllDigits(f);
  }

  lemma {:induction false} SeparatedCount(w: string, x: char, f: string)
    requires AllDigits(w) && AllDigits(f) && IsSeparator(x)
    ensures CountOf(w + [x] + f, x) == 1
    ensures SuffixAfterLast(w + [x] + f, x) == f
  {
    NoSeparatorInDigits(w);
    NoSeparatorInDigits(f);
    CountOfConcat(w + [x], f, x);
    CountOfSnoc(w, x, x);
    CountOfZero(w, x);
    CountOfZero(f, x);
    assert x !in f;
    SuffixAfterLastSplit(w, x, f);
  }

  lemma {:induction false} DigitsAroundSeparator(w: string, x: char, f: string)
    requires !IsDigit(x)
    ensures Digits(w + [x] + f) == Digits(w) + Digits(f)
  {
    var sep := [x];
    assert Digits(sep) == [] by {
      assert sep[1..] == [];
    }
    DigitsConcat(w + sep, f);
    DigitsConcat(w, sep);
    assert Digits(w) + [] == Digits(w);
  }

  lemma {:induction false} LastSeparatorSplit(a: string, x: char, b: string)
    requires IsSeparator(x) && ',' !in b && '.' !in b
    ensures LastSeparator(a + [x] + b) == Some(x)
  {
    if a == [] {
      assert ([x] + b)[1..] == b;
      NoSeparatorLast(b);
    } else {
      assert (a + [x] + b)[1..] == a[1..] + [x] + b;
      LastSeparatorSplit(a[1..], x, b);
    }
  }

  lemma {:induction false} NoSeparatorLast(b: string)
    requires ',' !in b && '.' !in b
    ensures LastSeparator(b) == None
  {
    if b != [] {
      assert b[1..] == b[1..] && forall i :: 0 <= i < |b[1..]| ==> b[1..][i] == b[i + 1];
      NoSeparatorLast(b[1..]);
    }
  }

  /** `w x g y f` with two different separators: `y` is the decimal point. */
  lemma {:induction false} MixedSeparators(w: string, x: char, g: string, y: char, f: string)
    requires AllDigits(w) && AllDigits(g) && AllDigits(f)
    requires IsSeparator(x) && IsSeparator(y) && x != y
    ensures AllDigits(w + g + f)
    ensures ExtractPrice(w + [x] + g + [y] + f)
         == InPriceRange(DigitsValue(w + g + f) as real / Pow10(|f|) as real)
  {
    var c := w + [x] + g + [y] + f;
    MixedFacts(w, x, g, y, f);
    var v := DigitsValue(w + g + f) as real / Pow10(|f|) as real;
    if w + g + f == [] {
      NoDigitsNoPrice(c);
      assert f == [] && DigitsValue(w + g + f) == 0;
      UnitScale(0);
      assert v == 0.0;
    } else {
      PriceWithDecimalPoint(c, y);
      assert ExtractPrice(c) == InPriceRange(v);
    }
  }

  /** A text whose cleaned form has one decimal point: its digits, scaled by those after the point. */
  lemma {:induction false} PriceWithDecimalPoint(text: string, p: char)
    requires Digits(CleanPriceText(text)) != []
    requires DecimalPoint(CleanPriceText(text)) == Some(p) && CountOf(CleanPriceText(text), p) == 1
    ensures var c := CleanPriceText(text);
      ExtractPrice(text) == InPriceRange(DigitsNumber(c) as real / Pow10(|SuffixAfterLast(c, p)|) as real)
  {
    ExtractPriceIsReferencePrice(text);
  }

  /** The facts about `w x g y f` that the reference price reads. */
  lemma {:induction false} MixedFacts(w: string, x: char, g: string, y: char, f: string)
    requires AllDigits(w) && AllDigits(g) && AllDigits(f)
    requires IsSeparator(x) && IsSeparator(y) && x != y
    ensures var c := w + [x] + g + [y] + f;
      && AllDigits(w + g + f)
      && CleanPriceText(c) == c
      && Digits(c) == w + g + f
      && DigitsNumber(c) == DigitsValue(w + g + f)
      && DecimalPoint(c) == Some(y)
      && CountOf(c, y) == 1
      && SuffixAfterLast(c, y) == f
  {
    var a := w + [x] + g;
    var c := a + [y] + f;
    assert AllDigits(w + g + f);
    NoSeparatorInDigits(w);
    NoSeparatorInDigits(g);
    NoSeparatorInDigits(f);
    assert PriceChars(c);
    CleanOfPriceChars(c);
    MixedPoint(w, x, g, y, f);
    MixedDigits(w, x, g, y, f);
    MixedCount(w, x, g, y, f);
  }

  lemma {:induction false} MixedPoint(w: string, x: char, g: string, y: char, f: string)
    requires AllDigits(w) && AllDigits(g) && AllDigits(f)
    requires IsSeparator(x) && IsSeparator(y) && x != y
    ensures DecimalPoint(w + [x] + g + [y] + f) == Some(y)
  {
    var a := w + [x] + g;
    var c := a + [y] + f;
    NoSeparatorInDigits(f);
    assert c[|w|] == x && c[|a|] == y;
    LastSeparatorSplit(a, y, f);
  }

  lemma {:induction false} MixedDigits(w: string, x: char, g: string, y: char, f: string)
    requires AllDigits(w) && AllDigits(g) && AllDigits(f)
    requires IsSeparator(x) && IsSeparator(y)
    ensures Digits(w + [x] + g + [y] + f) == w + g + f
    ensures DigitsNumber(w + [x] + g + [y] + f) == DigitsValue(w + g + f)
  {
    var a := w + [x] + g;
    DigitsAroundSeparator(w, x, g);
    DigitsAroundSeparator(a, y, f);
    DigitsOfAllDigits(w);
    DigitsOfAllDigits(g);
    DigitsOfAllDigits(f);
  }

  lemma {:induction false} MixedCount(w: string, x: char, g: string, y: char, f: string)
    requires AllDigits(w) && AllDigits(g) && AllDigits(f)
    requires IsSeparator(x) && IsSeparator(y) && x != y
    ensures CountOf(w + [x] + g + [y] + f, y) == 1
    ensures SuffixAfterLast(w + [x] + g + [y] + f, y) == f
  {
    var a := w + [x] + g;
    NoSeparatorInDigits(w);
    NoSeparatorInDigits(g);
    NoSeparatorInDigits(f);
    CountOfConcat(a + [y], f, y);
    CountOfSnoc(a, y, y);
    CountOfConcat(w + [x], g, y);
    CountOfSnoc(w, x, y);
    CountOfZero(w, y);
    CountOfZero(g, y);
    CountOfZero(f, y);
    SuffixAfterLastSplit(a, y, f);
  }
}
