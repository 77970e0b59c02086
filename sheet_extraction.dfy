/** The extraction rules of `process_excel_optimized` in app.py: which column holds
    the description and which the price, how a row's price cell is read, and which
    rows become products. A sheet is given as its header strings and its rows of cell
    strings (what `str()` makes of each cell). */
module SheetExtraction {
  import opened Strings
  import opened PriceText
  import opened TextRules

  /** `ProductRecord`; `marca` and `raw_line` keep their default "". */
  datatype ProductRecord = ProductRecord(
    codigo: string,
    descripcion: string,
    precio: real,
    proveedor: string,
    categoria: string,
    marca: string,
    rawLine: string)

  /** The chosen description and price columns, as positions in the header row. */
  datatype Columns = Columns(desc: nat, price: nat)

  /** The words that mark a description header, and those that mark a price header. */
  const DescWords: seq<string> := ["desc", "nombre", "descripcion", "articulo"]
  const PriceWords: seq<string> := ["precio", "pcio", "pvp"]

  /** `h` contains one of `words`. */
  predicate MentionsAny(h: string, words: seq<string>)
  {
    exists k :: 0 <= k < |words| && Contains(h, words[k])
  }

  /** A normalised header that names the description column. */
  predicate IsDescHeader(h: string)
  {
    MentionsAny(h, DescWords)
  }

  /** A normalised header that names the price column. */
  predicate IsPriceHeader(h: string)
  {
    MentionsAny(h, PriceWords)
  }

  /** `col` is the last position whose header passes `isRole`, or `fallback` when none does. */
  predicate LastOrDefault(cols: seq<string>, isRole: string -> bool, col: nat, fallback: nat)
  {
    && col < |cols|
    && (if exists i :: 0 <= i < |cols| && isRole(cols[i])
        then isRole(cols[col]) && forall j :: col < j < |cols| ==> !isRole(cols[j])
        else col == fallback)
  }

  /** The headers as column detection compares them: each one normalised. */
  function HeaderKeys(headers: seq<string>): (r: seq<string>)
    ensures |r| == |headers|
    ensures forall i :: 0 <= i < |headers| ==> r[i] == NormalizeText(headers[i])
  {
    seq(|headers|, i requires 0 <= i < |headers| => NormalizeText(headers[i]))
  }

  /** `r` is the last position of `cols` whose entry passes `isRole`, if there is one. */
  predicate IsLastWhere(cols: seq<string>, isRole: string -> bool, r: Option<nat>)
  {
    && (r.None? <==> forall k :: 0 <= k < |cols| ==> !isRole(cols[k]))
    && (r.Some? ==> r.value < |cols| && isRole(cols[r.value]))
    && (r.Some? ==> forall j :: r.value < j < |cols| ==> !isRole(cols[j]))
  }

  /** The header loop: one pass that remembers, for each of the two roles, the last
      header found to play it. */
  method ScanHeaders(cols: seq<string>, isDesc: string -> bool, isPrice: string -> bool)
    returns (colDesc: Option<nat>, colPrice: Option<nat>)
    ensures IsLastWhere(cols, isDesc, colDesc)
    ensures IsLastWhere(cols, isPrice, colPrice)
  {
    colDesc := None;
    colPrice := None;
    for i := 0 to |cols|
      invariant IsLastWhere(cols[..i], isDesc, colDesc)
      invariant IsLastWhere(cols[..i], isPrice, colPrice)
    {
      if isDesc(cols[i]) {
        colDesc := Some(i);
      }
      if isPrice(cols[i]) {
        colPrice := Some(i);
      }
    }
    assert cols[..|cols|] == cols;
  }

  /** Column detection: each header is normalised; the last header mentioning a
      description becomes the description column and, independently, the last header
      mentioning a price becomes the price column; without a match the first column
      describes and the last column prices. A sheet without columns has none to choose. */
  method DetectColumns(headers: seq<string>) returns (r: Option<Columns>)
    ensures r.None? <==> headers == []
    ensures r.Some? ==>
      && LastOrDefault(HeaderKeys(headers), IsDescHeader, r.value.desc, 0)
      && LastOrDefault(HeaderKeys(headers), IsPriceHeader, r.value.price, |headers| - 1)
  {
    var cols := HeaderKeys(headers);
    var colDesc, colPrice := ScanHeaders(cols, IsDescHeader, IsPriceHeader);
    if |headers| == 0 {
      return None;
    }
    var desc := if colDesc.Some? then colDesc.value else 0;
    var price := if colPrice.Some? then colPrice.value else |headers| - 1;
    r := Some(Columns(desc, price));
    LastWhereOrDefault(cols, IsDescHeader, colDesc, 0);
    LastWhereOrDefault(cols, IsPriceHeader, colPrice, |headers| - 1);
  }

  /** The fallback applied to the scan's answer gives the column `LastOrDefault` describes. */
  lemma {:induction false} LastWhereOrDefault(cols: seq<string>, isRole: string -> bool, r: Option<nat>, fallback: nat)
    requires IsLastWhere(cols, isRole, r) && fallback < |cols|
    ensures LastOrDefault(cols, isRole, if r.Some? then r.value else fallback, fallback)
  {
    if r.None? {
      assert !exists i :: 0 <= i < |cols| && isRole(cols[i]);
    }
  }

  /** The price of a row: every '.' is deleted, then ',' becomes '.', then `float()`. */
  function RowPrice(cell: string): Option<real>
  {
    ParseFloat(ReplaceChar(RemoveAll(cell, '.'), ',', '.'))
  }

  /** What one row contributes: nothing when the price cell is not a number, the
      normalised description is empty or the price is zero; otherwise a product. */
  function RowProduct(row: seq<string>, cols: Columns, supplier: string): Option<ProductRecord>
    requires cols.desc < |row| && cols.price < |row|
  {
    var raw := row[cols.desc];
    var descripcion := NormalizeText(raw);
    match RowPrice(row[cols.price])
    case None => None
    case Some(precio) =>
      if descripcion != [] && precio != 0.0 then
        Some(ProductRecord(ExtractCode(raw), descripcion, precio, supplier, ClassifyCategory(descripcion), "", ""))
      else None
  }

  predicate RowsCover(rows: seq<seq<string>>, cols: Columns)
  {
    forall k :: 0 <= k < |rows| ==> cols.desc < |rows[k]| && cols.price < |rows[k]|
  }

  /** The products of `rows`, in row order. */
  function KeptProducts(rows: seq<seq<string>>, cols: Columns, supplier: string): seq<ProductRecord>
    requires RowsCover(rows, cols)
  {
    if rows == [] then []
    else
      var init := rows[..|rows| - 1];
      var last := RowProduct(rows[|rows| - 1], cols, supplier);
      KeptProducts(init, cols, supplier) + (if last.Some? then [last.value] else [])
  }

  /** The row loop: rows whose price does not parse are skipped, the others kept when
      their description is non-empty and their price non-zero. */
  method ExtractProducts(rows: seq<seq<string>>, cols: Columns, supplier: string)
    returns (products: seq<ProductRecord>)
    requires RowsCover(rows, cols)
    ensures products == KeptProducts(rows, cols, supplier)
  {
    products := [];
    for k := 0 to |rows|
      invariant products == KeptProducts(rows[..k], cols, supplier)
    {
      assert rows[..k + 1][..k] == rows[..k];
      var p := RowProduct(rows[k], cols, supplier);
      if p.None? {
        continue;
      }
      products := products + [p.value];
    }
    assert rows[..|rows|] == rows;
  }

  /** `process_excel_optimized` once the sheet is read: detect the columns, then extract.
      A sheet without columns gives no products, as the failing `df.columns[0]` does. */
  method ProcessSheet(headers: seq<string>, rows: seq<seq<string>>, supplier: string)
    returns (products: seq<ProductRecord>)
    requires forall k :: 0 <= k < |rows| ==> |rows[k]| == |headers|
    ensures headers == [] ==> products == []
    ensures headers != [] ==>
      exists cols ::
        && RowsCover(rows, cols)
        && LastOrDefault(HeaderKeys(headers), IsDescHeader, cols.desc, 0)
        && LastOrDefault(HeaderKeys(headers), IsPriceHeader, cols.price, |headers| - 1)
        && products == KeptProducts(rows, cols, supplier)
  {
    var r := DetectColumns(headers);
    if r.None? {
      return [];
    }
    products := ExtractProducts(rows, r.value, supplier);
  }

  // ---------------------------------------------------------------------------
  // What the kept products satisfy.

  /** A kept product has a non-empty normalised description, a non-zero price, the
      sheet's supplier and the category of its description, and it is what some row
      yields. Their order is that of the rows: `ExtractProducts` states it through
      `KeptProducts`. */
  lemma {:induction false} KeptProductsFacts(rows: seq<seq<string>>, cols: Columns, supplier: string)
    requires RowsCover(rows, cols)
    ensures var ps := KeptProducts(rows, cols, supplier);
      && |ps| <= |rows|
      && forall q :: 0 <= q < |ps| ==>
           && ps[q].descripcion != [] && IsNormalized(ps[q].descripcion)
           && ps[q].precio != 0.0
           && ps[q].proveedor == supplier
           && ps[q].categoria == ClassifyCategory(ps[q].descripcion)
           && exists k :: 0 <= k < |rows| && RowProduct(rows[k], cols, supplier) == Some(ps[q])
  {
    if rows != [] {
      var init := rows[..|rows| - 1];
      var last := RowProduct(rows[|rows| - 1], cols, supplier);
      KeptProductsFacts(init, cols, supplier);
      var ps := KeptProducts(rows, cols, supplier);
      var qs := KeptProducts(init, cols, supplier);
      forall q | 0 <= q < |ps|
        ensures && ps[q].descripcion != [] && IsNormalized(ps[q].descripcion)
                && ps[q].precio != 0.0
                && ps[q].proveedor == supplier
                && ps[q].categoria == ClassifyCategory(ps[q].descripcion)
                && exists k :: 0 <= k < |rows| && RowProduct(rows[k], cols, supplier) == Some(ps[q])
      {
        if q < |qs| {
          assert ps[q] == qs[q];
          var k :| 0 <= k < |init| && RowProduct(init[k], cols, supplier) == Some(qs[q]);
          assert init[k] == rows[k];
        } else {
          assert ps[q] == last.value;
          NormalizeTextIsNormalized(rows[|rows| - 1][cols.desc]);
        }
      }
    }
  }

  /** Every row that yields a product contributes it: the filter drops nothing else. */
  lemma {:induction false} KeptProductsComplete(rows: seq<seq<string>>, cols: Columns, supplier: string, k: nat)
    requires RowsCover(rows, cols) && k < |rows|
    requires RowProduct(rows[k], cols, supplier).Some?
    ensures RowProduct(rows[k], cols, supplier).value in KeptProducts(rows, cols, supplier)
  {
    var init := rows[..|rows| - 1];
    if k < |rows| - 1 {
      assert init[k] == rows[k];
      KeptProductsComplete(init, cols, supplier, k);
    }
  }

  // ---------------------------------------------------------------------------
  // The row price on the two shapes it meets.

  /** The European form with thousands dots and a decimal comma is read as intended:
      "15.716,232" is 15716.232. */
  lemma {:induction false} RowPriceEuropean(w: string, g: string, f: string)
    requires AllDigits(w) && AllDigits(g) && AllDigits(f) && w + g + f != []
    ensures AllDigits(w + g + f)
    ensures RowPrice(w + "." + g + "," + f) == Some(DigitsValue(w + g + f) as real / Pow10(|f|) as real)
  {
    var wg := w + g;
    assert AllDigits(wg) && wg + f == w + g + f;
    var u := wg + "." + f;
    assert ReplaceChar(RemoveAll(w + "." + g + "," + f, '.'), ',', '.') == u by {
      RemoveDotsEuropean(w, g, f);
      CommaToDot(wg, f);
    }
    UnsignedRowPrice(u);
    DottedValue(wg, f);
  }

  /** A decimal dot is deleted, not read: a numeric cell rendered "1234.5" becomes 12345. */
  lemma {:induction false} RowPriceDropsDecimalDot(w: string, f: string)
    requires AllDigits(w) && AllDigits(f) && w + f != []
    ensures AllDigits(w + f)
    ensures RowPrice(w + "." + f) == Some(DigitsValue(w + f) as real)
  {
    var d := w + f;
    assert AllDigits(d);
    assert ReplaceChar(RemoveAll(w + "." + f, '.'), ',', '.') == d by {
      RemoveDotsPlain(w, f);
      NoCommaReplace(d);
    }
    UnsignedRowPrice(d);
    UndottedValue(d);
  }

  /** A cell in exponent form, as `str()` renders a large number ("1e+16", "1.5e+16"),
      loses its dot like any other: "1.5e+16" is read as "15e+16". */
  lemma {:induction false} RowPriceExponent(w: string, f: string, mark: char, sign: string, x: string)
    requires AllDigits(w) && AllDigits(f) && w + f != [] && AllDigits(x) && x != []
    requires (mark == 'e' || mark == 'E') && (sign == "" || sign == "+" || sign == "-")
    ensures AllDigits(w + f)
    ensures var value := Some(Scale(DigitsValue(w + f) as real,
                                    if sign == "-" then -(DigitsValue(x) as int) else DigitsValue(x) as int));
      && RowPrice(w + f + [mark] + sign + x) == value
      && RowPrice(w + "." + f + [mark] + sign + x) == value
  {
    var d := w + f;
    var tail := [mark] + sign + x;
    AllDigitsJoin(w, f);
    ExponentTailPlain(mark, sign, x);
    Regroup(d, [mark], sign, x);
    Regroup(w + "." + f, [mark], sign, x);
    DotDropped(w, f, tail);
    NoSeparatorJoin(d, tail);
    RowPriceNoSeparators(d + tail);
    RowPriceWithoutDots(w + "." + f + tail, d + tail);
    ParseFloatExponent(d, mark, sign, x);
  }

  /** The row price of a cell whose dots, once deleted, leave `r` without a comma. */
  lemma {:induction false} RowPriceWithoutDots(c: string, r: string)
    requires RemoveAll(c, '.') == r && ',' !in r
    ensures RowPrice(c) == ParseFloat(r)
  {
    assert ReplaceChar(r, ',', '.') == r;
  }

  lemma {:induction false} AllDigitsJoin(w: string, f: string)
    requires AllDigits(w) && AllDigits(f)
    ensures AllDigits(w + f) && '.' !in w + f && ',' !in w + f
  {
    assert forall i :: 0 <= i < |w + f| ==> IsDigit((w + f)[i]);
  }

  lemma {:induction false} ExponentTailPlain(mark: char, sign: string, x: string)
    requires AllDigits(x) && (mark == 'e' || mark == 'E') && (sign == "" || sign == "+" || sign == "-")
    ensures '.' !in [mark] + sign + x && ',' !in [mark] + sign + x
  {
    assert forall i :: 0 <= i < |x| ==> IsDigit(x[i]);
  }

  lemma {:induction false} Regroup(a: string, b: string, c: string, e: string)
    ensures a + b + c + e == a + (b + c + e)
  {
  }

  lemma {:induction false} DotDropped(w: string, f: string, tail: string)
    requires AllDigits(w) && AllDigits(f) && '.' !in tail
    ensures RemoveAll(w + "." + f + tail, '.') == w + f + tail
  {
    RemoveAllConcat(w + "." + f, tail, '.');
    RemoveDotsPlain(w, f);
    RemoveAllAbsent(tail, '.');
  }

  lemma {:induction false} NoSeparatorJoin(d: string, tail: string)
    requires '.' !in d && ',' !in d && '.' !in tail && ',' !in tail
    ensures '.' !in d + tail && ',' !in d + tail
  {
  }

  /** Digits with each '_' between two of them, as in "1_000", are read as the digits. */
  lemma {:induction false} RowPriceUnderscores(d: string)
    requires d != [] && UnderscoresBetweenDigits(d)
    requires forall i :: 0 <= i < |d| ==> IsDigit(d[i]) || d[i] == '_'
    ensures AllDigits(RemoveAll(d, '_'))
    ensures RowPrice(d) == Some(DigitsValue(RemoveAll(d, '_')) as real)
  {
    assert '.' !in d && ',' !in d by {
      forall i | 0 <= i < |d|
        ensures d[i] != '.' && d[i] != ','
      {
        assert IsDigit(d[i]) || d[i] == '_';
      }
    }
    RowPriceNoSeparators(d);
    ParseFloatUnderscores(d);
  }

  /** A price cell of digits and one trailing whitespace character: the digits when
      `float()` strips that character, and no price, so the row is skipped, after
      U+001C to U+001F. */
  lemma {:induction false} RowPriceTrailingSpace(w: string, c: char)
    requires AllDigits(w) && w != [] && IsSpace(c)
    ensures RowPrice(w + [c]) == if IsFloatSpace(c) then Some(DigitsValue(w) as real) else None
  {
    var u := w + [c];
    assert '.' !in u && ',' !in u by {
      forall i | 0 <= i < |u|
        ensures u[i] != '.' && u[i] != ','
      {
        if i < |w| {
          assert u[i] == w[i] && IsDigit(w[i]);
        }
      }
    }
    RowPriceNoSeparators(u);
    DigitsThenSpace(w, c);
  }

  /** Without dots and commas, the row price is `float()` of the cell itself. */
  lemma {:induction false} RowPriceNoSeparators(c: string)
    requires '.' !in c && ',' !in c
    ensures RowPrice(c) == ParseFloat(c)
  {
    RemoveAllAbsent(c, '.');
    RowPriceWithoutDots(c, c);
  }

  lemma {:induction false} RemoveDotsEuropean(w: string, g: string, f: string)
    requires AllDigits(w) && AllDigits(g) && AllDigits(f)
    ensures RemoveAll(w + "." + g + "," + f, '.') == w + g + "," + f
  {
    var tail := "," + f;
    assert w + "." + g + "," + f == (w + "." + g) + tail;
    assert w + g + "," + f == (w + g) + tail;
    RemoveAllConcat(w + "." + g, tail, '.');
    RemoveDotsPlain(w, g);
    assert '.' !in tail;
    RemoveAllAbsent(tail, '.');
  }

  lemma {:induction false} RemoveDotsPlain(w: string, f: string)
    requires AllDigits(w) && AllDigits(f)
    ensures RemoveAll(w + "." + f, '.') == w + f
  {
    assert '.' !in w && '.' !in f by {
      assert forall i :: 0 <= i < |w| ==> w[i] != '.';
      assert forall i :: 0 <= i < |f| ==> f[i] != '.';
    }
    RemoveAllConcat(w + ".", f, '.');
    RemoveAllConcat(w, ".", '.');
    RemoveAllAbsent(w, '.');
    RemoveAllAbsent(f, '.');
    assert RemoveAll(".", '.') == [];
    assert RemoveAll(w + ".", '.') == w by {
      assert w + [] == w;
    }
  }

  lemma {:induction false} CommaToDot(wg: string, f: string)
    requires AllDigits(wg) && AllDigits(f)
    ensures ReplaceChar(wg + "," + f, ',', '.') == wg + "." + f
  {
  }

  lemma {:induction false} NoCommaReplace(d: string)
    requires AllDigits(d)
    ensures ReplaceChar(d, ',', '.') == d
  {
  }

  /** On digits and dots the row price is exactly `float()` without a sign. */
  lemma {:induction false} UnsignedRowPrice(u: string)
    requires DigitsAndDots(u)
    ensures ParseFloat(u) == ParseUnsigned(u)
  {
    assert "" + u == u;
    ParseFloatOfSigned("", u);
  }

  lemma {:induction false} DottedValue(whole: string, frac: string)
    requires AllDigits(whole) && AllDigits(frac) && whole + frac != []
    ensures AllDigits(whole + frac)
    ensures ParseUnsigned(whole + "." + frac) == Some(DigitsValue(whole + frac) as real / Pow10(|frac|) as real)
  {
    var u := whole + "." + frac;
    assert AllDigits(whole + frac);
    assert DigitsAndDots(u);
    ParseUnsignedMeaning(u);
    DigitsAroundDotOf(whole, frac);
    CountOfDotOf(whole, frac);
    SuffixAfterLastSplit(whole, '.', frac);
    DigitsOfAllDigits(whole + frac);
  }


  lemma {:induction false} DigitsAroundDotOf(whole: string, frac: string)
    requires AllDigits(whole) && AllDigits(frac)
    ensures Digits(whole + "." + frac) == whole + frac
  {
    DigitsAroundDot(whole, frac);
  }

  lemma {:induction false} CountOfDotOf(whole: string, frac: string)
    requires AllDigits(whole) && AllDigits(frac)
    ensures CountOf(whole + "." + frac, '.') == 1 && '.' in whole + "." + frac && '.' !in frac
  {
    CountOfConcat(whole + ".", frac, '.');
    CountOfConcat(whole, ".", '.');
    CountOfZero(whole, '.');
    CountOfZero(frac, '.');
    assert (whole + "." + frac)[|whole|] == '.';
  }
}
