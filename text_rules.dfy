/** The text rules of app.py: `normalize_text`, `extract_code` and `classify_category`. */
module TextRules {
  import opened Strings

  // ---------------------------------------------------------------------------
  // normalize_text

  /** The Combining Diacritical Marks block, U+0300 to U+036F: characters of category Mn. */
  predicate IsCombiningMark(c: char) { 0x300 <= c as int <= 0x36F }

  /** The base letter of a Latin-1 letter under canonical decomposition (NFD): the
      letter that remains once the combining accent is dropped. Letters without a
      decomposition (æ, ð, ø, þ, ß and their capitals) and every other character stay. */
  function BaseLetter(c: char): char
  {
    var n := c as int;
    if 0xE0 <= n <= 0xE5 then 'a'
    else if n == 0xE7 then 'c'
    else if 0xE8 <= n <= 0xEB then 'e'
    else if 0xEC <= n <= 0xEF then 'i'
    else if n == 0xF1 then 'n'
    else if 0xF2 <= n <= 0xF6 then 'o'
    else if 0xF9 <= n <= 0xFC then 'u'
    else if n == 0xFD || n == 0xFF then 'y'
    else if 0xC0 <= n <= 0xC5 then 'A'
    else if n == 0xC7 then 'C'
    else if 0xC8 <= n <= 0xCB then 'E'
    else if 0xCC <= n <= 0xCF then 'I'
    else if n == 0xD1 then 'N'
    else if 0xD2 <= n <= 0xD6 then 'O'
    else if 0xD9 <= n <= 0xDC then 'U'
    else if n == 0xDD then 'Y'
    else c
  }

  /** `''.join(c for c in unicodedata.normalize('NFD', s) if unicodedata.category(c) != 'Mn')`:
      accented letters lose their accent and combining marks disappear. */
  function StripMarks(s: string): (r: string)
    ensures |r| <= |s|
  {
    if s == [] then []
    else (if IsCombiningMark(s[0]) then [] else [BaseLetter(s[0])]) + StripMarks(s[1..])
  }

  /** The characters `[\w\s.-]` that the first substitution of `normalize_text` keeps. */
  predicate IsSanitizeKept(c: char) { IsWordChar(c) || IsSpace(c) || c == '.' || c == '-' }

  /** `re.sub(r'[^\w\s.-]', ' ', s)`. */
  function Sanitize(s: string): (r: string)
    ensures |r| == |s|
  {
    seq(|s|, i requires 0 <= i < |s| => if IsSanitizeKept(s[i]) then s[i] else ' ')
  }

  /** `re.sub(r'\s+', ' ', s)`: every run of whitespace becomes one space. */
  function CollapseSpaces(s: string): (r: string)
    ensures |r| <= |s|
    decreases |s|
  {
    if s == [] then []
    else if IsSpace(s[0]) then [' '] + CollapseSpaces(TrimLeft(s[1..]))
    else [s[0]] + CollapseSpaces(s[1..])
  }

  /** `normalize_text`. */
  function NormalizeText(text: string): string
  {
    Strip(CollapseSpaces(Sanitize(StripMarks(Strip(Lower(text))))))
  }

  /** What a normalised text may contain: letters, digits, '_', '.', '-' and the space,
      none of them upper-case or accented. */
  predicate IsNormalChar(c: char)
  {
    (IsWordChar(c) || c == '.' || c == '-' || c == ' ') && !IsUpper(c) && BaseLetter(c) == c
  }

  /** The shape of `normalize_text`'s result: normal characters only, single spaces,
      and no space at either end. */
  predicate IsNormalized(r: string)
  {
    && (forall i :: 0 <= i < |r| ==> IsNormalChar(r[i]))
    && (forall i :: 0 <= i < |r| - 1 ==> !(r[i] == ' ' && r[i + 1] == ' '))
    && (r == [] || (r[0] != ' ' && r[|r| - 1] != ' '))
  }

  /** The characters a normalised text keeps from its input: everything but spaces. */
  predicate IsContentChar(c: char) { IsWordChar(c) || c == '.' || c == '-' }

  function ContentOf(s: string): string
  {
    if s == [] then [] else (if IsContentChar(s[0]) then [s[0]] else []) + ContentOf(s[1..])
  }

  /** A word: a non-empty run of letters, digits, '_', '.' and '-'. */
  predicate IsWord(w: string)
  {
    w != [] && forall i :: 0 <= i < |w| ==> IsContentChar(w[i])
  }

  /** The length of the run of content characters that starts `s`. */
  function WordRun(s: string): (n: nat)
    ensures n <= |s|
    ensures forall i :: 0 <= i < n ==> IsContentChar(s[i])
    ensures n < |s| ==> !IsContentChar(s[n])
  {
    if s != [] && IsContentChar(s[0]) then 1 + WordRun(s[1..]) else 0
  }

  /** The words of `s`: its maximal runs of content characters, in order. Every other
      character only separates words. */
  function Words(s: string): (ws: seq<string>)
    ensures forall k :: 0 <= k < |ws| ==> IsWord(ws[k])
    decreases |s|
  {
    if s == [] then []
    else if !IsContentChar(s[0]) then Words(s[1..])
    else
      var n := WordRun(s);
      [s[..n]] + Words(s[n..])
  }

  /** `' '.join(ws)`. */
  function JoinWords(ws: seq<string>): string
  {
    if ws == [] then [] else if |ws| == 1 then ws[0] else ws[0] + " " + JoinWords(ws[1..])
  }

  /** `normalize_text` produces a normalised text. */
  lemma {:induction false} NormalizeTextIsNormalized(text: string)
    ensures IsNormalized(NormalizeText(text))
  {
    var x1 := Strip(Lower(text));
    var x2 := StripMarks(x1);
    var x3 := Sanitize(x2);
    var x4 := CollapseSpaces(x3);
    assert NoUpper(x1) by {
      StripIsSlice(Lower(text));
    }
    StripMarksFolded(x1);
    SanitizeFolded(x2);
    CollapseSpacesShape(x3);
    StripKeepsShape(x4);
  }

  /** A normalised text is left unchanged, so `normalize_text` is idempotent. */
  lemma {:induction false} NormalizedIsFixpoint(r: string)
    requires IsNormalized(r)
    ensures NormalizeText(r) == r
  {
    assert Lower(r) == r;
    NoEndSpaceStrip(r);
    StripMarksOfNormalized(r);
    assert Sanitize(r) == r;
    CollapseOfNormalized(r);
  }

  lemma {:induction false} NormalizeTextIdempotent(text: string)
    ensures NormalizeText(NormalizeText(text)) == NormalizeText(text)
  {
    NormalizeTextIsNormalized(text);
    NormalizedIsFixpoint(NormalizeText(text));
  }

  /** `normalize_text` keeps every letter, digit, '_', '.' and '-' of the lower-cased,
      accent-stripped text, in order, and adds none. */
  lemma {:induction false} NormalizeTextKeepsContent(text: string)
    ensures ContentOf(NormalizeText(text)) == ContentOf(StripMarks(Lower(text)))
    ensures Words(NormalizeText(text)) == Words(StripMarks(Lower(text)))
  {
    NormalizeTextJoinsWords(text);
    JoinWordsRoundTrip(Words(StripMarks(Lower(text))));
    var x0 := Lower(text);
    var x2 := StripMarks(Strip(x0));
    var x4 := CollapseSpaces(Sanitize(x2));
    ContentIgnoresStrip(x4);
    ContentOfCollapse(Sanitize(x2));
    ContentOfSanitize(x2);
    ContentOfStripMarksIgnoresStrip(x0);
  }

  /** `normalize_text` is the words of the lower-cased, accent-stripped text, joined by
      single spaces: whatever else separated two words in the input, one space does in
      the result. */
  lemma {:induction false} NormalizeTextJoinsWords(text: string)
    ensures NormalizeText(text) == JoinWords(Words(StripMarks(Lower(text))))
  {
    var x := StripMarks(Strip(Lower(text)));
    var y := Sanitize(x);
    assert ContentOrSpace(y);
    SpacedWords(y);
    WordsOfSanitize(x);
    MarkedWordsIgnoreStrip(Lower(text));
  }

  /** Splitting a single-space join into words gives the words back. */
  lemma {:induction false} JoinWordsRoundTrip(ws: seq<string>)
    requires forall k :: 0 <= k < |ws| ==> IsWord(ws[k])
    ensures Words(JoinWords(ws)) == ws
    decreases |ws|
  {
    if |ws| == 1 {
      SingleWord(ws[0]);
    } else if |ws| > 1 {
      var w, j := ws[0], JoinWords(ws[1..]);
      JoinWordsRoundTrip(ws[1..]);
      AppendAssoc(w, " ", j);
      WordsConcat(w, " " + j);
      SingleWord(w);
      assert (" " + j)[1..] == j;
      assert ws == [w] + ws[1..];
    }
  }

  // ---------------------------------------------------------------------------
  // Proofs about normalize_text.

  predicate NoUpper(s: string) { forall i :: 0 <= i < |s| ==> !IsUpper(s[i]) }

  /** What a character may be after the first substitution, before spaces collapse. */
  predicate IsSanitizedChar(c: char)
  {
    (IsWordChar(c) || c == '.' || c == '-' || IsSpace(c)) && !IsUpper(c) && BaseLetter(c) == c
  }

  predicate Folded(s: string) { forall i :: 0 <= i < |s| ==> !IsUpper(s[i]) && BaseLetter(s[i]) == s[i] }

  lemma {:induction false} BaseLetterFacts(c: char)
    ensures !IsUpper(c) ==> !IsUpper(BaseLetter(c))
    ensures BaseLetter(BaseLetter(c)) == BaseLetter(c)
    ensures IsWordChar(c) ==> IsWordChar(BaseLetter(c))
    ensures IsSpace(BaseLetter(c)) <==> IsSpace(c)
  {
  }

  lemma {:induction false} SanitizeFolded(s: string)
    requires Folded(s)
    ensures forall i :: 0 <= i < |s| ==> IsSanitizedChar(Sanitize(s)[i])
  {
    var t := Sanitize(s);
    forall i | 0 <= i < |s|
      ensures IsSanitizedChar(t[i])
    {
      if !IsSanitizeKept(s[i]) {
        assert t[i] == ' ';
      }
    }
  }

  lemma {:induction false} StripMarksFolded(s: string)
    requires NoUpper(s)
    ensures Folded(StripMarks(s))
  {
    if s != [] {
      StripMarksFolded(s[1..]);
      BaseLetterFacts(s[0]);
    }
  }

  /** The character facts of `CollapseSpaces`: only normal characters, no two spaces in a
      row, and a leading space only where the input began with whitespace. */
  lemma {:induction false} CollapseSpacesShape(s: string)
    requires forall i :: 0 <= i < |s| ==> IsSanitizedChar(s[i])
    ensures var r := CollapseSpaces(s);
      && (forall i :: 0 <= i < |r| ==> IsNormalChar(r[i]))
      && (forall i :: 0 <= i < |r| - 1 ==> !(r[i] == ' ' && r[i + 1] == ' '))
      && (r != [] && r[0] == ' ' ==> IsSpace(s[0]))
    decreases |s|
  {
    if s != [] {
      if IsSpace(s[0]) {
        var t := TrimLeft(s[1..]);
        TrimmedSanitized(s);
        CollapseSpacesShape(t);
        assert CollapseSpaces(s) == [' '] + CollapseSpaces(t);
      } else {
        CollapseSpacesShape(s[1..]);
        assert CollapseSpaces(s) == [s[0]] + CollapseSpaces(s[1..]);
      }
    }
  }

  /** What follows a run of whitespace is still sanitized, and starts with no space. */
  lemma {:induction false} TrimmedSanitized(s: string)
    requires s != [] && forall i :: 0 <= i < |s| ==> IsSanitizedChar(s[i])
    ensures var t := TrimLeft(s[1..]);
      && (forall i :: 0 <= i < |t| ==> IsSanitizedChar(t[i]))
      && (t == [] || !IsSpace(t[0]))
  {
    var t := TrimLeft(s[1..]);
    TrimLeftIsSuffix(s[1..]);
    var lo := |s| - |t|;
    assert t == s[lo..] by {
      assert s[1..][|s[1..]| - |t|..] == s[lo..];
    }
    forall i | 0 <= i < |t|
      ensures IsSanitizedChar(t[i])
    {
      assert t[i] == s[lo + i];
    }
  }

  /** Stripping keeps the character facts and removes the end spaces. */
  lemma {:induction false} StripKeepsShape(s: string)
    requires forall i :: 0 <= i < |s| ==> IsNormalChar(s[i])
    requires forall i :: 0 <= i < |s| - 1 ==> !(s[i] == ' ' && s[i + 1] == ' ')
    ensures IsNormalized(Strip(s))
  {
    StripIsSlice(s);
    var r := Strip(s);
    var lo, hi :| 0 <= lo <= hi <= |s| && r == s[lo..hi];
    assert forall i :: 0 <= i < |r| ==> r[i] == s[lo + i];
  }

  lemma {:induction false} StripMarksOfNormalized(r: string)
    requires forall i :: 0 <= i < |r| ==> IsNormalChar(r[i])
    ensures StripMarks(r) == r
  {
    if r != [] {
      StripMarksOfNormalized(r[1..]);
      assert r == [r[0]] + r[1..];
    }
  }

  lemma {:induction false} CollapseOfNormalized(r: string)
    requires forall i :: 0 <= i < |r| ==> IsNormalChar(r[i])
    requires forall i :: 0 <= i < |r| - 1 ==> !(r[i] == ' ' && r[i + 1] == ' ')
    ensures CollapseSpaces(r) == r
    decreases |r|
  {
    if r != [] {
      CollapseOfNormalized(r[1..]);
      if IsSpace(r[0]) {
        assert r[1..] == [] || !IsSpace(r[1..][0]);
      }
      assert r == [r[0]] + r[1..];
    }
  }

  lemma {:induction false} ContentConcat(a: string, b: string)
    ensures ContentOf(a + b) == ContentOf(a) + ContentOf(b)
  {
    if a == [] {
      assert a + b == b;
    } else {
      var h := (if IsContentChar(a[0]) then [a[0]] else []);
      assert (a + b)[0] == a[0] && (a + b)[1..] == a[1..] + b;
      ContentConcat(a[1..], b);
      assert ContentOf(a + b) == h + ContentOf(a[1..] + b);
      AppendAssoc(h, ContentOf(a[1..]), ContentOf(b));
    }
  }

  lemma {:induction false} StripMarksConcat(a: string, b: string)
    ensures StripMarks(a + b) == StripMarks(a) + StripMarks(b)
  {
    if a == [] {
      assert a + b == b;
    } else {
      var h := (if IsCombiningMark(a[0]) then [] else [BaseLetter(a[0])]);
      assert (a + b)[0] == a[0] && (a + b)[1..] == a[1..] + b;
      StripMarksConcat(a[1..], b);
      assert StripMarks(a + b) == h + StripMarks(a[1..] + b);
      AppendAssoc(h, StripMarks(a[1..]), StripMarks(b));
    }
  }

  lemma {:induction false} ContentNotSpace(c: char)
    requires IsContentChar(c)
    ensures !IsSpace(c)
  {
  }

  lemma {:induction false} SpaceFacts(c: char)
    requires IsSpace(c)
    ensures !IsContentChar(c) && !IsCombiningMark(c) && BaseLetter(c) == c
  {
  }

  lemma {:induction false} ContentOfTrimLeft(s: string)
    ensures ContentOf(TrimLeft(s)) == ContentOf(s)
  {
    if s != [] && IsSpace(s[0]) {
      SpaceFacts(s[0]);
      ContentOfTrimLeft(s[1..]);
    }
  }

  lemma {:induction false} MarkedContentOfTrimLeft(s: string)
    ensures ContentOf(StripMarks(TrimLeft(s))) == ContentOf(StripMarks(s))
  {
    if s != [] && IsSpace(s[0]) {
      SpaceFacts(s[0]);
      MarkedContentOfTrimLeft(s[1..]);
      var m := StripMarks(s[1..]);
      assert StripMarks(s) == [s[0]] + m;
      assert ([s[0]] + m)[1..] == m;
    }
  }

  lemma {:induction false} ContentOfTrimRight(s: string)
    ensures ContentOf(TrimRight(s)) == ContentOf(s)
  {
    if s != [] && IsSpace(s[|s| - 1]) {
      var init, last := s[..|s| - 1], [s[|s| - 1]];
      SpaceFacts(s[|s| - 1]);
      ContentOfTrimRight(init);
      assert s == init + last;
      ContentConcat(init, last);
      assert ContentOf(last) == [] by {
        assert last[1..] == [];
      }
    }
  }

  lemma {:induction false} MarkedContentOfTrimRight(s: string)
    ensures ContentOf(StripMarks(TrimRight(s))) == ContentOf(StripMarks(s))
  {
    if s != [] && IsSpace(s[|s| - 1]) {
      var init, last := s[..|s| - 1], [s[|s| - 1]];
      SpaceFacts(s[|s| - 1]);
      MarkedContentOfTrimRight(init);
      assert s == init + last;
      StripMarksConcat(init, last);
      assert StripMarks(last) == last by {
        assert last[1..] == [];
      }
      ContentConcat(StripMarks(init), last);
      assert ContentOf(last) == [] by {
        assert last[1..] == [];
      }
    }
  }

  lemma {:induction false} ContentIgnoresStrip(s: string)
    ensures ContentOf(Strip(s)) == ContentOf(s)
  {
    ContentOfTrimLeft(s);
    ContentOfTrimRight(TrimLeft(s));
  }

  lemma {:induction false} ContentOfStripMarksIgnoresStrip(s: string)
    ensures ContentOf(StripMarks(Strip(s))) == ContentOf(StripMarks(s))
  {
    MarkedContentOfTrimLeft(s);
    MarkedContentOfTrimRight(TrimLeft(s));
  }

  lemma {:induction false} ContentOfSanitize(s: string)
    ensures ContentOf(Sanitize(s)) == ContentOf(s)
  {
    if s != [] {
      ContentOfSanitize(s[1..]);
      assert Sanitize(s)[1..] == Sanitize(s[1..]);
    }
  }

  lemma {:induction false} ContentOfCollapse(s: string)
    ensures ContentOf(CollapseSpaces(s)) == ContentOf(s)
    decreases |s|
  {
    if s != [] {
      if IsSpace(s[0]) {
        var t := TrimLeft(s[1..]);
        ContentOfCollapse(t);
        ContentOfTrimLeft(s[1..]);
        var c := CollapseSpaces(t);
        assert ([' '] + c)[1..] == c;
      } else {
        ContentOfCollapse(s[1..]);
        var c := CollapseSpaces(s[1..]);
        assert ([s[0]] + c)[1..] == c;
      }
    }
  }

  predicate ContentOrSpace(s: string)
  {
    forall i :: 0 <= i < |s| ==> IsContentChar(s[i]) || IsSpace(s[i])
  }

  lemma {:induction false} SingleWord(w: string)
    requires IsWord(w)
    ensures Words(w) == [w]
  {
    var n := WordRun(w);
    assert n == |w|;
    assert w[..n] == w && w[n..] == [];
  }

  lemma {:induction false} WordRunConcat(a: string, b: string)
    requires b == [] || !IsContentChar(b[0])
    ensures WordRun(a + b) == WordRun(a)
  {
    if a == [] {
      assert a + b == b;
    } else {
      assert (a + b)[0] == a[0] && (a + b)[1..] == a[1..] + b;
      WordRunConcat(a[1..], b);
    }
  }

  /** A separator at the start of `b` ends any word of `a`. */
  lemma {:induction false} WordsConcat(a: string, b: string)
    requires b == [] || !IsContentChar(b[0])
    ensures Words(a + b) == Words(a) + Words(b)
    decreases |a|
  {
    if a == [] {
      assert a + b == b;
    } else if !IsContentChar(a[0]) {
      assert (a + b)[0] == a[0] && (a + b)[1..] == a[1..] + b;
      WordsConcat(a[1..], b);
    } else {
      var n := WordRun(a);
      WordRunConcat(a, b);
      assert (a + b)[0] == a[0];
      assert (a + b)[..n] == a[..n] && (a + b)[n..] == a[n..] + b;
      WordsConcat(a[n..], b);
      AppendAssoc([a[..n]], Words(a[n..]), Words(b));
    }
  }

  /** Strings that agree on every content character and in where they have one have
      the same words. */
  lemma {:induction false} WordsAgree(a: string, b: string)
    requires |a| == |b|
    requires forall i :: 0 <= i < |a| ==> (IsContentChar(a[i]) <==> IsContentChar(b[i]))
    requires forall i :: 0 <= i < |a| ==> IsContentChar(a[i]) ==> a[i] == b[i]
    ensures Words(a) == Words(b)
    decreases |a|
  {
    if a != [] {
      if !IsContentChar(a[0]) {
        WordsAgree(a[1..], b[1..]);
      } else {
        var n := WordRun(a);
        WordRunAgree(a, b);
        assert a[..n] == b[..n];
        WordsAgree(a[n..], b[n..]);
      }
    }
  }

  lemma {:induction false} WordRunAgree(a: string, b: string)
    requires |a| == |b|
    requires forall i :: 0 <= i < |a| ==> (IsContentChar(a[i]) <==> IsContentChar(b[i]))
    ensures WordRun(a) == WordRun(b)
  {
    if a != [] {
      WordRunAgree(a[1..], b[1..]);
    }
  }

  lemma {:induction false} WordsOfSanitize(s: string)
    ensures Words(Sanitize(s)) == Words(s)
  {
    WordsAgree(Sanitize(s), s);
  }

  lemma {:induction false} WordsOfTrimLeft(s: string)
    ensures Words(TrimLeft(s)) == Words(s)
  {
    if s != [] && IsSpace(s[0]) {
      SpaceFacts(s[0]);
      WordsOfTrimLeft(s[1..]);
    }
  }

  lemma {:induction false} MarkedWordsOfTrimLeft(s: string)
    ensures Words(StripMarks(TrimLeft(s))) == Words(StripMarks(s))
  {
    if s != [] && IsSpace(s[0]) {
      SpaceFacts(s[0]);
      MarkedWordsOfTrimLeft(s[1..]);
      var m := StripMarks(s[1..]);
      assert StripMarks(s) == [s[0]] + m;
      assert ([s[0]] + m)[1..] == m;
    }
  }

  lemma {:induction false} MarkedWordsOfTrimRight(s: string)
    ensures Words(StripMarks(TrimRight(s))) == Words(StripMarks(s))
  {
    if s != [] && IsSpace(s[|s| - 1]) {
      var init, last := s[..|s| - 1], [s[|s| - 1]];
      SpaceFacts(s[|s| - 1]);
      MarkedWordsOfTrimRight(init);
      assert s == init + last;
      StripMarksConcat(init, last);
      assert StripMarks(last) == last by {
        assert last[1..] == [];
      }
      WordsConcat(StripMarks(init), last);
      assert Words(last) == [] by {
        assert last[1..] == [];
      }
    }
  }

  lemma {:induction false} MarkedWordsIgnoreStrip(s: string)
    ensures Words(StripMarks(Strip(s))) == Words(StripMarks(s))
  {
    MarkedWordsOfTrimLeft(s);
    MarkedWordsOfTrimRight(TrimLeft(s));
  }

  /** A leading run without whitespace passes through `CollapseSpaces` unchanged. */
  lemma {:induction false} CollapseWord(w: string, rest: string)
    requires forall i :: 0 <= i < |w| ==> IsContentChar(w[i])
    ensures CollapseSpaces(w + rest) == w + CollapseSpaces(rest)
  {
    if w == [] {
      assert w + rest == rest;
    } else {
      ContentNotSpace(w[0]);
      assert (w + rest)[0] == w[0] && (w + rest)[1..] == w[1..] + rest;
      CollapseWord(w[1..], rest);
      AppendAssoc([w[0]], w[1..], CollapseSpaces(rest));
      assert [w[0]] + w[1..] == w;
    }
  }

  lemma {:induction false} TrimRightConcat(a: string, b: string)
    ensures TrimRight(a + b) == if TrimRight(b) == [] then TrimRight(a) else a + TrimRight(b)
    decreases |b|
  {
    if b == [] {
      assert a + b == a;
    } else if IsSpace(b[|b| - 1]) {
      var init := b[..|b| - 1];
      assert (a + b)[..|a + b| - 1] == a + init;
      TrimRightConcat(a, init);
    }
  }

  /** A word, one space and a collapsed rest: stripping keeps the word and the space
      unless the rest is blank. */
  lemma {:induction false} StripAfterWord(w: string, c: string)
    requires w != [] && !IsSpace(w[0]) && !IsSpace(w[|w| - 1])
    requires c == [] || !IsSpace(c[0])
    ensures Strip(w + " " + c) == if Strip(c) == [] then w else w + " " + Strip(c)
  {
    var a := w + " ";
    assert (a + c)[0] == w[0];
    assert TrimLeft(a + c) == a + c;
    assert TrimLeft(c) == c;
    TrimRightConcat(a, c);
    assert a[..|a| - 1] == w;
    assert TrimRight(a) == w;
  }

  /** On letters, digits, '_', '.', '-' and whitespace, collapsing and stripping is the
      single-space join of the words. */
  lemma {:induction false} SpacedWords(y: string)
    requires ContentOrSpace(y)
    ensures Strip(CollapseSpaces(y)) == JoinWords(Words(y))
    decreases |y|
  {
    if y != [] && IsSpace(y[0]) {
      var z := TrimLeft(y[1..]);
      TrimLeftIsSuffix(y[1..]);
      ContentOrSpaceSuffix(y, |y| - |z|);
      assert y[|y| - |z|..] == z;
      SpacedWords(z);
      SpaceStep(y);
    } else if y != [] {
      var n := WordRun(y);
      ContentOrSpaceSuffix(y, n);
      SpacedWords(y[n..]);
      WordStep(y);
    }
  }

  lemma {:induction false} ContentOrSpaceSuffix(y: string, k: nat)
    requires ContentOrSpace(y) && k <= |y|
    ensures ContentOrSpace(y[k..])
  {
    forall i | 0 <= i < |y| - k
      ensures IsContentChar(y[k..][i]) || IsSpace(y[k..][i])
    {
      assert y[k..][i] == y[k + i];
    }
  }

  /** Leading whitespace: it collapses to one space, which the strip removes. */
  lemma {:induction false} SpaceStep(y: string)
    requires y != [] && IsSpace(y[0])
    requires var z := TrimLeft(y[1..]); Strip(CollapseSpaces(z)) == JoinWords(Words(z))
    ensures Strip(CollapseSpaces(y)) == JoinWords(Words(y))
  {
    SpaceFacts(y[0]);
    WordsOfTrimLeft(y[1..]);
    var c := CollapseSpaces(TrimLeft(y[1..]));
    assert CollapseSpaces(y) == [' '] + c;
    assert ([' '] + c)[1..] == c;
  }

  /** A leading word: it is kept, then one space when more words follow. */
  lemma {:induction false} WordStep(y: string)
    requires ContentOrSpace(y) && y != [] && IsContentChar(y[0])
    requires var r := y[WordRun(y)..]; Strip(CollapseSpaces(r)) == JoinWords(Words(r))
    ensures Strip(CollapseSpaces(y)) == JoinWords(Words(y))
  {
    var n := WordRun(y);
    var w, rest := y[..n], y[n..];
    assert y == w + rest;
    CollapseWord(w, rest);
    var ws := Words(rest);
    assert Words(y) == [w] + ws;
    assert ([w] + ws)[1..] == ws;
    if rest == [] {
      assert w + rest == w;
      NoEndSpaceStrip(w);
    } else {
      assert IsSpace(rest[0]) by {
        assert rest[0] == y[n];
      }
      WordThenSpaces(w, rest);
    }
  }

  /** A word, then whitespace and more: one space, then the rest collapsed and stripped. */
  lemma {:induction false} WordThenSpaces(w: string, rest: string)
    requires IsWord(w) && rest != [] && IsSpace(rest[0])
    ensures var sc := Strip(CollapseSpaces(rest));
      Strip(w + CollapseSpaces(rest)) == if sc == [] then w else w + " " + sc
  {
    var c := CollapseSpaces(TrimLeft(rest[1..]));
    TrimLeftIsSuffix(rest[1..]);
    assert CollapseSpaces(rest) == " " + c;
    assert c == [] || !IsSpace(c[0]);
    ContentNotSpace(w[0]);
    ContentNotSpace(w[|w| - 1]);
    StripAfterWord(w, c);
    assert (" " + c)[1..] == c;
    AppendAssoc(w, " ", c);
  }

  // ---------------------------------------------------------------------------
  // extract_code

  /** The character class `[A-Z0-9]`. */
  predicate IsCodeChar(c: char) { IsUpperAscii(c) || IsDigit(c) }

  /** The regular expression `\b[A-Z0-9]{3,15}\b` matches `s[i..i+n]`: a word boundary
      before position `i` and after position `i + n`, and 3 to 15 code characters. */
  predicate CodeAt(s: string, i: int, n: int)
  {
    && 0 <= i && 3 <= n <= 15 && i + n <= |s|
    && (forall k :: i <= k < i + n ==> IsCodeChar(s[k]))
    && (i == 0 || !IsWordChar(s[i - 1]))
    && (i + n == |s| || !IsWordChar(s[i + n]))
  }

  /** The length of the run of code characters that starts at `i`. */
  function CodeRun(s: string, i: nat): (n: nat)
    requires i <= |s|
    ensures i + n <= |s|
    decreases |s| - i
  {
    if i < |s| && IsCodeChar(s[i]) then 1 + CodeRun(s, i + 1) else 0
  }

  /** The regular expression engine at position `i`: after the boundary check, the greedy
      repetition takes the whole run, and backs off while the boundary after it fails;
      inside a run of code characters it never succeeds, so only the whole run can match. */
  predicate MatchesAt(s: string, i: nat)
    requires i <= |s|
  {
    var n := CodeRun(s, i);
    && (i == 0 || !IsWordChar(s[i - 1]))
    && 3 <= n <= 15
    && (i + n == |s| || !IsWordChar(s[i + n]))
  }

  /** `re.search` from position `i`: the leftmost position where the pattern matches. */
  function SearchCode(s: string, i: nat): (r: Option<nat>)
    requires i <= |s|
    ensures r.Some? ==> i <= r.value < |s|
    decreases |s| - i
  {
    if i == |s| then None
    else if MatchesAt(s, i) then Some(i)
    else SearchCode(s, i + 1)
  }

  /** `extract_code`: the leftmost match, or "" when there is none. `.upper()` changes
      nothing in a match of `[A-Z0-9]`. */
  function ExtractCode(text: string): string
  {
    match SearchCode(text, 0)
    case None => ""
    case Some(i) => text[i..i + CodeRun(text, i)]
  }

  /** A match is determined by its start: the boundary after it leaves no choice of length. */
  lemma {:induction false} CodeAtUnique(s: string, i: int, n: int, m: int)
    requires CodeAt(s, i, n) && CodeAt(s, i, m)
    ensures n == m
  {
    assert n < m ==> IsCodeChar(s[i + n]);
    assert m < n ==> IsCodeChar(s[i + m]);
  }

  /** `extract_code` returns the leftmost match of the pattern, and "" exactly when the
      pattern matches nowhere. */
  lemma {:induction false} ExtractCodeIsLeftmostMatch(text: string)
    ensures ExtractCode(text) == "" <==> forall i, n :: !CodeAt(text, i, n)
    ensures ExtractCode(text) != "" ==>
      exists i, n ::
        && CodeAt(text, i, n) && ExtractCode(text) == text[i..i + n]
        && forall j, m :: 0 <= j < i ==> !CodeAt(text, j, m)
  {
    match SearchCode(text, 0)
    case None =>
      SearchCodeIsLeftmost(text, 0);
    case Some(i) =>
      FoundCode(text, i);
      assert CodeAt(text, i, CodeRun(text, i));
  }

  /** The position the search finds starts a match, which `extract_code` returns. */
  lemma {:induction false} FoundCode(text: string, i: nat)
    requires SearchCode(text, 0) == Some(i)
    ensures i + CodeRun(text, i) <= |text|
    ensures CodeAt(text, i, CodeRun(text, i))
    ensures ExtractCode(text) == text[i..i + CodeRun(text, i)] != ""
    ensures forall j, m :: 0 <= j < i ==> !CodeAt(text, j, m)
  {
    SearchCodeIsLeftmost(text, 0);
    MatchesAtMeaning(text, i);
  }

  lemma {:induction false} SearchCodeIsLeftmost(s: string, i: nat)
    requires i <= |s|
    ensures SearchCode(s, i).None? ==> forall j, m :: i <= j ==> !CodeAt(s, j, m)
    ensures SearchCode(s, i).Some? ==>
      MatchesAt(s, SearchCode(s, i).value) && forall j, m :: i <= j < SearchCode(s, i).value ==> !CodeAt(s, j, m)
    decreases |s| - i
  {
    if i < |s| {
      MatchesAtMeaning(s, i);
      if !MatchesAt(s, i) {
        SearchCodeIsLeftmost(s, i + 1);
      }
    }
  }

  /** The engine's view at one position agrees with the pattern's meaning. */
  lemma {:induction false} MatchesAtMeaning(s: string, i: nat)
    requires i <= |s|
    ensures MatchesAt(s, i) <==> exists n :: CodeAt(s, i, n)
    ensures MatchesAt(s, i) ==> CodeAt(s, i, CodeRun(s, i))
  {
    var r := CodeRun(s, i);
    CodeRunIsRun(s, i);
    if MatchesAt(s, i) {
      assert CodeAt(s, i, r);
    } else {
      forall n
        ensures !CodeAt(s, i, n)
      {
      }
    }
  }

  lemma {:induction false} CodeRunIsRun(s: string, i: nat)
    requires i <= |s|
    ensures var n := CodeRun(s, i);
      && (forall k :: i <= k < i + n ==> IsCodeChar(s[k]))
      && (i + n == |s| || !IsCodeChar(s[i + n]))
    decreases |s| - i
  {
    if i < |s| && IsCodeChar(s[i]) {
      CodeRunIsRun(s, i + 1);
    }
  }

  // ---------------------------------------------------------------------------
  // classify_category

  /** The keyword table of `classify_category`, in the dictionary's order. */
  const Keywords: seq<(string, seq<string>)> := [
    ("electronica", ["notebook", "laptop", "monitor", "teclado", "mouse", "auricular"]),
    ("hogar", ["mesa", "silla", "lampara", "decoracion"]),
    ("oficina", ["papel", "tinta", "carpeta", "archivo"]),
    ("herramientas", ["taladro", "destornillador", "martillo"])
  ]

  const General := "general"

  /** `any(word in d for word in words)`. */
  predicate AnyOccurs(d: string, words: seq<string>)
  {
    words != [] && (Contains(d, words[0]) || AnyOccurs(d, words[1..]))
  }

  /** The first category of `table` one of whose words occurs in `d`. */
  function FirstCategory(table: seq<(string, seq<string>)>, d: string): string
  {
    if table == [] then General
    else if AnyOccurs(d, table[0].1) then table[0].0
    else FirstCategory(table[1..], d)
  }

  /** `classify_category`. */
  function ClassifyCategory(description: string): string
  {
    FirstCategory(Keywords, Lower(description))
  }

  /** `classify_category` answers the first category, in table order, that has a keyword
      in the lower-cased description, and "general" exactly when no keyword occurs. */
  lemma {:induction false} ClassifyCategoryIsFirstMatch(description: string)
    ensures var d := Lower(description); var r := ClassifyCategory(description);
      && (r == General <==> forall k :: 0 <= k < |Keywords| ==> !AnyOccurs(d, Keywords[k].1))
      && (r != General ==>
            exists k ::
              && 0 <= k < |Keywords| && r == Keywords[k].0 && AnyOccurs(d, Keywords[k].1)
              && forall j :: 0 <= j < k ==> !AnyOccurs(d, Keywords[j].1))
  {
    var d := Lower(description);
    FirstCategoryIsFirst(Keywords, d);
    assert forall k :: 0 <= k < |Keywords| ==> Keywords[k].0 != General;
  }

  lemma {:induction false} FirstCategoryIsFirst(table: seq<(string, seq<string>)>, d: string)
    requires forall k :: 0 <= k < |table| ==> table[k].0 != General
    ensures var r := FirstCategory(table, d);
      && (r == General <==> forall k :: 0 <= k < |table| ==> !AnyOccurs(d, table[k].1))
      && (r != General ==>
            exists k ::
              && 0 <= k < |table| && r == table[k].0 && AnyOccurs(d, table[k].1)
              && forall j :: 0 <= j < k ==> !AnyOccurs(d, table[j].1))
  {
    if table != [] {
      if AnyOccurs(d, table[0].1) {
        assert 0 < |table| && FirstCategory(table, d) == table[0].0;
      } else {
        FirstCategoryIsFirst(table[1..], d);
        var r := FirstCategory(table, d);
        assert r == FirstCategory(table[1..], d);
        if r != General {
          var k :| && 0 <= k < |table[1..]| && r == table[1..][k].0 && AnyOccurs(d, table[1..][k].1)
                   && forall j :: 0 <= j < k ==> !AnyOccurs(d, table[1..][j].1);
          assert forall j :: 0 <= j < k + 1 ==> !AnyOccurs(d, table[j].1) by {
            forall j | 0 <= j < k + 1
              ensures !AnyOccurs(d, table[j].1)
            {
              if j > 0 {
                assert table[j] == table[1..][j - 1];
              }
            }
          }
          assert table[k + 1] == table[1..][k];
        } else {
          forall k | 0 <= k < |table|
            ensures !AnyOccurs(d, table[k].1)
          {
            if k > 0 {
              assert table[k] == table[1..][k - 1];
            }
          }
        }
      }
    }
  }

  /** The category does not depend on case: the description is lower-cased first. */
  lemma {:induction false} ClassifyCategoryIgnoresCase(description: string)
    ensures ClassifyCategory(Lower(description)) == ClassifyCategory(description)
  {
    assert Lower(Lower(description)) == Lower(description);
  }
}
