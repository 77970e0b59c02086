/** Character classes and the small string operations (`str.lower`, `str.strip`,
    `str.replace`, `str.count`, `str.find`, `str.rfind`, `in`) that the price-list
    normaliser is built from. Letters, digits and case follow Python within Latin-1
    (U+0000 to U+00FF); whitespace follows Python's `str.isspace` everywhere.
    The recursive functions carry no quantified postconditions; their facts are
    lemmas, called where they are needed. */
module Strings {

  datatype Option<+T> = None | Some(value: T)

  predicate IsDigit(c: char) { '0' <= c <= '9' }

  predicate IsUpperAscii(c: char) { 'A' <= c <= 'Z' }

  predicate IsLowerAscii(c: char) { 'a' <= c <= 'z' }

  /** The upper-case letters of Latin-1 that `str.lower` changes: A-Z and À-Þ without ×. */
  predicate IsUpper(c: char) { IsUpperAscii(c) || (0xC0 <= c as int <= 0xDE && c as int != 0xD7) }

  /** Python's `\w` on Latin-1: ASCII letters, digits and '_', ª ² ³ µ ¹ º ¼ ½ ¾, and the
      letters À-ÿ without × and ÷. */
  predicate IsWordChar(c: char)
  {
    || IsDigit(c) || IsUpperAscii(c) || IsLowerAscii(c) || c == '_'
    || c as int == 0xAA || c as int == 0xB2 || c as int == 0xB3 || c as int == 0xB5
    || c as int == 0xB9 || c as int == 0xBA || 0xBC <= c as int <= 0xBE
    || (0xC0 <= c as int <= 0xFF && c as int != 0xD7 && c as int != 0xF7)
  }

  /** Python's `\s` and `str.isspace`. */
  predicate IsSpace(c: char)
  {
    var n := c as int;
    || n == 0x20 || 0x09 <= n <= 0x0D || 0x1C <= n <= 0x1F || n == 0x85 || n == 0xA0
    || n == 0x1680 || 0x2000 <= n <= 0x200A || n == 0x2028 || n == 0x2029
    || n == 0x202F || n == 0x205F || n == 0x3000
  }

  predicate AllDigits(s: string) { forall i :: 0 <= i < |s| ==> IsDigit(s[i]) }

  /** `str.lower` on one character. */
  function ToLower(c: char): (r: char)
    ensures !IsUpper(r)
    ensures IsSpace(r) <==> IsSpace(c)
    ensures IsWordChar(r) <==> IsWordChar(c)
    ensures IsDigit(r) <==> IsDigit(c)
    ensures !IsUpper(c) ==> r == c
    ensures IsUpper(c) ==> r as int == c as int + 32
  {
    if IsUpper(c) then (c as int + 32) as char else c
  }

  /** `str.lower`. */
  function Lower(s: string): (r: string)
    ensures |r| == |s|
    ensures forall i :: 0 <= i < |s| ==> r[i] == ToLower(s[i])
  {
    seq(|s|, i requires 0 <= i < |s| => ToLower(s[i]))
  }

  /** `s.count(ch)` for a one-character `ch`. */
  function CountOf(s: string, ch: char): (n: nat)
    ensures n <= |s|
  {
    if s == [] then 0 else (if s[0] == ch then 1 else 0) + CountOf(s[1..], ch)
  }

  /** `s.replace(ch, '')`. */
  function RemoveAll(s: string, ch: char): (r: string)
    ensures |r| <= |s|
  {
    if s == [] then [] else (if s[0] == ch then [] else [s[0]]) + RemoveAll(s[1..], ch)
  }

  /** `s.replace(a, b)` for one-character `a` and `b`. */
  function ReplaceChar(s: string, a: char, b: char): (r: string)
    ensures |r| == |s|
    ensures forall i :: 0 <= i < |s| ==> r[i] == if s[i] == a then b else s[i]
  {
    seq(|s|, i requires 0 <= i < |s| => if s[i] == a then b else s[i])
  }

  /** The ASCII digits of `s`, in order. */
  function Digits(s: string): (r: string)
    ensures |r| <= |s|
  {
    if s == [] then [] else (if IsDigit(s[0]) then [s[0]] else []) + Digits(s[1..])
  }

  /** `s.find(ch)`: the first position of `ch`, or -1. */
  function IndexOf(s: string, ch: char): (r: int)
    ensures -1 <= r < |s|
  {
    if s == [] then -1
    else if s[0] == ch then 0
    else var k := IndexOf(s[1..], ch); if k < 0 then -1 else k + 1
  }

  /** `s.rfind(ch)`: the last position of `ch`, or -1. */
  function LastIndexOf(s: string, ch: char): (r: int)
    ensures -1 <= r < |s|
  {
    if s == [] then -1
    else var k := LastIndexOf(s[1..], ch);
      if k >= 0 then k + 1 else if s[0] == ch then 0 else -1
  }

  /** What follows the last `ch` in `s` (all of `s` when `ch` does not occur). */
  function SuffixAfterLast(s: string, ch: char): (r: string)
    ensures |r| <= |s|
  {
    if ch in s then SuffixAfterLast(s[1..], ch) else s
  }

  function Pow10(k: nat): (p: nat)
    ensures p >= 1
  {
    if k == 0 then 1 else 10 * Pow10(k - 1)
  }

  /** The value of a string of decimal digits. */
  function DigitsValue(s: string): nat
    requires AllDigits(s)
  {
    if s == [] then 0 else 10 * DigitsValue(s[..|s| - 1]) + (s[|s| - 1] as int - '0' as int)
  }

  /** `w` occurs in `s` starting at position `i`. */
  predicate OccursAt(s: string, w: string, i: nat)
  {
    i + |w| <= |s| && s[i..i + |w|] == w
  }

  /** Python's substring test `w in s`. */
  predicate Contains(s: string, w: string)
  {
    if |w| > |s| then false else s[..|w|] == w || Contains(s[1..], w)
  }

  /** `str.lstrip()`: drops leading whitespace. */
  function TrimLeft(s: string): (r: string)
    ensures |r| <= |s|
  {
    if s != [] && IsSpace(s[0]) then TrimLeft(s[1..]) else s
  }

  /** `str.rstrip()`: drops trailing whitespace. */
  function TrimRight(s: string): (r: string)
    ensures |r| <= |s|
  {
    if s != [] && IsSpace(s[|s| - 1]) then TrimRight(s[..|s| - 1]) else s
  }

  /** `str.strip()`. */
  function Strip(s: string): string
  {
    TrimRight(TrimLeft(s))
  }

  // ---------------------------------------------------------------------------
  // Facts about the operations above.

  lemma {:induction false} ContainsMeansOccurs(s: string, w: string)
    ensures Contains(s, w) <==> exists i: nat :: OccursAt(s, w, i)
  {
    if |w| > |s| {
    } else if s[..|w|] == w {
      assert OccursAt(s, w, 0);
    } else {
      ContainsMeansOccurs(s[1..], w);
      if Contains(s[1..], w) {
        var i: nat :| OccursAt(s[1..], w, i);
        assert s[i + 1..i + 1 + |w|] == s[1..][i..i + |w|];
        assert OccursAt(s, w, i + 1);
      } else {
        forall i: nat | OccursAt(s, w, i) ensures false {
          assert i != 0;
          assert s[1..][i - 1..i - 1 + |w|] == s[i..i + |w|];
          assert OccursAt(s[1..], w, i - 1);
        }
      }
    }
  }

  lemma {:induction false} CountOfZero(s: string, ch: char)
    ensures CountOf(s, ch) == 0 <==> ch !in s
  {
    if s != [] {
      CountOfZero(s[1..], ch);
    }
  }

  lemma {:induction false} RemoveAllMembers(s: string, ch: char)
    ensures forall c :: c in RemoveAll(s, ch) <==> c in s && c != ch
  {
    if s != [] {
      RemoveAllMembers(s[1..], ch);
    }
  }

  lemma {:induction false} DigitsAreDigits(s: string)
    ensures AllDigits(Digits(s))
  {
    if s != [] {
      DigitsAreDigits(s[1..]);
    }
  }

  lemma {:induction false} IndexOfIsFirst(s: string, ch: char)
    ensures IndexOf(s, ch) == -1 <==> ch !in s
    ensures IndexOf(s, ch) >= 0 ==> s[IndexOf(s, ch)] == ch && ch !in s[..IndexOf(s, ch)]
  {
    if s != [] && s[0] != ch {
      IndexOfIsFirst(s[1..], ch);
      var k := IndexOf(s[1..], ch);
      if k >= 0 {
        assert s[..k + 1] == [s[0]] + s[1..][..k];
      }
    }
  }

  lemma {:induction false} LastIndexOfIsLast(s: string, ch: char)
    ensures LastIndexOf(s, ch) == -1 <==> ch !in s
    ensures LastIndexOf(s, ch) >= 0 ==> s[LastIndexOf(s, ch)] == ch && ch !in s[LastIndexOf(s, ch) + 1..]
  {
    if s != [] {
      LastIndexOfIsLast(s[1..], ch);
      var k := LastIndexOf(s[1..], ch);
      if k >= 0 {
        assert s[k + 2..] == s[1..][k + 1..];
      }
    }
  }

  lemma {:induction false} SuffixAfterLastIsSuffix(s: string, ch: char)
    ensures var r := SuffixAfterLast(s, ch);
      && ch !in r
      && r == s[|s| - |r|..]
      && (ch in s ==> |r| < |s| && s[|s| - |r| - 1] == ch)
      && (ch !in s ==> r == s)
  {
    if ch in s {
      SuffixAfterLastIsSuffix(s[1..], ch);
      var r := SuffixAfterLast(s, ch);
      assert s[1..][|s| - 1 - |r|..] == s[|s| - |r|..];
    }
  }

  lemma {:induction false} TrimLeftIsSuffix(s: string)
    ensures var r := TrimLeft(s);
      && r == s[|s| - |r|..]
      && (r == [] || !IsSpace(r[0]))
      && (forall i :: 0 <= i < |s| - |r| ==> IsSpace(s[i]))
  {
    if s != [] && IsSpace(s[0]) {
      TrimLeftIsSuffix(s[1..]);
      var r := TrimLeft(s);
      assert s[1..][|s| - 1 - |r|..] == s[|s| - |r|..];
    }
  }

  lemma {:induction false} TrimRightIsPrefix(s: string)
    ensures var r := TrimRight(s);
      && r == s[..|r|]
      && (r == [] || !IsSpace(r[|r| - 1]))
      && (forall i :: |r| <= i < |s| ==> IsSpace(s[i]))
  {
    if s != [] && IsSpace(s[|s| - 1]) {
      TrimRightIsPrefix(s[..|s| - 1]);
    }
  }

  /** `strip()` keeps a slice of its input, with only whitespace around it. */
  lemma {:induction false} StripIsSlice(s: string)
    ensures var r := Strip(s);
      && (r == [] || (!IsSpace(r[0]) && !IsSpace(r[|r| - 1])))
      && exists lo, hi ::
           && 0 <= lo <= hi <= |s| && r == s[lo..hi]
           && (forall i :: 0 <= i < lo ==> IsSpace(s[i]))
           && (forall i :: hi <= i < |s| ==> IsSpace(s[i]))
  {
    var t := TrimLeft(s);
    var r := TrimRight(t);
    TrimLeftIsSuffix(s);
    TrimRightIsPrefix(t);
    var lo := |s| - |t|;
    var hi := lo + |r|;
    assert r == s[lo..hi] by {
      assert s[lo..][..|r|] == s[lo..hi];
    }
    if r != [] {
      assert r[0] == t[0];
    }
    forall i | hi <= i < |s|
      ensures IsSpace(s[i])
    {
      assert s[i] == t[i - lo];
    }
    assert forall i :: 0 <= i < lo ==> IsSpace(s[i]);
  }

  /** A string with no whitespace at either end is its own `strip()`. */
  lemma {:induction false} NoEndSpaceStrip(r: string)
    requires r == [] || (!IsSpace(r[0]) && !IsSpace(r[|r| - 1]))
    ensures Strip(r) == r
  {
  }

  /** Concatenation regroups: stated once so proofs need not re-derive it. */
  lemma {:induction false} AppendAssoc<T>(a: seq<T>, b: seq<T>, c: seq<T>)
    ensures a + b + c == a + (b + c)
  {
  }

  lemma {:induction false} CountOfConcat(a: string, b: string, ch: char)
    ensures CountOf(a + b, ch) == CountOf(a, ch) + CountOf(b, ch)
  {
    if a != [] {
      assert (a + b)[1..] == a[1..] + b;
      CountOfConcat(a[1..], b, ch);
    } else {
      assert a + b == b;
    }
  }

  lemma {:induction false} CountOfSnoc(s: string, c: char, ch: char)
    ensures CountOf(s + [c], ch) == CountOf(s, ch) + (if c == ch then 1 else 0)
  {
    CountOfConcat(s, [c], ch);
    assert [c][1..] == [];
  }

  /** Removing one character leaves the count of any other unchanged. */
  lemma {:induction false} CountOfRemoveOther(s: string, gone: char, ch: char)
    requires gone != ch
    ensures CountOf(RemoveAll(s, gone), ch) == CountOf(s, ch)
  {
    if s != [] {
      CountOfRemoveOther(s[1..], gone, ch);
      var head := if s[0] == gone then [] else [s[0]];
      CountOfConcat(head, RemoveAll(s[1..], gone), ch);
    }
  }

  lemma {:induction false} DigitsConcat(a: string, b: string)
    ensures Digits(a + b) == Digits(a) + Digits(b)
  {
    if a != [] {
      var h := (if IsDigit(a[0]) then [a[0]] else []);
      assert (a + b)[0] == a[0] && (a + b)[1..] == a[1..] + b;
      DigitsConcat(a[1..], b);
      assert Digits(a + b) == h + Digits(a[1..] + b);
      AppendAssoc(h, Digits(a[1..]), Digits(b));
    } else {
      assert a + b == b;
    }
  }

  lemma {:induction false} RemoveAllConcat(a: string, b: string, ch: char)
    ensures RemoveAll(a + b, ch) == RemoveAll(a, ch) + RemoveAll(b, ch)
  {
    if a != [] {
      var h := (if a[0] == ch then [] else [a[0]]);
      assert (a + b)[0] == a[0] && (a + b)[1..] == a[1..] + b;
      RemoveAllConcat(a[1..], b, ch);
      assert RemoveAll(a + b, ch) == h + RemoveAll(a[1..] + b, ch);
      AppendAssoc(h, RemoveAll(a[1..], ch), RemoveAll(b, ch));
    } else {
      assert a + b == b;
    }
  }

  lemma {:induction false} DigitsOfAllDigits(s: string)
    requires AllDigits(s)
    ensures Digits(s) == s
  {
    if s != [] {
      DigitsOfAllDigits(s[1..]);
    }
  }

  lemma {:induction false} RemoveAllAbsent(s: string, ch: char)
    requires ch !in s
    ensures RemoveAll(s, ch) == s
  {
    if s != [] {
      RemoveAllAbsent(s[1..], ch);
    }
  }
}
