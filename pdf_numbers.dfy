/** `clean_number` in pdf.py: the normalisation applied to every table cell read from
    a PDF. Spaces are removed, then every dot that separates thousands, judged on the
    space-free text, is removed; everything else, commas included, stays. */
module PdfNumbers {
  import opened Strings

  /** A table cell: text, or any other value (a missing cell, say), which
      `clean_number` hands back as it is. */
  datatype Cell<V> = Text(s: string) | Other(v: V)

  /** `(?<=\d)\.(?=\d{3}(\D|$))` matches at `i`: a dot after a digit, followed by
      exactly three digits and then a non-digit or the end. */
  predicate IsThousandsDot(t: string, i: nat)
  {
    && i < |t| && t[i] == '.'
    && 0 < i && IsDigit(t[i - 1])
    && i + 3 < |t| && IsDigit(t[i + 1]) && IsDigit(t[i + 2]) && IsDigit(t[i + 3])
    && (i + 4 == |t| || !IsDigit(t[i + 4]))
  }

  /** The first `n` characters of `t` after the substitution: one pass in which every
      position is judged on `t` itself, so removing one dot never changes the verdict
      on another. */
  function DropThousandsDots(t: string, n: nat): (r: string)
    requires n <= |t|
    ensures |r| <= n
  {
    if n == 0 then []
    else DropThousandsDots(t, n - 1) + (if IsThousandsDot(t, n - 1) then [] else [t[n - 1]])
  }

  /** The text `clean_number` makes of `s`. */
  function CleanText(s: string): string
  {
    var t := RemoveAll(s, ' ');
    DropThousandsDots(t, |t|)
  }

  /** `clean_number`: a value that is not text comes back as it is; text loses its
      spaces and some of its dots, and keeps every other character in order. */
  function CleanNumber<V>(value: Cell<V>): (r: Cell<V>)
    ensures value.Other? ==> r == value
    ensures value.Text? ==>
      && r.Text? && ' ' !in r.s
      && RemoveAll(r.s, '.') == RemoveAll(RemoveAll(value.s, ' '), '.')
      && CountOf(r.s, ',') == CountOf(value.s, ',')
  {
    match value
    case Text(s) =>
      CleanTextHasNoSpace(s);
      CleanTextKeepsAllButDots(s);
      CleanTextKeepsCommas(s);
      Text(CleanText(s))
    case Other(_) => value
  }

  /** The positions of `t` holding a thousands dot. */
  function ThousandsDots(t: string, n: nat): set<nat>
    requires n <= |t|
  {
    set i: nat | i < n && IsThousandsDot(t, i)
  }

  // ---------------------------------------------------------------------------

  /** No space survives. */
  lemma {:induction false} CleanTextHasNoSpace(s: string)
    ensures ' ' !in CleanText(s)
  {
    var t := RemoveAll(s, ' ');
    RemoveAllMembers(s, ' ');
    DropKeepsOnly(t, |t|);
    assert t[..|t|] == t;
  }

  lemma {:induction false} DropKeepsOnly(t: string, n: nat)
    requires n <= |t|
    ensures forall c :: c in DropThousandsDots(t, n) ==> c in t[..n]
  {
    if n > 0 {
      DropKeepsOnly(t, n - 1);
      assert t[..n] == t[..n - 1] + [t[n - 1]];
    }
  }

  /** Dots aside, the output is the space-free input, character for character and in
      order: only dots are removed after the spaces, and commas are never touched. */
  lemma {:induction false} CleanTextKeepsAllButDots(s: string)
    ensures RemoveAll(CleanText(s), '.') == RemoveAll(RemoveAll(s, ' '), '.')
  {
    var t := RemoveAll(s, ' ');
    DropOnlyDots(t, |t|);
    assert t[..|t|] == t;
  }

  lemma {:induction false} DropOnlyDots(t: string, n: nat)
    requires n <= |t|
    ensures RemoveAll(DropThousandsDots(t, n), '.') == RemoveAll(t[..n], '.')
  {
    if n > 0 {
      DropOnlyDots(t, n - 1);
      var kept := if IsThousandsDot(t, n - 1) then [] else [t[n - 1]];
      RemoveAllConcat(DropThousandsDots(t, n - 1), kept, '.');
      assert t[..n] == t[..n - 1] + [t[n - 1]];
      RemoveAllConcat(t[..n - 1], [t[n - 1]], '.');
      assert RemoveAll(kept, '.') == RemoveAll([t[n - 1]], '.') by {
        if IsThousandsDot(t, n - 1) {
          assert [t[n - 1]][1..] == [];
        }
      }
    }
  }

  /** Exactly the thousands dots go: the output has as many dots as the space-free
      input has, less one for each position the pattern matches. */
  lemma {:induction false} CleanTextDotCount(s: string)
    ensures var t := RemoveAll(s, ' ');
      CountOf(CleanText(s), '.') + |ThousandsDots(t, |t|)| == CountOf(t, '.')
  {
    var t := RemoveAll(s, ' ');
    DropCountsDots(t, |t|);
    assert t[..|t|] == t;
  }

  lemma {:induction false} DropCountsDots(t: string, n: nat)
    requires n <= |t|
    ensures CountOf(DropThousandsDots(t, n), '.') + |ThousandsDots(t, n)| == CountOf(t[..n], '.')
  {
    if n == 0 {
      assert ThousandsDots(t, 0) == {};
    } else {
      DropCountsDots(t, n - 1);
      ThousandsDotsStep(t, n);
      var d := DropThousandsDots(t, n - 1);
      assert t[..n] == t[..n - 1] + [t[n - 1]];
      CountOfSnoc(t[..n - 1], t[n - 1], '.');
      if IsThousandsDot(t, n - 1) {
        assert DropThousandsDots(t, n) == d + [] == d;
      } else {
        assert DropThousandsDots(t, n) == d + [t[n - 1]];
        CountOfSnoc(d, t[n - 1], '.');
      }
    }
  }

  lemma {:induction false} ThousandsDotsStep(t: string, n: nat)
    requires 0 < n <= |t|
    ensures |ThousandsDots(t, n)| == |ThousandsDots(t, n - 1)| + (if IsThousandsDot(t, n - 1) then 1 else 0)
  {
    if IsThousandsDot(t, n - 1) {
      assert ThousandsDots(t, n) == ThousandsDots(t, n - 1) + {n - 1};
    } else {
      assert ThousandsDots(t, n) == ThousandsDots(t, n - 1);
    }
  }

  /** Commas are never altered: the output has exactly the commas of the input. */
  lemma {:induction false} CleanTextKeepsCommas(s: string)
    ensures CountOf(CleanText(s), ',') == CountOf(s, ',')
  {
    CleanTextKeepsAllButDots(s);
    CountOfRemoveOther(CleanText(s), '.', ',');
    CountOfRemoveOther(RemoveAll(s, ' '), '.', ',');
    CountOfRemoveOther(s, ' ', ',');
  }

  /** A text without spaces or thousands dots is already clean. */
  lemma {:induction false} CleanTextOfClean(s: string)
    requires ' ' !in s
    requires forall i: nat :: i < |s| ==> !IsThousandsDot(s, i)
    ensures CleanText(s) == s
  {
    RemoveAllAbsent(s, ' ');
    DropNothing(s, |s|);
    assert s[..|s|] == s;
  }

  lemma {:induction false} DropNothing(t: string, n: nat)
    requires n <= |t|
    requires forall i: nat :: i < n ==> !IsThousandsDot(t, i)
    ensures DropThousandsDots(t, n) == t[..n]
  {
    if n > 0 {
      DropNothing(t, n - 1);
      assert t[..n] == t[..n - 1] + [t[n - 1]];
    }
  }

  /** Cleaning twice is cleaning once: `clean_number` is idempotent. */
  lemma {:induction false} CleanTextStable(s: string)
    ensures CleanText(CleanText(s)) == CleanText(s)
  {
    var t := RemoveAll(s, ' ');
    CleanTextHasNoSpace(s);
    CleanedHasNoThousandsDot(t);
    CleanTextOfClean(CleanText(s));
  }

  /** No thousands dot survives the substitution: deleting a dot between digits only
      lengthens a run of digits, so no dot of the result closes a group of three. */
  lemma {:induction false} CleanedHasNoThousandsDot(t: string)
    ensures forall j: nat :: j < |DropThousandsDots(t, |t|)| ==> !IsThousandsDot(DropThousandsDots(t, |t|), j)
  {
    var r := DropThousandsDots(t, |t|);
    forall j: nat | j < |r|
      ensures !IsThousandsDot(r, j)
    {
      if r[j] == '.' {
        SourceOf(t, |t|, j);
        var i: nat :| i < |t| && Pos(t, i) == j && !IsThousandsDot(t, i);
        KeptAt(t, i);
        KeptDotNotThousands(t, i);
      }
    }
  }

  /** Where position `q` of `t` lands in the result. */
  function Pos(t: string, q: nat): nat
    requires q <= |t|
  {
    |DropThousandsDots(t, q)|
  }

  /** Each prefix of the input yields a prefix of the result. */
  lemma {:induction false} DropPrefix(t: string, n: nat, m: nat)
    requires n <= m <= |t|
    ensures Pos(t, n) <= Pos(t, m)
    ensures DropThousandsDots(t, m)[..Pos(t, n)] == DropThousandsDots(t, n)
    decreases m - n
  {
    if n < m {
      DropPrefix(t, n, m - 1);
      var d := DropThousandsDots(t, m - 1);
      assert DropThousandsDots(t, m)[..|d|] == d;
    }
  }

  /** A kept character of `t` is copied to the result at its landing position. */
  lemma {:induction false} KeptAt(t: string, q: nat)
    requires q < |t| && !IsThousandsDot(t, q)
    ensures Pos(t, q + 1) == Pos(t, q) + 1 <= |DropThousandsDots(t, |t|)|
    ensures DropThousandsDots(t, |t|)[Pos(t, q)] == t[q]
  {
    DropPrefix(t, q + 1, |t|);
    var d := DropThousandsDots(t, q + 1);
    assert d == DropThousandsDots(t, q) + [t[q]];
    assert d[Pos(t, q)] == t[q];
  }

  /** Every character of the result comes from a kept position of the input. */
  lemma {:induction false} SourceOf(t: string, n: nat, j: nat)
    requires n <= |t| && j < Pos(t, n)
    ensures exists i: nat :: i < n && Pos(t, i) == j && !IsThousandsDot(t, i)
  {
    if j < Pos(t, n - 1) {
      SourceOf(t, n - 1, j);
    } else {
      assert !IsThousandsDot(t, n - 1) && Pos(t, n - 1) == j;
    }
  }

  /** The three digits after a removed dot are kept, one after another. */
  lemma {:induction false} DigitsAfterRemoved(t: string, q: nat)
    requires q < |t| && IsThousandsDot(t, q)
    ensures var r, p := DropThousandsDots(t, |t|), Pos(t, q);
      p + 2 < |r| && IsDigit(r[p]) && IsDigit(r[p + 1]) && IsDigit(r[p + 2])
  {
    assert Pos(t, q + 1) == Pos(t, q);
    KeptAt(t, q + 1);
    KeptAt(t, q + 2);
    KeptAt(t, q + 3);
  }

  /** A dot the substitution keeps is no thousands dot of the result. */
  lemma {:induction false} KeptDotNotThousands(t: string, i: nat)
    requires i < |t| && t[i] == '.' && !IsThousandsDot(t, i)
    ensures !IsThousandsDot(DropThousandsDots(t, |t|), Pos(t, i))
  {
    KeptAt(t, i);
    if i == 0 {
      assert Pos(t, 0) == 0;
    } else if !IsDigit(t[i - 1]) {
      KeptAt(t, i - 1);
    } else {
      KeptDotRun(t, i, 1);
    }
  }

  /** A kept dot after a digit, with the `k - 1` characters after it digits that land
      right after it: the result breaks the pattern before, at or after position `k`. */
  lemma {:induction false} KeptDotRun(t: string, i: nat, k: nat)
    requires 0 < i && i + k <= |t| && 1 <= k <= 4
    requires t[i] == '.' && IsDigit(t[i - 1]) && !IsThousandsDot(t, i)
    requires forall p :: i < p < i + k ==> IsDigit(t[p])
    requires Pos(t, i + k) == Pos(t, i) + k
    ensures !IsThousandsDot(DropThousandsDots(t, |t|), Pos(t, i))
    decreases 4 - k
  {
    var q := i + k;
    if k == 4 {
      assert IsDigit(t[i + 1]) && IsDigit(t[i + 2]) && IsDigit(t[i + 3]);
      RunOfFour(t, i);
    } else if q == |t| {
      RunCutShort(t, i, k);
    } else if k > 1 && IsThousandsDot(t, q) {
      RunMeetsRemoved(t, i, k);
    } else {
      KeptAt(t, q);
      if IsDigit(t[q]) {
        KeptDotRun(t, i, k + 1);
      } else {
        RunMeetsOther(t, i, k);
      }
    }
  }

  /** Four digits after the dot: the fourth lands after the first three. */
  lemma {:induction false} RunOfFour(t: string, i: nat)
    requires 0 < i && i + 4 < |t| && IsDigit(t[i + 4])
    requires Pos(t, i + 4) == Pos(t, i) + 4
    ensures !IsThousandsDot(DropThousandsDots(t, |t|), Pos(t, i))
  {
    KeptAt(t, i + 4);
  }

  /** The input ends less than four characters after the dot, and so does the result. */
  lemma {:induction false} RunCutShort(t: string, i: nat, k: nat)
    requires i + k == |t| && k < 4 && Pos(t, i + k) == Pos(t, i) + k
    ensures !IsThousandsDot(DropThousandsDots(t, |t|), Pos(t, i))
  {
  }

  /** A removed dot `k` places after the dot brings three digits, one of which lands
      four places after it. */
  lemma {:induction false} RunMeetsRemoved(t: string, i: nat, k: nat)
    requires 1 < k < 4 && i + k < |t| && IsThousandsDot(t, i + k)
    requires Pos(t, i + k) == Pos(t, i) + k
    ensures !IsThousandsDot(DropThousandsDots(t, |t|), Pos(t, i))
  {
    DigitsAfterRemoved(t, i + k);
  }

  /** A kept non-digit `k` places after the dot, with `k` at most three. */
  lemma {:induction false} RunMeetsOther(t: string, i: nat, k: nat)
    requires 1 <= k < 4 && i + k < |t| && !IsThousandsDot(t, i + k) && !IsDigit(t[i + k])
    requires Pos(t, i + k) == Pos(t, i) + k
    ensures !IsThousandsDot(DropThousandsDots(t, |t|), Pos(t, i))
  {
    KeptAt(t, i + k);
  }

  // ---------------------------------------------------------------------------
  // Digits grouped by thousands dots.

  /** ".g1.g2…": each group after its dot. */
  function Join(gs: seq<string>): string
  {
    if gs == [] then [] else Join(gs[..|gs| - 1]) + "." + gs[|gs| - 1]
  }

  /** "g1g2…": the groups without their dots. */
  function Concat(gs: seq<string>): string
  {
    if gs == [] then [] else Concat(gs[..|gs| - 1]) + gs[|gs| - 1]
  }

  predicate ThreeDigitGroups(gs: seq<string>)
  {
    forall k :: 0 <= k < |gs| ==> |gs[k]| == 3 && AllDigits(gs[k])
  }

  /** No position of `c` from `i` on holds a thousands dot. */
  predicate NoThousandsDotFrom(c: string, i: nat)
    decreases |c| - i
  {
    i >= |c| || (!IsThousandsDot(c, i) && NoThousandsDotFrom(c, i + 1))
  }

  /** `r` keeps every character when it follows a digit: no spaces, and no dot in it
      closes a group of three digits. */
  predicate KeptAfterDigit(r: string)
  {
    && ' ' !in r
    && (r == [] || !IsDigit(r[0]))
    && NoThousandsDotFrom(['0'] + r, 1)
  }

  /** Digits in groups of three after a leading run of digits lose their dots, "1.234.567"
      becoming "1234567"; a tail that follows is kept, so "1.234,56" becomes "1234,56",
      "1.234.5" becomes "1234.5" and "12.50" stays. */
  lemma {:induction false} GroupedDigits(w: string, gs: seq<string>, r: string)
    requires AllDigits(w) && w != [] && ThreeDigitGroups(gs) && KeptAfterDigit(r)
    ensures CleanText(w + Join(gs) + r) == w + Concat(gs) + r
  {
    var j := Join(gs);
    var t := w + j + r;
    JoinIndex(gs);
    JoinHasNoSpace(gs);
    NoSpaceJoined(w, j, r);
    RemoveAllAbsent(t, ' ');
    GroupDots(w, gs, r);
    assert t[..|w|] == w;
    assert t[|w| + |j|..] == r;
    DropGrouped(t, w, gs, r);
  }

  /** The same, on a text laid out as the digits, the groups with their dots, and the tail. */
  lemma {:induction false} DropGrouped(t: string, w: string, gs: seq<string>, r: string)
    requires AllDigits(w) && w != [] && ThreeDigitGroups(gs) && KeptAfterDigit(r)
    requires |t| == |w| + 4 * |gs| + |r| && t[..|w|] == w && t[|w| + 4 * |gs|..] == r
    requires forall k :: 0 <= k < |gs| ==> GroupAt(t, |w| + 4 * k, gs[k])
    ensures DropThousandsDots(t, |t|) == w + Concat(gs) + r
  {
    var p := |w| + 4 * |gs|;
    PrefixDropped(t, w, gs);
    TailKept(t, p, r);
  }

  /** The leading digits and the groups lose exactly the groups' dots, and end in a digit. */
  lemma {:induction false} PrefixDropped(t: string, w: string, gs: seq<string>)
    requires AllDigits(w) && w != [] && ThreeDigitGroups(gs)
    requires |w| + 4 * |gs| <= |t| && t[..|w|] == w
    requires forall k :: 0 <= k < |gs| ==> GroupAt(t, |w| + 4 * k, gs[k])
    ensures DropThousandsDots(t, |w| + 4 * |gs|) == w + Concat(gs)
    ensures IsDigit(t[|w| + 4 * |gs| - 1])
  {
    DigitsKept(t, w);
    LaidOut(t, |w|, gs);
    GroupsDropped(t, |w|, w, gs);
    DigitBeforeTail(t, w, gs);
  }

  /** The character before the tail is a digit: the last digit of the last group, or of
      the leading digits when there is no group. */
  lemma {:induction false} DigitBeforeTail(t: string, w: string, gs: seq<string>)
    requires AllDigits(w) && w != [] && ThreeDigitGroups(gs)
    requires |w| + 4 * |gs| <= |t| && t[..|w|] == w
    requires forall k :: 0 <= k < |gs| ==> GroupAt(t, |w| + 4 * k, gs[k])
    ensures IsDigit(t[|w| + 4 * |gs| - 1])
  {
    var p := |w| + 4 * |gs|;
    if gs == [] {
      assert t[p - 1] == w[|w| - 1];
    } else {
      var q := |w| + 4 * (|gs| - 1);
      assert q + 4 == p;
      assert GroupAt(t, q, gs[|gs| - 1]);
      assert t[p - 1] == t[q + 1..q + 4][2];
    }
  }

  lemma {:induction false} NoSpaceJoined(w: string, j: string, r: string)
    requires AllDigits(w) && ' ' !in j && ' ' !in r
    ensures ' ' !in w + j + r
  {
    assert forall i :: 0 <= i < |w| ==> w[i] != ' ';
  }

  /** A leading run of digits holds no thousands dot. */
  lemma {:induction false} DigitsKept(t: string, w: string)
    requires AllDigits(w) && |w| <= |t| && t[..|w|] == w
    ensures DropThousandsDots(t, |w|) == w
  {
    forall i: nat | i < |w|
      ensures !IsThousandsDot(t, i)
    {
      assert t[i] == w[i];
    }
    DropNothing(t, |w|);
  }

  /** Where the groups sit in the text: each dot closes a group of three digits. */
  lemma {:induction false} GroupDots(w: string, gs: seq<string>, r: string)
    requires w != [] && IsDigit(w[|w| - 1]) && ThreeDigitGroups(gs) && (r == [] || !IsDigit(r[0]))
    ensures forall k :: 0 <= k < |gs| ==> GroupAt(w + Join(gs) + r, |w| + 4 * k, gs[k])
  {
    forall k | 0 <= k < |gs|
      ensures GroupAt(w + Join(gs) + r, |w| + 4 * k, gs[k])
    {
      JoinIndex(gs);
      GroupDotAt(w, Join(gs), gs, r, k);
    }
  }

  lemma {:induction false} GroupDotAt(w: string, j: string, gs: seq<string>, r: string, k: nat)
    requires w != [] && IsDigit(w[|w| - 1]) && ThreeDigitGroups(gs) && (r == [] || !IsDigit(r[0]))
    requires |j| == 4 * |gs|
    requires forall m :: 0 <= m < |gs| ==> j[4 * m] == '.' && j[4 * m + 1..4 * m + 4] == gs[m]
    requires k < |gs|
    ensures GroupAt(w + j + r, |w| + 4 * k, gs[k])
  {
    var t := w + j + r;
    var p := |w| + 4 * k;
    var g := gs[k];
    assert |t| == |w| + 4 * |gs| + |r|;
    assert t[p] == j[4 * k] == '.';
    assert j[4 * k + 1..4 * k + 4] == g;
    assert t[p + 1] == j[4 * k + 1] == g[0];
    assert t[p + 2] == j[4 * k + 2] == g[1];
    assert t[p + 3] == j[4 * k + 3] == g[2];
    assert t[p + 1..p + 4] == g;
    if k == 0 {
      assert t[p - 1] == w[|w| - 1];
    } else {
      assert j[4 * (k - 1) + 1..4 * (k - 1) + 4] == gs[k - 1];
      assert t[p - 1] == j[4 * (k - 1) + 3] == gs[k - 1][2];
    }
    if k + 1 < |gs| {
      assert t[p + 4] == j[4 * (k + 1)];
    } else if p + 4 < |t| {
      assert t[p + 4] == r[0];
    }
  }

  predicate GroupAt(t: string, p: nat, g: string)
  {
    p + 4 <= |t| && IsThousandsDot(t, p) && t[p + 1..p + 4] == g
  }

  /** The groups, each with its dot, sit one after another from position `p0` on. */
  predicate GroupsLaidOut(t: string, p0: nat, gs: seq<string>)
  {
    gs == [] ||
    (GroupsLaidOut(t, p0, gs[..|gs| - 1]) && GroupAt(t, p0 + 4 * (|gs| - 1), gs[|gs| - 1]))
  }

  lemma {:induction false} LaidOut(t: string, p0: nat, gs: seq<string>)
    requires forall k :: 0 <= k < |gs| ==> GroupAt(t, p0 + 4 * k, gs[k])
    ensures GroupsLaidOut(t, p0, gs)
  {
    if gs != [] {
      var init := gs[..|gs| - 1];
      forall k | 0 <= k < |init|
        ensures GroupAt(t, p0 + 4 * k, init[k])
      {
        assert init[k] == gs[k];
      }
      LaidOut(t, p0, init);
    }
  }

  lemma {:induction false} GroupsDropped(t: string, p0: nat, w: string, gs: seq<string>)
    requires p0 == |w| <= |t| && DropThousandsDots(t, |w|) == w
    requires GroupsLaidOut(t, p0, gs)
    ensures p0 + 4 * |gs| <= |t|
    ensures DropThousandsDots(t, p0 + 4 * |gs|) == w + Concat(gs)
  {
    if gs == [] {
      assert w + [] == w;
    } else {
      var init := gs[..|gs| - 1];
      GroupsDropped(t, p0, w, init);
      GroupDropped(t, p0 + 4 * |init|, w, init, gs[|gs| - 1]);
    }
  }

  /** One more group: its dot is dropped and its three digits are kept. */
  lemma {:induction false} GroupDropped(t: string, p: nat, w: string, init: seq<string>, g: string)
    requires p <= |t| && DropThousandsDots(t, p) == w + Concat(init)
    requires GroupAt(t, p, g)
    ensures p + 4 <= |t|
    ensures DropThousandsDots(t, p + 4) == w + (Concat(init) + g)
  {
    GroupStep(t, p);
    AppendAssoc(w, Concat(init), g);
  }

  lemma {:induction false} GroupStep(t: string, p: nat)
    requires p + 4 <= |t| && IsThousandsDot(t, p)
    ensures DropThousandsDots(t, p + 4) == DropThousandsDots(t, p) + t[p + 1..p + 4]
  {
    var d := DropThousandsDots(t, p);
    assert DropThousandsDots(t, p + 1) == d;
    assert DropThousandsDots(t, p + 2) == d + [t[p + 1]];
    assert DropThousandsDots(t, p + 3) == d + [t[p + 1]] + [t[p + 2]];
    assert DropThousandsDots(t, p + 4) == d + [t[p + 1]] + [t[p + 2]] + [t[p + 3]];
    assert t[p + 1..p + 4] == [t[p + 1], t[p + 2], t[p + 3]];
  }

  /** After a digit, a tail satisfying `KeptAfterDigit` is copied whole. */
  lemma {:induction false} TailKept(t: string, p: nat, r: string)
    requires 0 < p && p + |r| == |t| && t[p..] == r && IsDigit(t[p - 1]) && KeptAfterDigit(r)
    ensures DropThousandsDots(t, |t|) == DropThousandsDots(t, p) + r
  {
    TailKeptUpTo(t, p, r, |r|);
    assert r[..|r|] == r;
  }

  lemma {:induction false} TailKeptUpTo(t: string, p: nat, r: string, n: nat)
    requires 0 < p && p + |r| == |t| && t[p..] == r && IsDigit(t[p - 1]) && KeptAfterDigit(r)
    requires n <= |r|
    ensures DropThousandsDots(t, p + n) == DropThousandsDots(t, p) + r[..n]
  {
    if n > 0 {
      TailKeptUpTo(t, p, r, n - 1);
      var i := n - 1;
      var c := ['0'] + r;
      NoThousandsDotAt(c, 1, i + 1);
      assert !IsThousandsDot(t, p + i) by {
        assert t[p + i] == c[i + 1];
        assert IsDigit(t[p + i - 1]) <==> IsDigit(c[i]);
        assert p + i + 3 < |t| <==> i + 1 + 3 < |c|;
        assert p + i + 3 < |t| ==> t[p + i + 1] == c[i + 2] && t[p + i + 2] == c[i + 3] && t[p + i + 3] == c[i + 4];
        assert p + i + 4 < |t| ==> t[p + i + 4] == c[i + 5];
      }
      assert r[..n] == r[..n - 1] + [r[n - 1]];
    }
  }

  lemma {:induction false} NoThousandsDotAt(c: string, i: nat, k: nat)
    requires NoThousandsDotFrom(c, i) && i <= k
    ensures !IsThousandsDot(c, k)
    decreases k - i
  {
    if i < k && i < |c| {
      NoThousandsDotAt(c, i + 1, k);
    }
  }

  /** The joined groups: a dot every four characters, each followed by its group. */
  lemma {:induction false} JoinIndex(gs: seq<string>)
    requires ThreeDigitGroups(gs)
    ensures |Join(gs)| == 4 * |gs| && |Concat(gs)| == 3 * |gs|
    ensures forall k :: 0 <= k < |gs| ==>
      Join(gs)[4 * k] == '.' && Join(gs)[4 * k + 1..4 * k + 4] == gs[k]
  {
    if gs != [] {
      var init := gs[..|gs| - 1];
      JoinIndex(init);
      var j := Join(gs);
      assert j == Join(init) + "." + gs[|gs| - 1];
      forall k | 0 <= k < |gs|
        ensures j[4 * k] == '.' && j[4 * k + 1..4 * k + 4] == gs[k]
      {
        if k < |init| {
          assert j[4 * k] == Join(init)[4 * k];
          assert j[4 * k + 1..4 * k + 4] == Join(init)[4 * k + 1..4 * k + 4];
          assert init[k] == gs[k];
        } else {
          assert j[4 * k + 1..4 * k + 4] == gs[|gs| - 1];
        }
      }
    }
  }

  lemma {:induction false} JoinHasNoSpace(gs: seq<string>)
    requires ThreeDigitGroups(gs)
    ensures ' ' !in Join(gs)
  {
    if gs != [] {
      JoinHasNoSpace(gs[..|gs| - 1]);
      var g := gs[|gs| - 1];
      assert forall i :: 0 <= i < |g| ==> g[i] != ' ';
    }
  }

  /** A decimal dot whose fraction is not exactly three digits long stays, so "12.50"
      and "1.2345" come out as they went in. */
  lemma {:induction false} DecimalDotKept(w: string, f: string)
    requires AllDigits(w) && AllDigits(f) && |f| != 3
    ensures CleanText(w + "." + f) == w + "." + f
  {
    var s := w + "." + f;
    forall i: nat | i < |s|
      ensures !IsThousandsDot(s, i)
    {
      if i < |w| {
        assert s[i] == w[i];
      } else if i > |w| {
        assert s[i] == f[i - |w| - 1];
      } else if i + 3 < |s| && IsDigit(s[i + 1]) && IsDigit(s[i + 2]) && IsDigit(s[i + 3]) {
        assert |f| > 3;
        assert s[i + 4] == f[3];
      }
    }
    assert ' ' !in s by {
      assert forall i :: 0 <= i < |w| ==> w[i] != ' ';
      assert forall i :: 0 <= i < |f| ==> f[i] != ' ';
    }
    CleanTextOfClean(s);
  }
}
