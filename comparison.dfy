/** `compare_products` in app.py: products with similar descriptions are grouped
    greedily, each group names its cheapest product, and two counters record how many
    groups hold more than one product and how many of those each supplier wins.
    Similarity is the one decision taken outside this model: `similar(a, b)` stands
    for "the ratio `SequenceMatcher(None, a, b)` computes reaches the threshold". */
module Comparison {
  import opened Strings
  import opened SheetExtraction

  // ---------------------------------------------------------------------------
  // Grouping, on product positions.

  function Elems(g: seq<nat>): set<nat>
  {
    set k | k in g
  }

  /** Every position placed in one of `gs`. */
  function Members(gs: seq<seq<nat>>): set<nat>
  {
    if gs == [] then {} else Members(gs[..|gs| - 1]) + Elems(gs[|gs| - 1])
  }

  predicate Similar(ps: seq<ProductRecord>, similar: (string, string) -> bool, a: nat, b: nat)
    requires a < |ps| && b < |ps|
  {
    similar(ps[a].descripcion, ps[b].descripcion)
  }

  predicate Increasing(g: seq<nat>)
  {
    forall a, b :: 0 <= a < b < |g| ==> g[a] < g[b]
  }

  /** The positions below `j`, outside `used`, whose product is similar to the seed's. */
  function Pulled(ps: seq<ProductRecord>, similar: (string, string) -> bool, used: set<nat>, seed: nat, j: nat): seq<nat>
    requires seed < |ps| && j <= |ps|
  {
    if j == 0 then []
    else
      Pulled(ps, similar, used, seed, j - 1)
        + (if j - 1 !in used && Similar(ps, similar, seed, j - 1) then [j - 1] else [])
  }

  /** `g` is the group greedy grouping forms once `earlier` is taken: its seed is the
      first free position, the rest are every other free position similar to the seed,
      in increasing order. */
  predicate GreedyGroup(ps: seq<ProductRecord>, similar: (string, string) -> bool, earlier: set<nat>, g: seq<nat>)
  {
    && |g| > 0
    && (forall m :: 0 <= m < |g| ==> g[m] < |ps| && g[m] !in earlier)
    && Increasing(g)
    && (forall k: nat :: k < g[0] ==> k in earlier)
    && (forall m :: 0 < m < |g| ==> Similar(ps, similar, g[0], g[m]))
    && (forall j: nat :: j < |ps| && j !in earlier && j != g[0] && Similar(ps, similar, g[0], j) ==> j in g)
  }

  /** Each group of `gs` is the greedy group formed once the groups before it are taken. */
  predicate GreedyGroups(ps: seq<ProductRecord>, similar: (string, string) -> bool, gs: seq<seq<nat>>)
  {
    gs == [] ||
    (GreedyGroups(ps, similar, gs[..|gs| - 1]) && GreedyGroup(ps, similar, Members(gs[..|gs| - 1]), gs[|gs| - 1]))
  }

  /** Every position of `gs` is a product's position, and no group is empty. */
  predicate PositionsInRange(ps: seq<ProductRecord>, gs: seq<seq<nat>>)
  {
    && (forall q :: 0 <= q < |gs| ==> |gs[q]| > 0)
    && (forall q, m :: 0 <= q < |gs| && 0 <= m < |gs[q]| ==> gs[q][m] < |ps|)
  }

  /** `gs` places every position, group after greedy group; the greedy groups place
      none twice. */
  predicate IsGreedyGrouping(ps: seq<ProductRecord>, similar: (string, string) -> bool, gs: seq<seq<nat>>)
  {
    && PositionsInRange(ps, gs)
    && (forall k: nat :: k < |ps| ==> k in Members(gs))
    && GreedyGroups(ps, similar, gs)
  }

  /** The grouping loop: each position not yet used seeds a group, which then takes
      every unused position whose product is similar to the seed's. */
  method GroupProducts(ps: seq<ProductRecord>, similar: (string, string) -> bool) returns (groups: seq<seq<nat>>)
    ensures IsGreedyGrouping(ps, similar, groups)
  {
    groups := [];
    var used: set<nat> := {};
    for i := 0 to |ps|
      invariant used == Members(groups)
      invariant PositionsInRange(ps, groups)
      invariant forall k: nat :: k < i ==> k in used
      invariant GreedyGroups(ps, similar, groups)
    {
      if i in used {
        continue;
      }
      var group;
      group, used := PullSimilar(ps, similar, i, used + {i});
      GroupExtends(ps, similar, groups, i);
      AppendGroup(ps, similar, groups, i);
      groups := groups + [group];
    }
  }

  /** The inner loop: the seed's group collects every position still unused whose
      product is similar to the seed's, marking each one used. */
  method PullSimilar(ps: seq<ProductRecord>, similar: (string, string) -> bool, i: nat, used0: set<nat>)
    returns (group: seq<nat>, used: set<nat>)
    requires i < |ps| && i in used0
    ensures group == [i] + Pulled(ps, similar, used0, i, |ps|)
    ensures used == used0 + Elems(Pulled(ps, similar, used0, i, |ps|))
  {
    group := [i];
    used := used0;
    for j := 0 to |ps|
      invariant group == [i] + Pulled(ps, similar, used0, i, j)
      invariant used == used0 + Elems(Pulled(ps, similar, used0, i, j))
    {
      PulledStep(ps, similar, used0, i, j);
      if j in used {
        continue;
      }
      if similar(ps[i].descripcion, ps[j].descripcion) {
        group := group + [j];
        used := used + {j};
      }
    }
  }

  lemma {:induction false} PulledMembers(ps: seq<ProductRecord>, similar: (string, string) -> bool, used: set<nat>, seed: nat, j: nat)
    requires seed < |ps| && j <= |ps|
    ensures var r := Pulled(ps, similar, used, seed, j);
      && Increasing(r)
      && forall k: nat :: k in r <==> k < j && k !in used && Similar(ps, similar, seed, k)
  {
    if j > 0 {
      PulledMembers(ps, similar, used, seed, j - 1);
      var r0 := Pulled(ps, similar, used, seed, j - 1);
      forall m | 0 <= m < |r0|
        ensures r0[m] < j - 1
      {
        assert r0[m] in r0;
      }
    }
  }

  /** One step of the inner loop: position `j` is pulled exactly when it is free and
      similar to the seed, and it was not pulled before. */
  lemma {:induction false} PulledStep(ps: seq<ProductRecord>, similar: (string, string) -> bool, used: set<nat>, seed: nat, j: nat)
    requires seed < |ps| && j < |ps|
    ensures j !in Elems(Pulled(ps, similar, used, seed, j))
    ensures Pulled(ps, similar, used, seed, j + 1) == Pulled(ps, similar, used, seed, j)
      + (if j !in used && Similar(ps, similar, seed, j) then [j] else [])
  {
    PulledMembers(ps, similar, used, seed, j);
  }

  /** The group a free first position seeds is a greedy group. */
  lemma {:induction false} GroupIsGreedy(ps: seq<ProductRecord>, similar: (string, string) -> bool, earlier: set<nat>, i: nat)
    requires i < |ps| && i !in earlier
    requires forall k: nat :: k < i ==> k in earlier
    ensures GreedyGroup(ps, similar, earlier, [i] + Pulled(ps, similar, earlier + {i}, i, |ps|))
  {
    var g := [i] + Pulled(ps, similar, earlier + {i}, i, |ps|);
    SeededGroupOrdered(ps, similar, earlier + {i}, i);
    SeededGroupComplete(ps, similar, earlier + {i}, i);
    assert g[0] == i;
  }

  /** The positions a seed pulls follow it, in increasing order, each free and similar. */
  lemma {:induction false} SeededGroupOrdered(ps: seq<ProductRecord>, similar: (string, string) -> bool, used: set<nat>, i: nat)
    requires i < |ps| && i in used
    requires forall k: nat :: k < i ==> k in used
    ensures var g := [i] + Pulled(ps, similar, used, i, |ps|);
      && Increasing(g)
      && forall m :: 0 < m < |g| ==> i < g[m] < |ps| && g[m] !in used && Similar(ps, similar, i, g[m])
  {
    var r := Pulled(ps, similar, used, i, |ps|);
    var g := [i] + r;
    PulledAbove(ps, similar, used, i);
    forall m | 0 < m < |g|
      ensures i < g[m] && g[m] < |ps| && g[m] !in used && Similar(ps, similar, i, g[m])
    {
      assert g[m] == r[m - 1];
    }
    forall a, b | 0 <= a < b < |g|
      ensures g[a] < g[b]
    {
      if a > 0 {
        assert g[a] == r[a - 1] && g[b] == r[b - 1];
      }
    }
  }

  lemma {:induction false} PulledAbove(ps: seq<ProductRecord>, similar: (string, string) -> bool, used: set<nat>, i: nat)
    requires i < |ps| && i in used
    requires forall k: nat :: k < i ==> k in used
    ensures var r := Pulled(ps, similar, used, i, |ps|);
      && Increasing(r)
      && forall m :: 0 <= m < |r| ==> i < r[m] < |ps| && r[m] !in used && Similar(ps, similar, i, r[m])
  {
    var r := Pulled(ps, similar, used, i, |ps|);
    PulledMembers(ps, similar, used, i, |ps|);
    forall m | 0 <= m < |r|
      ensures i < r[m] < |ps| && r[m] !in used && Similar(ps, similar, i, r[m])
    {
      assert r[m] in r;
    }
  }

  /** A seed pulls every free position similar to it. */
  lemma {:induction false} SeededGroupComplete(ps: seq<ProductRecord>, similar: (string, string) -> bool, used: set<nat>, i: nat)
    requires i < |ps|
    ensures forall j: nat :: j < |ps| && j !in used && Similar(ps, similar, i, j) ==>
      j in [i] + Pulled(ps, similar, used, i, |ps|)
  {
    PulledMembers(ps, similar, used, i, |ps|);
  }

  /** Appending the group seeded at `i` places the seed, every pulled position and,
      with the earlier groups, every position up to `i`. */
  lemma {:induction false} AppendGroup(ps: seq<ProductRecord>, similar: (string, string) -> bool, groups: seq<seq<nat>>, i: nat)
    requires i < |ps|
    requires forall k: nat :: k < i ==> k in Members(groups)
    ensures var pulled := Pulled(ps, similar, Members(groups) + {i}, i, |ps|);
      var gs := groups + [[i] + pulled];
      && Members(gs) == Members(groups) + {i} + Elems(pulled)
      && forall k: nat :: k < i + 1 ==> k in Members(gs)
  {
    var pulled := Pulled(ps, similar, Members(groups) + {i}, i, |ps|);
    var group := [i] + pulled;
    MembersAppend(groups, group);
    assert Elems(group) == {i} + Elems(pulled);
  }

  /** The group seeded at the first free position `i` extends the grouping: it stays
      greedy and in range. */
  lemma {:induction false} GroupExtends(ps: seq<ProductRecord>, similar: (string, string) -> bool, groups: seq<seq<nat>>, i: nat)
    requires GreedyGroups(ps, similar, groups) && PositionsInRange(ps, groups)
    requires i < |ps| && i !in Members(groups)
    requires forall k: nat :: k < i ==> k in Members(groups)
    ensures var gs := groups + [[i] + Pulled(ps, similar, Members(groups) + {i}, i, |ps|)];
      GreedyGroups(ps, similar, gs) && PositionsInRange(ps, gs)
  {
    var group := [i] + Pulled(ps, similar, Members(groups) + {i}, i, |ps|);
    GroupIsGreedy(ps, similar, Members(groups), i);
    GreedyAppend(ps, similar, groups, group);
    RangeAppend(ps, similar, groups, Members(groups), group);
  }

  lemma {:induction false} GreedyAppend(ps: seq<ProductRecord>, similar: (string, string) -> bool, groups: seq<seq<nat>>, group: seq<nat>)
    requires GreedyGroups(ps, similar, groups) && GreedyGroup(ps, similar, Members(groups), group)
    ensures GreedyGroups(ps, similar, groups + [group])
  {
    var gs := groups + [group];
    assert gs[..|gs| - 1] == groups && gs[|gs| - 1] == group;
  }

  lemma {:induction false} MembersAppend(groups: seq<seq<nat>>, group: seq<nat>)
    ensures Members(groups + [group]) == Members(groups) + Elems(group)
  {
    var gs := groups + [group];
    assert gs[..|gs| - 1] == groups && gs[|gs| - 1] == group;
  }

  lemma {:induction false} RangeAppend(ps: seq<ProductRecord>, similar: (string, string) -> bool, groups: seq<seq<nat>>, earlier: set<nat>, group: seq<nat>)
    requires PositionsInRange(ps, groups) && GreedyGroup(ps, similar, earlier, group)
    ensures PositionsInRange(ps, groups + [group])
  {
    var gs := groups + [group];
    forall q, m | 0 <= q < |gs| && 0 <= m < |gs[q]|
      ensures gs[q][m] < |ps|
    {
      if q < |groups| {
        assert gs[q] == groups[q];
      }
    }
  }

  /** A prefix of greedy groups is greedy too. */
  lemma {:induction false} GreedyPrefix(ps: seq<ProductRecord>, similar: (string, string) -> bool, gs: seq<seq<nat>>, n: nat)
    requires GreedyGroups(ps, similar, gs) && n <= |gs|
    ensures GreedyGroups(ps, similar, gs[..n])
    ensures n < |gs| ==> GreedyGroup(ps, similar, Members(gs[..n]), gs[n])
  {
    if n < |gs| {
      var init := gs[..|gs| - 1];
      assert init[..n] == gs[..n];
      if n < |init| {
        GreedyPrefix(ps, similar, init, n);
        assert init[n] == gs[n];
      }
    } else {
      assert gs[..n] == gs;
    }
  }

  /** Greedy grouping leaves no choice: two groupings that both satisfy it are equal. */
  lemma {:induction false} GreedyGroupingUnique(ps: seq<ProductRecord>, similar: (string, string) -> bool, a: seq<seq<nat>>, b: seq<seq<nat>>)
    requires IsGreedyGrouping(ps, similar, a) && IsGreedyGrouping(ps, similar, b)
    ensures a == b
  {
    if |a| <= |b| {
      SamePrefix(ps, similar, a, b, |a|);
      assert a[..|a|] == a;
      NothingAfterCover(ps, similar, b, |a|);
    } else {
      SamePrefix(ps, similar, a, b, |b|);
      assert b[..|b|] == b;
      NothingAfterCover(ps, similar, a, |b|);
    }
    assert a[..|a|] == a && b[..|b|] == b;
  }

  /** Once a prefix of greedy groups places every position, no group follows it. */
  lemma {:induction false} NothingAfterCover(ps: seq<ProductRecord>, similar: (string, string) -> bool, gs: seq<seq<nat>>, n: nat)
    requires GreedyGroups(ps, similar, gs) && PositionsInRange(ps, gs) && n <= |gs|
    requires forall k: nat :: k < |ps| ==> k in Members(gs[..n])
    ensures n == |gs|
  {
    GreedyPrefix(ps, similar, gs, n);
  }

  lemma {:induction false} SamePrefix(ps: seq<ProductRecord>, similar: (string, string) -> bool, a: seq<seq<nat>>, b: seq<seq<nat>>, n: nat)
    requires GreedyGroups(ps, similar, a) && GreedyGroups(ps, similar, b)
    requires n <= |a| && n <= |b|
    ensures a[..n] == b[..n]
  {
    if n > 0 {
      SamePrefix(ps, similar, a, b, n - 1);
      SameNext(ps, similar, a, b, n - 1);
      assert a[..n] == a[..n - 1] + [a[n - 1]];
      assert b[..n] == b[..n - 1] + [b[n - 1]];
    }
  }

  /** After equal prefixes, the next greedy groups are equal too. */
  lemma {:induction false} SameNext(ps: seq<ProductRecord>, similar: (string, string) -> bool, a: seq<seq<nat>>, b: seq<seq<nat>>, n: nat)
    requires GreedyGroups(ps, similar, a) && GreedyGroups(ps, similar, b)
    requires n < |a| && n < |b| && a[..n] == b[..n]
    ensures a[n] == b[n]
  {
    GreedyPrefix(ps, similar, a, n);
    GreedyPrefix(ps, similar, b, n);
    GreedyGroupDetermined(ps, similar, Members(a[..n]), a[n], b[n]);
  }

  /** The free seed and the earlier groups fix the whole group. */
  lemma {:induction false} GreedyGroupDetermined(ps: seq<ProductRecord>, similar: (string, string) -> bool, earlier: set<nat>, g: seq<nat>, h: seq<nat>)
    requires GreedyGroup(ps, similar, earlier, g) && GreedyGroup(ps, similar, earlier, h)
    ensures g == h
  {
    assert g[0] == h[0] by {
      assert g[0] !in earlier && h[0] !in earlier;
    }
    forall k | k in g
      ensures k in h
    {
      var m :| 0 <= m < |g| && g[m] == k;
      assert m > 0 ==> g[0] < g[m];
    }
    forall k | k in h
      ensures k in g
    {
      var m :| 0 <= m < |h| && h[m] == k;
      assert m > 0 ==> h[0] < h[m];
    }
    IncreasingSameElems(g, h);
  }

  /** Two increasing sequences with the same elements are equal. */
  lemma {:induction false} IncreasingSameElems(g: seq<nat>, h: seq<nat>)
    requires Increasing(g) && Increasing(h)
    requires forall k :: k in g <==> k in h
    ensures g == h
  {
    if g != [] || h != [] {
      assert g != [] && h != [] by {
        assert g != [] ==> g[0] in h;
        assert h != [] ==> h[0] in g;
      }
      IncreasingHead(h, g[0]);
      IncreasingHead(g, h[0]);
      forall k | k in g[1..]
        ensures k in h[1..]
      {
        IncreasingTail(g, k);
        InTail(h, k);
      }
      forall k | k in h[1..]
        ensures k in g[1..]
      {
        IncreasingTail(h, k);
        InTail(g, k);
      }
      IncreasingSameElems(g[1..], h[1..]);
      assert g == [g[0]] + g[1..] && h == [h[0]] + h[1..];
    }
  }

  lemma {:induction false} IncreasingHead(g: seq<nat>, x: nat)
    requires Increasing(g) && x in g
    ensures g[0] <= x
  {
    var m :| 0 <= m < |g| && g[m] == x;
    if m > 0 {
      assert g[0] < g[m];
    }
  }

  lemma {:induction false} IncreasingTail(g: seq<nat>, x: nat)
    requires Increasing(g) && |g| > 0 && x in g[1..]
    ensures x in g && g[0] < x
  {
    var m :| 0 <= m < |g[1..]| && g[1..][m] == x;
    assert g[m + 1] == x;
  }

  lemma {:induction false} InTail(g: seq<nat>, x: nat)
    requires x in g && g[0] != x
    ensures x in g[1..]
  {
    var m :| 0 <= m < |g| && g[m] == x;
    assert m != 0;
    assert g[1..][m - 1] == x;
  }

  // ---------------------------------------------------------------------------
  // The summary of each group.

  /** One entry of `best_products`. */
  datatype BestEntry = BestEntry(
    descripcion: string,
    precio: real,
    proveedorGanador: string,
    proveedorPerdedor: string,
    precioPerdedor: real)

  /** `stats`: `ganadosPor` keeps the dictionary's keys in insertion order. */
  datatype Stats = Stats(duplicados: nat, ganadosPor: seq<(string, nat)>)

  /** `min(group, key=precio)`: the first product of least price. */
  function Winner(g: seq<ProductRecord>): (r: nat)
    requires |g| > 0
    ensures r < |g|
  {
    if |g| == 1 then 0
    else
      var r := Winner(g[..|g| - 1]);
      if g[|g| - 1].precio < g[r].precio then |g| - 1 else r
  }

  /** The position of the first product that differs from `best`, if any. */
  function FirstOther(g: seq<ProductRecord>, best: ProductRecord): (r: Option<nat>)
    ensures r.Some? ==> r.value < |g|
  {
    if g == [] then None
    else if g[0] != best then Some(0)
    else match FirstOther(g[1..], best)
      case None => None
      case Some(k) => Some(k + 1)
  }

  /** The entry a group contributes: its winner, and the first other product as loser
      ("" and 0.0 when every product equals the winner). */
  function Entry(g: seq<ProductRecord>): BestEntry
    requires |g| > 0
  {
    var best := g[Winner(g)];
    var other := FirstOther(g, best);
    BestEntry(
      best.descripcion, best.precio, best.proveedor,
      if other.Some? then g[other.value].proveedor else "",
      if other.Some? then g[other.value].precio else 0.0)
  }

  predicate NonEmptyGroups(groups: seq<seq<ProductRecord>>)
  {
    forall q :: 0 <= q < |groups| ==> |groups[q]| > 0
  }

  /** The suppliers that win a group of more than one product, one per such group, in order. */
  function DuplicateWinners(groups: seq<seq<ProductRecord>>): seq<string>
    requires NonEmptyGroups(groups)
  {
    if groups == [] then []
    else
      var g := groups[|groups| - 1];
      DuplicateWinners(groups[..|groups| - 1])
        + (if |g| > 1 then [g[Winner(g)].proveedor] else [])
  }

  /** `d[key] = d.get(key, 0) + 1` on a dictionary kept as its ordered pairs. */
  function Increment(t: seq<(string, nat)>, key: string): seq<(string, nat)>
  {
    if t == [] then [(key, 1)]
    else if t[0].0 == key then [(key, t[0].1 + 1)] + t[1..]
    else [t[0]] + Increment(t[1..], key)
  }

  /** The dictionary that counting `xs` one by one builds. */
  function Tally(xs: seq<string>): seq<(string, nat)>
  {
    if xs == [] then [] else Increment(Tally(xs[..|xs| - 1]), xs[|xs| - 1])
  }

  /** The entries of `groups`, in order. */
  function Entries(groups: seq<seq<ProductRecord>>): seq<BestEntry>
    requires NonEmptyGroups(groups)
  {
    if groups == [] then [] else Entries(groups[..|groups| - 1]) + [Entry(groups[|groups| - 1])]
  }

  /** The counters of `groups`: the duplicate groups and the wins of each supplier. */
  function GroupStats(groups: seq<seq<ProductRecord>>): Stats
    requires NonEmptyGroups(groups)
  {
    var winners := DuplicateWinners(groups);
    Stats(|winners|, Tally(winners))
  }

  /** The summary loop: one entry per group, and the two counters. */
  method SummarizeGroups(groups: seq<seq<ProductRecord>>) returns (best: seq<BestEntry>, stats: Stats)
    requires NonEmptyGroups(groups)
    ensures best == Entries(groups)
    ensures stats == GroupStats(groups)
  {
    best := [];
    stats := Stats(0, []);
    for q := 0 to |groups|
      invariant NonEmptyGroups(groups[..q])
      invariant best == Entries(groups[..q])
      invariant stats == GroupStats(groups[..q])
    {
      var group := groups[q];
      var w := group[Winner(group)];
      SummaryStep(groups, q);
      if |group| > 1 {
        stats := Stats(stats.duplicados + 1, Increment(stats.ganadosPor, w.proveedor));
      }
      best := best + [Entry(group)];
    }
    assert groups[..|groups|] == groups;
  }

  lemma {:induction false} SummaryStep(groups: seq<seq<ProductRecord>>, q: nat)
    requires NonEmptyGroups(groups) && q < |groups|
    ensures NonEmptyGroups(groups[..q]) && NonEmptyGroups(groups[..q + 1])
    ensures Entries(groups[..q + 1]) == Entries(groups[..q]) + [Entry(groups[q])]
    ensures var g := groups[q];
      GroupStats(groups[..q + 1]) ==
        if |g| > 1 then
          Stats(GroupStats(groups[..q]).duplicados + 1, Increment(GroupStats(groups[..q]).ganadosPor, g[Winner(g)].proveedor))
        else GroupStats(groups[..q])
  {
    var next := groups[..q + 1];
    assert next[..q] == groups[..q] && next[q] == groups[q];
    assert next[..|next| - 1] == groups[..q];
    assert Entries(next) == Entries(next[..|next| - 1]) + [Entry(next[|next| - 1])];
    var g := groups[q];
    var before := DuplicateWinners(groups[..q]);
    assert DuplicateWinners(next) == before + (if |g| > 1 then [g[Winner(g)].proveedor] else []);
    if |g| > 1 {
      var after := before + [g[Winner(g)].proveedor];
      assert after[..|after| - 1] == before;
      assert Tally(after) == Increment(Tally(before), g[Winner(g)].proveedor);
    } else {
      assert before + [] == before;
    }
  }

  /** The product groups a grouping of positions stands for. */
  function ProductGroups(ps: seq<ProductRecord>, gs: seq<seq<nat>>): (r: seq<seq<ProductRecord>>)
    requires PositionsInRange(ps, gs)
    ensures NonEmptyGroups(r)
  {
    seq(|gs|, q requires 0 <= q < |gs| =>
      seq(|gs[q]|, m requires 0 <= m < |gs[q]| => ps[gs[q][m]]))
  }

  /** `compare_products`: the greedy grouping, then its summary. */
  method CompareProducts(ps: seq<ProductRecord>, similar: (string, string) -> bool)
    returns (best: seq<BestEntry>, stats: Stats)
    ensures exists gs ::
      && IsGreedyGrouping(ps, similar, gs)
      && best == Entries(ProductGroups(ps, gs))
      && stats == GroupStats(ProductGroups(ps, gs))
  {
    var gs := GroupProducts(ps, similar);
    var groups := ProductGroups(ps, gs);
    best, stats := SummarizeGroups(groups);
  }

  // ---------------------------------------------------------------------------
  // What the summary satisfies.

  /** The winner costs no more than any product of its group, and every product before
      it costs strictly more. */
  lemma {:induction false} WinnerIsFirstMinimum(g: seq<ProductRecord>)
    requires |g| > 0
    ensures forall k :: 0 <= k < |g| ==> g[Winner(g)].precio <= g[k].precio
    ensures forall k :: 0 <= k < Winner(g) ==> g[Winner(g)].precio < g[k].precio
  {
    if |g| > 1 {
      var init := g[..|g| - 1];
      WinnerIsFirstMinimum(init);
      var r0 := Winner(init);
      var r := Winner(g);
      assert g[r0] == init[r0];
      forall k | 0 <= k < |g|
        ensures g[r].precio <= g[k].precio
      {
        if k < |init| {
          assert g[k] == init[k];
        }
      }
      forall k | 0 <= k < r
        ensures g[r].precio < g[k].precio
      {
        assert g[k] == init[k];
      }
    }
  }

  /** The loser is the first product that differs from the winner; there is none
      exactly when every product equals the winner. */
  lemma {:induction false} FirstOtherIsFirst(g: seq<ProductRecord>, best: ProductRecord)
    ensures FirstOther(g, best).None? <==> forall k :: 0 <= k < |g| ==> g[k] == best
    ensures FirstOther(g, best).Some? ==>
      var k := FirstOther(g, best).value;
      g[k] != best && forall l :: 0 <= l < k ==> g[l] == best
  {
    if g != [] && g[0] == best {
      FirstOtherIsFirst(g[1..], best);
    }
  }

  /** The number of duplicate groups is the number of groups of more than one product. */
  lemma {:induction false} DuplicatesCountBigGroups(groups: seq<seq<ProductRecord>>)
    requires NonEmptyGroups(groups)
    ensures |DuplicateWinners(groups)| == |set q | 0 <= q < |groups| && |groups[q]| > 1|
  {
    if groups != [] {
      var init := groups[..|groups| - 1];
      DuplicatesCountBigGroups(init);
      var last := |groups| - 1;
      var a := set q | 0 <= q < |init| && |init[q]| > 1;
      var b := set q | 0 <= q < |groups| && |groups[q]| > 1;
      if |groups[last]| > 1 {
        assert b == a + {last};
      } else {
        assert b == a;
      }
    }
  }

  /** The number of times `key` occurs in `xs`. */
  function Occurrences(xs: seq<string>, key: string): nat
  {
    if xs == [] then 0 else Occurrences(xs[..|xs| - 1], key) + (if xs[|xs| - 1] == key then 1 else 0)
  }

  /** The count a dictionary holds for `key`, 0 when absent. */
  function Lookup(t: seq<(string, nat)>, key: string): nat
  {
    if t == [] then 0 else if t[0].0 == key then t[0].1 else Lookup(t[1..], key)
  }

  function SumCounts(t: seq<(string, nat)>): nat
  {
    if t == [] then 0 else t[0].1 + SumCounts(t[1..])
  }

  predicate KeysUnique(t: seq<(string, nat)>)
  {
    forall a, b :: 0 <= a < b < |t| ==> t[a].0 != t[b].0
  }

  predicate HasKey(t: seq<(string, nat)>, key: string)
  {
    exists a :: 0 <= a < |t| && t[a].0 == key
  }

  lemma {:induction false} IncrementSum(t: seq<(string, nat)>, key: string)
    ensures SumCounts(Increment(t, key)) == SumCounts(t) + 1
  {
    if t != [] && t[0].0 != key {
      IncrementSum(t[1..], key);
    }
  }

  lemma {:induction false} IncrementLookup(t: seq<(string, nat)>, key: string, other: string)
    ensures Lookup(Increment(t, key), other) == Lookup(t, other) + (if other == key then 1 else 0)
  {
    if t != [] && t[0].0 != key {
      IncrementLookup(t[1..], key, other);
    }
  }

  lemma {:induction false} IncrementHasKey(t: seq<(string, nat)>, key: string, other: string)
    ensures HasKey(Increment(t, key), other) <==> HasKey(t, other) || other == key
  {
    var r := Increment(t, key);
    if t == [] {
      assert r[0].0 == key;
    } else if t[0].0 == key {
      assert r[1..] == t[1..] && r[0].0 == t[0].0;
      HasKeyCons(r, other);
      HasKeyCons(t, other);
    } else {
      IncrementHasKey(t[1..], key, other);
      assert r[1..] == Increment(t[1..], key) && r[0] == t[0];
      HasKeyCons(r, other);
      HasKeyCons(t, other);
    }
  }

  lemma {:induction false} HasKeyCons(t: seq<(string, nat)>, key: string)
    requires t != []
    ensures HasKey(t, key) <==> t[0].0 == key || HasKey(t[1..], key)
  {
    if HasKey(t, key) {
      var a :| 0 <= a < |t| && t[a].0 == key;
      assert a > 0 ==> t[1..][a - 1].0 == key;
    }
    if HasKey(t[1..], key) {
      var a :| 0 <= a < |t[1..]| && t[1..][a].0 == key;
      assert t[a + 1].0 == key;
    }
  }

  lemma {:induction false} KeysUniqueCons(t: seq<(string, nat)>)
    requires t != []
    ensures KeysUnique(t) <==> !HasKey(t[1..], t[0].0) && KeysUnique(t[1..])
  {
    if KeysUnique(t) {
      forall a, b | 0 <= a < b < |t[1..]|
        ensures t[1..][a].0 != t[1..][b].0
      {
        assert t[1..][a] == t[a + 1] && t[1..][b] == t[b + 1];
      }
      forall a | 0 <= a < |t[1..]|
        ensures t[1..][a].0 != t[0].0
      {
        assert t[1..][a] == t[a + 1];
      }
    }
    if !HasKey(t[1..], t[0].0) && KeysUnique(t[1..]) {
      forall a, b | 0 <= a < b < |t|
        ensures t[a].0 != t[b].0
      {
        assert t[b] == t[1..][b - 1];
        if a > 0 {
          assert t[a] == t[1..][a - 1];
        }
      }
    }
  }

  lemma {:induction false} IncrementUnique(t: seq<(string, nat)>, key: string)
    requires KeysUnique(t)
    ensures KeysUnique(Increment(t, key))
  {
    var r := Increment(t, key);
    if t == [] {
    } else if t[0].0 == key {
      KeysUniqueCons(t);
      assert r[1..] == t[1..] && r[0].0 == t[0].0;
      KeysUniqueCons(r);
    } else {
      KeysUniqueCons(t);
      IncrementUnique(t[1..], key);
      IncrementHasKey(t[1..], key, t[0].0);
      assert r[1..] == Increment(t[1..], key) && r[0] == t[0];
      KeysUniqueCons(r);
    }
  }

  /** The `ganados_por` dictionary: one key per winning supplier, holding how often it
      won; the counts add up to the number of duplicate groups. */
  lemma {:induction false} TallyFacts(xs: seq<string>)
    ensures KeysUnique(Tally(xs))
    ensures SumCounts(Tally(xs)) == |xs|
    ensures forall key :: Lookup(Tally(xs), key) == Occurrences(xs, key)
    ensures forall key :: HasKey(Tally(xs), key) <==> key in xs
  {
    if xs != [] {
      var init := xs[..|xs| - 1];
      var last := xs[|xs| - 1];
      TallyFacts(init);
      IncrementUnique(Tally(init), last);
      IncrementSum(Tally(init), last);
      forall key
        ensures Lookup(Tally(xs), key) == Occurrences(xs, key)
        ensures HasKey(Tally(xs), key) <==> key in xs
      {
        IncrementLookup(Tally(init), last, key);
        IncrementHasKey(Tally(init), last, key);
        assert xs == init + [last];
        assert key in xs <==> key in init || key == last;
      }
    }
  }

  /** Summed over suppliers, the wins equal `duplicados`. */
  lemma {:induction false} WinsAddUpToDuplicates(groups: seq<seq<ProductRecord>>)
    requires NonEmptyGroups(groups)
    ensures SumCounts(Tally(DuplicateWinners(groups))) == |DuplicateWinners(groups)|
  {
    TallyFacts(DuplicateWinners(groups));
  }

  /** One entry per group, in the order of the groups. */
  lemma {:induction false} EntriesMeaning(groups: seq<seq<ProductRecord>>)
    requires NonEmptyGroups(groups)
    ensures |Entries(groups)| == |groups|
    ensures forall q :: 0 <= q < |groups| ==> Entries(groups)[q] == Entry(groups[q])
  {
    if groups != [] {
      var init := groups[..|groups| - 1];
      assert NonEmptyGroups(init);
      EntriesMeaning(init);
      forall q | 0 <= q < |groups|
        ensures Entries(groups)[q] == Entry(groups[q])
      {
        if q < |init| {
          assert init[q] == groups[q];
        }
      }
    }
  }

  /** A group's entry: a product of least price wins, described by its own description
      and supplier, and the loser is the first product that is not equal to it, or ""
      with price 0.0 when every product of the group equals the winner. */
  lemma {:induction false} EntryMeaning(g: seq<ProductRecord>)
    requires |g| > 0
    ensures var e := Entry(g);
      && (forall k :: 0 <= k < |g| ==> e.precio <= g[k].precio)
      && (exists k :: 0 <= k < |g| && e.precio == g[k].precio
            && e.descripcion == g[k].descripcion && e.proveedorGanador == g[k].proveedor)
    ensures var best := g[Winner(g)]; var e := Entry(g);
      (forall k :: 0 <= k < |g| ==> g[k] == best) ==> e.proveedorPerdedor == "" && e.precioPerdedor == 0.0
    ensures var best := g[Winner(g)]; var e := Entry(g);
      (exists k :: 0 <= k < |g| && g[k] != best) ==>
        exists k :: 0 <= k < |g| && g[k] != best && (forall l :: 0 <= l < k ==> g[l] == best)
          && e.proveedorPerdedor == g[k].proveedor && e.precioPerdedor == g[k].precio
  {
    WinnerIsFirstMinimum(g);
    FirstOtherIsFirst(g, g[Winner(g)]);
    assert 0 <= Winner(g) < |g|;
  }
}
