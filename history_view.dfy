/**
 * The history page (src/app/history/page.tsx): which list URL a category selects,
 * what the page shows after fetching a list or a genealogy, and the grouping of the
 * fetched records by generation with the generation keys in ascending order.
 */
module HistoryView {
  import opened KnowledgeTypes

  /** The list URL the page fetches for a selection. */
  function ListUrl(sel: CategoryFilter): (url: string)
    ensures sel.All? ==> url == "/api/knowledge"
    ensures sel.Only? ==> url == "/api/knowledge?category=" + CategoryName(sel.category)
  {
    match sel
    case All => "/api/knowledge"
    case Only(c) => "/api/knowledge?category=" + CategoryName(c)
  }

  /** Distinct selections fetch distinct URLs, so the query names the selection. */
  lemma {:induction false} ListUrlInjective(a: CategoryFilter, b: CategoryFilter)
    ensures ListUrl(a) == ListUrl(b) <==> a == b
  {
    var base := "/api/knowledge";
    var q := "?category=";
    if a != b {
      match (a, b)
      case (All, Only(c)) =>
        assert |ListUrl(b)| > |base|;
      case (Only(c), All) =>
        assert |ListUrl(a)| > |base|;
      case (Only(c), Only(d)) =>
        assert ListUrl(a)[|base + q|..] == CategoryName(c);
        assert ListUrl(b)[|base + q|..] == CategoryName(d);
        CategoryNameInjective(c, d);
      case (All, All) =>
    }
  }

  /** How a fetch ended: it threw (network or JSON error), or it returned a body whose field may be absent. */
  datatype Fetched<T> = Threw | Returned(field: Option<T>)

  /** `fetchGenealogy`'s outcome: the returned genealogy, `[]` when the field is absent, `[k]` when the fetch threw. */
  function ShownGenealogy(k: Knowledge, result: Fetched<seq<Knowledge>>): seq<Knowledge> {
    match result
    case Threw => [k]
    case Returned(None) => []
    case Returned(Some(g)) => g
  }

  /**
   * The clicked record is shown alone exactly when the fetch threw or the route
   * returned just that record; nothing is shown exactly when the field was absent
   * or empty; a returned genealogy is shown as it came.
   */
  lemma ShownGenealogyCases(k: Knowledge, result: Fetched<seq<Knowledge>>)
    ensures ShownGenealogy(k, result) == [k] <==> result.Threw? || result == Returned(Some([k]))
    ensures ShownGenealogy(k, result) == [] <==> result == Returned(None) || result == Returned(Some([]))
    ensures result.Returned? && result.field.Some? ==> ShownGenealogy(k, result) == result.field.value
  {
  }

  /** `fetchKnowledge`: the list becomes the returned list (`[]` when absent) and stays as it was when the fetch threw. */
  function ListAfterFetch(current: seq<Knowledge>, result: Fetched<seq<Knowledge>>): seq<Knowledge> {
    match result
    case Threw => current
    case Returned(field) => field.GetOr([])
  }

  /**
   * A failed fetch keeps the list that was shown; a completed one replaces it
   * outright, so the list no longer depends on what was shown before.
   */
  lemma ListAfterFetchCases(current: seq<Knowledge>, other: seq<Knowledge>, result: Fetched<seq<Knowledge>>)
    ensures result.Threw? ==> ListAfterFetch(current, result) == current
    ensures result.Returned? ==> ListAfterFetch(current, result) == ListAfterFetch(other, result)
    ensures result.Returned? ==> (ListAfterFetch(current, result) == [] <==> result.field.None? || result.field.value == [])
  {
  }

  // ---------------------------------------------------------------------------
  // Grouping by generation
  // ---------------------------------------------------------------------------

  /** The records of generation `g`, in list order. */
  function OfGeneration(ks: seq<Knowledge>, g: int): (r: seq<Knowledge>)
    ensures forall k :: k in r <==> k in ks && k.generation == g
    ensures |r| <= |ks|
  {
    if ks == [] then []
    else OfGeneration(ks[..|ks| - 1], g) + (if ks[|ks| - 1].generation == g then [ks[|ks| - 1]] else [])
  }

  /** The generations that occur in the list. */
  function Generations(ks: seq<Knowledge>): set<int> {
    set k | k in ks :: k.generation
  }

  /** `acc` holds, for each generation of `ks`, its records in list order, and nothing else. */
  ghost predicate Grouped(acc: map<int, seq<Knowledge>>, ks: seq<Knowledge>) {
    acc.Keys == Generations(ks) && forall g :: g in acc ==> acc[g] == OfGeneration(ks, g)
  }

  /**
   * `knowledge.reduce(...)`: one pass over the list; the first record of a generation
   * creates that generation's group (and its key), and every record is pushed onto its group.
   */
  method GroupByGeneration(ks: seq<Knowledge>) returns (acc: map<int, seq<Knowledge>>, keys: seq<int>)
    ensures Grouped(acc, ks)
    ensures KeyList(acc, keys)
  {
    acc := map[];
    keys := [];
    for i := 0 to |ks|
      invariant Grouped(acc, ks[..i])
      invariant KeyList(acc, keys)
    {
      ghost var prev, prevKeys := acc, keys;
      var k := ks[i];
      var gen := k.generation;
      if gen !in acc {
        acc := acc[gen := []];
        keys := keys + [gen];
      }
      acc := acc[gen := acc[gen] + [k]];
      assert acc == Pushed(prev, k);
      assert keys == NewKeys(prev, prevKeys, k);
      assert ks[..i + 1] == ks[..i] + [k];
      GroupStep(prev, ks[..i], k);
      KeyListStep(prev, prevKeys, k);
    }
    assert ks[..|ks|] == ks;
  }

  /** `keys` is `Object.keys(acc)`: each key of `acc` once (the order does not matter, it is sorted next). */
  predicate KeyList(acc: map<int, seq<Knowledge>>, keys: seq<int>) {
    && (forall g :: g in keys ==> g in acc)
    && (forall g :: g in acc ==> g in keys)
    && Distinct(keys)
  }

  /** One step of the reduction: `k` appended to its generation's group, which is created when missing. */
  function Pushed(acc: map<int, seq<Knowledge>>, k: Knowledge): map<int, seq<Knowledge>> {
    var group := if k.generation in acc then acc[k.generation] else [];
    acc[k.generation := group + [k]]
  }

  /** The keys after a reduction step: a new generation's key is added at the end. */
  function NewKeys(acc: map<int, seq<Knowledge>>, keys: seq<int>, k: Knowledge): seq<int> {
    if k.generation in acc then keys else keys + [k.generation]
  }

  /** A reduction step keeps the key list. */
  lemma KeyListStep(prev: map<int, seq<Knowledge>>, keys: seq<int>, k: Knowledge)
    requires KeyList(prev, keys)
    ensures KeyList(Pushed(prev, k), NewKeys(prev, keys, k))
  {
  }

  /** A reduction step keeps the grouping: it groups the list extended by the record. */
  lemma GroupStep(prev: map<int, seq<Knowledge>>, a: seq<Knowledge>, k: Knowledge)
    requires Grouped(prev, a)
    ensures Grouped(Pushed(prev, k), a + [k])
  {
    var p := a + [k];
    var acc := Pushed(prev, k);
    assert p[..|p| - 1] == a && p[|p| - 1] == k;
    GenerationsAppend(a, k);
    forall g | g in acc ensures acc[g] == OfGeneration(p, g) {
      assert OfGeneration(p, g) == OfGeneration(a, g) + (if k.generation == g then [k] else []);
      AbsentGeneration(a, g);
    }
  }

  /** A generation that does not occur has an empty group. */
  lemma {:induction false} AbsentGeneration(a: seq<Knowledge>, g: int)
    ensures g !in Generations(a) ==> OfGeneration(a, g) == []
  {
    if a != [] {
      var init := a[..|a| - 1];
      AbsentGeneration(init, g);
      assert a == init + [a[|a| - 1]];
      GenerationsAppend(init, a[|a| - 1]);
    }
  }

  lemma GenerationsAppend(a: seq<Knowledge>, k: Knowledge)
    ensures Generations(a + [k]) == Generations(a) + {k.generation}
  {
    forall g | g in Generations(a + [k]) ensures g in Generations(a) + {k.generation} {
      var x :| x in a + [k] && x.generation == g;
    }
    forall g | g in Generations(a) ensures g in Generations(a + [k]) {
      var x :| x in a && x.generation == g;
      assert x in a + [k];
    }
    assert k in a + [k];
  }

  /** Each record lands in exactly the group of its own generation, and every group is non-empty. */
  lemma GroupMembership(acc: map<int, seq<Knowledge>>, ks: seq<Knowledge>)
    requires Grouped(acc, ks)
    ensures forall k, g :: k in ks && g in acc ==> (k in acc[g] <==> k.generation == g)
    ensures forall k :: k in ks ==> k.generation in acc
    ensures forall g :: g in acc ==> |acc[g]| > 0
  {
    forall g | g in acc ensures |acc[g]| > 0 {
      var k :| k in ks && k.generation == g;
      assert k in acc[g];
    }
  }

  /** The total size of the groups of `gens`. */
  function SizeSum(ks: seq<Knowledge>, gens: seq<int>): nat {
    if gens == [] then 0 else |OfGeneration(ks, gens[0])| + SizeSum(ks, gens[1..])
  }

  /** Over distinct generations, the group sizes add up to the number of records in those generations. */
  lemma {:induction false} SizeSumCounts(ks: seq<Knowledge>, gens: seq<int>)
    requires Distinct(gens)
    ensures SizeSum(ks, gens) == |InGenerations(ks, set g | g in gens)|
    decreases |ks|
  {
    if ks != [] {
      var init := ks[..|ks| - 1];
      var last := ks[|ks| - 1];
      var gs := set g | g in gens;
      SizeSumCounts(init, gens);
      SizeSumSplit(ks, gens);
      assert last.generation in gs <==> last.generation in gens;
      assert InGenerations(ks, gs) == InGenerations(init, gs) + (if last.generation in gs then [last] else []);
    } else {
      NothingToSum(gens);
    }
  }

  /** Over the empty list every group is empty. */
  lemma {:induction false} NothingToSum(gens: seq<int>)
    ensures SizeSum([], gens) == 0
  {
    if gens != [] {
      NothingToSum(gens[1..]);
    }
  }

  /** The records whose generation is in `gs`, in list order. */
  function InGenerations(ks: seq<Knowledge>, gs: set<int>): seq<Knowledge> {
    if ks == [] then []
    else InGenerations(ks[..|ks| - 1], gs) + (if ks[|ks| - 1].generation in gs then [ks[|ks| - 1]] else [])
  }

  /** Adding a record at the end adds one to the size sum exactly when its generation is listed. */
  lemma {:induction false} SizeSumSplit(ks: seq<Knowledge>, gens: seq<int>)
    requires ks != []
    requires Distinct(gens)
    ensures SizeSum(ks, gens) == SizeSum(ks[..|ks| - 1], gens) + (if ks[|ks| - 1].generation in gens then 1 else 0)
  {
    if gens != [] {
      SizeSumSplit(ks, gens[1..]);
      assert ks[|ks| - 1].generation in gens <==> ks[|ks| - 1].generation == gens[0] || ks[|ks| - 1].generation in gens[1..];
    }
  }

  /** The group sizes, over the sorted generation keys, add up to the length of the list. */
  lemma GroupSizesSum(acc: map<int, seq<Knowledge>>, keys: seq<int>, ks: seq<Knowledge>)
    requires Grouped(acc, ks) && KeyList(acc, keys)
    ensures SizeSum(ks, SortAscending(keys)) == |ks|
  {
    var gens := SortAscending(keys);
    DistinctSorted(keys);
    assert Distinct(gens);
    SizeSumCounts(ks, gens);
    SortKeepsValues(keys);
    var gs := set g | g in gens;
    assert Generations(ks) <= gs by {
      forall g | g in Generations(ks) ensures g in gs {
        assert g in acc;
      }
    }
    AllInGenerations(ks, gs);
  }

  /** When every generation is listed, every record is kept. */
  lemma {:induction false} AllInGenerations(ks: seq<Knowledge>, gs: set<int>)
    requires Generations(ks) <= gs
    ensures InGenerations(ks, gs) == ks
  {
    if ks != [] {
      var init := ks[..|ks| - 1];
      var last := ks[|ks| - 1];
      assert ks == init + [last];
      GenerationsAppend(init, last);
      AllInGenerations(init, gs);
      assert last.generation in gs;
    }
  }

  /** `xs` is in ascending order. */
  predicate Ascending(xs: seq<int>) {
    forall i, j :: 0 <= i < j < |xs| ==> xs[i] <= xs[j]
  }

  /** `x` put into its place in an ascending list. */
  function Insert(x: int, xs: seq<int>): (r: seq<int>)
    requires Ascending(xs)
    ensures Ascending(r)
    ensures multiset(r) == multiset(xs) + multiset{x}
    ensures |r| == |xs| + 1 && (r[0] == x || (xs != [] && r[0] == xs[0]))
  {
    if xs == [] || x <= xs[0] then
      ConsAscending(x, xs);
      [x] + xs
    else
      assert xs == [xs[0]] + xs[1..];
      var rest := Insert(x, xs[1..]);
      ConsAscending(xs[0], rest);
      [xs[0]] + rest
  }

  /** A value no larger than the head of an ascending list extends it. */
  lemma ConsAscending(a: int, t: seq<int>)
    requires Ascending(t) && (t == [] || a <= t[0])
    ensures Ascending([a] + t)
  {
    var r := [a] + t;
    forall i, j | 0 <= i < j < |r| ensures r[i] <= r[j] {
      assert r[j] == t[j - 1];
      if i > 0 {
        assert r[i] == t[i - 1];
      } else {
        assert t[0] <= t[j - 1];
      }
    }
  }

  /** `.sort((a, b) => a - b)`: the numbers in ascending order, as a permutation of the input. */
  function SortAscending(xs: seq<int>): (r: seq<int>)
    ensures Ascending(r)
    ensures multiset(r) == multiset(xs)
  {
    if xs == [] then []
    else
      assert xs == [xs[0]] + xs[1..];
      Insert(xs[0], SortAscending(xs[1..]))
  }

  /**
   * The generations the page renders: distinct, ascending, exactly the generations of
   * the list, and each with a non-empty group.
   */
  lemma GenerationKeys(acc: map<int, seq<Knowledge>>, keys: seq<int>, ks: seq<Knowledge>)
    requires Grouped(acc, ks) && KeyList(acc, keys)
    ensures var gens := SortAscending(keys);
      && Increasing(gens)
      && (forall g :: g in gens <==> exists k :: k in ks && k.generation == g)
      && (forall g :: g in gens ==> g in acc && |acc[g]| > 0)
  {
    GroupMembership(acc, ks);
    DistinctSorted(keys);
    var gens := SortAscending(keys);
    SortKeepsValues(keys);
  }

  /** Sorting keeps exactly the values of the list. */
  lemma SortKeepsValues(keys: seq<int>)
    ensures forall g :: g in SortAscending(keys) <==> g in keys
  {
    var gens := SortAscending(keys);
    forall g ensures g in gens <==> g in keys {
      assert g in gens <==> g in multiset(gens);
      assert g in keys <==> g in multiset(keys);
    }
  }

  /** `xs` is strictly ascending. */
  predicate Increasing(xs: seq<int>) {
    forall i, j :: 0 <= i < j < |xs| ==> xs[i] < xs[j]
  }

  /** Sorting a list without repeats gives a strictly ascending list without repeats. */
  lemma DistinctSorted(keys: seq<int>)
    requires Distinct(keys)
    ensures Increasing(SortAscending(keys))
  {
    var r := SortAscending(keys);
    forall i, j | 0 <= i < j < |r| ensures r[i] < r[j] {
      assert r[i] <= r[j];
      PermutedNoRepeats(keys, r, i, j);
    }
  }

  /** A permutation of a list without repeats has none either. */
  lemma PermutedNoRepeats(keys: seq<int>, r: seq<int>, i: int, j: int)
    requires Distinct(keys)
    requires multiset(r) == multiset(keys)
    requires 0 <= i < j < |r|
    ensures r[i] != r[j]
  {
    AtMostOnce(keys);
    var x := r[i];
    assert r == r[..i] + [x] + r[i + 1..j] + [r[j]] + r[j + 1..];
    assert multiset(r)[x] >= 1 + multiset{r[j]}[x];
  }

  /** In a list without repeats every value occurs at most once. */
  lemma {:induction false} AtMostOnce(s: seq<int>)
    requires Distinct(s)
    ensures forall x :: multiset(s)[x] <= 1
  {
    if s != [] {
      assert s == [s[0]] + s[1..];
      AtMostOnce(s[1..]);
      assert s[0] !in s[1..];
    }
  }
}
