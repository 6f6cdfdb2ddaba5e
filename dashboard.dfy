/**
 * The two computations of the dashboard over the findings of an analysis:
 * the findings at or above the confidence threshold, and the number of
 * those findings per NIS2 domain for the chart.
 */
module Dashboard {
  import opened Text
  import opened Analyzer

  // ------------------------------------------------------------------
  // Threshold filter
  // ------------------------------------------------------------------

  /** `findings.filter(f => f.confidence >= threshold)` */
  function Filtered(findings: seq<Finding>, threshold: real): (r: seq<Finding>)
    ensures forall k | 0 <= k < |r| :: r[k].confidence >= threshold
    ensures IsSubseq(r, findings)
    ensures |r| <= |findings|
    decreases |findings|
  {
    if findings == [] then []
    else
      var init := findings[..|findings| - 1];
      var last := findings[|findings| - 1];
      var rest := Filtered(init, threshold);
      if last.confidence >= threshold then
        var r := rest + [last];
        assert r[..|r| - 1] == rest;
        r
      else
        assert |rest| <= |init|;
        rest
  }

  /**
   * Filtering keeps every copy of a finding that reaches the threshold
   * and no copy of one that does not.
   */
  lemma {:induction false} FilteredCounts(findings: seq<Finding>, threshold: real, g: Finding)
    ensures multiset(Filtered(findings, threshold))[g]
         == if g.confidence >= threshold then multiset(findings)[g] else 0
    decreases |findings|
  {
    if findings != [] {
      var init := findings[..|findings| - 1];
      var last := findings[|findings| - 1];
      FilteredCounts(init, threshold, g);
      assert findings == init + [last];
      assert multiset(findings) == multiset(init) + multiset{last};
      if last.confidence >= threshold {
        assert multiset(Filtered(findings, threshold)) == multiset(Filtered(init, threshold)) + multiset{last};
      }
    }
  }

  /** A finding is kept exactly when it is one of the findings and reaches the threshold. */
  lemma {:induction false} FilteredMembers(findings: seq<Finding>, threshold: real, f: Finding)
    ensures f in Filtered(findings, threshold) <==> f in findings && f.confidence >= threshold
    decreases |findings|
  {
    if findings != [] {
      var init := findings[..|findings| - 1];
      var last := findings[|findings| - 1];
      FilteredMembers(init, threshold, f);
      assert findings == init + [last];
    }
  }

  /** A threshold no finding falls below keeps every finding. */
  lemma {:induction false} FilteredKeepsAll(findings: seq<Finding>, threshold: real)
    requires forall k | 0 <= k < |findings| :: findings[k].confidence >= threshold
    ensures Filtered(findings, threshold) == findings
    decreases |findings|
  {
    if findings != [] {
      var init := findings[..|findings| - 1];
      FilteredKeepsAll(init, threshold);
      assert findings == init + [findings[|findings| - 1]];
    }
  }

  /** Raising the threshold keeps a subsequence of what the lower threshold keeps. */
  lemma {:induction false} FilteredMonotone(findings: seq<Finding>, low: real, high: real)
    requires low <= high
    ensures IsSubseq(Filtered(findings, high), Filtered(findings, low))
    decreases |findings|
  {
    if findings != [] {
      var init := findings[..|findings| - 1];
      var last := findings[|findings| - 1];
      FilteredMonotone(init, low, high);
      var h := Filtered(init, high);
      var l := Filtered(init, low);
      if last.confidence >= high {
        var h' := h + [last];
        var l' := l + [last];
        assert h'[..|h'| - 1] == h && l'[..|l'| - 1] == l;
      } else if last.confidence >= low {
        var l' := l + [last];
        assert l'[..|l'| - 1] == l;
        SubseqDropLast(h, l');
      }
    }
  }

  // ------------------------------------------------------------------
  // Counts per domain
  // ------------------------------------------------------------------

  /** One slice of the chart: a domain and its number of findings. */
  datatype ChartEntry = ChartEntry(name: string, value: nat)

  /** The domain of each finding, in order. */
  function Domains(findings: seq<Finding>): (ds: seq<string>)
    ensures |ds| == |findings|
    ensures forall k | 0 <= k < |findings| :: ds[k] == findings[k].nis2Domain
  {
    seq(|findings|, k requires 0 <= k < |findings| => findings[k].nis2Domain)
  }

  /** Number of occurrences of `d` in `ds`. */
  function CountOf(ds: seq<string>, d: string): (n: nat)
    ensures n <= |ds|
    ensures n == 0 <==> d !in ds
    decreases |ds|
  {
    if ds == [] then 0
    else
      var init := ds[..|ds| - 1];
      assert ds == init + [ds[|ds| - 1]];
      CountOf(init, d) + (if ds[|ds| - 1] == d then 1 else 0)
  }

  /** The distinct elements of `ds`, in the order of their first occurrence. */
  function DistinctInOrder(ds: seq<string>): (r: seq<string>)
    ensures forall d :: d in r <==> d in ds
    decreases |ds|
  {
    if ds == [] then []
    else
      var init := ds[..|ds| - 1];
      var last := ds[|ds| - 1];
      assert ds == init + [last];
      if last in init then DistinctInOrder(init) else DistinctInOrder(init) + [last]
  }

  /** One more element is one more distinct name exactly when it is new. */
  lemma DistinctInOrderSnoc(ds: seq<string>, x: string)
    ensures DistinctInOrder(ds + [x]) == if x in ds then DistinctInOrder(ds) else DistinctInOrder(ds) + [x]
  {
    assert (ds + [x])[..|ds + [x]| - 1] == ds;
  }

  /** One more element adds one to its own count and nothing to the others. */
  lemma CountOfSnoc(ds: seq<string>, x: string, d: string)
    ensures CountOf(ds + [x], d) == CountOf(ds, d) + (if x == d then 1 else 0)
  {
    assert (ds + [x])[..|ds + [x]| - 1] == ds;
  }

  predicate Distinct(names: seq<string>) {
    forall j, k | 0 <= j < k < |names| :: names[j] != names[k]
  }

  lemma {:induction false} DistinctInOrderIsDistinct(ds: seq<string>)
    ensures Distinct(DistinctInOrder(ds))
    decreases |ds|
  {
    if ds != [] {
      DistinctInOrderIsDistinct(ds[..|ds| - 1]);
    }
  }

  /** The counts of `names` in `ds`, added up. */
  function SumOfCounts(names: seq<string>, ds: seq<string>): nat
    decreases |names|
  {
    if names == [] then 0
    else SumOfCounts(names[..|names| - 1], ds) + CountOf(ds, names[|names| - 1])
  }

  /** One more `x` adds one to the sum exactly when `x` is one of the (distinct) names. */
  lemma {:induction false} SumOfCountsSnoc(names: seq<string>, ds: seq<string>, x: string)
    requires Distinct(names)
    ensures SumOfCounts(names, ds + [x]) == SumOfCounts(names, ds) + (if x in names then 1 else 0)
    decreases |names|
  {
    assert (ds + [x])[..|ds + [x]| - 1] == ds;
    if names != [] {
      var init := names[..|names| - 1];
      var n := names[|names| - 1];
      SumOfCountsSnoc(init, ds, x);
      assert names == init + [n];
      if x == n {
        assert x !in init;
      }
    }
  }

  /** Each element of `ds` is counted under exactly one of its distinct names. */
  lemma {:induction false} CountsAddUp(ds: seq<string>)
    ensures SumOfCounts(DistinctInOrder(ds), ds) == |ds|
    decreases |ds|
  {
    if ds != [] {
      var init := ds[..|ds| - 1];
      var x := ds[|ds| - 1];
      assert ds == init + [x];
      CountsAddUp(init);
      var names := DistinctInOrder(init);
      DistinctInOrderIsDistinct(init);
      SumOfCountsSnoc(names, init, x);
      if x !in init {
        var names' := names + [x];
        assert names'[..|names'| - 1] == names;
        assert CountOf(ds, x) == 1;
      }
    }
  }

  function Names(entries: seq<ChartEntry>): (ns: seq<string>)
    ensures |ns| == |entries|
    ensures forall k | 0 <= k < |entries| :: ns[k] == entries[k].name
  {
    seq(|entries|, k requires 0 <= k < |entries| => entries[k].name)
  }

  /** Sum of the chart's values. */
  function Total(entries: seq<ChartEntry>): nat
    decreases |entries|
  {
    if entries == [] then 0 else Total(entries[..|entries| - 1]) + entries[|entries| - 1].value
  }

  /** The total of entries that carry the counts of their names is the sum of those counts. */
  lemma {:induction false} TotalIsSumOfCounts(entries: seq<ChartEntry>, ds: seq<string>)
    requires forall k | 0 <= k < |entries| :: entries[k].value == CountOf(ds, entries[k].name)
    ensures Total(entries) == SumOfCounts(Names(entries), ds)
    decreases |entries|
  {
    if entries != [] {
      var init := entries[..|entries| - 1];
      TotalIsSumOfCounts(init, ds);
      assert Names(entries)[..|entries| - 1] == Names(init);
    }
  }

  /** `counts` holds the count of every domain of `seen`, and `order` lists those domains as first seen. */
  ghost predicate Tallies(counts: map<string, nat>, order: seq<string>, seen: seq<string>) {
    && order == DistinctInOrder(seen)
    && (forall d :: d in counts <==> d in order)
    && (forall d | d in counts :: counts[d] == CountOf(seen, d))
  }

  /** Counting one more domain keeps the tally. */
  lemma TallyStep(counts: map<string, nat>, order: seq<string>, seen: seq<string>, d: string)
    requires Tallies(counts, order, seen)
    ensures Tallies(counts[d := (if d !in counts then 0 else counts[d]) + 1],
                    if d !in counts then order + [d] else order, seen + [d])
  {
    DistinctInOrderSnoc(seen, d);
    forall e ensures CountOf(seen + [d], e) == CountOf(seen, e) + (if d == e then 1 else 0) {
      CountOfSnoc(seen, d, e);
    }
  }

  /**
   * chartData: the count of findings per domain, gathered in a map while
   * the domains' first-seen order is kept, then listed as entries.
   */
  method ChartData(filtered: seq<Finding>) returns (entries: seq<ChartEntry>)
    ensures Names(entries) == DistinctInOrder(Domains(filtered))
    ensures Distinct(Names(entries))
    ensures forall k | 0 <= k < |entries| ::
      entries[k].value == CountOf(Domains(filtered), entries[k].name) && entries[k].value >= 1
    ensures Total(entries) == |filtered|
  {
    ghost var ds := Domains(filtered);
    var counts: map<string, nat> := map[];
    var order: seq<string> := [];
    var i := 0;
    while i < |filtered|
      invariant 0 <= i <= |filtered|
      invariant Tallies(counts, order, ds[..i])
    {
      var d := filtered[i].nis2Domain;
      assert ds[..i + 1] == ds[..i] + [d];
      TallyStep(counts, order, ds[..i], d);
      var isNew := d !in counts;
      counts := counts[d := (if isNew then 0 else counts[d]) + 1];
      if isNew {
        order := order + [d];
      }
      i := i + 1;
    }
    assert ds[..i] == ds;
    entries := seq(|order|, k requires 0 <= k < |order| => ChartEntry(order[k], counts[order[k]]));
    EntriesOfCounts(ds, counts, order, entries);
  }

  /** The entries listed from complete counts of `ds` in first-seen order are the chart of `ds`. */
  lemma EntriesOfCounts(ds: seq<string>, counts: map<string, nat>, order: seq<string>, entries: seq<ChartEntry>)
    requires order == DistinctInOrder(ds)
    requires forall d :: d in counts <==> d in order
    requires forall d | d in counts :: counts[d] == CountOf(ds, d)
    requires |entries| == |order|
    requires forall k | 0 <= k < |order| :: entries[k] == ChartEntry(order[k], counts[order[k]])
    ensures Names(entries) == order
    ensures Distinct(Names(entries))
    ensures forall k | 0 <= k < |entries| ::
      entries[k].value == CountOf(ds, entries[k].name) && entries[k].value >= 1
    ensures Total(entries) == |ds|
  {
    assert Names(entries) == order;
    DistinctInOrderIsDistinct(ds);
    TotalIsSumOfCounts(entries, ds);
    CountsAddUp(ds);
  }
}
