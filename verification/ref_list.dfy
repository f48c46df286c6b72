/**
  `HaskellRefList` of components/HaskellRef.tsx: the number of entries of
  each kind, the filter bar with one button per kind present, the set of
  active kind filters, and the entries the list shows for it.
*/
module RefList {
  import opened Options
  import opened Defs

  /** The number of entries of kind k (the component's `kindCounts[k]`, 0 when absent). */
  function Count(defs: seq<HaskellDef>, k: Kind): (n: nat)
    ensures n <= |defs|
    decreases |defs|
  {
    if defs == [] then 0
    else Count(defs[..|defs| - 1], k) + if KindOf(defs[|defs| - 1]) == k then 1 else 0
  }

  /**
    The kinds present, in the order they first appear: the keys of
    `kindCounts` in insertion order, which is `Object.keys` order for
    non-numeric keys.
  */
  function KindsOf(defs: seq<HaskellDef>): (ks: seq<Kind>)
    decreases |defs|
  {
    if defs == [] then []
    else
      var ks := KindsOf(defs[..|defs| - 1]);
      var k := KindOf(defs[|defs| - 1]);
      if k in ks then ks else ks + [k]
  }

  /** No kind is listed twice. */
  predicate Distinct(ks: seq<Kind>) {
    forall i, j :: 0 <= i < j < |ks| ==> ks[i] != ks[j]
  }

  /** Some entry has kind k. */
  predicate Occurs(defs: seq<HaskellDef>, k: Kind) {
    exists i :: 0 <= i < |defs| && KindOf(defs[i]) == k
  }

  /** The kinds listed are distinct, and a kind is listed exactly when some entry has it, exactly when it counts at least one. */
  lemma {:induction false} KindsOfExactly(defs: seq<HaskellDef>)
    ensures Distinct(KindsOf(defs))
    ensures forall k :: k in KindsOf(defs) <==> Occurs(defs, k)
    ensures forall k :: Occurs(defs, k) <==> Count(defs, k) > 0
    decreases |defs|
  {
    if defs != [] {
      var init := defs[..|defs| - 1];
      var last := KindOf(defs[|defs| - 1]);
      KindsOfExactly(init);
      forall k
        ensures Occurs(defs, k) <==> Occurs(init, k) || last == k
      {
        if Occurs(defs, k) {
          var i :| 0 <= i < |defs| && KindOf(defs[i]) == k;
          if i < |init| {
            assert init[i] == defs[i];
          }
        }
        if Occurs(init, k) {
          var i :| 0 <= i < |init| && KindOf(init[i]) == k;
          assert defs[i] == init[i];
        }
      }
    }
  }

  /** The sum of the counts of the kinds listed. */
  function CountSum(defs: seq<HaskellDef>, ks: seq<Kind>): nat
    decreases |ks|
  {
    if ks == [] then 0 else Count(defs, ks[0]) + CountSum(defs, ks[1..])
  }

  /** A kind's count over distinct kinds that include it, and a count over kinds that leave it out. */
  lemma {:induction false} CountSumStep(defs: seq<HaskellDef>, ks: seq<Kind>, k: Kind)
    requires |defs| > 0 && Distinct(ks)
    requires k == KindOf(defs[|defs| - 1])
    ensures CountSum(defs, ks) == CountSum(defs[..|defs| - 1], ks) + if k in ks then 1 else 0
    decreases |ks|
  {
    if ks != [] {
      assert Distinct(ks[1..]) by {
        forall i, j | 0 <= i < j < |ks[1..]|
          ensures ks[1..][i] != ks[1..][j]
        {
          assert ks[1..][i] == ks[i + 1] && ks[1..][j] == ks[j + 1];
        }
      }
      CountSumStep(defs, ks[1..], k);
      if ks[0] == k {
        assert k !in ks[1..] by {
          forall i | 0 <= i < |ks[1..]|
            ensures ks[1..][i] != k
          {
            assert ks[1..][i] == ks[i + 1];
          }
        }
      } else {
        assert k in ks <==> k in ks[1..] by {
          assert ks == [ks[0]] + ks[1..];
        }
      }
    }
  }

  lemma {:induction false} CountSumAppend(defs: seq<HaskellDef>, ks: seq<Kind>, k: Kind)
    ensures CountSum(defs, ks + [k]) == CountSum(defs, ks) + Count(defs, k)
    decreases |ks|
  {
    if ks == [] {
      assert [] + [k] == [k];
    } else {
      assert (ks + [k])[1..] == ks[1..] + [k];
      CountSumAppend(defs, ks[1..], k);
    }
  }

  /** Every entry is counted exactly once: the counts of the kinds listed add up to the number of entries. */
  lemma {:induction false} CountsAddUp(defs: seq<HaskellDef>)
    ensures CountSum(defs, KindsOf(defs)) == |defs|
    decreases |defs|
  {
    if defs != [] {
      var init := defs[..|defs| - 1];
      var k := KindOf(defs[|defs| - 1]);
      var ks := KindsOf(init);
      CountsAddUp(init);
      KindsOfExactly(init);
      KindsOfExactly(defs);
      CountSumStep(defs, ks, k);
      if k !in ks {
        CountSumAppend(defs, ks, k);
        assert !Occurs(init, k);
        assert Count(init, k) == 0;
      }
    }
  }

  /**
    The `kindCounts` memo with its loop over the entries, together with
    `Object.keys(kindCounts)`: the kinds in order of first appearance and
    the count of each.
  */
  method KindCounts(defs: seq<HaskellDef>) returns (kinds: seq<Kind>, counts: map<Kind, nat>)
    ensures kinds == KindsOf(defs)
    ensures forall k :: k in counts <==> k in kinds
    ensures forall k :: k in counts ==> counts[k] == Count(defs, k) && counts[k] > 0
  {
    kinds := [];
    counts := map[];
    var i := 0;
    while i < |defs|
      invariant 0 <= i <= |defs|
      invariant kinds == KindsOf(defs[..i])
      invariant forall k :: k in counts <==> k in kinds
      invariant forall k :: k in counts ==> counts[k] == Count(defs[..i], k)
    {
      var k := KindOf(defs[i]);
      assert defs[..i + 1][..i] == defs[..i];
      if k in counts {
        counts := counts[k := counts[k] + 1];
      } else {
        KindsOfExactly(defs[..i]);
        counts := counts[k := 1];
        kinds := kinds + [k];
      }
      i := i + 1;
    }
    assert defs[..i] == defs;
    KindsOfExactly(defs);
  }

  /** The filter bar appears when more than one kind is present. */
  function FilterBarShown(defs: seq<HaskellDef>): bool {
    |KindsOf(defs)| > 1
  }

  /** The filter bar appears exactly when two entries differ in kind. */
  lemma FilterBarIffMixedKinds(defs: seq<HaskellDef>)
    ensures FilterBarShown(defs) <==>
      exists i, j :: 0 <= i < |defs| && 0 <= j < |defs| && KindOf(defs[i]) != KindOf(defs[j])
  {
    var ks := KindsOf(defs);
    KindsOfExactly(defs);
    if |ks| > 1 {
      assert ks[0] in ks && ks[1] in ks;
      var i :| 0 <= i < |defs| && KindOf(defs[i]) == ks[0];
      var j :| 0 <= j < |defs| && KindOf(defs[j]) == ks[1];
      assert KindOf(defs[i]) != KindOf(defs[j]);
    }
    if exists i, j :: 0 <= i < |defs| && 0 <= j < |defs| && KindOf(defs[i]) != KindOf(defs[j]) {
      var i, j :| 0 <= i < |defs| && 0 <= j < |defs| && KindOf(defs[i]) != KindOf(defs[j]);
      var a, b := KindOf(defs[i]), KindOf(defs[j]);
      assert a in ks && b in ks;
    }
  }

  /** One button of the filter bar: the kind, whether it is active, its count. */
  datatype FilterButton = FilterButton(kind: Kind, active: bool, count: nat)

  /** The buttons of the filter bar, one per kind present, in `kinds` order. */
  function FilterButtons(defs: seq<HaskellDef>, active: set<Kind>): (r: seq<FilterButton>)
    ensures |r| == |KindsOf(defs)|
    ensures forall i :: 0 <= i < |r| ==>
      r[i].kind == KindsOf(defs)[i] && (r[i].active <==> r[i].kind in active) && r[i].count == Count(defs, r[i].kind)
  {
    var ks := KindsOf(defs);
    seq(|ks|, i requires 0 <= i < |ks| => FilterButton(ks[i], ks[i] in active, Count(defs, ks[i])))
  }

  /** The sum of the counts on the buttons. */
  function ButtonTotal(bs: seq<FilterButton>): nat
    decreases |bs|
  {
    if bs == [] then 0 else bs[0].count + ButtonTotal(bs[1..])
  }

  lemma {:induction false} ButtonTotalIsCountSum(defs: seq<HaskellDef>, ks: seq<Kind>, bs: seq<FilterButton>)
    requires |bs| == |ks| && forall i :: 0 <= i < |bs| ==> bs[i].count == Count(defs, ks[i])
    ensures ButtonTotal(bs) == CountSum(defs, ks)
    decreases |ks|
  {
    if ks != [] {
      ButtonTotalIsCountSum(defs, ks[1..], bs[1..]);
    }
  }

  /** The counts on the filter buttons add up to the number of entries. */
  lemma FilterButtonsAddUp(defs: seq<HaskellDef>, active: set<Kind>)
    ensures ButtonTotal(FilterButtons(defs, active)) == |defs|
  {
    ButtonTotalIsCountSum(defs, KindsOf(defs), FilterButtons(defs, active));
    CountsAddUp(defs);
  }

  /** The entries whose kind is in active, in their order. */
  function KeepKinds(defs: seq<HaskellDef>, active: set<Kind>): (r: seq<HaskellDef>)
    ensures |r| <= |defs|
    ensures forall i :: 0 <= i < |r| ==> KindOf(r[i]) in active
    decreases |defs|
  {
    if defs == [] then []
    else
      var rest := KeepKinds(defs[..|defs| - 1], active);
      if KindOf(defs[|defs| - 1]) in active then rest + [defs[|defs| - 1]] else rest
  }

  /** `filteredDefs`: every entry when no filter is active, else the entries of the active kinds. */
  function Filtered(defs: seq<HaskellDef>, active: set<Kind>): (r: seq<HaskellDef>)
    ensures |r| <= |defs|
    ensures active != {} ==> forall i :: 0 <= i < |r| ==> KindOf(r[i]) in active
  {
    if |active| == 0 then defs else KeepKinds(defs, active)
  }

  /** Filtering keeps every entry of an active kind, drops every other, and keeps their order. */
  lemma {:induction false} KeepKindsCounts(defs: seq<HaskellDef>, active: set<Kind>, k: Kind)
    ensures Count(KeepKinds(defs, active), k) == if k in active then Count(defs, k) else 0
    decreases |defs|
  {
    if defs != [] {
      var init := defs[..|defs| - 1];
      var rest := KeepKinds(init, active);
      KeepKindsCounts(init, active, k);
      if KindOf(defs[|defs| - 1]) in active {
        assert (rest + [defs[|defs| - 1]])[..|rest|] == rest;
      }
    }
  }

  /** The number of entries of each kind the list shows. */
  lemma FilteredCounts(defs: seq<HaskellDef>, active: set<Kind>, k: Kind)
    ensures Count(Filtered(defs, active), k) ==
      if active == {} || k in active then Count(defs, k) else 0
  {
    if active != {} {
      KeepKindsCounts(defs, active, k);
    }
  }

  /**
    Filtering works entry by entry and keeps the order: the entries of a
    concatenation are filtered part by part, and a single entry stays
    exactly when its kind is active.
  */
  lemma {:induction false} KeepKindsSplits(a: seq<HaskellDef>, b: seq<HaskellDef>, active: set<Kind>)
    ensures KeepKinds(a + b, active) == KeepKinds(a, active) + KeepKinds(b, active)
    ensures |b| == 1 ==> KeepKinds(b, active) == if KindOf(b[0]) in active then b else []
    decreases |b|
  {
    if b == [] {
      assert a + b == a;
    } else {
      var b' := b[..|b| - 1];
      var x := b[|b| - 1];
      assert (a + b)[..|a + b| - 1] == a + b';
      KeepKindsSplits(a, b', active);
      if |b| == 1 {
        assert b' == [];
      }
    }
  }

  /** Clearing the filters shows every entry again. */
  lemma FilteredByNothing(defs: seq<HaskellDef>)
    ensures Filtered(defs, ClearFilters()) == defs
  {
  }

  /** Filtering on every kind present shows every entry. */
  lemma {:induction false} KeepAllPresentKinds(defs: seq<HaskellDef>, active: set<Kind>)
    requires forall i :: 0 <= i < |defs| ==> KindOf(defs[i]) in active
    ensures KeepKinds(defs, active) == defs
    decreases |defs|
  {
    if defs != [] {
      KeepAllPresentKinds(defs[..|defs| - 1], active);
      assert defs[..|defs| - 1] + [defs[|defs| - 1]] == defs;
    }
  }

  /** `toggleFilter(kind)`: removes the kind from the active set when it is there, adds it otherwise. */
  function ToggleFilter(active: set<Kind>, k: Kind): (r: set<Kind>)
    ensures k in r <==> k !in active
    ensures forall j :: j != k ==> (j in r <==> j in active)
  {
    if k in active then active - {k} else active + {k}
  }

  /** Toggling the same kind twice restores the filters; toggles of different kinds commute. */
  lemma ToggleFilterLaws(active: set<Kind>, a: Kind, b: Kind)
    ensures ToggleFilter(ToggleFilter(active, a), a) == active
    ensures ToggleFilter(ToggleFilter(active, a), b) == ToggleFilter(ToggleFilter(active, b), a)
  {
  }

  /** `clearFilters`: no filter active. */
  function ClearFilters(): (r: set<Kind>)
    ensures forall k :: k !in r
  {
    {}
  }

  /** The results line, `Showing n of m items`, present only while a filter is active. */
  datatype Results = Results(shown: nat, total: nat)

  /**
    The Clear button sits inside the filter bar, so it appears while a
    filter is active and more than one kind is present.
  */
  function ClearShown(defs: seq<HaskellDef>, active: set<Kind>): (r: bool)
    ensures r <==> FilterBarShown(defs) && exists k :: k in active
  {
    FilterBarShown(defs) && |active| > 0
  }

  /** `Showing n of m items`: n entries shown out of all m, while some filter is active. */
  function ResultsLine(defs: seq<HaskellDef>, active: set<Kind>): (r: Option<Results>)
    ensures r.Some? <==> active != {}
    ensures r.Some? ==> r.value.shown == |Filtered(defs, active)| && r.value.shown <= r.value.total == |defs|
  {
    if |active| > 0 then Some(Results(|Filtered(defs, active)|, |defs|)) else None
  }

  /** Whenever the Clear button shows, so does the results line; clearing hides both. */
  lemma ClearAndResults(defs: seq<HaskellDef>, active: set<Kind>)
    ensures ClearShown(defs, active) ==> ResultsLine(defs, active).Some?
    ensures !ClearShown(defs, ClearFilters()) && ResultsLine(defs, ClearFilters()).None?
  {
  }

  /** The sum of the counts on the active buttons. */
  function ActiveTotal(bs: seq<FilterButton>): nat
    decreases |bs|
  {
    if bs == [] then 0 else (if bs[0].active then bs[0].count else 0) + ActiveTotal(bs[1..])
  }

  /** No entries count nothing, whatever kinds are listed. */
  lemma {:induction false} CountSumOfNothing(ks: seq<Kind>)
    ensures CountSum([], ks) == 0
    decreases |ks|
  {
    if ks != [] {
      CountSumOfNothing(ks[1..]);
    }
  }

  /** Distinct kinds that cover every entry's kind count every entry exactly once. */
  lemma {:induction false} CountSumCovers(xs: seq<HaskellDef>, ks: seq<Kind>)
    requires Distinct(ks)
    requires forall i :: 0 <= i < |xs| ==> KindOf(xs[i]) in ks
    ensures CountSum(xs, ks) == |xs|
    decreases |xs|
  {
    if xs == [] {
      CountSumOfNothing(ks);
    } else {
      var init := xs[..|xs| - 1];
      forall i | 0 <= i < |init|
        ensures KindOf(init[i]) in ks
      {
        assert init[i] == xs[i];
      }
      CountSumCovers(init, ks);
      CountSumStep(xs, ks, KindOf(xs[|xs| - 1]));
    }
  }

  /** The active buttons' counts add up to what the shown entries count over the same kinds. */
  lemma {:induction false} ActiveTotalIsShownSum(defs: seq<HaskellDef>, active: set<Kind>, ks: seq<Kind>, bs: seq<FilterButton>)
    requires active != {}
    requires |bs| == |ks|
    requires forall i :: 0 <= i < |bs| ==> bs[i].count == Count(defs, ks[i]) && (bs[i].active <==> ks[i] in active)
    ensures ActiveTotal(bs) == CountSum(Filtered(defs, active), ks)
    decreases |ks|
  {
    if ks != [] {
      ActiveTotalIsShownSum(defs, active, ks[1..], bs[1..]);
      FilteredCounts(defs, active, ks[0]);
    }
  }

  /** The `n` of the results line is the sum of the counts on the active filter buttons. */
  lemma ResultsShowActiveTotal(defs: seq<HaskellDef>, active: set<Kind>)
    requires active != {}
    ensures ResultsLine(defs, active).value.shown == ActiveTotal(FilterButtons(defs, active))
  {
    var ks := KindsOf(defs);
    var f := Filtered(defs, active);
    KindsOfExactly(defs);
    KindsOfExactly(f);
    forall i | 0 <= i < |f|
      ensures KindOf(f[i]) in ks
    {
      var k := KindOf(f[i]);
      assert Occurs(f, k);
      FilteredCounts(defs, active, k);
    }
    CountSumCovers(f, ks);
    ActiveTotalIsShownSum(defs, active, ks, FilterButtons(defs, active));
  }

  /** Distinct kinds are as many as the kinds they list. */
  lemma {:induction false} DistinctCard(ks: seq<Kind>)
    requires Distinct(ks)
    ensures |set k | k in ks| == |ks|
    decreases |ks|
  {
    if ks != [] {
      var t := ks[1..];
      assert Distinct(t) by {
        forall i, j | 0 <= i < j < |t|
          ensures t[i] != t[j]
        {
          assert t[i] == ks[i + 1] && t[j] == ks[j + 1];
        }
      }
      DistinctCard(t);
      assert (set k | k in ks) == (set k | k in t) + {ks[0]} by {
        assert ks == [ks[0]] + t;
      }
      assert ks[0] !in t by {
        forall i | 0 <= i < |t|
          ensures t[i] != ks[0]
        {
          assert t[i] == ks[i + 1];
        }
      }
    }
  }

  /** The filter bar has at most one button for each of the six kinds. */
  lemma AtMostSixButtons(defs: seq<HaskellDef>, active: set<Kind>)
    ensures |FilterButtons(defs, active)| <= |AllKinds|
  {
    var ks := KindsOf(defs);
    KindsOfExactly(defs);
    KindsAndNames();
    DistinctCard(ks);
    DistinctCard(AllKinds);
    var listed, all := set k | k in ks, set k | k in AllKinds;
    assert listed <= all;
    assert all == listed + (all - listed);
  }
}
