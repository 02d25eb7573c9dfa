/** What `resolve_targets` guarantees: the invariants every subdivision
    keeps, and the properties of a successful resolution that follow. */
module TargetLaws {
  import opened Common
  import opened Tree
  import opened Targets

  /** The allocations of `t`, when numeric, add up to exactly 100. */
  predicate ExactTarget(t: TargetInfo) {
    Numeric(t.allocations).Some? ==> Sum(Values(Numeric(t.allocations).value)) == 100.0
  }

  predicate AllExact(ts: seq<TargetInfo>) {
    forall t :: t in ts ==> ExactTarget(t)
  }

  /** The invariant of the tree while targets are applied: the root keeps
      every metadata ticker and 100 percent, children partition their
      parent, every node but the root holds a ticker, the root is a branch
      as soon as anything was subdivided, and, when every target's
      allocations add up to exactly 100, children share out exactly their
      parent's percentage. */
  ghost predicate TreeInv(nodes: seq<NodeRec>, metadata: Metadata, exact: bool) {
    && WellFormed(nodes)
    && nodes[0].tickers == Keys(metadata) && nodes[0].absolutePct == 100.0
    && Partitioned(nodes)
    && (exact ==> Conserved(nodes))
    && (forall i :: 0 < i < |nodes| ==> nodes[i].tickers != [])
    && (|nodes| == 1 || nodes[0].children.Some?)
  }

  // ---------------------------------------------------------------------------
  // Groups and the children made from them
  // ---------------------------------------------------------------------------

  lemma {:induction false} WithValueHas(metadata: Metadata, tickers: seq<Ticker>, column: string, t: Ticker)
    requires t in tickers
    ensures t in WithValue(metadata, tickers, column, ColumnValue(metadata, t, column))
    decreases |tickers|
  {
    var front := tickers[..|tickers| - 1];
    var last := tickers[|tickers| - 1];
    assert tickers == front + [last];
    if t != last {
      WithValueHas(metadata, front, column, t);
    }
  }

  /** The value of every ticker is a key of its groups. */
  lemma GroupValueIsKey(metadata: Metadata, tickers: seq<Ticker>, column: string, t: Ticker)
    requires t in tickers
    ensures ColumnValue(metadata, t, column) in Keys(GroupBy(metadata, tickers, column))
  {
    var v := ColumnValue(metadata, t, column);
    GroupByLookup(metadata, tickers, column, v);
    WithValueHas(metadata, tickers, column, t);
    LookupSome(GroupBy(metadata, tickers, column), v);
  }

  /** A key of the groups is the value of some ticker, and its group is
      exactly the tickers having it. */
  lemma GroupOfKey(metadata: Metadata, tickers: seq<Ticker>, column: string, k: string)
    ensures k in Keys(GroupBy(metadata, tickers, column)) <==> WithValue(metadata, tickers, column, k) != []
    ensures GetOr(GroupBy(metadata, tickers, column), k, []) == WithValue(metadata, tickers, column, k)
  {
    GroupByLookup(metadata, tickers, column, k);
    LookupSome(GroupBy(metadata, tickers, column), k);
  }

  lemma {:induction false} CollectGroupBy(metadata: Metadata, tickers: seq<Ticker>, column: string, keys: seq<string>)
    ensures Collect(keys, GroupBy(metadata, tickers, column)) == CollectByValue(metadata, tickers, column, keys)
  {
    if keys != [] {
      GroupOfKey(metadata, tickers, column, keys[0]);
      CollectGroupBy(metadata, tickers, column, keys[1..]);
    }
  }

  /** Nodes whose tickers and percentages are unchanged have unchanged sums. */
  lemma {:induction false} LinksFrame(before: seq<NodeRec>, after: seq<NodeRec>, cs: seq<(string, nat)>)
    requires LinksInArena(before, cs) && |before| <= |after|
    requires forall j :: 0 <= j < |before| ==> after[j].tickers == before[j].tickers && after[j].absolutePct == before[j].absolutePct
    ensures LinksInArena(after, cs)
    ensures ChildTickers(after, cs) == ChildTickers(before, cs) && ChildPct(after, cs) == ChildPct(before, cs)
  {
    if cs != [] {
      LinksFrame(before, after, cs[1..]);
    }
  }

  /** Subdividing a leaf whose every group value is allocated keeps the
      children of every node a partition of its tickers. */
  lemma SubdividedPartitioned(nodes: seq<NodeRec>, p: nat, allocs: seq<(string, real)>, metadata: Metadata, column: string)
    requires WellFormed(nodes) && Partitioned(nodes) && p < |nodes| && nodes[p].children.None? && Distinct(Keys(allocs))
    requires forall v :: v in Keys(GroupBy(metadata, nodes[p].tickers, column)) ==> v in Keys(allocs)
    ensures WellFormed(Subdivided(nodes, p, allocs, GroupBy(metadata, nodes[p].tickers, column)))
    ensures Partitioned(Subdivided(nodes, p, allocs, GroupBy(metadata, nodes[p].tickers, column)))
  {
    var groups := GroupBy(metadata, nodes[p].tickers, column);
    var ns := Subdivided(nodes, p, allocs, groups);
    var keys := Keys(allocs);
    SubdividedWellFormed(nodes, p, allocs, groups);
    assert forall i :: |nodes| <= i < |ns| ==> ns[i].children.None?;
    forall i | 0 <= i < |ns| && ns[i].children.Some?
      ensures multiset(ChildTickers(ns, ns[i].children.value)) == multiset(ns[i].tickers)
    {
      if i == p {
        ChildTickersOfLinks(ns, keys, |nodes|, groups);
        CollectGroupBy(metadata, nodes[p].tickers, column, keys);
        forall t | t in nodes[p].tickers ensures ColumnValue(metadata, t, column) in keys {
          GroupValueIsKey(metadata, nodes[p].tickers, column, t);
        }
        CollectByValuePartition(metadata, nodes[p].tickers, column, keys);
      } else {
        LinksFrame(nodes, ns, nodes[i].children.value);
      }
    }
  }

  /** Subdividing with allocations that add up to exactly 100 keeps every
      node's percentage shared out exactly among its children. */
  lemma SubdividedConserved(nodes: seq<NodeRec>, p: nat, allocs: seq<(string, real)>, groups: seq<(string, seq<Ticker>)>)
    requires WellFormed(nodes) && Conserved(nodes) && p < |nodes| && nodes[p].children.None? && Distinct(Keys(allocs))
    requires Sum(Values(allocs)) == 100.0
    ensures WellFormed(Subdivided(nodes, p, allocs, groups))
    ensures Conserved(Subdivided(nodes, p, allocs, groups))
  {
    var ns := Subdivided(nodes, p, allocs, groups);
    SubdividedWellFormed(nodes, p, allocs, groups);
    assert forall i :: |nodes| <= i < |ns| ==> ns[i].children.None?;
    forall i | 0 <= i < |ns| && ns[i].children.Some?
      ensures ChildPct(ns, ns[i].children.value) == ns[i].absolutePct
    {
      if i == p {
        ChildPctOfLinks(ns, allocs, |nodes|, nodes[p].absolutePct);
      } else {
        LinksFrame(nodes, ns, nodes[i].children.value);
      }
    }
  }

  // ---------------------------------------------------------------------------
  // One target, then all of them
  // ---------------------------------------------------------------------------

  /** A target that applies subdivides the leaf its filter path reaches, and
      only then: its allocation keys are exactly the values found among that
      leaf's tickers, and each new child holds the tickers of its key and
      `parent_pct * pct / 100` of the portfolio. */
  lemma ApplyTargetSubdivides(nodes: seq<NodeRec>, t: TargetInfo, metadata: Metadata)
    requires WellFormed(nodes) && TargetOk(t)
    ensures ApplyTarget(nodes, t, metadata).Ok? ==>
      var path := t.constraint[..|t.constraint| - 1];
      var column := t.constraint[|t.constraint| - 1];
      var r := ApplyTarget(nodes, t, metadata).value;
      && FindFrom(nodes, 0, path, path).Ok?
      && var p := FindFrom(nodes, 0, path, path).value;
      && nodes[p].children.None?
      && (forall k :: k in Keys(t.allocations) <==> WithValue(metadata, nodes[p].tickers, column, k) != [])
      && r[p] == nodes[p].(children := Some(ChildLinks(Keys(t.allocations), |nodes|)))
      && forall j :: 0 <= j < |t.allocations| ==>
           r[|nodes| + j] == NodeRec(WithValue(metadata, nodes[p].tickers, column, t.allocations[j].0),
                                     Portion(nodes[p].absolutePct, AsNumber(t.allocations[j].1).value), None)
  {
    if ApplyTarget(nodes, t, metadata).Ok? {
      var path := t.constraint[..|t.constraint| - 1];
      var column := t.constraint[|t.constraint| - 1];
      var allocs := Numeric(t.allocations).value;
      var p := FindFrom(nodes, 0, path, path).value;
      var groups := GroupBy(metadata, nodes[p].tickers, column);
      assert FirstNotIn(Keys(allocs), Keys(groups)).None?;
      assert FirstNotIn(Keys(groups), Keys(allocs)).None?;
      forall k ensures k in Keys(t.allocations) <==> WithValue(metadata, nodes[p].tickers, column, k) != [] {
        GroupOfKey(metadata, nodes[p].tickers, column, k);
      }
      var r := ApplyTarget(nodes, t, metadata).value;
      assert r == Subdivided(nodes, p, allocs, groups);
      forall j | 0 <= j < |t.allocations|
        ensures r[|nodes| + j] == NodeRec(WithValue(metadata, nodes[p].tickers, column, t.allocations[j].0),
                                          Portion(nodes[p].absolutePct, AsNumber(t.allocations[j].1).value), None)
      {
        assert allocs[j].0 == Keys(allocs)[j] == t.allocations[j].0;
        assert Some(allocs[j].1) == AsNumber(t.allocations[j].1);
        GroupOfKey(metadata, nodes[p].tickers, column, allocs[j].0);
        assert r[|nodes| + j] == ChildNodes(allocs, groups, nodes[p].absolutePct)[j];
      }
    }
  }

  /** The sum check comes first: allocations that are not all numbers, or
      whose sum is more than the tolerance away from 100, reject the
      target, naming the sum; a target that applies passed the check. */
  lemma ApplyTargetSumCheck(nodes: seq<NodeRec>, t: TargetInfo, metadata: Metadata)
    requires WellFormed(nodes) && TargetOk(t)
    ensures Numeric(t.allocations).None? ==> ApplyTarget(nodes, t, metadata) == Err(NonNumericAllocation(t.name))
    ensures Numeric(t.allocations).Some? ==>
      var total := Sum(Values(Numeric(t.allocations).value));
      Abs(total - 100.0) > Tolerance ==> ApplyTarget(nodes, t, metadata) == Err(BadSum(t.name, total))
    ensures ApplyTarget(nodes, t, metadata).Ok? ==>
      Numeric(t.allocations).Some? && Abs(Sum(Values(Numeric(t.allocations).value)) - 100.0) <= Tolerance
  {
  }

  /** Past the sum check, the checks on the node, in the order the resolver
      makes them: navigation, a node already subdivided, the first
      allocation key without tickers, the first ticker value without an
      allocation; a target passing them all subdivides the node. */
  lemma ApplyTargetNodeChecks(nodes: seq<NodeRec>, t: TargetInfo, metadata: Metadata)
    requires WellFormed(nodes) && TargetOk(t)
    requires Numeric(t.allocations).Some? && Abs(Sum(Values(Numeric(t.allocations).value)) - 100.0) <= Tolerance
    ensures var path := t.constraint[..|t.constraint| - 1];
      var column := t.constraint[|t.constraint| - 1];
      var allocs := Numeric(t.allocations).value;
      var r := ApplyTarget(nodes, t, metadata);
      match FindFrom(nodes, 0, path, path)
      case Err(e) => r == Err(e)
      case Ok(p) =>
        var groups := GroupBy(metadata, nodes[p].tickers, column);
        && (nodes[p].children.Some? ==> r == Err(AlreadySubdivided(t.name, path)))
        && (nodes[p].children.None? && FirstNotIn(Keys(allocs), Keys(groups)).Some? ==>
              r == Err(NoMatchingTickers(t.name, FirstNotIn(Keys(allocs), Keys(groups)).value, column)))
        && (nodes[p].children.None? && FirstNotIn(Keys(allocs), Keys(groups)).None?
              && FirstNotIn(Keys(groups), Keys(allocs)).Some? ==>
              r == Err(UncoveredGroup(t.name, column, FirstNotIn(Keys(groups), Keys(allocs)).value)))
        && (nodes[p].children.None? && FirstNotIn(Keys(allocs), Keys(groups)).None?
              && FirstNotIn(Keys(groups), Keys(allocs)).None? ==>
              r == Ok(Subdivided(nodes, p, allocs, groups)))
  {
  }

  /** The converse of `ApplyTargetSubdivides`: numeric allocations within
      the tolerance of 100, a filter path reaching a leaf, and allocation
      keys that are exactly the values present among the leaf's tickers
      make the target apply. */
  lemma ApplyTargetAccepts(nodes: seq<NodeRec>, t: TargetInfo, metadata: Metadata)
    requires WellFormed(nodes) && TargetOk(t)
    ensures var path := t.constraint[..|t.constraint| - 1];
      var column := t.constraint[|t.constraint| - 1];
      && Numeric(t.allocations).Some? && Abs(Sum(Values(Numeric(t.allocations).value)) - 100.0) <= Tolerance
      && FindFrom(nodes, 0, path, path).Ok?
      && nodes[FindFrom(nodes, 0, path, path).value].children.None?
      && (forall k :: k in Keys(t.allocations) <==>
            WithValue(metadata, nodes[FindFrom(nodes, 0, path, path).value].tickers, column, k) != [])
      ==> ApplyTarget(nodes, t, metadata) == Ok(Subdivided(nodes, FindFrom(nodes, 0, path, path).value,
            Numeric(t.allocations).value, GroupBy(metadata, nodes[FindFrom(nodes, 0, path, path).value].tickers, column)))
  {
    var path := t.constraint[..|t.constraint| - 1];
    var column := t.constraint[|t.constraint| - 1];
    var num := Numeric(t.allocations);
    var found := FindFrom(nodes, 0, path, path);
    if num.Some? && Abs(Sum(Values(num.value)) - 100.0) <= Tolerance && found.Ok? && nodes[found.value].children.None?
      && (forall k :: k in Keys(t.allocations) <==> WithValue(metadata, nodes[found.value].tickers, column, k) != [])
    {
      var p := found.value;
      var groups := GroupBy(metadata, nodes[p].tickers, column);
      var allocs := num.value;
      forall k ensures k in Keys(allocs) <==> k in Keys(groups) {
        GroupOfKey(metadata, nodes[p].tickers, column, k);
      }
      assert FirstNotIn(Keys(allocs), Keys(groups)).None?;
      assert FirstNotIn(Keys(groups), Keys(allocs)).None?;
      ApplyTargetNodeChecks(nodes, t, metadata);
    }
  }

  /** Navigation that succeeds passes only through branches, so it reaches
      the same node in any tree that keeps those branches. */
  lemma {:induction false} FindFrame(nodes: seq<NodeRec>, after: seq<NodeRec>, i: nat, path: seq<string>, full: seq<string>)
    requires WellFormed(nodes) && WellFormed(after) && i < |nodes| <= |after|
    requires forall j :: 0 <= j < |nodes| && nodes[j].children.Some? ==> after[j] == nodes[j]
    requires FindFrom(nodes, i, path, full).Ok?
    ensures FindFrom(after, i, path, full) == FindFrom(nodes, i, path, full)
    decreases path
  {
    if path != [] {
      var cs := nodes[i].children.value;
      var c := Lookup(cs, path[0]).value;
      LookupSome(cs, path[0]);
      FindFrame(nodes, after, c, path[1..], full);
    }
  }

  /** A node is subdivided once: after one target applies, a second target
      with the same filter path fails, with `AlreadySubdivided` once its
      allocations pass the sum check. */
  lemma SamePathTwice(nodes: seq<NodeRec>, t1: TargetInfo, t2: TargetInfo, metadata: Metadata)
    requires WellFormed(nodes) && TargetOk(t1) && TargetOk(t2)
    requires t1.constraint[..|t1.constraint| - 1] == t2.constraint[..|t2.constraint| - 1]
    ensures ApplyTarget(nodes, t1, metadata).Ok? ==>
      var r := ApplyTarget(ApplyTarget(nodes, t1, metadata).value, t2, metadata);
      && r.Err?
      && (Numeric(t2.allocations).Some? && Abs(Sum(Values(Numeric(t2.allocations).value)) - 100.0) <= Tolerance ==>
            r == Err(AlreadySubdivided(t2.name, t2.constraint[..|t2.constraint| - 1])))
  {
    if ApplyTarget(nodes, t1, metadata).Ok? {
      var after := ApplyTarget(nodes, t1, metadata).value;
      var path := t1.constraint[..|t1.constraint| - 1];
      ApplyTargetSubdivides(nodes, t1, metadata);
      var p := FindFrom(nodes, 0, path, path).value;
      FindFrame(nodes, after, 0, path, path);
      assert after[p].children.Some?;
      ApplyTargetSumCheck(after, t2, metadata);
      if Numeric(t2.allocations).Some? && Abs(Sum(Values(Numeric(t2.allocations).value)) - 100.0) <= Tolerance {
        ApplyTargetNodeChecks(after, t2, metadata);
      }
    }
  }

  /** The allocation 60 + 30 of a target is rejected, naming 90. */
  lemma BadSumExample(metadata: Metadata)
    ensures var t := TargetInfo("Regions", ["Region"], [("US", Num(60.0)), ("EU", Num(30.0))]);
      WellFormed([NodeRec(Keys(metadata), 100.0, None)]) && TargetOk(t) &&
      ApplyTarget([NodeRec(Keys(metadata), 100.0, None)], t, metadata) == Err(BadSum("Regions", 90.0))
  {
    var t := TargetInfo("Regions", ["Region"], [("US", Num(60.0)), ("EU", Num(30.0))]);
    var nodes := [NodeRec(Keys(metadata), 100.0, None)];
    assert AsNumber(t.allocations[0].1) == Some(60.0) && AsNumber(t.allocations[1].1) == Some(30.0);
    var allocs := Numeric(t.allocations).value;
    assert |Keys(allocs)| == |Keys(t.allocations)| == 2;
    assert Some(allocs[0].1) == AsNumber(t.allocations[0].1) && Some(allocs[1].1) == AsNumber(t.allocations[1].1);
    assert Values(allocs) == [60.0, 30.0];
    assert Sum([60.0, 30.0]) == 90.0;
    ApplyTargetSumCheck(nodes, t, metadata);
  }

  /** Applying a target keeps the tree invariant. */
  lemma ApplyTargetInv(nodes: seq<NodeRec>, t: TargetInfo, metadata: Metadata, exact: bool)
    requires TreeInv(nodes, metadata, exact) && TargetOk(t) && (exact ==> ExactTarget(t))
    ensures ApplyTarget(nodes, t, metadata).Ok? ==> TreeInv(ApplyTarget(nodes, t, metadata).value, metadata, exact)
  {
    var r := ApplyTarget(nodes, t, metadata);
    if r.Ok? {
      var path := t.constraint[..|t.constraint| - 1];
      var column := t.constraint[|t.constraint| - 1];
      var allocs := Numeric(t.allocations).value;
      var p := FindFrom(nodes, 0, path, path).value;
      var groups := GroupBy(metadata, nodes[p].tickers, column);
      assert FirstNotIn(Keys(allocs), Keys(groups)).None?;
      assert FirstNotIn(Keys(groups), Keys(allocs)).None?;
      var ns := r.value;
      assert ns == Subdivided(nodes, p, allocs, groups);
      SubdividedPartitioned(nodes, p, allocs, metadata, column);
      if exact {
        SubdividedConserved(nodes, p, allocs, groups);
      }
      forall i | |nodes| <= i < |ns| ensures ns[i].tickers != [] {
        var j := i - |nodes|;
        assert ns[i].tickers == GetOr(groups, allocs[j].0, []);
        assert allocs[j].0 == Keys(allocs)[j];
        GroupOfKey(metadata, nodes[p].tickers, column, allocs[j].0);
      }
    }
  }

  lemma {:induction false} ApplyAllInv(nodes: seq<NodeRec>, ts: seq<TargetInfo>, metadata: Metadata, exact: bool)
    requires TreeInv(nodes, metadata, exact) && (forall t :: t in ts ==> TargetOk(t)) && (exact ==> AllExact(ts))
    ensures ApplyAll(nodes, ts, metadata).Ok? ==> TreeInv(ApplyAll(nodes, ts, metadata).value, metadata, exact)
    ensures ApplyAll(nodes, ts, metadata).Ok? && ts != [] ==> |ApplyAll(nodes, ts, metadata).value| > |nodes|
    decreases |ts|
  {
    if ts != [] {
      var front := ts[..|ts| - 1];
      assert forall t :: t in front ==> t in ts;
      ApplyAllInv(nodes, front, metadata, exact);
      match ApplyAll(nodes, front, metadata) {
        case Err(_) =>
        case Ok(n) =>
          ApplyTargetInv(n, ts[|ts| - 1], metadata, exact);
      }
    }
  }

  /** The tree the targets build satisfies the invariant, and is more than
      the root alone. */
  lemma BuildInv(config: seq<(string, Value)>, metadata: Metadata)
    requires ValidValue(Map(config))
    ensures Build(config, metadata).Ok? ==>
      TreeInv(Build(config, metadata).value.1, metadata, AllExact(Build(config, metadata).value.0)) &&
      |Build(config, metadata).value.1| > 1
  {
    if Build(config, metadata).Ok? {
      var ts := OrderedTargets(config).value;
      ApplyAllInv(Root(metadata), ts, metadata, AllExact(ts));
    }
  }

  // ---------------------------------------------------------------------------
  // A successful resolution
  // ---------------------------------------------------------------------------

  /** Every ticker is in exactly one group, no group is empty, and the flat
      allocation has an entry for exactly the metadata tickers. */
  lemma ResolvedPartition(config: seq<(string, Value)>, metadata: Metadata)
    requires ValidValue(Map(config))
    ensures ResolveSpec(config, metadata).Ok? ==>
      var res := ResolveSpec(config, metadata).value;
      && multiset(Concat(res.groups)) == multiset(Keys(metadata))
      && (forall g :: g in res.groups ==> g != [])
      && (forall t :: t in Keys(res.flat) <==> t in Keys(metadata))
  {
    if ResolveSpec(config, metadata).Ok? {
      var nodes := Build(config, metadata).value.1;
      BuildInv(config, metadata);
      var leaves := LeavesOf(nodes, 0);
      LeavesCover(nodes, 0);
      FlattenGroups(nodes, leaves);
      FlattenKeys(nodes, leaves);
      assert forall t :: t in LeafTickers(nodes, leaves) <==> t in multiset(Keys(metadata));
    }
  }

  /** When every target's allocations add up to exactly 100, the flat
      allocation adds up to exactly 100, so the final sanity check never
      fires. */
  lemma ResolvedExact(config: seq<(string, Value)>, metadata: Metadata)
    requires ValidValue(Map(config))
    requires OrderedTargets(config).Ok? && AllExact(OrderedTargets(config).value)
    ensures ResolveSpec(config, metadata).Err? ==> !ResolveSpec(config, metadata).error.TotalMismatch?
    ensures ResolveSpec(config, metadata).Ok? ==> Sum(Values(ResolveSpec(config, metadata).value.flat)) == 100.0
  {
    if Build(config, metadata).Ok? {
      var nodes := Build(config, metadata).value.1;
      assert Build(config, metadata).value.0 == OrderedTargets(config).value;
      BuildInv(config, metadata);
      assert Conserved(nodes) && nodes[0].children.Some?;
      var leaves := LeavesOf(nodes, 0);
      LeavesShareOut(nodes, 0);
      FlattenTotal(nodes, leaves);
      assert Sum(Values(FlattenSpec(nodes, leaves).0)) == 100.0;
    }
  }

  /** With distinct metadata tickers, each ticker receives exactly its
      leaf's percentage divided by the number of tickers in that leaf. */
  lemma ResolvedEqualSplit(config: seq<(string, Value)>, metadata: Metadata)
    requires ValidValue(Map(config)) && Distinct(Keys(metadata))
    ensures ResolveSpec(config, metadata).Ok? ==>
      var nodes := Build(config, metadata).value.1;
      ResolveSpec(config, metadata).value.flat == Shares(nodes, LeavesOf(nodes, 0))
  {
    if ResolveSpec(config, metadata).Ok? {
      var nodes := Build(config, metadata).value.1;
      BuildInv(config, metadata);
      var leaves := LeavesOf(nodes, 0);
      LeavesCover(nodes, 0);
      DistinctByMultiset(LeafTickers(nodes, leaves), Keys(metadata));
      FlattenEqualSplit(nodes, leaves);
    }
  }

  /** The targets come back ordered by constraint length, as a permutation
      of the declared ones that keeps declaration order within a length. */
  lemma ResolvedOrder(config: seq<(string, Value)>, metadata: Metadata)
    requires ValidValue(Map(config))
    ensures ResolveSpec(config, metadata).Ok? ==>
      var raw := Lookup(config, TargetKey);
      var ts := ResolveSpec(config, metadata).value.targets;
      && raw.Some? && raw.value.Map? && ParseAll(raw.value.entries).Ok?
      && SortedByDepth(ts)
      && multiset(ts) == multiset(ParseAll(raw.value.entries).value)
      && forall d :: OfDepth(ts, d) == OfDepth(ParseAll(raw.value.entries).value, d)
  {
    if ResolveSpec(config, metadata).Ok? {
      var raw := Lookup(config, TargetKey);
      SortByDepthCorrect(ParseAll(raw.value.entries).value);
    }
  }

  /** The configuration errors: a missing or empty target mapping, and
      otherwise the first target entry that does not parse. */
  lemma ResolveRejects(config: seq<(string, Value)>, metadata: Metadata)
    requires ValidValue(Map(config))
    ensures var raw := Lookup(config, TargetKey);
      !(raw.Some? && raw.value.Map? && raw.value.entries != []) ==> ResolveSpec(config, metadata) == Err(NotANonEmptyMapping)
    ensures var raw := Lookup(config, TargetKey);
      raw.Some? && raw.value.Map? && raw.value.entries != [] && ParseAll(raw.value.entries).Err? ==>
        ResolveSpec(config, metadata) == Err(ParseAll(raw.value.entries).error)
  {
  }
}
