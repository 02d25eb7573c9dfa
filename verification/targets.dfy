/** `resolve_targets`: parse the `target_asset_alloc` mapping into targets,
    order them shallowest first, subdivide the allocation tree once per
    target, then flatten its leaves into per-ticker percentages. */
module Targets {
  import opened Common
  import opened Tree

  /** One entry of `targets_info`: the target's name, its `Constraint` path
      (filter values, then the grouping column) and its allocations, the
      mapping without its `Constraint` key. */
  datatype TargetInfo = TargetInfo(name: string, constraint: seq<string>, allocations: seq<(string, Value)>)

  /** What `resolve_targets` returns: the flat allocation, the targets in
      processing order and the ticker groups of the non-empty leaves. */
  datatype Resolution = Resolution(flat: seq<(Ticker, real)>, targets: seq<TargetInfo>, groups: seq<seq<Ticker>>)

  const TargetKey := "target_asset_alloc"
  const ConstraintKey := "Constraint"

  /** The acceptance band of every percentage check. */
  const Tolerance: real := 0.01

  // ---------------------------------------------------------------------------
  // Parsing the targets
  // ---------------------------------------------------------------------------

  /** The strings of a YAML list, or `None` when one item is not a string. */
  function Strings(items: seq<Value>): (r: Option<seq<string>>)
    ensures r.Some? ==> |r.value| == |items| && forall i :: 0 <= i < |items| ==> items[i] == Str(r.value[i])
    ensures r.None? ==> exists i :: 0 <= i < |items| && !items[i].Str?
  {
    if items == [] then Some([])
    else if !items[0].Str? then None
    else match Strings(items[1..])
      case None => None
      case Some(rest) => Some([items[0].s] + rest)
  }

  /** `{k: v for k, v in entries.items() if k != key}`. */
  function Without(entries: seq<(string, Value)>, key: string): (r: seq<(string, Value)>)
    ensures forall k :: Lookup(r, k) == if k == key then None else Lookup(entries, k)
    ensures forall k :: k in Keys(r) <==> k in Keys(entries) && k != key
    ensures Distinct(Keys(entries)) ==> Distinct(Keys(r))
    ensures IsSubsequence(r, entries)
  {
    if entries == [] then []
    else
      var rest := Without(entries[1..], key);
      assert [entries[0]] + entries[1..] == entries;
      assert entries[0].0 == key ==> IsSubsequence(rest, entries) by {
        if entries[0].0 == key {
          SubsequenceCons(rest, entries[0], entries[1..]);
        }
      }
      assert Keys(entries) == [entries[0].0] + Keys(entries[1..]);
      assert Distinct(Keys(entries)) ==> Distinct(Keys(entries[1..])) by {
        assert Keys(entries[1..]) == Keys(entries)[1..];
      }
      if entries[0].0 == key then rest
      else
        assert Keys([entries[0]] + rest) == [entries[0].0] + Keys(rest);
        assert Distinct(Keys(entries)) ==> entries[0].0 !in Keys(entries[1..]) by {
          if Distinct(Keys(entries)) {
            forall j | 0 <= j < |entries| - 1 ensures Keys(entries[1..])[j] != entries[0].0 {
              assert Keys(entries)[0] != Keys(entries)[j + 1];
            }
          }
        }
        [entries[0]] + rest
  }

  /** A target the resolver can work with: a non-empty path, at least one
      allocation, and allocation keys that are distinct as in a dict. */
  predicate TargetOk(t: TargetInfo) {
    t.constraint != [] && t.allocations != [] && Distinct(Keys(t.allocations))
  }

  /** One `name: spec` entry of `target_asset_alloc`. */
  function ParseTarget(name: string, spec: Value): (r: Result<TargetInfo, ResolveError>)
    ensures !spec.Map? ==> r == Err(TargetNotAMapping(name))
    ensures r.Ok? ==> spec.Map? && r.value.name == name && r.value.constraint != [] && r.value.allocations != []
    ensures r.Ok? ==> Lookup(spec.entries, ConstraintKey).Some? && Lookup(spec.entries, ConstraintKey).value.List?
                      && Strings(Lookup(spec.entries, ConstraintKey).value.items) == Some(r.value.constraint)
    ensures r.Ok? ==> forall k :: Lookup(r.value.allocations, k) == if k == ConstraintKey then None else Lookup(spec.entries, k)
    ensures r.Ok? && ValidValue(spec) ==> TargetOk(r.value)
    ensures r.Err? ==> r.error in {TargetNotAMapping(name), MissingConstraint(name), NoAllocations(name), NonStringConstraint(name)}
    ensures r.Ok? ==> r.value.allocations == Without(spec.entries, ConstraintKey)
    ensures spec.Map? ==>
      var c := Lookup(spec.entries, ConstraintKey);
      var allocations := Without(spec.entries, ConstraintKey);
      && (!(c.Some? && c.value.List? && c.value.items != []) ==> r == Err(MissingConstraint(name)))
      && (c.Some? && c.value.List? && c.value.items != [] && allocations == [] ==> r == Err(NoAllocations(name)))
      && (c.Some? && c.value.List? && c.value.items != [] && allocations != [] && Strings(c.value.items).None? ==>
            r == Err(NonStringConstraint(name)))
      && (c.Some? && c.value.List? && c.value.items != [] && allocations != [] && Strings(c.value.items).Some? ==>
            r == Ok(TargetInfo(name, Strings(c.value.items).value, allocations)))
  {
    match spec
    case Map(entries) =>
      var constraint := Lookup(entries, ConstraintKey);
      if !(constraint.Some? && constraint.value.List? && constraint.value.items != []) then Err(MissingConstraint(name))
      else
        var allocations := Without(entries, ConstraintKey);
        if allocations == [] then Err(NoAllocations(name))
        else (match Strings(constraint.value.items)
          case None => Err(NonStringConstraint(name))
          case Some(path) => Ok(TargetInfo(name, path, allocations)))
    case _ => Err(TargetNotAMapping(name))
  }

  /** The parse loop over `raw.items()`: every entry parsed in order, or the
      error of the first entry that fails. */
  function ParseAll(entries: seq<(string, Value)>): (r: Result<seq<TargetInfo>, ResolveError>)
    ensures r.Ok? ==> (|r.value| == |entries| &&
      forall i :: 0 <= i < |entries| ==> ParseTarget(entries[i].0, entries[i].1) == Ok(r.value[i]))
    ensures r.Err? ==> exists i ::
      && 0 <= i < |entries|
      && ParseTarget(entries[i].0, entries[i].1) == Err(r.error)
      && forall j :: 0 <= j < i ==> ParseTarget(entries[j].0, entries[j].1).Ok?
    decreases |entries|
  {
    if entries == [] then Ok([])
    else
      var front := entries[..|entries| - 1];
      var last := entries[|entries| - 1];
      match ParseAll(front)
      case Err(e) => Err(e)
      case Ok(ts) =>
        match ParseTarget(last.0, last.1)
        case Err(e) => Err(e)
        case Ok(t) => Ok(ts + [t])
  }

  /** Once a prefix fails, the whole parse fails with the same error. */
  lemma {:induction false} ParseAllErrPrefix(entries: seq<(string, Value)>, k: nat)
    requires k <= |entries| && ParseAll(entries[..k]).Err?
    ensures ParseAll(entries) == ParseAll(entries[..k])
    decreases |entries|
  {
    if k < |entries| {
      var front := entries[..|entries| - 1];
      assert front[..k] == entries[..k];
      ParseAllErrPrefix(front, k);
    } else {
      assert entries[..k] == entries;
    }
  }

  /** Targets parsed from the entries of a valid mapping are all usable. */
  lemma ParsedOk(entries: seq<(string, Value)>)
    requires forall i :: 0 <= i < |entries| ==> ValidValue(entries[i].1)
    ensures ParseAll(entries).Ok? ==> forall t :: t in ParseAll(entries).value ==> TargetOk(t)
  {
  }

  /** The parse loop of `resolve_targets`. */
  method ParseTargets(entries: seq<(string, Value)>) returns (r: Result<seq<TargetInfo>, ResolveError>)
    ensures r == ParseAll(entries)
  {
    var targets: seq<TargetInfo> := [];
    var k := 0;
    while k < |entries|
      invariant 0 <= k <= |entries|
      invariant ParseAll(entries[..k]) == Ok(targets)
    {
      assert entries[..k + 1][..k] == entries[..k];
      var t := ParseTarget(entries[k].0, entries[k].1);
      if t.Err? {
        ParseAllErrPrefix(entries, k + 1);
        return Err(t.error);
      }
      targets := targets + [t.value];
      k := k + 1;
    }
    assert entries[..k] == entries;
    return Ok(targets);
  }

  // ---------------------------------------------------------------------------
  // Ordering the targets
  // ---------------------------------------------------------------------------

  function Depth(t: TargetInfo): nat {
    |t.constraint|
  }

  predicate SortedByDepth(ts: seq<TargetInfo>) {
    forall i, j :: 0 <= i < j < |ts| ==> Depth(ts[i]) <= Depth(ts[j])
  }

  /** Puts `t` after every target no deeper than it. */
  function InsertByDepth(t: TargetInfo, ts: seq<TargetInfo>): seq<TargetInfo> {
    if ts == [] then [t]
    else if Depth(t) < Depth(ts[0]) then [t] + ts
    else [ts[0]] + InsertByDepth(t, ts[1..])
  }

  /** `targets_info.sort(key=lambda t: len(t[1]))`: a stable sort by depth. */
  function SortByDepth(ts: seq<TargetInfo>): seq<TargetInfo>
    decreases |ts|
  {
    if ts == [] then []
    else InsertByDepth(ts[|ts| - 1], SortByDepth(ts[..|ts| - 1]))
  }

  /** The targets of depth `d`, in order. */
  function OfDepth(ts: seq<TargetInfo>, d: nat): seq<TargetInfo> {
    if ts == [] then []
    else (if Depth(ts[0]) == d then [ts[0]] else []) + OfDepth(ts[1..], d)
  }

  lemma {:induction false} InsertPermutes(t: TargetInfo, ts: seq<TargetInfo>)
    ensures multiset(InsertByDepth(t, ts)) == multiset(ts) + multiset{t}
  {
    if ts != [] && Depth(t) >= Depth(ts[0]) {
      InsertPermutes(t, ts[1..]);
      assert ts == [ts[0]] + ts[1..];
    }
  }

  lemma {:induction false} InsertSorted(t: TargetInfo, ts: seq<TargetInfo>)
    requires SortedByDepth(ts)
    ensures SortedByDepth(InsertByDepth(t, ts))
  {
    if ts != [] && Depth(t) >= Depth(ts[0]) {
      InsertSorted(t, ts[1..]);
      InsertPermutes(t, ts[1..]);
      var rest := InsertByDepth(t, ts[1..]);
      forall i, j | 0 <= i < j < |[ts[0]] + rest| ensures Depth(([ts[0]] + rest)[i]) <= Depth(([ts[0]] + rest)[j]) {
        if i == 0 {
          var x := ([ts[0]] + rest)[j];
          assert x in multiset(rest);
          assert x == t || x in ts[1..];
        }
      }
    }
  }

  /** Inserting adds `t` after every target of its depth. */
  lemma {:induction false} InsertStable(t: TargetInfo, ts: seq<TargetInfo>, d: nat)
    requires SortedByDepth(ts)
    ensures OfDepth(InsertByDepth(t, ts), d) == OfDepth(ts, d) + if Depth(t) == d then [t] else []
  {
    if ts == [] {
    } else if Depth(t) < Depth(ts[0]) {
      assert ([t] + ts)[1..] == ts;
      if Depth(t) == d {
        NoneOfDepth(ts, d);
      }
    } else {
      InsertStable(t, ts[1..], d);
      assert ([ts[0]] + InsertByDepth(t, ts[1..]))[1..] == InsertByDepth(t, ts[1..]);
    }
  }

  /** A sorted sequence holds nothing shallower than its first element. */
  lemma {:induction false} NoneOfDepth(ts: seq<TargetInfo>, d: nat)
    requires SortedByDepth(ts) && ts != [] && d < Depth(ts[0])
    ensures OfDepth(ts, d) == []
    decreases |ts|
  {
    if |ts| > 1 {
      NoneOfDepth(ts[1..], d);
    }
  }

  /** The sort orders by depth, keeps every target, and keeps declaration
      order among targets of equal depth. */
  lemma {:induction false} SortByDepthCorrect(ts: seq<TargetInfo>)
    ensures SortedByDepth(SortByDepth(ts))
    ensures multiset(SortByDepth(ts)) == multiset(ts)
    ensures forall d :: OfDepth(SortByDepth(ts), d) == OfDepth(ts, d)
    decreases |ts|
  {
    if ts != [] {
      var front := ts[..|ts| - 1];
      var t := ts[|ts| - 1];
      SortByDepthCorrect(front);
      InsertSorted(t, SortByDepth(front));
      InsertPermutes(t, SortByDepth(front));
      assert ts == front + [t];
      forall d ensures OfDepth(SortByDepth(ts), d) == OfDepth(ts, d) {
        InsertStable(t, SortByDepth(front), d);
        OfDepthAppend(front, [t], d);
      }
    }
  }

  lemma {:induction false} OfDepthAppend(a: seq<TargetInfo>, b: seq<TargetInfo>, d: nat)
    ensures OfDepth(a + b, d) == OfDepth(a, d) + OfDepth(b, d)
  {
    if a == [] {
      assert a + b == b;
    } else {
      assert (a + b)[1..] == a[1..] + b;
      OfDepthAppend(a[1..], b, d);
    }
  }

  /** Targets that are already in order are left where they are. */
  lemma {:induction false} SortByDepthSorted(ts: seq<TargetInfo>)
    requires SortedByDepth(ts)
    ensures SortByDepth(ts) == ts
    decreases |ts|
  {
    if ts != [] {
      var front := ts[..|ts| - 1];
      SortByDepthSorted(front);
      InsertLast(ts[|ts| - 1], front);
      assert ts == front + [ts[|ts| - 1]];
    }
  }

  lemma {:induction false} InsertLast(t: TargetInfo, ts: seq<TargetInfo>)
    requires forall i :: 0 <= i < |ts| ==> Depth(ts[i]) <= Depth(t)
    ensures InsertByDepth(t, ts) == ts + [t]
  {
    if ts != [] {
      InsertLast(t, ts[1..]);
      assert ts == [ts[0]] + ts[1..];
    }
  }

  /** Sorting twice is sorting once. */
  lemma SortByDepthIdempotent(ts: seq<TargetInfo>)
    ensures SortByDepth(SortByDepth(ts)) == SortByDepth(ts)
  {
    SortByDepthCorrect(ts);
    SortByDepthSorted(SortByDepth(ts));
  }

  // ---------------------------------------------------------------------------
  // Applying one target
  // ---------------------------------------------------------------------------

  /** A Python number: an int or float, or a bool counted as 0 or 1. */
  function AsNumber(v: Value): Option<real> {
    match v
    case Num(x) => Some(x)
    case Bool(b) => Some(if b then 1.0 else 0.0)
    case _ => None
  }

  /** The allocations as numbers, or `None` when `sum` would meet a value that
      is not a number. */
  function Numeric(allocations: seq<(string, Value)>): (r: Option<seq<(string, real)>>)
    ensures r.Some? <==> forall i :: 0 <= i < |allocations| ==> AsNumber(allocations[i].1).Some?
    ensures r.Some? ==> (Keys(r.value) == Keys(allocations) &&
      forall i :: 0 <= i < |allocations| ==> Some(r.value[i].1) == AsNumber(allocations[i].1))
  {
    if allocations == [] then Some([])
    else
      match AsNumber(allocations[0].1)
      case None => None
      case Some(x) =>
        match Numeric(allocations[1..])
        case None => None
        case Some(rest) =>
          assert Keys([(allocations[0].0, x)] + rest) == [allocations[0].0] + Keys(rest);
          assert Keys(allocations) == [allocations[0].0] + Keys(allocations[1..]);
          Some([(allocations[0].0, x)] + rest)
  }

  /** The first of `xs` missing from `ys`, the element the validation loops
      `for value in xs: if value not in ys: raise` stop at. */
  function FirstNotIn(xs: seq<string>, ys: seq<string>): (r: Option<string>)
    ensures r.None? <==> forall x :: x in xs ==> x in ys
    ensures r.Some? ==> (r.value !in ys &&
      exists i :: 0 <= i < |xs| && xs[i] == r.value && forall j :: 0 <= j < i ==> xs[j] in ys)
  {
    if xs == [] then None
    else if xs[0] !in ys then Some(xs[0])
    else
      var r := FirstNotIn(xs[1..], ys);
      if r.Some? then
        var i :| 0 <= i < |xs[1..]| && xs[1..][i] == r.value && forall j :: 0 <= j < i ==> xs[1..][j] in ys;
        assert xs[i + 1] == r.value && forall j :: 0 <= j < i + 1 ==> xs[j] in ys;
        r
      else r
  }

  /** A validation loop over `xs`. */
  method FirstMissing(xs: seq<string>, ys: seq<string>) returns (r: Option<string>)
    ensures r == FirstNotIn(xs, ys)
  {
    var k := 0;
    while k < |xs|
      invariant 0 <= k <= |xs|
      invariant FirstNotIn(xs[k..], ys) == FirstNotIn(xs, ys)
    {
      if xs[k] !in ys {
        return Some(xs[k]);
      }
      assert xs[k..][1..] == xs[k + 1..];
      k := k + 1;
    }
    return None;
  }

  /** One iteration of the target loop on the arena `nodes`. */
  function ApplyTarget(nodes: seq<NodeRec>, t: TargetInfo, metadata: Metadata): (r: Result<seq<NodeRec>, ResolveError>)
    requires WellFormed(nodes) && TargetOk(t)
    ensures r.Ok? ==> WellFormed(r.value) && |r.value| == |nodes| + |t.allocations|
    ensures r.Ok? ==> forall i :: 0 <= i < |nodes| ==>
      r.value[i].tickers == nodes[i].tickers && r.value[i].absolutePct == nodes[i].absolutePct
    ensures r.Ok? ==> forall i :: 0 <= i < |nodes| && nodes[i].children.Some? ==> r.value[i] == nodes[i]
    ensures r.Err? ==> !r.error.TotalMismatch?
  {
    var path := t.constraint[..|t.constraint| - 1];
    var column := t.constraint[|t.constraint| - 1];
    match Numeric(t.allocations)
    case None => Err(NonNumericAllocation(t.name))
    case Some(allocs) =>
      var total := Sum(Values(allocs));
      if Abs(total - 100.0) > Tolerance then Err(BadSum(t.name, total))
      else match FindFrom(nodes, 0, path, path)
        case Err(e) => Err(e)
        case Ok(p) =>
          if nodes[p].children.Some? then Err(AlreadySubdivided(t.name, path))
          else
            var groups := GroupBy(metadata, nodes[p].tickers, column);
            match FirstNotIn(Keys(allocs), Keys(groups))
            case Some(k) => Err(NoMatchingTickers(t.name, k, column))
            case None =>
              match FirstNotIn(Keys(groups), Keys(allocs))
              case Some(v) => Err(UncoveredGroup(t.name, column, v))
              case None =>
                SubdividedWellFormed(nodes, p, allocs, groups);
                Ok(Subdivided(nodes, p, allocs, groups))
  }

  /** The target loop: every target applied in order, or the first error. */
  function ApplyAll(nodes: seq<NodeRec>, ts: seq<TargetInfo>, metadata: Metadata): (r: Result<seq<NodeRec>, ResolveError>)
    requires WellFormed(nodes) && forall t :: t in ts ==> TargetOk(t)
    ensures r.Ok? ==> WellFormed(r.value) && |r.value| >= |nodes|
    ensures r.Err? ==> !r.error.TotalMismatch?
    decreases |ts|
  {
    if ts == [] then Ok(nodes)
    else
      match ApplyAll(nodes, ts[..|ts| - 1], metadata)
      case Err(e) => Err(e)
      case Ok(n) => ApplyTarget(n, ts[|ts| - 1], metadata)
  }

  lemma {:induction false} ApplyAllErrPrefix(nodes: seq<NodeRec>, ts: seq<TargetInfo>, metadata: Metadata, k: nat)
    requires WellFormed(nodes) && forall t :: t in ts ==> TargetOk(t)
    requires k <= |ts| && ApplyAll(nodes, ts[..k], metadata).Err?
    ensures ApplyAll(nodes, ts, metadata) == ApplyAll(nodes, ts[..k], metadata)
    decreases |ts|
  {
    if k < |ts| {
      var front := ts[..|ts| - 1];
      assert front[..k] == ts[..k];
      ApplyAllErrPrefix(nodes, front, metadata, k);
    } else {
      assert ts[..k] == ts;
    }
  }

  /** One iteration of the target loop on the tree object. */
  method ApplyTargetTo(tree: AllocationTree, t: TargetInfo, metadata: Metadata) returns (err: Option<ResolveError>)
    requires tree.Valid() && TargetOk(t)
    modifies tree
    ensures tree.Valid()
    ensures err.None? ==> ApplyTarget(old(tree.nodes), t, metadata) == Ok(tree.nodes)
    ensures err.Some? ==> ApplyTarget(old(tree.nodes), t, metadata) == Err(err.value) && tree.nodes == old(tree.nodes)
  {
    var path := t.constraint[..|t.constraint| - 1];
    var column := t.constraint[|t.constraint| - 1];
    var allocs := Numeric(t.allocations);
    if allocs.None? {
      return Some(NonNumericAllocation(t.name));
    }
    var total := Sum(Values(allocs.value));
    if Abs(total - 100.0) > Tolerance {
      return Some(BadSum(t.name, total));
    }
    var found := tree.Find(0, path);
    if found.Err? {
      return Some(found.error);
    }
    var p := found.value;
    if tree.nodes[p].children.Some? {
      return Some(AlreadySubdivided(t.name, path));
    }
    var groups := GroupTickers(tree.nodes[p].tickers, metadata, column);
    var missing := FirstMissing(Keys(allocs.value), Keys(groups));
    if missing.Some? {
      return Some(NoMatchingTickers(t.name, missing.value, column));
    }
    var uncovered := FirstMissing(Keys(groups), Keys(allocs.value));
    if uncovered.Some? {
      return Some(UncoveredGroup(t.name, column, uncovered.value));
    }
    tree.Subdivide(p, allocs.value, groups);
    return None;
  }

  // ---------------------------------------------------------------------------
  // The tree the targets build
  // ---------------------------------------------------------------------------

  /** `_Node(list(metadata.keys()), 100.0)`. */
  function Root(metadata: Metadata): seq<NodeRec> {
    [NodeRec(Keys(metadata), 100.0, None)]
  }

  /** The targets of the configuration, parsed in declaration order and
      then put in processing order. */
  function OrderedTargets(config: seq<(string, Value)>): (r: Result<seq<TargetInfo>, ResolveError>)
    requires ValidValue(Map(config))
    ensures r.Ok? ==> r.value != [] && SortedByDepth(r.value) && forall t :: t in r.value ==> TargetOk(t)
  {
    var raw := Lookup(config, TargetKey);
    if !(raw.Some? && raw.value.Map? && raw.value.entries != []) then Err(NotANonEmptyMapping)
    else
      LookupValid(config, TargetKey);
      match ParseAll(raw.value.entries)
      case Err(e) => Err(e)
      case Ok(parsed) =>
        var sorted := SortByDepth(parsed);
        ParsedOk(raw.value.entries);
        SortByDepthCorrect(parsed);
        assert forall t :: t in sorted ==> t in multiset(parsed);
        assert sorted != [] by { assert parsed[0] in multiset(sorted); }
        Ok(sorted)
  }

  /** The targets as processed and the tree they build. */
  function Build(config: seq<(string, Value)>, metadata: Metadata): (r: Result<(seq<TargetInfo>, seq<NodeRec>), ResolveError>)
    requires ValidValue(Map(config))
    ensures r.Ok? ==> WellFormed(r.value.1) && r.value.0 != []
  {
    match OrderedTargets(config)
    case Err(e) => Err(e)
    case Ok(sorted) =>
      match ApplyAll(Root(metadata), sorted, metadata)
      case Err(e) => Err(e)
      case Ok(nodes) => Ok((sorted, nodes))
  }

  lemma LookupValid(config: seq<(string, Value)>, k: string)
    requires ValidValue(Map(config))
    ensures Lookup(config, k).Some? ==> ValidValue(Lookup(config, k).value)
  {
    LookupSome(config, k);
  }

  /** `resolve_targets(config, metadata)`. */
  function ResolveSpec(config: seq<(string, Value)>, metadata: Metadata): (r: Result<Resolution, ResolveError>)
    requires ValidValue(Map(config))
    ensures r.Ok? ==> Abs(Sum(Values(r.value.flat)) - 100.0) <= Tolerance
    ensures r.Ok? ==> Build(config, metadata).Ok? && r.value.targets == Build(config, metadata).value.0
  {
    match Build(config, metadata)
    case Err(e) => Err(e)
    case Ok(built) =>
      var nodes := built.1;
      var flattened := FlattenSpec(nodes, LeavesOf(nodes, 0));
      var total := Sum(Values(flattened.0));
      if Abs(total - 100.0) > Tolerance then Err(TotalMismatch(total))
      else Ok(Resolution(flattened.0, built.0, flattened.1))
  }

  /** The target loop on the tree object, from the root alone. */
  method Grow(tree: AllocationTree, targets: seq<TargetInfo>, metadata: Metadata) returns (err: Option<ResolveError>)
    requires tree.nodes == Root(metadata) && forall t :: t in targets ==> TargetOk(t)
    modifies tree
    ensures tree.Valid()
    ensures err.None? ==> ApplyAll(Root(metadata), targets, metadata) == Ok(tree.nodes)
    ensures err.Some? ==> ApplyAll(Root(metadata), targets, metadata) == Err(err.value)
  {
    var j := 0;
    while j < |targets|
      invariant 0 <= j <= |targets|
      invariant tree.Valid()
      invariant ApplyAll(Root(metadata), targets[..j], metadata) == Ok(tree.nodes)
    {
      assert targets[..j + 1][..j] == targets[..j];
      err := ApplyTargetTo(tree, targets[j], metadata);
      if err.Some? {
        ApplyAllErrPrefix(Root(metadata), targets, metadata, j + 1);
        return;
      }
      j := j + 1;
    }
    assert targets[..j] == targets;
    return None;
  }

  /** The parsing and sorting steps of `resolve_targets`. */
  method OrderTargets(config: seq<(string, Value)>) returns (r: Result<seq<TargetInfo>, ResolveError>)
    requires ValidValue(Map(config))
    ensures r == OrderedTargets(config)
  {
    var raw := Lookup(config, TargetKey);
    if !(raw.Some? && raw.value.Map? && raw.value.entries != []) {
      return Err(NotANonEmptyMapping);
    }
    var parsed := ParseTargets(raw.value.entries);
    if parsed.Err? {
      return Err(parsed.error);
    }
    return Ok(SortByDepth(parsed.value));
  }

  /** `resolve_targets(config, metadata)` as the sequence of loops it is. */
  method ResolveTargets(config: seq<(string, Value)>, metadata: Metadata) returns (r: Result<Resolution, ResolveError>)
    requires ValidValue(Map(config))
    ensures r == ResolveSpec(config, metadata)
  {
    var targets := OrderTargets(config);
    if targets.Err? {
      return Err(targets.error);
    }
    var tree := new AllocationTree(Keys(metadata), 100.0);
    var err := Grow(tree, targets.value, metadata);
    if err.Some? {
      return Err(err.value);
    }
    var flat, groups := tree.Flatten();
    var total := Sum(Values(flat));
    if Abs(total - 100.0) > Tolerance {
      return Err(TotalMismatch(total));
    }
    return Ok(Resolution(flat, targets.value, groups));
  }
}
