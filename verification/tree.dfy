/** The allocation tree of the target resolver: `_Node` objects, navigation
    with `find`, the grouping of a node's tickers by a column, the in-place
    subdivision of a node, the depth-first list of its leaves, and the
    flattening of the leaves into per-ticker percentages.

    The `_Node` objects live in an arena: `AllocationTree.nodes` holds one
    record per node and a node reference is an index into it. A child is
    always created after its parent, so child indices exceed the parent's. */
module Tree {
  import opened Common

  /** Every way resolving a target allocation can fail. */
  datatype ResolveError =
    | NotANonEmptyMapping
    | TargetNotAMapping(name: string)
    | MissingConstraint(name: string)
    | NonStringConstraint(name: string)
    | NoAllocations(name: string)
    | NonNumericAllocation(name: string)
    | BadSum(name: string, sum: real)
    | LeafOnPath(key: string, path: seq<string>)
    | ChildNotFound(key: string, available: seq<string>)
    | AlreadySubdivided(name: string, path: seq<string>)
    | NoMatchingTickers(name: string, key: string, column: string)
    | UncoveredGroup(name: string, column: string, value: string)
    | TotalMismatch(total: real)

  /** One `_Node`: its tickers, its share of the whole portfolio, and either
      no children (a leaf) or its children by category value. */
  datatype NodeRec = NodeRec(tickers: seq<Ticker>, absolutePct: real, children: Option<seq<(string, nat)>>)

  /** Links of `parent` that point forward, inside the arena. */
  ghost predicate Forward(nodes: seq<NodeRec>, parent: nat, cs: seq<(string, nat)>) {
    forall j :: 0 <= j < |cs| ==> parent < cs[j].1 < |nodes|
  }

  ghost predicate WellFormed(nodes: seq<NodeRec>) {
    && |nodes| > 0
    && forall i :: 0 <= i < |nodes| && nodes[i].children.Some? ==>
         Forward(nodes, i, nodes[i].children.value) && Distinct(Keys(nodes[i].children.value))
  }

  // ---------------------------------------------------------------------------
  // Navigation
  // ---------------------------------------------------------------------------

  /** The node reached from `i` by following the keys of `path`; `full` is the
      whole path, reported when navigation fails. */
  function FindFrom(nodes: seq<NodeRec>, i: nat, path: seq<string>, full: seq<string>): (r: Result<nat, ResolveError>)
    requires WellFormed(nodes) && i < |nodes|
    ensures r.Ok? ==> i <= r.value < |nodes|
    ensures r.Err? ==> r.error.LeafOnPath? || r.error.ChildNotFound?
    decreases path
  {
    if path == [] then Ok(i)
    else match nodes[i].children
      case None => Err(LeafOnPath(path[0], full))
      case Some(cs) =>
        match Lookup(cs, path[0])
        case None => Err(ChildNotFound(path[0], Keys(cs)))
        case Some(c) =>
          LookupSome(cs, path[0]);
          FindFrom(nodes, c, path[1..], full)
  }

  /** Navigation composes: following `p + q` is following `p`, then `q`. */
  lemma {:induction false} FindAppend(nodes: seq<NodeRec>, i: nat, p: seq<string>, q: seq<string>, full: seq<string>)
    requires WellFormed(nodes) && i < |nodes|
    ensures FindFrom(nodes, i, p + q, full) ==
      match FindFrom(nodes, i, p, full)
      case Err(e) => Err(e)
      case Ok(j) => FindFrom(nodes, j, q, full)
    decreases p
  {
    if p == [] {
      assert p + q == q;
    } else {
      assert (p + q)[0] == p[0] && (p + q)[1..] == p[1..] + q;
      match nodes[i].children
      case None =>
      case Some(cs) =>
        match Lookup(cs, p[0])
        case None =>
        case Some(c) =>
          LookupSome(cs, p[0]);
          FindAppend(nodes, c, p[1..], q, full);
    }
  }

  // ---------------------------------------------------------------------------
  // Grouping tickers by a column
  // ---------------------------------------------------------------------------

  /** `metadata[ticker].get(column, "")`. */
  function ColumnValue(metadata: Metadata, t: Ticker, column: string): string {
    match Lookup(metadata, t)
    case None => ""
    case Some(row) => GetOr(row, column, "")
  }

  /** The tickers whose `column` holds `v`, in order. */
  function WithValue(metadata: Metadata, tickers: seq<Ticker>, column: string, v: string): seq<Ticker>
    decreases |tickers|
  {
    if tickers == [] then []
    else
      var t := tickers[|tickers| - 1];
      WithValue(metadata, tickers[..|tickers| - 1], column, v) + if ColumnValue(metadata, t, column) == v then [t] else []
  }

  /** What a dict of groups holds under `v`: the tickers having that value,
      or nothing when no ticker has it. */
  function GroupOf(metadata: Metadata, tickers: seq<Ticker>, column: string, v: string): Option<seq<Ticker>> {
    var w := WithValue(metadata, tickers, column, v);
    if w == [] then None else Some(w)
  }

  /** The dict `_group_tickers` builds: one `setdefault(value, []).append(t)`
      per ticker, in order. */
  function GroupBy(metadata: Metadata, tickers: seq<Ticker>, column: string): seq<(string, seq<Ticker>)>
    decreases |tickers|
  {
    if tickers == [] then []
    else
      var groups := GroupBy(metadata, tickers[..|tickers| - 1], column);
      var t := tickers[|tickers| - 1];
      var v := ColumnValue(metadata, t, column);
      Put(groups, v, GetOr(groups, v, []) + [t])
  }

  /** The group of a value is exactly the tickers having that value, in
      order; values no ticker has are absent. */
  lemma {:induction false} GroupByLookup(metadata: Metadata, tickers: seq<Ticker>, column: string, v: string)
    ensures Lookup(GroupBy(metadata, tickers, column), v) == GroupOf(metadata, tickers, column, v)
    decreases |tickers|
  {
    if tickers != [] {
      var front := tickers[..|tickers| - 1];
      var t := tickers[|tickers| - 1];
      var groups := GroupBy(metadata, front, column);
      var cv := ColumnValue(metadata, t, column);
      var extended := GetOr(groups, cv, []) + [t];
      assert GroupBy(metadata, tickers, column) == Put(groups, cv, extended);
      PutLookup(groups, cv, extended, v);
      if cv == v {
        GroupByLookup(metadata, front, column, cv);
        assert GetOr(groups, cv, []) == WithValue(metadata, front, column, cv);
        assert WithValue(metadata, tickers, column, v) == WithValue(metadata, front, column, v) + [t];
      } else {
        GroupByLookup(metadata, front, column, v);
        assert WithValue(metadata, tickers, column, v) == WithValue(metadata, front, column, v) + [];
        assert WithValue(metadata, tickers, column, v) == WithValue(metadata, front, column, v);
        assert Lookup(groups, v) == GroupOf(metadata, front, column, v);
      }
    }
  }

  lemma {:induction false} GroupByKeysDistinct(metadata: Metadata, tickers: seq<Ticker>, column: string)
    ensures Distinct(Keys(GroupBy(metadata, tickers, column)))
    decreases |tickers|
  {
    if tickers != [] {
      var front := tickers[..|tickers| - 1];
      var t := tickers[|tickers| - 1];
      var groups := GroupBy(metadata, front, column);
      var cv := ColumnValue(metadata, t, column);
      GroupByKeysDistinct(metadata, front, column);
      PutKeys(groups, cv, GetOr(groups, cv, []) + [t]);
    }
  }

  /** Appending one ticker to one group adds exactly that ticker to the
      concatenation of all groups. */
  lemma {:induction false} PutAppendConcat(m: seq<(string, seq<Ticker>)>, k: string, t: Ticker)
    ensures multiset(Concat(Values(Put(m, k, GetOr(m, k, []) + [t])))) == multiset(Concat(Values(m))) + multiset{t}
  {
    if m == [] {
      assert Values([(k, [t])]) == [[t]];
    } else {
      assert Values(m) == [m[0].1] + Values(m[1..]);
      if m[0].0 == k {
        assert Values(Put(m, k, GetOr(m, k, []) + [t])) == [m[0].1 + [t]] + Values(m[1..]);
      } else {
        PutAppendConcat(m[1..], k, t);
        assert Values(Put(m, k, GetOr(m, k, []) + [t])) == [m[0].1] + Values(Put(m[1..], k, GetOr(m[1..], k, []) + [t]));
      }
    }
  }

  /** Every ticker lands in exactly one group. */
  lemma {:induction false} GroupByPartition(metadata: Metadata, tickers: seq<Ticker>, column: string)
    ensures multiset(Concat(Values(GroupBy(metadata, tickers, column)))) == multiset(tickers)
    decreases |tickers|
  {
    if tickers != [] {
      var front := tickers[..|tickers| - 1];
      var t := tickers[|tickers| - 1];
      var groups := GroupBy(metadata, front, column);
      var v := ColumnValue(metadata, t, column);
      assert tickers == front + [t];
      calc {
        multiset(Concat(Values(GroupBy(metadata, tickers, column))));
        multiset(Concat(Values(Put(groups, v, GetOr(groups, v, []) + [t]))));
        { PutAppendConcat(groups, v, t); }
        multiset(Concat(Values(groups))) + multiset{t};
        { GroupByPartition(metadata, front, column); }
        multiset(front) + multiset{t};
        multiset(tickers);
      }
    }
  }

  /** `_group_tickers(tickers, metadata, column)`. */
  method GroupTickers(tickers: seq<Ticker>, metadata: Metadata, column: string) returns (groups: seq<(string, seq<Ticker>)>)
    ensures groups == GroupBy(metadata, tickers, column)
    ensures Distinct(Keys(groups))
    ensures multiset(Concat(Values(groups))) == multiset(tickers)
    ensures forall v :: Lookup(groups, v) == GroupOf(metadata, tickers, column, v)
  {
    groups := [];
    var k := 0;
    while k < |tickers|
      invariant 0 <= k <= |tickers|
      invariant groups == GroupBy(metadata, tickers[..k], column)
    {
      var t := tickers[k];
      var value := ColumnValue(metadata, t, column);
      groups := Put(groups, value, GetOr(groups, value, []) + [t]);
      k := k + 1;
      assert tickers[..k][..k - 1] == tickers[..k - 1];
    }
    assert tickers[..k] == tickers;
    GroupByKeysDistinct(metadata, tickers, column);
    GroupByPartition(metadata, tickers, column);
    forall v ensures Lookup(groups, v) == GroupOf(metadata, tickers, column, v) {
      GroupByLookup(metadata, tickers, column, v);
    }
  }

  // ---------------------------------------------------------------------------
  // Subdivision
  // ---------------------------------------------------------------------------

  /** The links `parent.children[value]` to children appended at `base`, `base + 1`, ... */
  function ChildLinks(keys: seq<string>, base: nat): seq<(string, nat)> {
    seq(|keys|, j requires 0 <= j < |keys| => (keys[j], base + j))
  }

  /** The share of the portfolio of a child allocated `pct` percent of its parent. */
  function Portion(parentPct: real, pct: real): real {
    parentPct * pct / 100.0
  }

  /** One new leaf per allocation: the group of its key and
      `parent_pct * pct / 100` of the portfolio. */
  function ChildNodes(allocs: seq<(string, real)>, groups: seq<(string, seq<Ticker>)>, parentPct: real): seq<NodeRec> {
    seq(|allocs|, j requires 0 <= j < |allocs| => NodeRec(GetOr(groups, allocs[j].0, []), Portion(parentPct, allocs[j].1), None))
  }

  /** The arena after `parent.children = {}` and one child per allocation. */
  function Subdivided(nodes: seq<NodeRec>, p: nat, allocs: seq<(string, real)>, groups: seq<(string, seq<Ticker>)>): seq<NodeRec>
    requires p < |nodes|
  {
    nodes[p := nodes[p].(children := Some(ChildLinks(Keys(allocs), |nodes|)))] + ChildNodes(allocs, groups, nodes[p].absolutePct)
  }

  lemma SubdividedWellFormed(nodes: seq<NodeRec>, p: nat, allocs: seq<(string, real)>, groups: seq<(string, seq<Ticker>)>)
    requires WellFormed(nodes) && p < |nodes| && Distinct(Keys(allocs))
    ensures WellFormed(Subdivided(nodes, p, allocs, groups))
  {
    var n := Subdivided(nodes, p, allocs, groups);
    assert Keys(ChildLinks(Keys(allocs), |nodes|)) == Keys(allocs);
    forall i | 0 <= i < |n| && n[i].children.Some?
      ensures Forward(n, i, n[i].children.value) && Distinct(Keys(n[i].children.value))
    {
      if i != p {
        assert i < |nodes| && n[i] == nodes[i];
      }
    }
  }

  // ---------------------------------------------------------------------------
  // Leaves
  // ---------------------------------------------------------------------------

  /** `_Node.leaves()`: the leaves under node `i`, depth-first, children in key order. */
  function LeavesOf(nodes: seq<NodeRec>, i: nat): (r: seq<nat>)
    requires WellFormed(nodes) && i < |nodes|
    ensures forall k :: 0 <= k < |r| ==> i <= r[k] < |nodes| && nodes[r[k]].children.None?
    ensures nodes[i].children.Some? ==> forall k :: 0 <= k < |r| ==> i < r[k]
    decreases |nodes| - i, 1, 0
  {
    match nodes[i].children
    case None => [i]
    case Some(cs) => LeavesBelow(nodes, cs, i)
  }

  /** The leaves under the children `cs` of `parent`, in order. */
  function LeavesBelow(nodes: seq<NodeRec>, cs: seq<(string, nat)>, parent: nat): (r: seq<nat>)
    requires WellFormed(nodes) && Forward(nodes, parent, cs)
    ensures forall k :: 0 <= k < |r| ==> parent < r[k] < |nodes| && nodes[r[k]].children.None?
    decreases |nodes| - parent, 0, |cs|
  {
    if cs == [] then []
    else LeavesOf(nodes, cs[0].1) + LeavesBelow(nodes, cs[1..], parent)
  }

  // ---------------------------------------------------------------------------
  // Flattening
  // ---------------------------------------------------------------------------

  /** `flat_alloc[t] = flat_alloc.get(t, 0.0) + share` for each ticker, in order. */
  function AddShares(flat: seq<(Ticker, real)>, tickers: seq<Ticker>, share: real): seq<(Ticker, real)>
    decreases |tickers|
  {
    if tickers == [] then flat
    else
      var f := AddShares(flat, tickers[..|tickers| - 1], share);
      var t := tickers[|tickers| - 1];
      Put(f, t, GetOr(f, t, 0.0) + share)
  }

  ghost predicate InArena(nodes: seq<NodeRec>, leaves: seq<nat>) {
    forall k :: 0 <= k < |leaves| ==> leaves[k] < |nodes|
  }

  /** The flat allocation and the groups after visiting `leaves`: an empty
      leaf is skipped, a non-empty one is a group whose tickers share its
      percentage equally. */
  function FlattenSpec(nodes: seq<NodeRec>, leaves: seq<nat>): (seq<(Ticker, real)>, seq<seq<Ticker>>)
    requires InArena(nodes, leaves)
    decreases |leaves|
  {
    if leaves == [] then ([], [])
    else
      var prev := FlattenSpec(nodes, leaves[..|leaves| - 1]);
      var leaf := nodes[leaves[|leaves| - 1]];
      if leaf.tickers == [] then prev
      else (AddShares(prev.0, leaf.tickers, leaf.absolutePct / |leaf.tickers| as real), prev.1 + [leaf.tickers])
  }

  // ---------------------------------------------------------------------------
  // Invariants of a resolved tree
  // ---------------------------------------------------------------------------

  ghost predicate LinksInArena(nodes: seq<NodeRec>, cs: seq<(string, nat)>) {
    forall j :: 0 <= j < |cs| ==> cs[j].1 < |nodes|
  }

  /** The tickers of the linked nodes, concatenated in link order. */
  function ChildTickers(nodes: seq<NodeRec>, cs: seq<(string, nat)>): seq<Ticker>
    requires LinksInArena(nodes, cs)
  {
    if cs == [] then [] else nodes[cs[0].1].tickers + ChildTickers(nodes, cs[1..])
  }

  /** The percentages of the linked nodes, added up. */
  function ChildPct(nodes: seq<NodeRec>, cs: seq<(string, nat)>): real
    requires LinksInArena(nodes, cs)
  {
    if cs == [] then 0.0 else nodes[cs[0].1].absolutePct + ChildPct(nodes, cs[1..])
  }

  /** The children of every subdivided node partition its tickers. */
  ghost predicate Partitioned(nodes: seq<NodeRec>)
    requires WellFormed(nodes)
  {
    forall i :: 0 <= i < |nodes| && nodes[i].children.Some? ==>
      multiset(ChildTickers(nodes, nodes[i].children.value)) == multiset(nodes[i].tickers)
  }

  /** The children of every subdivided node share out exactly its percentage. */
  ghost predicate Conserved(nodes: seq<NodeRec>)
    requires WellFormed(nodes)
  {
    forall i :: 0 <= i < |nodes| && nodes[i].children.Some? ==>
      ChildPct(nodes, nodes[i].children.value) == nodes[i].absolutePct
  }

  /** The tickers of the listed leaves, concatenated. */
  function LeafTickers(nodes: seq<NodeRec>, leaves: seq<nat>): seq<Ticker>
    requires InArena(nodes, leaves)
  {
    if leaves == [] then [] else nodes[leaves[0]].tickers + LeafTickers(nodes, leaves[1..])
  }

  /** The percentages of the listed leaves, added up. */
  function LeafPct(nodes: seq<NodeRec>, leaves: seq<nat>): real
    requires InArena(nodes, leaves)
  {
    if leaves == [] then 0.0 else nodes[leaves[0]].absolutePct + LeafPct(nodes, leaves[1..])
  }

  lemma {:induction false} LeafAppend(nodes: seq<NodeRec>, a: seq<nat>, b: seq<nat>)
    requires InArena(nodes, a) && InArena(nodes, b)
    ensures LeafTickers(nodes, a + b) == LeafTickers(nodes, a) + LeafTickers(nodes, b)
    ensures LeafPct(nodes, a + b) == LeafPct(nodes, a) + LeafPct(nodes, b)
  {
    if a == [] {
      assert a + b == b;
    } else {
      assert (a + b)[1..] == a[1..] + b;
      LeafAppend(nodes, a[1..], b);
    }
  }

  /** The leaves under a node hold exactly that node's tickers, each as often. */
  lemma {:induction false} LeavesCover(nodes: seq<NodeRec>, i: nat)
    requires WellFormed(nodes) && Partitioned(nodes) && i < |nodes|
    ensures multiset(LeafTickers(nodes, LeavesOf(nodes, i))) == multiset(nodes[i].tickers)
    decreases |nodes| - i, 1, 0
  {
    match nodes[i].children
    case None =>
      assert LeafTickers(nodes, [i]) == nodes[i].tickers + [];
    case Some(cs) =>
      LeavesCoverBelow(nodes, cs, i);
  }

  lemma {:induction false} LeavesCoverBelow(nodes: seq<NodeRec>, cs: seq<(string, nat)>, parent: nat)
    requires WellFormed(nodes) && Partitioned(nodes) && Forward(nodes, parent, cs)
    ensures multiset(LeafTickers(nodes, LeavesBelow(nodes, cs, parent))) == multiset(ChildTickers(nodes, cs))
    decreases |nodes| - parent, 0, |cs|
  {
    if cs != [] {
      LeavesCover(nodes, cs[0].1);
      LeavesCoverBelow(nodes, cs[1..], parent);
      LeafAppend(nodes, LeavesOf(nodes, cs[0].1), LeavesBelow(nodes, cs[1..], parent));
    }
  }

  /** When percentages are conserved, the leaves under a node share out
      exactly that node's percentage. */
  lemma {:induction false} LeavesShareOut(nodes: seq<NodeRec>, i: nat)
    requires WellFormed(nodes) && Conserved(nodes) && i < |nodes|
    ensures LeafPct(nodes, LeavesOf(nodes, i)) == nodes[i].absolutePct
    decreases |nodes| - i, 1, 0
  {
    match nodes[i].children
    case None =>
    case Some(cs) =>
      LeavesShareOutBelow(nodes, cs, i);
  }

  lemma {:induction false} LeavesShareOutBelow(nodes: seq<NodeRec>, cs: seq<(string, nat)>, parent: nat)
    requires WellFormed(nodes) && Conserved(nodes) && Forward(nodes, parent, cs)
    ensures LeafPct(nodes, LeavesBelow(nodes, cs, parent)) == ChildPct(nodes, cs)
    decreases |nodes| - parent, 0, |cs|
  {
    if cs != [] {
      LeavesShareOut(nodes, cs[0].1);
      LeavesShareOutBelow(nodes, cs[1..], parent);
      LeafAppend(nodes, LeavesOf(nodes, cs[0].1), LeavesBelow(nodes, cs[1..], parent));
    }
  }

  // ---------------------------------------------------------------------------
  // What flattening produces
  // ---------------------------------------------------------------------------

  /** Each of `tickers` paired with the same `share`. */
  function SharePairs(tickers: seq<Ticker>, share: real): seq<(Ticker, real)> {
    seq(|tickers|, j requires 0 <= j < |tickers| => (tickers[j], share))
  }

  /** The reference result of flattening: every ticker of every non-empty
      leaf, in leaf order, with the leaf's percentage divided by its size. */
  function Shares(nodes: seq<NodeRec>, leaves: seq<nat>): seq<(Ticker, real)>
    requires InArena(nodes, leaves)
    decreases |leaves|
  {
    if leaves == [] then []
    else
      var leaf := nodes[leaves[|leaves| - 1]];
      Shares(nodes, leaves[..|leaves| - 1]) +
        if leaf.tickers == [] then [] else SharePairs(leaf.tickers, leaf.absolutePct / |leaf.tickers| as real)
  }

  lemma {:induction false} LeafTickersSnoc(nodes: seq<NodeRec>, leaves: seq<nat>)
    requires InArena(nodes, leaves) && leaves != []
    ensures LeafTickers(nodes, leaves) == LeafTickers(nodes, leaves[..|leaves| - 1]) + nodes[leaves[|leaves| - 1]].tickers
    ensures LeafPct(nodes, leaves) == LeafPct(nodes, leaves[..|leaves| - 1]) + nodes[leaves[|leaves| - 1]].absolutePct
  {
    var last := leaves[|leaves| - 1];
    assert leaves == leaves[..|leaves| - 1] + [last];
    LeafAppend(nodes, leaves[..|leaves| - 1], [last]);
    assert LeafTickers(nodes, [last]) == nodes[last].tickers + [];
  }

  lemma {:induction false} AddSharesKeys(flat: seq<(Ticker, real)>, tickers: seq<Ticker>, share: real)
    ensures forall t :: t in Keys(AddShares(flat, tickers, share)) <==> t in Keys(flat) || t in tickers
    decreases |tickers|
  {
    if tickers != [] {
      var front := tickers[..|tickers| - 1];
      var f := AddShares(flat, front, share);
      var t := tickers[|tickers| - 1];
      AddSharesKeys(flat, front, share);
      PutKeys(f, t, GetOr(f, t, 0.0) + share);
      assert tickers == front + [t];
    }
  }

  /** `n` copies of `x` added up, which keeps the share arithmetic linear. */
  function Times(n: nat, x: real): real {
    if n == 0 then 0.0 else Times(n - 1, x) + x
  }

  lemma {:induction false} AddSharesSum(flat: seq<(Ticker, real)>, tickers: seq<Ticker>, share: real)
    ensures Sum(Values(AddShares(flat, tickers, share))) == Sum(Values(flat)) + Times(|tickers|, share)
    decreases |tickers|
  {
    if tickers != [] {
      var front := tickers[..|tickers| - 1];
      var f := AddShares(flat, front, share);
      var t := tickers[|tickers| - 1];
      var g := GetOr(f, t, 0.0);
      AddSharesSum(flat, front, share);
      PutSum(f, t, g + share);
    }
  }

  lemma {:induction false} TimesIsProduct(n: nat, x: real)
    ensures Times(n, x) == n as real * x
  {
    if n > 0 {
      TimesIsProduct(n - 1, x);
    }
  }

  /** `n` equal shares of `p / n` add back up to `p`. */
  lemma SplitEvenly(p: real, n: nat)
    requires n > 0
    ensures Times(n, p / n as real) == p
  {
    TimesIsProduct(n, p / n as real);
  }

  /** Shares of tickers the dict does not hold yet are appended, one entry each. */
  lemma {:induction false} AddSharesFresh(flat: seq<(Ticker, real)>, tickers: seq<Ticker>, share: real)
    requires Distinct(tickers) && forall t :: t in tickers ==> t !in Keys(flat)
    ensures AddShares(flat, tickers, share) == flat + SharePairs(tickers, share)
    decreases |tickers|
  {
    if tickers != [] {
      var front := tickers[..|tickers| - 1];
      var t := tickers[|tickers| - 1];
      AddSharesFresh(flat, front, share);
      var f := flat + SharePairs(front, share);
      assert t !in front;
      assert t !in Keys(SharePairs(front, share));
      assert Keys(f) == Keys(flat) + Keys(SharePairs(front, share));
      assert GetOr(f, t, 0.0) == 0.0 by { LookupSome(f, t); }
      PutFresh(f, t, 0.0 + share);
      assert SharePairs(tickers, share) == SharePairs(front, share) + [(t, share)];
    }
  }

  /** The groups are the tickers of the non-empty leaves, so together they
      hold every leaf ticker. */
  lemma {:induction false} FlattenGroups(nodes: seq<NodeRec>, leaves: seq<nat>)
    requires InArena(nodes, leaves)
    ensures Concat(FlattenSpec(nodes, leaves).1) == LeafTickers(nodes, leaves)
    ensures forall g :: g in FlattenSpec(nodes, leaves).1 ==> g != []
    decreases |leaves|
  {
    if leaves != [] {
      var front := leaves[..|leaves| - 1];
      var leaf := nodes[leaves[|leaves| - 1]];
      FlattenGroups(nodes, front);
      LeafTickersSnoc(nodes, leaves);
      if leaf.tickers != [] {
        ConcatAppend(FlattenSpec(nodes, front).1, [leaf.tickers]);
        assert Concat([leaf.tickers]) == leaf.tickers + [];
      } else {
        assert LeafTickers(nodes, leaves) == LeafTickers(nodes, front) + [];
      }
    }
  }

  /** The flat allocation has an entry for exactly the leaf tickers. */
  lemma {:induction false} FlattenKeys(nodes: seq<NodeRec>, leaves: seq<nat>)
    requires InArena(nodes, leaves)
    ensures forall t :: t in Keys(FlattenSpec(nodes, leaves).0) <==> t in LeafTickers(nodes, leaves)
    decreases |leaves|
  {
    if leaves != [] {
      var front := leaves[..|leaves| - 1];
      var leaf := nodes[leaves[|leaves| - 1]];
      FlattenKeys(nodes, front);
      LeafTickersSnoc(nodes, leaves);
      if leaf.tickers != [] {
        AddSharesKeys(FlattenSpec(nodes, front).0, leaf.tickers, leaf.absolutePct / |leaf.tickers| as real);
      }
    }
  }

  /** When no listed leaf is empty, the flat allocation adds up to the
      leaves' percentages. */
  lemma {:induction false} FlattenTotal(nodes: seq<NodeRec>, leaves: seq<nat>)
    requires InArena(nodes, leaves)
    requires forall k :: 0 <= k < |leaves| ==> nodes[leaves[k]].tickers != []
    ensures Sum(Values(FlattenSpec(nodes, leaves).0)) == LeafPct(nodes, leaves)
    decreases |leaves|
  {
    if leaves != [] {
      var front := leaves[..|leaves| - 1];
      var leaf := nodes[leaves[|leaves| - 1]];
      var n := |leaf.tickers| as real;
      FlattenTotal(nodes, front);
      LeafTickersSnoc(nodes, leaves);
      if leaf.tickers != [] {
        AddSharesSum(FlattenSpec(nodes, front).0, leaf.tickers, leaf.absolutePct / n);
        SplitEvenly(leaf.absolutePct, |leaf.tickers|);
      }
    }
  }

  lemma {:induction false} SharesKeys(nodes: seq<NodeRec>, leaves: seq<nat>)
    requires InArena(nodes, leaves)
    ensures Keys(Shares(nodes, leaves)) == LeafTickers(nodes, leaves)
    decreases |leaves|
  {
    if leaves != [] {
      var front := leaves[..|leaves| - 1];
      var leaf := nodes[leaves[|leaves| - 1]];
      SharesKeys(nodes, front);
      LeafTickersSnoc(nodes, leaves);
      var tail := if leaf.tickers == [] then [] else SharePairs(leaf.tickers, leaf.absolutePct / |leaf.tickers| as real);
      assert Keys(tail) == leaf.tickers;
      assert Keys(Shares(nodes, front) + tail) == Keys(Shares(nodes, front)) + Keys(tail);
    }
  }

  /** Equal-split law: when no ticker is in two leaves, each leaf ticker
      receives exactly its leaf's percentage divided by the leaf's size. */
  lemma {:induction false} FlattenEqualSplit(nodes: seq<NodeRec>, leaves: seq<nat>)
    requires InArena(nodes, leaves) && Distinct(LeafTickers(nodes, leaves))
    ensures FlattenSpec(nodes, leaves).0 == Shares(nodes, leaves)
    decreases |leaves|
  {
    if leaves != [] {
      var front := leaves[..|leaves| - 1];
      var leaf := nodes[leaves[|leaves| - 1]];
      LeafTickersSnoc(nodes, leaves);
      DistinctSplit(LeafTickers(nodes, front), leaf.tickers);
      FlattenEqualSplit(nodes, front);
      if leaf.tickers != [] {
        SharesKeys(nodes, front);
        AddSharesFresh(Shares(nodes, front), leaf.tickers, leaf.absolutePct / |leaf.tickers| as real);
      }
    }
  }

  lemma DistinctSplit<T>(a: seq<T>, b: seq<T>)
    requires Distinct(a + b)
    ensures Distinct(a) && Distinct(b)
    ensures forall x :: x in b ==> x !in a
  {
    forall i, j | 0 <= i < j < |a| ensures a[i] != a[j] {
      assert (a + b)[i] == a[i] && (a + b)[j] == a[j];
    }
    forall i, j | 0 <= i < j < |b| ensures b[i] != b[j] {
      assert (a + b)[|a| + i] == b[i] && (a + b)[|a| + j] == b[j];
    }
    forall i, j | 0 <= i < |a| && 0 <= j < |b| ensures a[i] != b[j] {
      assert (a + b)[i] == a[i] && (a + b)[|a| + j] == b[j];
    }
  }

  // ---------------------------------------------------------------------------
  // Children created from a checked partition
  // ---------------------------------------------------------------------------

  /** The groups of the given keys, concatenated in key order. */
  function Collect(keys: seq<string>, groups: seq<(string, seq<Ticker>)>): seq<Ticker> {
    if keys == [] then [] else GetOr(groups, keys[0], []) + Collect(keys[1..], groups)
  }

  /** The tickers having each of `keys`, concatenated in key order. */
  function CollectByValue(metadata: Metadata, tickers: seq<Ticker>, column: string, keys: seq<string>): seq<Ticker> {
    if keys == [] then [] else WithValue(metadata, tickers, column, keys[0]) + CollectByValue(metadata, tickers, column, keys[1..])
  }

  lemma {:induction false} CollectByValueSnoc(metadata: Metadata, tickers: seq<Ticker>, column: string, keys: seq<string>)
    requires tickers != [] && Distinct(keys)
    ensures multiset(CollectByValue(metadata, tickers, column, keys)) ==
      multiset(CollectByValue(metadata, tickers[..|tickers| - 1], column, keys)) +
      if ColumnValue(metadata, tickers[|tickers| - 1], column) in keys then multiset{tickers[|tickers| - 1]} else multiset{}
  {
    if keys != [] {
      assert Distinct(keys[1..]) by {
        forall i, j | 0 <= i < j < |keys[1..]| ensures keys[1..][i] != keys[1..][j] {
          assert keys[1..][i] == keys[i + 1] && keys[1..][j] == keys[j + 1];
        }
      }
      CollectByValueSnoc(metadata, tickers, column, keys[1..]);
      assert keys[0] !in keys[1..];
    }
  }

  /** When every ticker's value is one of the distinct `keys`, the groups of
      the keys, in any order, together hold every ticker once. */
  lemma {:induction false} CollectByValuePartition(metadata: Metadata, tickers: seq<Ticker>, column: string, keys: seq<string>)
    requires Distinct(keys)
    requires forall t :: t in tickers ==> ColumnValue(metadata, t, column) in keys
    ensures multiset(CollectByValue(metadata, tickers, column, keys)) == multiset(tickers)
    decreases |tickers|
  {
    if tickers == [] {
      assert CollectByValue(metadata, tickers, column, keys) == [] by {
        CollectEmpty(metadata, column, keys);
      }
    } else {
      var front := tickers[..|tickers| - 1];
      var t := tickers[|tickers| - 1];
      assert tickers == front + [t];
      assert ColumnValue(metadata, t, column) in keys;
      CollectByValuePartition(metadata, front, column, keys);
      CollectByValueSnoc(metadata, tickers, column, keys);
      assert multiset(tickers) == multiset(front) + multiset{t};
    }
  }

  lemma {:induction false} CollectEmpty(metadata: Metadata, column: string, keys: seq<string>)
    ensures CollectByValue(metadata, [], column, keys) == []
  {
    if keys != [] {
      CollectEmpty(metadata, column, keys[1..]);
    }
  }

  /** The children linked at `base`, `base + 1`, ... carry the groups of the keys in order. */
  lemma {:induction false} ChildTickersOfLinks(nodes: seq<NodeRec>, keys: seq<string>, base: nat, groups: seq<(string, seq<Ticker>)>)
    requires base + |keys| <= |nodes|
    requires forall j :: 0 <= j < |keys| ==> nodes[base + j].tickers == GetOr(groups, keys[j], [])
    ensures LinksInArena(nodes, ChildLinks(keys, base))
    ensures ChildTickers(nodes, ChildLinks(keys, base)) == Collect(keys, groups)
    decreases |keys|
  {
    if keys != [] {
      assert ChildLinks(keys, base)[1..] == ChildLinks(keys[1..], base + 1);
      ChildTickersOfLinks(nodes, keys[1..], base + 1, groups);
    }
  }

  /** The children linked at `base`, `base + 1`, ... carry the percentages of the allocations in order. */
  lemma {:induction false} ChildPctOfLinks(nodes: seq<NodeRec>, allocs: seq<(string, real)>, base: nat, parentPct: real)
    requires base + |allocs| <= |nodes|
    requires forall j :: 0 <= j < |allocs| ==> nodes[base + j].absolutePct == Portion(parentPct, allocs[j].1)
    ensures LinksInArena(nodes, ChildLinks(Keys(allocs), base))
    ensures ChildPct(nodes, ChildLinks(Keys(allocs), base)) == parentPct * Sum(Values(allocs)) / 100.0
    decreases |allocs|
  {
    if allocs != [] {
      assert ChildLinks(Keys(allocs), base)[1..] == ChildLinks(Keys(allocs[1..]), base + 1);
      assert Values(allocs) == [allocs[0].1] + Values(allocs[1..]);
      ChildPctOfLinks(nodes, allocs[1..], base + 1, parentPct);
    }
  }

  // ---------------------------------------------------------------------------
  // The tree object
  // ---------------------------------------------------------------------------

  class AllocationTree {
    var nodes: seq<NodeRec>

    ghost predicate Valid()
      reads this
    {
      WellFormed(nodes)
    }

    /** The root `_Node(tickers, absolute_pct)`, a leaf. */
    constructor (tickers: seq<Ticker>, absolutePct: real)
      ensures Valid() && nodes == [NodeRec(tickers, absolutePct, None)]
    {
      nodes := [NodeRec(tickers, absolutePct, None)];
    }

    /** `_Node.find(path)` on node `start`: an empty path gives `start`
        itself; stepping into a leaf or along a missing key fails. */
    method Find(start: nat, path: seq<string>) returns (r: Result<nat, ResolveError>)
      requires Valid() && start < |nodes|
      ensures r == FindFrom(nodes, start, path, path)
      ensures path == [] ==> r == Ok(start)
      ensures r.Ok? ==> start <= r.value < |nodes|
    {
      var node: nat := start;
      var k := 0;
      while k < |path|
        invariant 0 <= k <= |path| && node < |nodes|
        invariant FindFrom(nodes, node, path[k..], path) == FindFrom(nodes, start, path, path)
      {
        var key := path[k];
        match nodes[node].children {
          case None =>
            return Err(LeafOnPath(key, path));
          case Some(cs) =>
            var c := Lookup(cs, key);
            if c.None? {
              return Err(ChildNotFound(key, Keys(cs)));
            }
            LookupSome(cs, key);
            assert path[k..][1..] == path[k + 1..];
            node := c.value;
        }
        k := k + 1;
      }
      return Ok(node);
    }

    /** `parent.children = {}` followed by one new child per allocation. */
    method Subdivide(p: nat, allocs: seq<(string, real)>, groups: seq<(string, seq<Ticker>)>)
      requires Valid() && p < |nodes| && Distinct(Keys(allocs))
      modifies this
      ensures nodes == Subdivided(old(nodes), p, allocs, groups)
      ensures Valid()
    {
      var base := |nodes|;
      var pct := nodes[p].absolutePct;
      nodes := nodes[p := nodes[p].(children := Some([]))];
      var j := 0;
      assert ChildLinks(Keys(allocs[..j]), base) == [] && ChildNodes(allocs[..j], groups, pct) == [];
      while j < |allocs|
        invariant 0 <= j <= |allocs| && |nodes| == base + j
        invariant nodes == old(nodes)[p := old(nodes)[p].(children := Some(ChildLinks(Keys(allocs[..j]), base)))]
                             + ChildNodes(allocs[..j], groups, pct)
      {
        var value := allocs[j].0;
        var child := NodeRec(GetOr(groups, value, []), Portion(pct, allocs[j].1), None);
        nodes := nodes[p := nodes[p].(children := Some(nodes[p].children.value + [(value, |nodes|)]))] + [child];
        j := j + 1;
        assert ChildLinks(Keys(allocs[..j]), base) == ChildLinks(Keys(allocs[..j - 1]), base) + [(value, base + j - 1)];
        ghost var cn := ChildNodes(allocs[..j], groups, pct);
        ghost var cp := ChildNodes(allocs[..j - 1], groups, pct) + [child];
        assert |cn| == |cp|;
        forall i | 0 <= i < j ensures cn[i] == cp[i] {
          assert allocs[..j][i] == allocs[i];
          if i < j - 1 {
            assert allocs[..j - 1][i] == allocs[i];
          }
        }
        assert ChildNodes(allocs[..j], groups, pct) == ChildNodes(allocs[..j - 1], groups, pct) + [child];
      }
      assert allocs[..j] == allocs;
      SubdividedWellFormed(old(nodes), p, allocs, groups);
    }

    /** The flattening loop over `root.leaves()`. */
    method Flatten() returns (flat: seq<(Ticker, real)>, groups: seq<seq<Ticker>>)
      requires Valid()
      ensures (flat, groups) == FlattenSpec(nodes, LeavesOf(nodes, 0))
    {
      var leaves := LeavesOf(nodes, 0);
      flat, groups := [], [];
      var k := 0;
      while k < |leaves|
        invariant 0 <= k <= |leaves|
        invariant (flat, groups) == FlattenSpec(nodes, leaves[..k])
      {
        assert leaves[..k + 1][..k] == leaves[..k];
        var leaf := nodes[leaves[k]];
        if leaf.tickers != [] {
          groups := groups + [leaf.tickers];
          var share := leaf.absolutePct / |leaf.tickers| as real;
          ghost var before := flat;
          var m := 0;
          while m < |leaf.tickers|
            invariant 0 <= m <= |leaf.tickers|
            invariant flat == AddShares(before, leaf.tickers[..m], share)
          {
            var t := leaf.tickers[m];
            flat := Put(flat, t, GetOr(flat, t, 0.0) + share);
            m := m + 1;
            assert leaf.tickers[..m][..m - 1] == leaf.tickers[..m - 1];
          }
          assert leaf.tickers[..m] == leaf.tickers;
        }
        k := k + 1;
      }
      assert leaves[..k] == leaves;
    }
  }
}
