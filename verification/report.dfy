/** The donut chart's data: `_build_tree` rebuilds the category tree from
    the resolved targets, and `_flatten_rings` lays it out as one list of
    wedges per ring, innermost category first and tickers last. */
module Report {
  import opened Common
  import opened Tree
  import opened Targets

  /** A category node, the dict `{"label": ..., "tickers": ..., "children": ...}`;
      `label` is a reserved word here, so the field is `name`. */
  datatype ReportNode = ReportNode(name: string, tickers: seq<Ticker>, children: seq<ReportNode>)

  /** The subdivision table: constraint prefix -> (grouping column, allocation keys). */
  type Table = map<seq<string>, (string, seq<string>)>

  // ---------------------------------------------------------------------------
  // The subdivision table
  // ---------------------------------------------------------------------------

  predicate Constrained(ts: seq<TargetInfo>) {
    forall i :: 0 <= i < |ts| ==> ts[i].constraint != []
  }

  /** `tuple(constraint[:-1])`. */
  function PathOf(t: TargetInfo): seq<string>
    requires t.constraint != []
  {
    t.constraint[..|t.constraint| - 1]
  }

  /** `(constraint[-1], list(allocations.keys()))`. */
  function EntryOf(t: TargetInfo): (string, seq<string>)
    requires t.constraint != []
  {
    (t.constraint[|t.constraint| - 1], Keys(t.allocations))
  }

  /** The table after one assignment per target, in order. */
  function TableOf(ts: seq<TargetInfo>): Table
    requires Constrained(ts)
    decreases |ts|
  {
    if ts == [] then map[]
    else TableOf(ts[..|ts| - 1])[PathOf(ts[|ts| - 1]) := EntryOf(ts[|ts| - 1])]
  }

  /** Last write wins: a prefix is in the table exactly when some target has
      it, and then it holds the entry of the last such target. */
  lemma {:induction false} TableLastWins(ts: seq<TargetInfo>, p: seq<string>)
    requires Constrained(ts)
    ensures p in TableOf(ts) <==> exists i :: 0 <= i < |ts| && PathOf(ts[i]) == p
    ensures p in TableOf(ts) ==>
      exists i :: 0 <= i < |ts| && PathOf(ts[i]) == p && TableOf(ts)[p] == EntryOf(ts[i])
        && forall j :: i < j < |ts| ==> PathOf(ts[j]) != p
    decreases |ts|
  {
    if ts != [] {
      var front := ts[..|ts| - 1];
      var last := |ts| - 1;
      TableLastWins(front, p);
      if PathOf(ts[last]) == p {
        assert TableOf(ts)[p] == EntryOf(ts[last]);
      } else if p in TableOf(front) {
        var i :| 0 <= i < |front| && PathOf(front[i]) == p && TableOf(front)[p] == EntryOf(front[i])
          && forall j :: i < j < |front| ==> PathOf(front[j]) != p;
        assert ts[i] == front[i];
        assert forall j :: i < j < |ts| ==> PathOf(ts[j]) != p by {
          forall j | i < j < |ts| ensures PathOf(ts[j]) != p {
            if j < last {
              assert ts[j] == front[j];
            }
          }
        }
      } else {
        forall i | 0 <= i < |ts| ensures PathOf(ts[i]) != p {
          if i < last {
            assert ts[i] == front[i];
          }
        }
      }
    }
  }

  /** There are at most as many subdivisions as targets. */
  lemma {:induction false} TableSize(ts: seq<TargetInfo>)
    requires Constrained(ts)
    ensures |TableOf(ts).Keys| <= |ts|
    decreases |ts|
  {
    if ts != [] {
      var front := ts[..|ts| - 1];
      TableSize(front);
      var k := PathOf(ts[|ts| - 1]);
      assert TableOf(ts).Keys == TableOf(front).Keys + {k};
    }
  }

  /** The loop that fills `subdivisions`. */
  method BuildTable(ts: seq<TargetInfo>) returns (table: Table)
    requires Constrained(ts)
    ensures table == TableOf(ts)
    ensures |table.Keys| <= |ts|
  {
    table := map[];
    var i := 0;
    while i < |ts|
      invariant 0 <= i <= |ts|
      invariant Constrained(ts[..i])
      invariant table == TableOf(ts[..i])
    {
      var t := ts[i];
      table := table[t.constraint[..|t.constraint| - 1] := (t.constraint[|t.constraint| - 1], Keys(t.allocations))];
      i := i + 1;
      assert ts[..i][..i - 1] == ts[..i - 1];
    }
    assert ts[..i] == ts;
    TableSize(ts);
  }

  // ---------------------------------------------------------------------------
  // The category tree
  // ---------------------------------------------------------------------------

  /** The table entries at least `n` levels deep: a finite measure that
      shrinks each time `_sub` descends below a subdivided node. */
  function KeysFrom(table: Table, n: nat): set<seq<string>> {
    set p | p in table && |p| >= n
  }

  lemma KeysFromShrinks(table: Table, path: seq<string>)
    requires path in table
    ensures KeysFrom(table, |path| + 1) < KeysFrom(table, |path|)
    ensures |KeysFrom(table, |path| + 1)| < |KeysFrom(table, |path|)|
  {
    var small := KeysFrom(table, |path| + 1);
    var big := KeysFrom(table, |path|);
    assert path in big && path !in small;
    assert big == small + (big - small);
    assert path in big - small;
  }

  /** The children `_sub(node, path)` attaches to a node holding `tickers`. */
  function SubSpec(table: Table, metadata: Metadata, tickers: seq<Ticker>, path: seq<string>): seq<ReportNode>
    decreases KeysFrom(table, |path|), 1
  {
    if path !in table then []
    else Kids(table, metadata, path, table[path].1, GroupBy(metadata, tickers, table[path].0))
  }

  /** One child per allocation key, in key order, for the keys some ticker has. */
  function Kids(table: Table, metadata: Metadata, path: seq<string>, keys: seq<string>,
                groups: seq<(string, seq<Ticker>)>): seq<ReportNode>
    requires path in table
    decreases KeysFrom(table, |path|), 0, |keys|
  {
    if keys == [] then []
    else
      var front := Kids(table, metadata, path, keys[..|keys| - 1], groups);
      var k := keys[|keys| - 1];
      match Lookup(groups, k)
      case None => front
      case Some(g) =>
        KeysFromShrinks(table, path);
        front + [ReportNode(k, g, SubSpec(table, metadata, g, path + [k]))]
  }

  function Labels(cs: seq<ReportNode>): seq<string> {
    seq(|cs|, i requires 0 <= i < |cs| => cs[i].name)
  }

  lemma {:induction false} KidsShape(table: Table, metadata: Metadata, path: seq<string>, keys: seq<string>,
                                     groups: seq<(string, seq<Ticker>)>)
    requires path in table
    ensures var cs := Kids(table, metadata, path, keys, groups);
      && IsSubsequence(Labels(cs), keys)
      && (forall k :: k in keys && Lookup(groups, k).Some? ==> k in Labels(cs))
      && forall i :: 0 <= i < |cs| ==>
           && Lookup(groups, cs[i].name) == Some(cs[i].tickers)
           && cs[i].children == SubSpec(table, metadata, cs[i].tickers, path + [cs[i].name])
    decreases |keys|
  {
    if keys == [] {
      assert Labels([]) == [];
    } else {
      var front := keys[..|keys| - 1];
      var k := keys[|keys| - 1];
      var before := Kids(table, metadata, path, front, groups);
      KidsShape(table, metadata, path, front, groups);
      assert keys == front + [k];
      SubsequenceSnoc(Labels(before), front, k);
      match Lookup(groups, k)
      case None =>
      case Some(g) =>
        var child := ReportNode(k, g, SubSpec(table, metadata, g, path + [k]));
        assert Labels(before + [child]) == Labels(before) + [k];
    }
  }

  /** A node's children, when its path is subdivided: in allocation-key
      order, one per key that some of the node's tickers have, each holding
      exactly those tickers in order and subdivided along its own path. An
      unsubdivided path gets no children. */
  lemma SubShape(table: Table, metadata: Metadata, tickers: seq<Ticker>, path: seq<string>)
    ensures path !in table ==> SubSpec(table, metadata, tickers, path) == []
    ensures path in table ==>
      var (column, keys) := table[path];
      var cs := SubSpec(table, metadata, tickers, path);
      && IsSubsequence(Labels(cs), keys)
      && (forall k :: k in keys && WithValue(metadata, tickers, column, k) != [] ==> k in Labels(cs))
      && forall i :: 0 <= i < |cs| ==>
           && cs[i].tickers == WithValue(metadata, tickers, column, cs[i].name) != []
           && cs[i].children == SubSpec(table, metadata, cs[i].tickers, path + [cs[i].name])
  {
    if path in table {
      var (column, keys) := table[path];
      var groups := GroupBy(metadata, tickers, column);
      KidsShape(table, metadata, path, keys, groups);
      forall v ensures Lookup(groups, v) == GroupOf(metadata, tickers, column, v) {
        GroupByLookup(metadata, tickers, column, v);
      }
    }
  }

  /** The subtree below `n` is at most `h` levels deep. */
  predicate DepthAtMost(n: ReportNode, h: nat)
    decreases n
  {
    n.children == [] || (h > 0 && forall i :: 0 <= i < |n.children| ==> DepthAtMost(n.children[i], h - 1))
  }

  lemma {:induction false} DepthMono(n: ReportNode, h: nat, h': nat)
    requires DepthAtMost(n, h) && h <= h'
    ensures DepthAtMost(n, h')
    decreases n
  {
    if n.children != [] {
      forall i | 0 <= i < |n.children| ensures DepthAtMost(n.children[i], h' - 1) {
        DepthMono(n.children[i], h - 1, h' - 1);
      }
    }
  }

  /** Below a node on `path` there are at most as many levels as table
      entries at that depth or deeper: each level consumes one entry. */
  lemma {:induction false} SubDepth(table: Table, metadata: Metadata, name: string, tickers: seq<Ticker>, path: seq<string>)
    ensures DepthAtMost(ReportNode(name, tickers, SubSpec(table, metadata, tickers, path)), |KeysFrom(table, |path|)|)
    decreases KeysFrom(table, |path|)
  {
    SubShape(table, metadata, tickers, path);
    if path in table {
      var cs := SubSpec(table, metadata, tickers, path);
      var h := |KeysFrom(table, |path|)|;
      KeysFromShrinks(table, path);
      forall i | 0 <= i < |cs| ensures DepthAtMost(cs[i], h - 1) {
        var c := cs[i];
        SubDepth(table, metadata, c.name, c.tickers, path + [c.name]);
        assert c == ReportNode(c.name, c.tickers, SubSpec(table, metadata, c.tickers, path + [c.name]));
        DepthMono(c, |KeysFrom(table, |path| + 1)|, h - 1);
      }
    }
  }

  /** `_sub(node, path)`: fills in the children of a node, recursively. */
  method Sub(table: Table, metadata: Metadata, tickers: seq<Ticker>, path: seq<string>) returns (children: seq<ReportNode>)
    ensures children == SubSpec(table, metadata, tickers, path)
    decreases KeysFrom(table, |path|)
  {
    if path !in table {
      return [];
    }
    var (column, keys) := table[path];
    var groups := GroupTickers(tickers, metadata, column);
    children := [];
    var i := 0;
    while i < |keys|
      invariant 0 <= i <= |keys|
      invariant children == Kids(table, metadata, path, keys[..i], groups)
    {
      var k := keys[i];
      assert keys[..i + 1][..i] == keys[..i];
      match Lookup(groups, k) {
        case None =>
        case Some(g) =>
          KeysFromShrinks(table, path);
          var grandchildren := Sub(table, metadata, g, path + [k]);
          children := children + [ReportNode(k, g, grandchildren)];
      }
      i := i + 1;
    }
    assert keys[..i] == keys;
  }

  /** The tree `_build_tree` returns, for targets in any order. */
  function TreeSpec(metadata: Metadata, targets: seq<TargetInfo>): ReportNode
    requires Constrained(targets)
  {
    SortedConstrained(targets);
    var table := TableOf(SortByDepth(targets));
    ReportNode("", Keys(metadata), SubSpec(table, metadata, Keys(metadata), []))
  }

  lemma SortedConstrained(ts: seq<TargetInfo>)
    requires Constrained(ts)
    ensures Constrained(SortByDepth(ts)) && |SortByDepth(ts)| == |ts|
  {
    SortByDepthCorrect(ts);
    forall i | 0 <= i < |SortByDepth(ts)| ensures SortByDepth(ts)[i].constraint != [] {
      assert SortByDepth(ts)[i] in multiset(ts);
    }
    assert |multiset(SortByDepth(ts))| == |multiset(ts)|;
  }

  /** `_build_tree(metadata, targets_info)`: the root, named `""` and
      holding every ticker in key order, and the number of targets, which
      bounds the depth of the tree. */
  method BuildTree(metadata: Metadata, targets: seq<TargetInfo>) returns (root: ReportNode, nCat: nat)
    requires Constrained(targets)
    ensures root == TreeSpec(metadata, targets)
    ensures root.name == "" && root.tickers == Keys(metadata) && nCat == |targets|
    ensures DepthAtMost(root, nCat)
  {
    SortedConstrained(targets);
    var sorted := SortByDepth(targets);
    var table := BuildTable(sorted);
    var children := Sub(table, metadata, Keys(metadata), []);
    root := ReportNode("", Keys(metadata), children);
    nCat := |sorted|;
    SubDepth(table, metadata, "", Keys(metadata), []);
    assert KeysFrom(table, 0) == table.Keys;
    DepthMono(root, |KeysFrom(table, 0)|, nCat);
  }

  /** The targets `resolve_targets` returns can always be drawn: every
      constraint has a grouping column, and they are already in the order
      `_build_tree` sorts them into. */
  lemma ResolvedDrawable(config: seq<(string, Value)>, metadata: Metadata)
    requires ValidValue(Map(config))
    ensures ResolveSpec(config, metadata).Ok? ==>
      var ts := ResolveSpec(config, metadata).value.targets;
      Constrained(ts) && SortByDepth(ts) == ts
  {
    if ResolveSpec(config, metadata).Ok? {
      var ts := ResolveSpec(config, metadata).value.targets;
      assert ts == OrderedTargets(config).value;
      assert forall i :: 0 <= i < |ts| ==> TargetOk(ts[i]) by {
        forall i | 0 <= i < |ts| ensures TargetOk(ts[i]) {
          assert ts[i] in ts;
        }
      }
      SortByDepthSorted(ts);
    }
  }

  // ---------------------------------------------------------------------------
  // The rings
  // ---------------------------------------------------------------------------

  /** One wedge: its name, its value, the index of its top-level category
      (which picks its colour) and whether it only continues a shallower
      leaf outwards. */
  datatype Wedge = Wedge(name: string, value: real, group: nat, span: bool)

  type Rings = seq<seq<Wedge>>

  /** `sum(alloc.get(t, 0.0) for t in tickers)`. */
  function NodeValue(tickers: seq<Ticker>, alloc: seq<(Ticker, real)>): real {
    Sum(seq(|tickers|, i requires 0 <= i < |tickers| => GetOr(alloc, tickers[i], 0.0)))
  }

  function NodeWedge(n: ReportNode, group: nat, alloc: seq<(Ticker, real)>): Wedge {
    Wedge(n.name, NodeValue(n.tickers, alloc), group, false)
  }

  /** One wedge per ticker, worth `alloc.get(t, 0.0)`. */
  function TickerWedges(tickers: seq<Ticker>, alloc: seq<(Ticker, real)>, group: nat): seq<Wedge> {
    seq(|tickers|, i requires 0 <= i < |tickers| => Wedge(tickers[i], GetOr(alloc, tickers[i], 0.0), group, false))
  }

  /** The tickers of the leaves below `n`, depth first. */
  function LeafTickers(n: ReportNode): seq<Ticker>
    decreases n, 1
  {
    if n.children == [] then n.tickers else LeafTickersAll(n.children)
  }

  function LeafTickersAll(cs: seq<ReportNode>): seq<Ticker>
    decreases cs, 0
  {
    if cs == [] then [] else LeafTickersAll(cs[..|cs| - 1]) + LeafTickers(cs[|cs| - 1])
  }

  /** A leaf's wedge, copied as a span into every ring from `lo` up to the
      last category ring. */
  function Spans(rings: Rings, w: Wedge, lo: nat): (r: Rings)
    requires |rings| > 0
  {
    seq(|rings|, j requires 0 <= j < |rings| => if lo <= j < |rings| - 1 then rings[j] + [w.(span := true)] else rings[j])
  }

  /** `_dfs(node, depth, gidx)` on rings `rings`: the node's own wedge at
      `depth`; then either its children one ring further out, or, for a
      leaf, span copies out to the last category ring and its tickers in
      the outermost ring. */
  function Emit(rings: Rings, n: ReportNode, depth: nat, group: nat, alloc: seq<(Ticker, real)>): (r: Rings)
    requires depth + 1 < |rings| && DepthAtMost(n, |rings| - 2 - depth)
    ensures |r| == |rings|
    decreases n, 1
  {
    var w := NodeWedge(n, group, alloc);
    var r := rings[depth := rings[depth] + [w]];
    if n.children != [] then EmitAll(r, n.children, depth + 1, group, alloc)
    else
      var s := Spans(r, w, depth + 1);
      s[|s| - 1 := s[|s| - 1] + TickerWedges(n.tickers, alloc, group)]
  }

  /** `for ch in node["children"]: _dfs(ch, depth, gidx)`. */
  function EmitAll(rings: Rings, cs: seq<ReportNode>, depth: nat, group: nat, alloc: seq<(Ticker, real)>): (r: Rings)
    requires depth + 1 < |rings| && forall i :: 0 <= i < |cs| ==> DepthAtMost(cs[i], |rings| - 2 - depth)
    ensures |r| == |rings|
    decreases cs, 0
  {
    if cs == [] then rings
    else Emit(EmitAll(rings, cs[..|cs| - 1], depth, group, alloc), cs[|cs| - 1], depth, group, alloc)
  }

  /** `for i, ch in enumerate(root["children"]): _dfs(ch, 0, i)`. */
  function EmitTop(rings: Rings, cs: seq<ReportNode>, alloc: seq<(Ticker, real)>): (r: Rings)
    requires cs != [] ==> |rings| >= 2 && forall i :: 0 <= i < |cs| ==> DepthAtMost(cs[i], |rings| - 2)
    ensures |r| == |rings|
    decreases |cs|
  {
    if cs == [] then rings
    else Emit(EmitTop(rings, cs[..|cs| - 1], alloc), cs[|cs| - 1], 0, |cs| - 1, alloc)
  }

  /** `_flatten_rings(root, n_cat, alloc)`. */
  function RingsSpec(root: ReportNode, nCat: nat, alloc: seq<(Ticker, real)>): (r: Rings)
    requires DepthAtMost(root, nCat)
    ensures |r| == nCat + 1
  {
    EmitTop(seq(nCat + 1, _ => []), root.children, alloc)
  }

  /** `r` is `rings` with wedges of `group` appended to some rings, and
      the rings before `lo` untouched. */
  ghost predicate Grown(rings: Rings, r: Rings, lo: nat, group: nat) {
    && |r| == |rings|
    && (forall j :: 0 <= j < |r| ==> |rings[j]| <= |r[j]| && r[j][..|rings[j]|] == rings[j])
    && (forall j, k :: 0 <= j < |r| && |rings[j]| <= k < |r[j]| ==> r[j][k].group == group)
    && (forall j :: 0 <= j < |r| && j < lo ==> r[j] == rings[j])
  }

  lemma GrownTrans(a: Rings, b: Rings, c: Rings, lo: nat, group: nat)
    requires Grown(a, b, lo, group) && Grown(b, c, lo, group)
    ensures Grown(a, c, lo, group)
  {
    forall j | 0 <= j < |c| ensures c[j][..|a[j]|] == a[j] {
      assert c[j][..|a[j]|] == c[j][..|b[j]|][..|a[j]|];
    }
    forall j, k | 0 <= j < |c| && |a[j]| <= k < |c[j]| ensures c[j][k].group == group {
      if k < |b[j]| {
        assert c[j][k] == c[j][..|b[j]|][k] == b[j][k];
      }
    }
  }

  /** The node's own wedge: appended to its depth's ring. */
  lemma OwnWedge(rings: Rings, depth: nat, w: Wedge)
    requires depth < |rings|
    ensures Grown(rings, rings[depth := rings[depth] + [w]], depth, w.group)
  {
    var r := rings[depth := rings[depth] + [w]];
    assert r[depth][..|rings[depth]|] == rings[depth];
  }

  /** A leaf's span copies and ticker wedges land strictly outside its depth. */
  lemma LeafWedges(r1: Rings, n: ReportNode, depth: nat, group: nat, alloc: seq<(Ticker, real)>)
    requires depth + 1 < |r1|
    ensures var s := Spans(r1, NodeWedge(n, group, alloc), depth + 1);
      var r := s[|s| - 1 := s[|s| - 1] + TickerWedges(n.tickers, alloc, group)];
      && Grown(r1, r, depth + 1, group)
      && forall j :: depth + 1 <= j < |r1| - 1 ==> |r[j]| > |r1[j]|
  {
    var w := NodeWedge(n, group, alloc);
    var s := Spans(r1, w, depth + 1);
    var last := |s| - 1;
    var r := s[last := s[last] + TickerWedges(n.tickers, alloc, group)];
    assert Grown(r1, s, depth + 1, group) by {
      forall j | 0 <= j < |s| ensures s[j][..|r1[j]|] == r1[j] {
        if depth + 1 <= j < last {
          assert s[j] == r1[j] + [w.(span := true)];
        }
      }
    }
    assert Grown(s, r, depth + 1, group) by {
      assert r[last][..|s[last]|] == s[last];
    }
    GrownTrans(r1, s, r, depth + 1, group);
  }

  /** A subtree only appends wedges, all carrying its top-level group;
      it leaves the rings inside its own depth alone, puts exactly its own
      wedge in its depth's ring and at least one wedge in every ring from
      its depth to the last category ring. */
  lemma {:induction false} EmitShape(rings: Rings, n: ReportNode, depth: nat, group: nat, alloc: seq<(Ticker, real)>)
    requires depth + 1 < |rings| && DepthAtMost(n, |rings| - 2 - depth)
    ensures var r := Emit(rings, n, depth, group, alloc);
      && Grown(rings, r, depth, group)
      && r[depth] == rings[depth] + [NodeWedge(n, group, alloc)]
      && forall j :: depth <= j < |rings| - 1 ==> |r[j]| > |rings[j]|
    decreases n, 1
  {
    var w := NodeWedge(n, group, alloc);
    var r1 := rings[depth := rings[depth] + [w]];
    OwnWedge(rings, depth, w);
    var r := Emit(rings, n, depth, group, alloc);
    if n.children != [] {
      EmitAllShape(r1, n.children, depth + 1, group, alloc);
    } else {
      LeafWedges(r1, n, depth, group, alloc);
    }
    GrownTrans(rings, r1, r, depth, group);
  }

  lemma {:induction false} EmitAllShape(rings: Rings, cs: seq<ReportNode>, depth: nat, group: nat, alloc: seq<(Ticker, real)>)
    requires depth + 1 < |rings| && forall i :: 0 <= i < |cs| ==> DepthAtMost(cs[i], |rings| - 2 - depth)
    ensures var r := EmitAll(rings, cs, depth, group, alloc);
      && Grown(rings, r, depth, group)
      && (cs != [] ==> forall j :: depth <= j < |rings| - 1 ==> |r[j]| > |rings[j]|)
    decreases cs, 0
  {
    if cs != [] {
      var front := cs[..|cs| - 1];
      var n := cs[|cs| - 1];
      var mid := EmitAll(rings, front, depth, group, alloc);
      EmitAllShape(rings, front, depth, group, alloc);
      EmitShape(mid, n, depth, group, alloc);
      GrownTrans(rings, mid, Emit(mid, n, depth, group, alloc), depth, group);
    }
  }

  /** The outermost ring gains the subtree's leaf tickers, depth first. */
  lemma {:induction false} EmitOuter(rings: Rings, n: ReportNode, depth: nat, group: nat, alloc: seq<(Ticker, real)>)
    requires depth + 1 < |rings| && DepthAtMost(n, |rings| - 2 - depth)
    ensures Emit(rings, n, depth, group, alloc)[|rings| - 1]
      == rings[|rings| - 1] + TickerWedges(LeafTickers(n), alloc, group)
    decreases n, 1
  {
    var w := NodeWedge(n, group, alloc);
    var r1 := rings[depth := rings[depth] + [w]];
    if n.children != [] {
      EmitAllOuter(r1, n.children, depth + 1, group, alloc);
    }
  }

  lemma {:induction false} EmitAllOuter(rings: Rings, cs: seq<ReportNode>, depth: nat, group: nat, alloc: seq<(Ticker, real)>)
    requires depth + 1 < |rings| && forall i :: 0 <= i < |cs| ==> DepthAtMost(cs[i], |rings| - 2 - depth)
    ensures EmitAll(rings, cs, depth, group, alloc)[|rings| - 1]
      == rings[|rings| - 1] + TickerWedges(LeafTickersAll(cs), alloc, group)
    decreases cs, 0
  {
    if cs == [] {
      assert TickerWedges([], alloc, group) == [];
    } else {
      var front := cs[..|cs| - 1];
      var n := cs[|cs| - 1];
      EmitAllOuter(rings, front, depth, group, alloc);
      EmitOuter(EmitAll(rings, front, depth, group, alloc), n, depth, group, alloc);
      TickerWedgesAppend(LeafTickersAll(front), LeafTickers(n), alloc, group);
    }
  }

  lemma TickerWedgesAppend(a: seq<Ticker>, b: seq<Ticker>, alloc: seq<(Ticker, real)>, group: nat)
    ensures TickerWedges(a + b, alloc, group) == TickerWedges(a, alloc, group) + TickerWedges(b, alloc, group)
  {
  }

  /** The first ring holds exactly one wedge per top-level category, in
      order, each with its own index as group: the root itself is never
      drawn. Every wedge of every ring belongs to one of those groups. */
  lemma {:induction false} TopRing(rings: Rings, cs: seq<ReportNode>, alloc: seq<(Ticker, real)>)
    requires cs != [] ==> |rings| >= 2 && forall i :: 0 <= i < |cs| ==> DepthAtMost(cs[i], |rings| - 2)
    requires |rings| > 0
    ensures var r := EmitTop(rings, cs, alloc);
      && r[0] == rings[0] + seq(|cs|, i requires 0 <= i < |cs| => NodeWedge(cs[i], i, alloc))
      && forall j, k :: 0 <= j < |r| && |rings[j]| <= k < |r[j]| ==> r[j][k].group < |cs|
    decreases |cs|
  {
    if cs != [] {
      var front := cs[..|cs| - 1];
      var mid := EmitTop(rings, front, alloc);
      TopRing(rings, front, alloc);
      EmitShape(mid, cs[|cs| - 1], 0, |cs| - 1, alloc);
      var r: Rings := EmitTop(rings, cs, alloc);
      forall j, k | 0 <= j < |r| && |rings[j]| <= k < |r[j]| ensures r[j][k].group < |cs| {
        if k < |mid[j]| {
          assert r[j][k] == r[j][..|mid[j]|][k] == mid[j][k];
        }
      }
    }
  }

  /** `_flatten_rings`: `n_cat + 1` rings; the first lists the top-level
      categories, every wedge's group is the index of its top-level
      category, every category ring has a wedge below each top-level
      category, and the outermost ring lists every leaf ticker depth first. */
  lemma FlattenedRings(root: ReportNode, nCat: nat, alloc: seq<(Ticker, real)>)
    requires DepthAtMost(root, nCat)
    ensures var r := RingsSpec(root, nCat, alloc);
      && |r| == nCat + 1
      && r[0] == seq(|root.children|, i requires 0 <= i < |root.children| => NodeWedge(root.children[i], i, alloc))
      && (forall j, k :: 0 <= j < |r| && 0 <= k < |r[j]| ==> r[j][k].group < |root.children|)
      && WedgeLabels(r[nCat]) == LeafTickersAll(root.children)
  {
    var empty: Rings := seq(nCat + 1, _ => []);
    TopRing(empty, root.children, alloc);
    OuterRing(empty, root.children, alloc);
  }

  function WedgeLabels(ws: seq<Wedge>): seq<string> {
    seq(|ws|, i requires 0 <= i < |ws| => ws[i].name)
  }

  lemma WedgeLabelsAppend(a: seq<Wedge>, b: seq<Wedge>)
    ensures WedgeLabels(a + b) == WedgeLabels(a) + WedgeLabels(b)
  {
  }

  lemma {:induction false} OuterRing(rings: Rings, cs: seq<ReportNode>, alloc: seq<(Ticker, real)>)
    requires cs != [] ==> |rings| >= 2 && forall i :: 0 <= i < |cs| ==> DepthAtMost(cs[i], |rings| - 2)
    requires |rings| > 0
    ensures WedgeLabels(EmitTop(rings, cs, alloc)[|rings| - 1]) == WedgeLabels(rings[|rings| - 1]) + LeafTickersAll(cs)
    decreases |cs|
  {
    if cs != [] {
      var front := cs[..|cs| - 1];
      var n := cs[|cs| - 1];
      var mid := EmitTop(rings, front, alloc);
      OuterRing(rings, front, alloc);
      EmitOuter(mid, n, 0, |cs| - 1, alloc);
      var last := |rings| - 1;
      var added := TickerWedges(LeafTickers(n), alloc, |cs| - 1);
      assert EmitTop(rings, cs, alloc)[last] == mid[last] + added;
      assert WedgeLabels(added) == LeafTickers(n);
      WedgeLabelsAppend(mid[last], added);
      assert LeafTickersAll(cs) == LeafTickersAll(front) + LeafTickers(n);
    }
  }

  // ---------------------------------------------------------------------------
  // The rings, imperatively
  // ---------------------------------------------------------------------------

  /** `_dfs(node, depth, gidx)` appending to the preallocated `rings`. */
  method Dfs(rings: array<seq<Wedge>>, n: ReportNode, depth: nat, group: nat, alloc: seq<(Ticker, real)>)
    requires depth + 1 < rings.Length && DepthAtMost(n, rings.Length - 2 - depth)
    modifies rings
    ensures rings[..] == Emit(old(rings[..]), n, depth, group, alloc)
    decreases n
  {
    ghost var start := rings[..];
    var value := NodeValue(n.tickers, alloc);
    var w := Wedge(n.name, value, group, false);
    rings[depth] := rings[depth] + [w];
    assert rings[..] == start[depth := start[depth] + [w]];
    if n.children != [] {
      ghost var mid := rings[..];
      var i := 0;
      while i < |n.children|
        invariant 0 <= i <= |n.children|
        invariant rings[..] == EmitAll(mid, n.children[..i], depth + 1, group, alloc)
      {
        assert n.children[..i + 1][..i] == n.children[..i];
        Dfs(rings, n.children[i], depth + 1, group, alloc);
        i := i + 1;
      }
      assert n.children[..i] == n.children;
    } else {
      AddSpans(rings, w, depth + 1);
      AddTickers(rings, n.tickers, alloc, group);
    }
  }

  /** `for d in range(lo, n_cat): rings[d].append(... "span": True)`. */
  method AddSpans(rings: array<seq<Wedge>>, w: Wedge, lo: nat)
    requires rings.Length > 0
    modifies rings
    ensures rings[..] == Spans(old(rings[..]), w, lo)
  {
    ghost var start := rings[..];
    var last := rings.Length - 1;
    var d := lo;
    while d < last
      invariant forall j :: 0 <= j < rings.Length ==>
        rings[j] == if lo <= j < d && j < last then start[j] + [w.(span := true)] else start[j]
    {
      rings[d] := rings[d] + [w.(span := true)];
      d := d + 1;
    }
  }

  /** `for t in tickers: rings[n_rings - 1].append(...)`. */
  method AddTickers(rings: array<seq<Wedge>>, tickers: seq<Ticker>, alloc: seq<(Ticker, real)>, group: nat)
    requires rings.Length > 0
    modifies rings
    ensures var last := rings.Length - 1;
      rings[..] == old(rings[..])[last := old(rings[last]) + TickerWedges(tickers, alloc, group)]
  {
    ghost var start := rings[..];
    var last := rings.Length - 1;
    var k := 0;
    assert TickerWedges(tickers[..0], alloc, group) == [];
    while k < |tickers|
      invariant 0 <= k <= |tickers|
      invariant forall j :: 0 <= j < rings.Length ==>
        rings[j] == if j == last then start[last] + TickerWedges(tickers[..k], alloc, group) else start[j]
    {
      var t := tickers[k];
      rings[last] := rings[last] + [Wedge(t, GetOr(alloc, t, 0.0), group, false)];
      k := k + 1;
      assert TickerWedges(tickers[..k], alloc, group)
        == TickerWedges(tickers[..k - 1], alloc, group) + [Wedge(t, GetOr(alloc, t, 0.0), group, false)];
    }
    assert tickers[..k] == tickers;
  }

  /** `_flatten_rings(root, n_cat, alloc)`. */
  method FlattenRings(root: ReportNode, nCat: nat, alloc: seq<(Ticker, real)>) returns (rings: array<seq<Wedge>>)
    requires DepthAtMost(root, nCat)
    ensures fresh(rings)
    ensures rings[..] == RingsSpec(root, nCat, alloc)
  {
    rings := new seq<Wedge>[nCat + 1](_ => []);
    ghost var empty := rings[..];
    assert empty == seq(nCat + 1, _ => []);
    var cs := root.children;
    var i := 0;
    while i < |cs|
      invariant 0 <= i <= |cs|
      invariant rings[..] == EmitTop(empty, cs[..i], alloc)
    {
      assert cs[..i + 1][..i] == cs[..i];
      Dfs(rings, cs[i], 0, i, alloc);
      i := i + 1;
    }
    assert cs[..i] == cs;
  }
}
