/** How the scope of a target, computed by `_tickers_in_scope`, relates to
    the tickers the resolver puts in the node of the target's filter path. */
module Agreement {
  import opened Common
  import opened Tree
  import Scope

  /** The two can differ: the scope resolves a filter value to the first
      column holding it anywhere in the metadata, while the tree groups by
      the column its parent target names. Here `X` sits in column `a` of
      `t1` and in column `b` of `t2`; a target splitting the root by `b`
      gives its `X` child the ticker `t2`, while the scope of a target below
      that child, with filter value `X`, is `t1`. */
  lemma ScopeFirstColumnExample()
    ensures var metadata := [("t1", [("a", "X")]), ("t2", [("b", "X")])];
      && Scope.ScopeSpec(["X", "c"], metadata) == ["t1"]
      && WithValue(metadata, Keys(metadata), "b", "X") == ["t2"]
  {
    var metadata := [("t1", [("a", "X")]), ("t2", [("b", "X")])];
    assert Keys(metadata) == ["t1", "t2"];
    assert Scope.Resolve(metadata, "X") == Some("a");
    Scope.ValueIndexFirst(metadata, "X");
    assert Scope.FilterValues(["X", "c"]) == ["X"];
    assert Scope.Conditions(["X"], Scope.ValueIndex(metadata)) == [("a", "X")];
    assert Scope.Matches(metadata[0].1, [("a", "X")]);
    assert !Scope.Matches(metadata[1].1, [("a", "X")]);
    assert Scope.Select(metadata, [("a", "X")]) == ["t1"];
    assert ColumnValue(metadata, "t1", "b") == "";
    assert ColumnValue(metadata, "t2", "b") == "X";
    assert Keys(metadata)[..1] == ["t1"];
  }
}
