/** `_tickers_in_scope(constraint, metadata)`: the tickers a target's filter
    values select. Each filter value is resolved to a column through a
    reverse index (value -> first column holding it); values found nowhere
    are dropped, and a ticker is in scope when its metadata holds every
    resolved value in its column. */
module Scope {
  import opened Common

  /** `constraint[:-1]`: everything but the grouping column. */
  function FilterValues(constraint: seq<string>): seq<string> {
    if constraint == [] then [] else constraint[..|constraint| - 1]
  }

  // ---------------------------------------------------------------------------
  // The reverse index
  // ---------------------------------------------------------------------------

  /** The index after scanning the `(column, value)` pairs of one row in
      order: a non-empty value not indexed yet is recorded with its column. */
  function AddRow(index: seq<(string, string)>, row: seq<(string, string)>): seq<(string, string)>
    decreases |row|
  {
    if row == [] then index
    else
      var before := AddRow(index, row[..|row| - 1]);
      var cell := row[|row| - 1];
      if cell.1 != "" && cell.1 !in Keys(before) then before + [(cell.1, cell.0)] else before
  }

  /** `value_to_col` after scanning every ticker's row in order. */
  function ValueIndex(metadata: Metadata): seq<(string, string)>
    decreases |metadata|
  {
    if metadata == [] then []
    else AddRow(ValueIndex(metadata[..|metadata| - 1]), metadata[|metadata| - 1].1)
  }

  /** The column of the first cell of `row` holding `v`. */
  function FirstInRow(row: seq<(string, string)>, v: string): Option<string> {
    if row == [] then None
    else if row[0].1 == v then Some(row[0].0)
    else FirstInRow(row[1..], v)
  }

  /** Reference definition: the column of the first cell holding `v`,
      scanning tickers in order and each ticker's columns in order. */
  function FirstColumn(metadata: Metadata, v: string): Option<string> {
    if metadata == [] then None
    else match FirstInRow(metadata[0].1, v)
      case Some(c) => Some(c)
      case None => FirstColumn(metadata[1..], v)
  }

  /** The column a filter value resolves to; the empty value never does. */
  function Resolve(metadata: Metadata, v: string): Option<string> {
    if v == "" then None else FirstColumn(metadata, v)
  }

  lemma {:induction false} FirstInRowSnoc(row: seq<(string, string)>, cell: (string, string), v: string)
    ensures FirstInRow(row + [cell], v) ==
      if FirstInRow(row, v).Some? then FirstInRow(row, v) else if cell.1 == v then Some(cell.0) else None
  {
    if row != [] {
      assert (row + [cell])[1..] == row[1..] + [cell];
      FirstInRowSnoc(row[1..], cell, v);
    }
  }

  lemma {:induction false} FirstColumnSnoc(metadata: Metadata, entry: (Ticker, seq<(string, string)>), v: string)
    ensures FirstColumn(metadata + [entry], v) ==
      if FirstColumn(metadata, v).Some? then FirstColumn(metadata, v) else FirstInRow(entry.1, v)
  {
    if metadata != [] {
      assert (metadata + [entry])[1..] == metadata[1..] + [entry];
      FirstColumnSnoc(metadata[1..], entry, v);
    }
  }

  /** Scanning a row only adds values not indexed yet, each with the column
      of its first cell in the row. */
  lemma {:induction false} AddRowLookup(index: seq<(string, string)>, row: seq<(string, string)>, v: string)
    ensures Lookup(AddRow(index, row), v) ==
      if Lookup(index, v).Some? || v == "" then Lookup(index, v) else FirstInRow(row, v)
    decreases |row|
  {
    if row != [] {
      var front := row[..|row| - 1];
      var cell := row[|row| - 1];
      var before := AddRow(index, front);
      AddRowLookup(index, front, v);
      assert row == front + [cell];
      FirstInRowSnoc(front, cell, v);
      LookupAppend(before, cell.1, cell.0, v);
      LookupSome(before, v);
      LookupSome(before, cell.1);
    }
  }

  /** First write wins: every non-empty value is indexed under the first
      column that holds it, and nothing else is indexed. */
  lemma {:induction false} ValueIndexFirst(metadata: Metadata, v: string)
    ensures Lookup(ValueIndex(metadata), v) == Resolve(metadata, v)
    decreases |metadata|
  {
    if metadata != [] {
      var front := metadata[..|metadata| - 1];
      var last := metadata[|metadata| - 1];
      ValueIndexFirst(front, v);
      AddRowLookup(ValueIndex(front), last.1, v);
      assert metadata == front + [last];
      FirstColumnSnoc(front, last, v);
    }
  }

  /** The nested loops that fill `value_to_col`. */
  method BuildValueIndex(metadata: Metadata) returns (index: seq<(string, string)>)
    ensures index == ValueIndex(metadata)
    ensures forall v :: Lookup(index, v) == Resolve(metadata, v)
  {
    index := [];
    var i := 0;
    while i < |metadata|
      invariant 0 <= i <= |metadata|
      invariant index == ValueIndex(metadata[..i])
    {
      var row := metadata[i].1;
      ghost var before := index;
      var j := 0;
      while j < |row|
        invariant 0 <= j <= |row|
        invariant index == AddRow(before, row[..j])
      {
        var cell := row[j];
        if cell.1 != "" && cell.1 !in Keys(index) {
          index := index + [(cell.1, cell.0)];
        }
        j := j + 1;
        assert row[..j][..j - 1] == row[..j - 1];
      }
      assert row[..j] == row;
      i := i + 1;
      assert metadata[..i][..i - 1] == metadata[..i - 1];
    }
    assert metadata[..i] == metadata;
    forall v ensures Lookup(index, v) == Resolve(metadata, v) {
      ValueIndexFirst(metadata, v);
    }
  }

  // ---------------------------------------------------------------------------
  // Conditions and the filter
  // ---------------------------------------------------------------------------

  /** `[(value_to_col[v], v) for v in filter_values if v in value_to_col]`. */
  function Conditions(values: seq<string>, index: seq<(string, string)>): seq<(string, string)> {
    if values == [] then []
    else
      (match Lookup(index, values[0])
       case Some(c) => [(c, values[0])]
       case None => []) + Conditions(values[1..], index)
  }

  /** `all(meta.get(c) == v for c, v in conditions)`. */
  predicate Matches(row: seq<(string, string)>, conditions: seq<(string, string)>) {
    forall k :: 0 <= k < |conditions| ==> Lookup(row, conditions[k].0) == Some(conditions[k].1)
  }

  /** The tickers, in order, whose row meets every condition. */
  function Select(metadata: Metadata, conditions: seq<(string, string)>): seq<Ticker> {
    if metadata == [] then []
    else (if Matches(metadata[0].1, conditions) then [metadata[0].0] else []) + Select(metadata[1..], conditions)
  }

  function ScopeSpec(constraint: seq<string>, metadata: Metadata): seq<Ticker> {
    Select(metadata, Conditions(FilterValues(constraint), ValueIndex(metadata)))
  }

  /** `_tickers_in_scope(constraint, metadata)`. */
  method TickersInScope(constraint: seq<string>, metadata: Metadata) returns (scope: seq<Ticker>)
    ensures scope == ScopeSpec(constraint, metadata)
  {
    var index := BuildValueIndex(metadata);
    var conditions := Conditions(FilterValues(constraint), index);
    scope := Select(metadata, conditions);
  }

  // ---------------------------------------------------------------------------
  // What the scope is
  // ---------------------------------------------------------------------------

  /** A condition is a filter value together with the column it resolves
      to; filter values that resolve to nothing are dropped. */
  lemma {:induction false} ConditionsResolved(values: seq<string>, index: seq<(string, string)>)
    ensures forall c :: c in Conditions(values, index) <==> c.1 in values && Lookup(index, c.1) == Some(c.0)
  {
    if values != [] {
      ConditionsResolved(values[1..], index);
      assert values == [values[0]] + values[1..];
    }
  }

  /** The selected tickers keep the metadata order. */
  lemma {:induction false} SelectSubsequence(metadata: Metadata, conditions: seq<(string, string)>)
    ensures IsSubsequence(Select(metadata, conditions), Keys(metadata))
  {
    if metadata != [] {
      SelectSubsequence(metadata[1..], conditions);
      assert Keys(metadata)[1..] == Keys(metadata[1..]);
      var rest := Select(metadata[1..], conditions);
      if !Matches(metadata[0].1, conditions) {
        assert Select(metadata, conditions) == rest;
        SubsequenceCons(rest, metadata[0].0, Keys(metadata[1..]));
        assert Keys(metadata) == [metadata[0].0] + Keys(metadata[1..]);
      } else {
        assert Select(metadata, conditions) == [metadata[0].0] + rest;
      }
    }
  }

  lemma {:induction false} SelectMembers(metadata: Metadata, conditions: seq<(string, string)>, i: nat)
    requires Distinct(Keys(metadata)) && i < |metadata|
    ensures metadata[i].0 in Select(metadata, conditions) <==> Matches(metadata[i].1, conditions)
  {
    assert Keys(metadata) == [metadata[0].0] + Keys(metadata[1..]);
    assert Distinct(Keys(metadata[1..])) by {
      assert Keys(metadata[1..]) == Keys(metadata)[1..];
    }
    if i == 0 {
      SelectInKeys(metadata[1..], conditions);
      assert forall j :: 0 <= j < |metadata[1..]| ==> Keys(metadata)[0] != Keys(metadata[1..])[j];
      assert metadata[0].0 !in Keys(metadata[1..]);
    } else {
      SelectMembers(metadata[1..], conditions, i - 1);
      assert Keys(metadata)[0] != Keys(metadata)[i];
    }
  }

  lemma {:induction false} SelectInKeys(metadata: Metadata, conditions: seq<(string, string)>)
    ensures forall t :: t in Select(metadata, conditions) ==> t in Keys(metadata)
  {
    if metadata != [] {
      SelectInKeys(metadata[1..], conditions);
      assert Keys(metadata) == [metadata[0].0] + Keys(metadata[1..]);
    }
  }

  /** The scope keeps the metadata order, and a ticker is in it exactly
      when its metadata holds every filter value in the column that value
      resolves to; filter values that resolve nowhere impose nothing. */
  lemma ScopeMembers(constraint: seq<string>, metadata: Metadata)
    requires Distinct(Keys(metadata))
    ensures IsSubsequence(ScopeSpec(constraint, metadata), Keys(metadata))
    ensures forall i :: 0 <= i < |metadata| ==>
      (metadata[i].0 in ScopeSpec(constraint, metadata) <==>
        forall v :: v in FilterValues(constraint) && Resolve(metadata, v).Some? ==>
          Lookup(metadata[i].1, Resolve(metadata, v).value) == Some(v))
  {
    var index := ValueIndex(metadata);
    var conditions := Conditions(FilterValues(constraint), index);
    SelectSubsequence(metadata, conditions);
    ConditionsResolved(FilterValues(constraint), index);
    forall v ensures Lookup(index, v) == Resolve(metadata, v) {
      ValueIndexFirst(metadata, v);
    }
    forall i | 0 <= i < |metadata|
      ensures metadata[i].0 in ScopeSpec(constraint, metadata) <==>
        forall v :: v in FilterValues(constraint) && Resolve(metadata, v).Some? ==>
          Lookup(metadata[i].1, Resolve(metadata, v).value) == Some(v)
    {
      SelectMembers(metadata, conditions, i);
      if Matches(metadata[i].1, conditions) {
        forall v | v in FilterValues(constraint) && Resolve(metadata, v).Some?
          ensures Lookup(metadata[i].1, Resolve(metadata, v).value) == Some(v)
        {
          var c := (Resolve(metadata, v).value, v);
          assert c in conditions;
        }
      }
    }
  }

  /** Only `constraint[:-1]` is consulted: the grouping column never
      changes the scope. */
  lemma ScopeIgnoresGroupingColumn(filter: seq<string>, column1: string, column2: string, metadata: Metadata)
    ensures ScopeSpec(filter + [column1], metadata) == ScopeSpec(filter + [column2], metadata)
  {
    assert FilterValues(filter + [column1]) == filter == FilterValues(filter + [column2]);
  }

  lemma {:induction false} SelectAll(metadata: Metadata)
    ensures Select(metadata, []) == Keys(metadata)
  {
    if metadata != [] {
      SelectAll(metadata[1..]);
      assert Keys(metadata) == [metadata[0].0] + Keys(metadata[1..]);
    }
  }

  /** With no filter values, as for a one-element constraint, every ticker
      is in scope, in order. */
  lemma ScopeUnfiltered(constraint: seq<string>, metadata: Metadata)
    requires |constraint| <= 1
    ensures ScopeSpec(constraint, metadata) == Keys(metadata)
  {
    assert FilterValues(constraint) == [];
    SelectAll(metadata);
  }
}
