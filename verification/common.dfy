/** Vocabulary shared by every module: optional values and results, the
    parsed YAML document, and Python dictionaries, which keep insertion
    order, modelled as association lists. */
module Common {

  datatype Option<+T> = None | Some(value: T)

  datatype Result<+T, +E> = Ok(value: T) | Err(error: E)

  /** A node of a parsed YAML document. Integers and floats are both `Num`;
      mapping keys are strings. */
  datatype Value =
    | Null
    | Bool(b: bool)
    | Num(x: real)
    | Str(s: string)
    | List(items: seq<Value>)
    | Map(entries: seq<(string, Value)>)

  type Ticker = string

  /** Per-ticker metadata read from the positions CSV: ticker -> (column ->
      value), both in file order. */
  type Metadata = seq<(Ticker, seq<(string, string)>)>

  /** Every mapping in the document has distinct keys, as a Python dict does. */
  predicate ValidValue(v: Value)
    decreases v
  {
    match v
    case List(items) => forall i :: 0 <= i < |items| ==> ValidValue(items[i])
    case Map(entries) =>
      Distinct(Keys(entries)) && forall i :: 0 <= i < |entries| ==> ValidValue(entries[i].1)
    case _ => true
  }

  predicate Distinct<T(==)>(s: seq<T>) {
    forall i, j :: 0 <= i < j < |s| ==> s[i] != s[j]
  }

  function Keys<K, V>(m: seq<(K, V)>): seq<K> {
    seq(|m|, i requires 0 <= i < |m| => m[i].0)
  }

  function Values<K, V>(m: seq<(K, V)>): seq<V> {
    seq(|m|, i requires 0 <= i < |m| => m[i].1)
  }

  /** `m.get(k)`: the value stored under the first (in a dict, the only) entry for `k`. */
  function Lookup<K(==), V>(m: seq<(K, V)>, k: K): Option<V> {
    if m == [] then None
    else if m[0].0 == k then Some(m[0].1)
    else Lookup(m[1..], k)
  }

  /** `m.get(k, d)`. */
  function GetOr<K(==), V>(m: seq<(K, V)>, k: K, d: V): V {
    match Lookup(m, k)
    case Some(v) => v
    case None => d
  }

  /** `m[k] = v`: an existing key keeps its position, a new key goes last. */
  function Put<K(==), V>(m: seq<(K, V)>, k: K, v: V): seq<(K, V)> {
    if m == [] then [(k, v)]
    else if m[0].0 == k then [(k, v)] + m[1..]
    else [m[0]] + Put(m[1..], k, v)
  }

  function Concat<T>(ss: seq<seq<T>>): seq<T> {
    if ss == [] then [] else ss[0] + Concat(ss[1..])
  }

  function Sum(xs: seq<real>): real {
    if xs == [] then 0.0 else xs[0] + Sum(xs[1..])
  }

  function Abs(x: real): real {
    if x < 0.0 then -x else x
  }

  lemma {:induction false} LookupSome<K, V>(m: seq<(K, V)>, k: K)
    ensures Lookup(m, k).Some? <==> k in Keys(m)
    ensures Lookup(m, k).Some? ==> exists i :: 0 <= i < |m| && m[i] == (k, Lookup(m, k).value)
  {
    if m != [] {
      LookupSome(m[1..], k);
      assert Keys(m) == [m[0].0] + Keys(m[1..]);
      if m[0].0 != k && Lookup(m, k).Some? {
        var i :| 0 <= i < |m[1..]| && m[1..][i] == (k, Lookup(m, k).value);
        assert m[i + 1] == (k, Lookup(m, k).value);
      }
    }
  }

  /** In a dict, the entry found for a key is the one stored under it. */
  lemma {:induction false} LookupInDict<K, V>(m: seq<(K, V)>, i: nat)
    requires Distinct(Keys(m)) && i < |m|
    ensures Lookup(m, m[i].0) == Some(m[i].1)
  {
    if i > 0 {
      assert Keys(m[1..]) == Keys(m)[1..];
      assert m[0].0 == Keys(m)[0] != Keys(m)[i] == m[i].0;
      LookupInDict(m[1..], i - 1);
    }
  }

  lemma {:induction false} LookupAppend<K, V>(m: seq<(K, V)>, k: K, v: V, q: K)
    ensures Lookup(m + [(k, v)], q) ==
      if q in Keys(m) then Lookup(m, q) else if q == k then Some(v) else None
  {
    if m == [] {
    } else {
      assert (m + [(k, v)])[1..] == m[1..] + [(k, v)];
      assert Keys(m) == [m[0].0] + Keys(m[1..]);
      LookupAppend(m[1..], k, v, q);
    }
  }

  lemma {:induction false} PutKeys<K, V>(m: seq<(K, V)>, k: K, v: V)
    ensures Keys(Put(m, k, v)) == if k in Keys(m) then Keys(m) else Keys(m) + [k]
  {
    assert m != [] ==> Keys(m) == [m[0].0] + Keys(m[1..]);
    if m != [] && m[0].0 != k {
      PutKeys(m[1..], k, v);
      assert Keys(Put(m, k, v)) == [m[0].0] + Keys(Put(m[1..], k, v));
    } else if m != [] {
      assert Keys(Put(m, k, v)) == [k] + Keys(m[1..]);
    }
  }

  lemma {:induction false} PutLookup<K, V>(m: seq<(K, V)>, k: K, v: V, q: K)
    ensures Lookup(Put(m, k, v), q) == if q == k then Some(v) else Lookup(m, q)
  {
    if m != [] && m[0].0 != k {
      PutLookup(m[1..], k, v, q);
    }
  }

  /** Putting a new key appends it. */
  lemma {:induction false} PutFresh<K, V>(m: seq<(K, V)>, k: K, v: V)
    requires k !in Keys(m)
    ensures Put(m, k, v) == m + [(k, v)]
  {
    if m != [] {
      assert Keys(m) == [m[0].0] + Keys(m[1..]);
      PutFresh(m[1..], k, v);
    }
  }

  lemma {:induction false} SumAppend(a: seq<real>, b: seq<real>)
    ensures Sum(a + b) == Sum(a) + Sum(b)
  {
    if a == [] {
      assert a + b == b;
    } else {
      assert (a + b)[1..] == a[1..] + b;
      SumAppend(a[1..], b);
    }
  }

  /** Overwriting one entry of a numeric dict changes its total by the difference. */
  lemma {:induction false} PutSum<K>(m: seq<(K, real)>, k: K, v: real)
    ensures Sum(Values(Put(m, k, v))) == Sum(Values(m)) - GetOr(m, k, 0.0) + v
  {
    if m == [] {
      assert Values([(k, v)]) == [v];
    } else {
      assert Values(m) == [m[0].1] + Values(m[1..]);
      if m[0].0 == k {
        assert Values(Put(m, k, v)) == [v] + Values(m[1..]);
      } else {
        PutSum(m[1..], k, v);
        assert Values(Put(m, k, v)) == [m[0].1] + Values(Put(m[1..], k, v));
      }
    }
  }

  lemma {:induction false} ConcatAppend<T>(a: seq<seq<T>>, b: seq<seq<T>>)
    ensures Concat(a + b) == Concat(a) + Concat(b)
  {
    if a == [] {
      assert a + b == b;
    } else {
      assert (a + b)[1..] == a[1..] + b;
      ConcatAppend(a[1..], b);
    }
  }

  /** A sequence with the same elements, counted with multiplicity, as a
      duplicate-free one is duplicate-free. */
  lemma {:induction false} DistinctByMultiset<T>(a: seq<T>, b: seq<T>)
    requires multiset(a) == multiset(b) && Distinct(b)
    ensures Distinct(a)
  {
    forall i, j | 0 <= i < j < |a| ensures a[i] != a[j] {
      if a[i] == a[j] {
        assert a == a[..i] + [a[i]] + a[i + 1..j] + [a[j]] + a[j + 1..];
        assert multiset(a)[a[i]] >= 2;
        CountInDistinct(b, a[i]);
        assert false;
      }
    }
  }

  lemma {:induction false} CountInDistinct<T>(s: seq<T>, x: T)
    requires Distinct(s)
    ensures multiset(s)[x] <= 1
  {
    if s != [] {
      assert s == [s[0]] + s[1..];
      CountInDistinct(s[1..], x);
      if s[0] == x {
        assert x !in s[1..];
      }
    }
  }

  /** `a` is `b` with some elements left out, order kept. */
  predicate IsSubsequence<T(==)>(a: seq<T>, b: seq<T>)
    decreases |b|
  {
    if a == [] then true
    else if b == [] then false
    else (a[0] == b[0] && IsSubsequence(a[1..], b[1..])) || IsSubsequence(a, b[1..])
  }

  lemma {:induction false} SubsequenceCons<T>(a: seq<T>, x: T, b: seq<T>)
    requires IsSubsequence(a, b)
    ensures IsSubsequence(a, [x] + b)
  {
    assert ([x] + b)[1..] == b;
  }

  /** Appending the same element to both sides, or to the longer side only,
      keeps a subsequence a subsequence. */
  lemma {:induction false} SubsequenceSnoc<T>(a: seq<T>, b: seq<T>, x: T)
    requires IsSubsequence(a, b)
    ensures IsSubsequence(a, b + [x]) && IsSubsequence(a + [x], b + [x])
    decreases |b|
  {
    if a == [] {
      assert a + [x] == [x];
      if b == [] {
        assert [x][1..] == [];
      } else {
        SubsequenceSnoc(a, b[1..], x);
        assert (b + [x])[1..] == b[1..] + [x];
      }
    } else {
      assert (b + [x])[1..] == b[1..] + [x];
      assert (a + [x])[1..] == a[1..] + [x];
      if a[0] == b[0] && IsSubsequence(a[1..], b[1..]) {
        SubsequenceSnoc(a[1..], b[1..], x);
      } else {
        SubsequenceSnoc(a, b[1..], x);
      }
    }
  }
}
