/**
 * `_conditional_candidates`: the known rows that agree with a row on every
 * listed attribute, and the counter of their target values.
 */
module Candidates {
  import opened Wrappers
  import opened Schema
  import opened Counting

  /**
   * Element-wise `==` of two pandas cells: a missing value (NaN) is equal to
   * nothing, not even to another missing value.
   */
  predicate CellEquals(x: Cell, y: Cell)
  {
    x.Some? && y.Some? && x.value == y.value
  }

  /** `known` passes every step `mask &= (df_known[a] == row[a])` of the mask. */
  predicate Matches(known: Row, row: Row, attrs: seq<Column>)
  {
    forall k :: 0 <= k < |attrs| ==> CellEquals(known[attrs[k]], row[attrs[k]])
  }

  /** `df[df[TARGET].notna()]`: the rows whose target is known, in data set order. */
  function KnownPool(df: Dataset): (pool: Dataset)
    ensures forall r: Row :: r in pool ==> r in df && r[Target].Some?
    ensures forall i :: 0 <= i < |df| && df[i][Target].Some? ==> df[i] in pool
    ensures TargetValues(pool) == TargetValues(df)
  {
    if df == [] then []
    else
      var rest := KnownPool(df[1..]);
      assert forall i :: 1 <= i < |df| ==> df[i] == df[1..][i - 1];
      if df[0][Target].Some? then
        assert ([df[0]] + rest)[0] == df[0] && ([df[0]] + rest)[1..] == rest;
        [df[0]] + rest
      else rest
  }

  /** The pool of two consecutive stretches of rows is the pool of the first followed by the pool of the second. */
  lemma {:induction false} KnownPoolAppend(a: Dataset, b: Dataset)
    ensures KnownPool(a + b) == KnownPool(a) + KnownPool(b)
  {
    if a != [] {
      assert (a + b)[0] == a[0] && (a + b)[1..] == a[1..] + b;
      KnownPoolAppend(a[1..], b);
      var p, q := KnownPool(a[1..]), KnownPool(b);
      if a[0][Target].Some? {
        assert KnownPool(a + b) == [a[0]] + (p + q);
        assert KnownPool(a) == [a[0]] + p;
        assert [a[0]] + (p + q) == ([a[0]] + p) + q;
      } else {
        assert KnownPool(a + b) == p + q;
        assert KnownPool(a) == p;
      }
    } else {
      assert a + b == b;
    }
  }

  /** `df_known.loc[mask]`: the rows of `known` that match `row` on `attrs`. */
  function Subset(known: Dataset, row: Row, attrs: seq<Column>): (s: Dataset)
    ensures forall r: Row :: r in s ==> r in known && Matches(r, row, attrs)
    ensures forall i :: 0 <= i < |known| && Matches(known[i], row, attrs) ==> known[i] in s
  {
    if known == [] then []
    else
      var rest := Subset(known[1..], row, attrs);
      assert forall i :: 1 <= i < |known| ==> known[i] == known[1..][i - 1];
      if Matches(known[0], row, attrs) then [known[0]] + rest else rest
  }

  /**
   * The filter keeps the rows in their order: the subset of two consecutive
   * stretches of rows is the subset of the first followed by the subset of
   * the second.
   */
  lemma {:induction false} SubsetAppend(a: Dataset, b: Dataset, row: Row, attrs: seq<Column>)
    ensures Subset(a + b, row, attrs) == Subset(a, row, attrs) + Subset(b, row, attrs)
  {
    if a != [] {
      assert (a + b)[0] == a[0] && (a + b)[1..] == a[1..] + b;
      SubsetAppend(a[1..], b, row, attrs);
      var p, q := Subset(a[1..], row, attrs), Subset(b, row, attrs);
      if Matches(a[0], row, attrs) {
        assert Subset(a + b, row, attrs) == [a[0]] + (p + q);
        assert Subset(a, row, attrs) == [a[0]] + p;
        assert [a[0]] + (p + q) == ([a[0]] + p) + q;
      } else {
        assert Subset(a + b, row, attrs) == p + q;
        assert Subset(a, row, attrs) == p;
      }
    } else {
      assert a + b == b;
    }
  }

  /**
   * Filtering the known pool and dropping missing targets gives the target
   * values of the matching rows of the whole data set, in data set order:
   * the candidates are counted over the data set itself.
   */
  lemma {:induction false} PoolSubsetTargets(df: Dataset, row: Row, attrs: seq<Column>)
    ensures TargetValues(Subset(KnownPool(df), row, attrs)) == TargetValues(Subset(df, row, attrs))
  {
    if df != [] {
      PoolSubsetTargets(df[1..], row, attrs);
      var rest := Subset(KnownPool(df[1..]), row, attrs);
      if df[0][Target].Some? && Matches(df[0], row, attrs) {
        var s := [df[0]] + rest;
        assert s[0] == df[0] && s[1..] == rest;
        var t := [df[0]] + Subset(df[1..], row, attrs);
        assert t[0] == df[0] && t[1..] == Subset(df[1..], row, attrs);
      } else if Matches(df[0], row, attrs) {
        var t := [df[0]] + Subset(df[1..], row, attrs);
        assert t[0] == df[0] && t[1..] == Subset(df[1..], row, attrs);
      }
    }
  }

  /** `[TARGET].dropna().values`: the target values of `rows`, in order. */
  function TargetValues(rows: Dataset): seq<string>
  {
    if rows == [] then []
    else (if rows[0][Target].Some? then [rows[0][Target].value] else []) + TargetValues(rows[1..])
  }

  /** `_conditional_candidates(df_known, row, attrs)`. */
  function ConditionalCandidates(known: Dataset, row: Row, attrs: seq<Column>): Counter
  {
    CounterOf(TargetValues(Subset(known, row, attrs)))
  }

  /** `Counter(df_known[TARGET].values)`: the unconditioned counter of a pass. */
  function GlobalCounter(known: Dataset): Counter
  {
    CounterOf(TargetValues(known))
  }

  /** Reference count, read off the rows directly: the known rows that match `row` and hold `v`. */
  function MatchCount(known: Dataset, row: Row, attrs: seq<Column>, v: string): nat
  {
    if known == [] then 0
    else (if Matches(known[0], row, attrs) && known[0][Target] == Some(v) then 1 else 0)
         + MatchCount(known[1..], row, attrs, v)
  }

  /** With no conditioning attribute every known row is counted: the result is the global counter. */
  lemma CandidatesUnconditioned(known: Dataset, row: Row)
    ensures ConditionalCandidates(known, row, []) == GlobalCounter(known)
  {
    SubsetOfNothing(known, row);
  }

  lemma {:induction false} SubsetOfNothing(known: Dataset, row: Row)
    ensures Subset(known, row, []) == known
  {
    if known != [] {
      SubsetOfNothing(known[1..], row);
    }
  }

  /**
   * The candidate count of every value `v` is the number of known rows that
   * agree with `row` on every listed attribute and hold `v` as target.
   */
  lemma CandidateCount(known: Dataset, row: Row, attrs: seq<Column>, v: string)
    ensures Count(ConditionalCandidates(known, row, attrs), v) == MatchCount(known, row, attrs, v)
  {
    CounterOfCounts(TargetValues(Subset(known, row, attrs)));
    SubsetTargetCount(known, row, attrs, v);
  }

  lemma {:induction false} SubsetTargetCount(known: Dataset, row: Row, attrs: seq<Column>, v: string)
    ensures multiset(TargetValues(Subset(known, row, attrs)))[v] == MatchCount(known, row, attrs, v)
  {
    if known != [] {
      SubsetTargetCount(known[1..], row, attrs, v);
      var rest := Subset(known[1..], row, attrs);
      if Matches(known[0], row, attrs) {
        var s := [known[0]] + rest;
        assert s[0] == known[0] && s[1..] == rest;
      }
    }
  }

  /** The candidate counts add up to the size of the matching subset of the pool. */
  lemma CandidateTotal(known: Dataset, row: Row, attrs: seq<Column>)
    requires forall r: Row :: r in known ==> r[Target].Some?
    ensures Total(ConditionalCandidates(known, row, attrs)) == |Subset(known, row, attrs)|
  {
    var s := Subset(known, row, attrs);
    CounterOfCounts(TargetValues(s));
    AllKnownTargets(s);
  }

  lemma {:induction false} AllKnownTargets(rows: Dataset)
    requires forall r: Row :: r in rows ==> r[Target].Some?
    ensures |TargetValues(rows)| == |rows|
  {
    if rows != [] {
      assert rows[0] in rows;
      assert forall r: Row :: r in rows[1..] ==> r in rows;
      AllKnownTargets(rows[1..]);
    }
  }

  /** A row whose value is missing on a listed attribute matches no known row at all. */
  lemma MissingConditioningValue(known: Dataset, row: Row, attrs: seq<Column>, k: nat)
    requires k < |attrs| && row[attrs[k]].None?
    ensures ConditionalCandidates(known, row, attrs) == []
  {
    NoMatchEmptySubset(known, row, attrs, k);
  }

  lemma {:induction false} NoMatchEmptySubset(known: Dataset, row: Row, attrs: seq<Column>, k: nat)
    requires k < |attrs| && row[attrs[k]].None?
    ensures Subset(known, row, attrs) == []
  {
    if known != [] {
      assert !CellEquals(known[0][attrs[k]], row[attrs[k]]);
      NoMatchEmptySubset(known[1..], row, attrs, k);
    }
  }

  /** A subset of the pool holds no more target values than the pool does. */
  lemma {:induction false} SubsetTargetsBound(known: Dataset, row: Row, attrs: seq<Column>)
    ensures |TargetValues(Subset(known, row, attrs))| <= |TargetValues(known)|
  {
    if known != [] {
      SubsetTargetsBound(known[1..], row, attrs);
      var rest := Subset(known[1..], row, attrs);
      if Matches(known[0], row, attrs) {
        var s := [known[0]] + rest;
        assert s[0] == known[0] && s[1..] == rest;
      }
    }
  }

  /** Without any known target value, every candidate counter is empty. */
  lemma EmptyPoolNoCandidates(known: Dataset, row: Row, attrs: seq<Column>)
    requires TargetValues(known) == []
    ensures ConditionalCandidates(known, row, attrs) == [] && GlobalCounter(known) == []
  {
    SubsetTargetsBound(known, row, attrs);
  }

  /** A pool with a known row has a non-empty global counter. */
  lemma {:induction false} NonEmptyPoolCounter(known: Dataset)
    requires |known| > 0 && forall r: Row :: r in known ==> r[Target].Some?
    ensures |TargetValues(known)| == |known| && |GlobalCounter(known)| > 0
  {
    AllKnownTargets(known);
    CounterOfCounts(TargetValues(known));
  }
}
