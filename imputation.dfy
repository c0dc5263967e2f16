/**
 * `impute_once`: one pass that gives every row with a missing target a
 * value, trying the conditioning levels in order against a known pool and a
 * global counter frozen when the pass starts.
 */
module Imputation {
  import opened Wrappers
  import opened Schema
  import opened Counting
  import opened Candidates
  import opened Chooser

  /** The last-resort value when no row has a known target. */
  const UltimateFallback: string := "United-States"

  /** The method recorded for an imputed row. */
  datatype Provenance =
    | Conditional(attrs: seq<Column>)   // "cond(a+b+...)": the level's candidates were not empty
    | Fallback(tag: Tag)                // the chooser's tag, taken when the candidates were empty
    | UltimateGlobalMode                // no level was accepted

  /** `'+'.join(attrs)` over the column names. */
  function JoinNames(attrs: seq<Column>): string
  {
    if attrs == [] then ""
    else if |attrs| == 1 then ColumnName(attrs[0])
    else ColumnName(attrs[0]) + "+" + JoinNames(attrs[1..])
  }

  /** Joining a name in front of a non-empty list puts a `+` between it and the rest. */
  lemma JoinNamesCons(c: Column, rest: seq<Column>, tail: string)
    requires rest != [] && JoinNames(rest) == tail
    ensures JoinNames([c] + rest) == (ColumnName(c) + "+") + tail
  {
    assert ([c] + rest)[1..] == rest;
  }

  /** The text written in the `metodo` column. */
  function ProvenanceText(p: Provenance): string
  {
    match p
    case Conditional(attrs) => "cond(" + JoinNames(attrs) + ")"
    case Fallback(tag) => TagName(tag)
    case UltimateGlobalMode => "ultimate_global_mode"
  }

  datatype Decision = Decision(value: string, provenance: Provenance)

  /** One entry of the change log: original index, assigned value, method. */
  datatype ChangeRecord = ChangeRecord(index: nat, value: string, provenance: Provenance)

  /** The test that accepts a level: a value was chosen, from the candidates or as global mode. */
  predicate Accepts(candidates: Counter, choice: Choice)
  {
    choice.value.Some? && (Total(candidates) > 0 || choice.tag == FallbackGlobalMode)
  }

  /** The value and method the level loop settles on for `row`, given the frozen pool. */
  function Decide(row: Row, levels: seq<seq<Column>>, known: Dataset, global: Counter): Decision
    decreases |levels|
  {
    if levels == [] then
      if |global| > 0 then Decision(Mode(global), UltimateGlobalMode)
      else Decision(UltimateFallback, UltimateGlobalMode)
    else
      var candidates := ConditionalCandidates(known, row, levels[0]);
      var choice := ChooseValue(candidates, global);
      if Accepts(candidates, choice) then
        Decision(choice.value.value,
                 if Total(candidates) > 0 then Conditional(levels[0]) else Fallback(choice.tag))
      else Decide(row, levels[1..], known, global)
  }

  /**
   * With a known pool that is not empty, the first level always decides:
   * the first mode of its candidates when there are any, otherwise the
   * first global mode. The later levels are never reached.
   */
  lemma DecideNonEmptyPool(row: Row, levels: seq<seq<Column>>, known: Dataset)
    requires |levels| > 0
    requires |known| > 0 && forall r: Row :: r in known ==> r[Target].Some?
    ensures var global := GlobalCounter(known);
      var first := ConditionalCandidates(known, row, levels[0]);
      var d := Decide(row, levels, known, global);
      && (Total(first) > 0 ==> d.provenance == Conditional(levels[0]) && IsFirstMode(first, d.value))
      && (Total(first) == 0 ==> d.provenance == Fallback(FallbackGlobalMode) && IsFirstMode(global, d.value))
  {
    NonEmptyPoolCounter(known);
  }

  /**
   * When rows of the data set agree with `row` on the first level and have a
   * known target, the first level decides with the most frequent of their
   * target values; on a tie it is the value that appears first in data set
   * order, not the lexicographically smallest.
   */
  lemma DecideFirstLevelInDataOrder(df: Dataset, row: Row, levels: seq<seq<Column>>)
    requires |levels| > 0 && TargetValues(Subset(df, row, levels[0])) != []
    ensures var vals := TargetValues(Subset(df, row, levels[0]));
      var d := Decide(row, levels, KnownPool(df), GlobalCounter(KnownPool(df)));
      && d.provenance == Conditional(levels[0])
      && d.value in vals
      && (forall w :: multiset(vals)[w] <= multiset(vals)[d.value])
      && (forall w :: w in vals && w != d.value && multiset(vals)[w] == multiset(vals)[d.value] ==>
            FirstIndex(vals, d.value) < FirstIndex(vals, w))
  {
    var vals := TargetValues(Subset(df, row, levels[0]));
    var global := GlobalCounter(KnownPool(df));
    PoolSubsetTargets(df, row, levels[0]);
    assert ConditionalCandidates(KnownPool(df), row, levels[0]) == CounterOf(vals);
    CounterOfCounts(vals);
    ChosenValueIsMostFrequent(vals, global);
  }

  /** Without any known target value every level fails and the constant fallback is used. */
  lemma {:induction false} DecideEmptyPool(row: Row, levels: seq<seq<Column>>, known: Dataset)
    requires TargetValues(known) == []
    ensures Decide(row, levels, known, GlobalCounter(known)) == Decision(UltimateFallback, UltimateGlobalMode)
  {
    if levels != [] {
      EmptyPoolNoCandidates(known, row, levels[0]);
      DecideEmptyPool(row, levels[1..], known);
    }
  }

  /** With no level at all, a non-empty global counter gives its first mode, tagged as ultimate. */
  lemma DecideNoLevels(row: Row, known: Dataset, global: Counter)
    requires |global| > 0
    ensures Decide(row, [], known, global).provenance == UltimateGlobalMode
    ensures IsFirstMode(global, Decide(row, [], known, global).value)
  {
  }

  /** The inner loop of the pass over the levels, leaving at the first accepted one. */
  method ImputeRow(row: Row, order: seq<seq<Column>>, known: Dataset, global: Counter) returns (d: Decision)
    ensures d == Decide(row, order, known, global)
  {
    var chosen: Option<Decision> := None;
    var k := 0;
    while k < |order|
      invariant 0 <= k <= |order|
      invariant chosen == None
      invariant Decide(row, order, known, global) == Decide(row, order[k..], known, global)
    {
      var attrs := order[k];
      var candidates := ConditionalCandidates(known, row, attrs);
      var choice := ChooseValue(candidates, global);
      if Accepts(candidates, choice) {
        var source := if Total(candidates) > 0 then Conditional(attrs) else Fallback(choice.tag);
        chosen := Some(Decision(choice.value.value, source));
        break;
      }
      assert order[k..][1..] == order[k + 1..];
      k := k + 1;
    }
    if chosen == None {
      var value := if |global| > 0 then Mode(global) else UltimateFallback;
      chosen := Some(Decision(value, UltimateGlobalMode));
    }
    d := chosen.value;
  }

  /** The indices from `from` on of the rows whose target is missing, in increasing order. */
  function MissingFrom(df: Dataset, from: nat): (idx: seq<nat>)
    requires from <= |df|
    ensures forall k :: 0 <= k < |idx| ==> from <= idx[k] < |df| && df[idx[k]][Target].None?
    ensures forall k, l :: 0 <= k < l < |idx| ==> idx[k] < idx[l]
    ensures forall i :: from <= i < |df| && df[i][Target].None? ==> i in idx
    decreases |df| - from
  {
    if from == |df| then []
    else (if df[from][Target].None? then [from] else []) + MissingFrom(df, from + 1)
  }

  /** `to_impute`: the indices of the rows whose target is missing, in data set order. */
  function MissingIndices(df: Dataset): (idx: seq<nat>)
    ensures forall k :: 0 <= k < |idx| ==> idx[k] < |df| && df[idx[k]][Target].None?
    ensures forall k, l :: 0 <= k < l < |idx| ==> idx[k] < idx[l]
    ensures forall i :: 0 <= i < |df| && df[i][Target].None? ==> i in idx
    ensures (forall i :: 0 <= i < |df| ==> df[i][Target].Some?) ==> idx == []
  {
    var idx := MissingFrom(df, 0);
    assert |idx| > 0 ==> df[idx[0]][Target].None?;
    idx
  }

  /** A row as the pass leaves it: a missing target receives the decision made against the frozen pool. */
  function FillRow(row: Row, order: seq<seq<Column>>, known: Dataset, global: Counter): Row
  {
    if row[Target].Some? then row
    else row[Target := Some(Decide(row, order, known, global).value)]
  }

  /**
   * The data set after one pass. No target is missing any more, rows that
   * had a target and every other column are unchanged, and each filled row
   * is decided against the pool of the data set as it was when the pass
   * began, so no row depends on what was assigned to another row.
   */
  function PassResult(df: Dataset, order: seq<seq<Column>>): (r: Dataset)
    ensures |r| == |df|
    ensures forall i :: 0 <= i < |df| ==> r[i][Target].Some?
    ensures forall i :: 0 <= i < |df| && df[i][Target].Some? ==> r[i] == df[i]
    ensures forall i, c: Column :: 0 <= i < |df| && c != Target ==> r[i][c] == df[i][c]
    ensures forall i :: 0 <= i < |df| && df[i][Target].None? ==>
      r[i][Target] == Some(Decide(df[i], order, KnownPool(df), GlobalCounter(KnownPool(df))).value)
  {
    var known := KnownPool(df);
    var global := GlobalCounter(known);
    seq(|df|, i requires 0 <= i < |df| => FillRow(df[i], order, known, global))
  }

  /** The change entry for row `i`. */
  function RecordFor(df: Dataset, i: nat, order: seq<seq<Column>>, known: Dataset, global: Counter): ChangeRecord
    requires i < |df|
  {
    var d := Decide(df[i], order, known, global);
    ChangeRecord(i, d.value, d.provenance)
  }

  /**
   * The change list of one pass: one entry per row whose target was
   * missing, in data set order (the order of `MissingIndices`), holding that
   * row's index and the value the pass gave it.
   */
  function PassChanges(df: Dataset, order: seq<seq<Column>>): (ch: seq<ChangeRecord>)
    ensures |ch| == |MissingIndices(df)|
    ensures forall k :: 0 <= k < |ch| ==> ch[k].index == MissingIndices(df)[k]
    ensures forall k :: 0 <= k < |ch| ==>
      ch[k].index < |df| && PassResult(df, order)[ch[k].index][Target] == Some(ch[k].value)
    ensures forall k :: 0 <= k < |ch| ==>
      ch[k].index < |df| && ch[k].provenance == Decide(df[ch[k].index], order, KnownPool(df), GlobalCounter(KnownPool(df))).provenance
  {
    var known := KnownPool(df);
    var global := GlobalCounter(known);
    var idx := MissingIndices(df);
    var ch := seq(|idx|, k requires 0 <= k < |idx| => RecordFor(df, idx[k], order, known, global));
    assert forall k :: 0 <= k < |ch| ==> PassResult(df, order)[idx[k]][Target] == Some(ch[k].value) by {
      var r := PassResult(df, order);
      forall k | 0 <= k < |ch| ensures r[idx[k]][Target] == Some(ch[k].value) {
        assert df[idx[k]][Target].None?;
      }
    }
    ch
  }

  /** Entry `k` of the change list is the decision for the `k`-th missing row against the frozen pool. */
  lemma PassChangeAt(df: Dataset, order: seq<seq<Column>>, k: nat, i: nat, known: Dataset, global: Counter)
    requires k < |MissingIndices(df)| && MissingIndices(df)[k] == i
    requires known == KnownPool(df) && global == GlobalCounter(known)
    ensures i < |df| && df[i][Target].None?
    ensures var d := Decide(df[i], order, known, global);
      k < |PassChanges(df, order)| && PassChanges(df, order)[k] == ChangeRecord(i, d.value, d.provenance)
  {
  }

  /**
   * The change list names every originally-missing row exactly once, in
   * increasing index order, and no other row.
   */
  lemma PassChangesCoverMissing(df: Dataset, order: seq<seq<Column>>)
    ensures var ch := PassChanges(df, order);
      && (forall k :: 0 <= k < |ch| ==> ch[k].index < |df| && df[ch[k].index][Target].None?)
      && (forall k, l :: 0 <= k < l < |ch| ==> ch[k].index < ch[l].index)
      && (forall i :: 0 <= i < |df| && df[i][Target].None? ==> exists k :: 0 <= k < |ch| && ch[k].index == i)
  {
    var ch := PassChanges(df, order);
    var idx := MissingIndices(df);
    forall i | 0 <= i < |df| && df[i][Target].None? ensures exists k :: 0 <= k < |ch| && ch[k].index == i {
      assert i in idx;
      var k :| 0 <= k < |idx| && idx[k] == i;
      assert ch[k].index == i;
    }
  }

  /** A pass over a data set with no missing target changes nothing and records nothing. */
  lemma PassIdentityWhenComplete(df: Dataset, order: seq<seq<Column>>)
    requires MissingIndices(df) == []
    ensures PassResult(df, order) == df
    ensures PassChanges(df, order) == []
  {
    var r := PassResult(df, order);
    forall i | 0 <= i < |df| ensures r[i] == df[i] {
      assert i !in MissingIndices(df);
    }
  }

  /**
   * A filled row's value depends only on its own cells and on the known
   * pool at the start of the pass: two data sets with the same pool give a
   * row the same value, whatever their other missing rows are.
   */
  lemma PassRowDependsOnPoolOnly(df1: Dataset, df2: Dataset, order: seq<seq<Column>>, i: nat, j: nat)
    requires KnownPool(df1) == KnownPool(df2)
    requires i < |df1| && j < |df2| && df1[i] == df2[j] && df1[i][Target].None?
    ensures PassResult(df1, order)[i] == PassResult(df2, order)[j]
  {
  }

  /** After a pass no target is missing. */
  lemma PassLeavesNothingMissing(df: Dataset, order: seq<seq<Column>>)
    ensures MissingIndices(PassResult(df, order)) == []
  {
  }

  /** A pass over a data set with a missing target changes the target column. */
  lemma PassChangesTargetColumn(df: Dataset, order: seq<seq<Column>>)
    requires MissingIndices(df) != []
    ensures TargetColumn(PassResult(df, order)) != TargetColumn(df)
  {
    var i := MissingIndices(df)[0];
    assert TargetColumn(PassResult(df, order))[i] != TargetColumn(df)[i];
  }

  /** Without any known target, every missing row gets the constant fallback. */
  lemma EmptyPoolPass(df: Dataset, order: seq<seq<Column>>)
    requires KnownPool(df) == []
    ensures forall i :: 0 <= i < |df| ==> PassResult(df, order)[i][Target] == Some(UltimateFallback)
    ensures forall k :: 0 <= k < |PassChanges(df, order)| ==>
      PassChanges(df, order)[k].value == UltimateFallback &&
      PassChanges(df, order)[k].provenance == UltimateGlobalMode
  {
    forall i | 0 <= i < |df| ensures df[i][Target].None? && Decide(df[i], order, [], []) == Decision(UltimateFallback, UltimateGlobalMode) {
      DecideEmptyPool(df[i], order, []);
    }
  }

  /**
   * `impute_once`: copies the data set, freezes the known pool and the
   * global counter, then walks the missing rows in order, writing each
   * decision into the copy and appending its change entry.
   */
  method ImputeOnce(df: Dataset, order: seq<seq<Column>>) returns (dfNew: Dataset, changes: seq<ChangeRecord>)
    ensures dfNew == PassResult(df, order)
    ensures changes == PassChanges(df, order)
  {
    dfNew := df;
    var known := KnownPool(dfNew);
    var global := GlobalCounter(known);
    changes := [];
    var toImpute := MissingIndices(dfNew);
    if |toImpute| == 0 {
      PassIdentityWhenComplete(df, order);
      return;
    }
    dfNew, changes := FillMissing(df, toImpute, order, known, global);
    LoopEndIsPass(df, order, dfNew, changes);
  }

  /**
   * The loop of `impute_once` over the rows listed in `toImpute`, reading
   * only `df` and the frozen pool. The rows may be listed in any order
   * without repeats: the table it builds is the same whatever the order, as
   * no decision reads a value written earlier in the loop.
   */
  method FillMissing(df: Dataset, toImpute: seq<nat>, order: seq<seq<Column>>, known: Dataset, global: Counter)
    returns (dfNew: Dataset, changes: seq<ChangeRecord>)
    requires forall k :: 0 <= k < |toImpute| ==> toImpute[k] < |df| && df[toImpute[k]][Target].None?
    requires forall k, l :: 0 <= k < l < |toImpute| ==> toImpute[k] != toImpute[l]
    ensures FilledAt(df, dfNew, toImpute, order, known, global)
    ensures |changes| == |toImpute|
    ensures forall k :: 0 <= k < |toImpute| ==> changes[k] == RecordFor(df, toImpute[k], order, known, global)
  {
    dfNew := df;
    changes := [];
    for j := 0 to |toImpute|
      invariant FilledAt(df, dfNew, toImpute[..j], order, known, global)
      invariant |changes| == j
      invariant forall k :: 0 <= k < j ==> changes[k] == RecordFor(df, toImpute[k], order, known, global)
    {
      var idx := toImpute[j];
      var d := ImputeRow(df[idx], order, known, global);
      NextIndex(toImpute, j);
      FillOne(df, dfNew, toImpute[..j], order, known, global, idx);
      dfNew := dfNew[idx := dfNew[idx][Target := Some(d.value)]];
      changes := changes + [ChangeRecord(idx, d.value, d.provenance)];
    }
    assert toImpute[..|toImpute|] == toImpute;
  }

  /** `dfNew` is `df` with exactly the rows listed in `idxs` filled. */
  ghost predicate FilledAt(df: Dataset, dfNew: Dataset, idxs: seq<nat>, order: seq<seq<Column>>, known: Dataset, global: Counter)
  {
    && |dfNew| == |df|
    && forall i :: 0 <= i < |df| ==>
         dfNew[i] == if i in idxs then FillRow(df[i], order, known, global) else df[i]
  }

  /** Filling one more missing row, not filled before, extends the list of filled rows. */
  lemma FillOne(df: Dataset, dfNew: Dataset, idxs: seq<nat>, order: seq<seq<Column>>, known: Dataset, global: Counter, i: nat)
    requires FilledAt(df, dfNew, idxs, order, known, global)
    requires i < |df| && df[i][Target].None? && i !in idxs
    ensures dfNew[i][Target := Some(Decide(df[i], order, known, global).value)] == FillRow(df[i], order, known, global)
    ensures FilledAt(df, dfNew[i := FillRow(df[i], order, known, global)], idxs + [i], order, known, global)
  {
  }

  /** Taking one more index of a list without repeats adds one index not taken before. */
  lemma NextIndex(s: seq<nat>, j: nat)
    requires j < |s|
    requires forall k, l :: 0 <= k < l < |s| ==> s[k] != s[l]
    ensures s[..j + 1] == s[..j] + [s[j]]
    ensures s[j] !in s[..j]
  {
  }

  /** What the loop of `ImputeOnce` has built once every missing row is visited is the pass. */
  lemma LoopEndIsPass(df: Dataset, order: seq<seq<Column>>, dfNew: Dataset, changes: seq<ChangeRecord>)
    requires FilledAt(df, dfNew, MissingIndices(df), order, KnownPool(df), GlobalCounter(KnownPool(df)))
    requires |changes| == |MissingIndices(df)|
    requires forall k :: 0 <= k < |changes| ==>
      changes[k] == RecordFor(df, MissingIndices(df)[k], order, KnownPool(df), GlobalCounter(KnownPool(df)))
    ensures dfNew == PassResult(df, order)
    ensures changes == PassChanges(df, order)
  {
    var r := PassResult(df, order);
    forall i | 0 <= i < |df| ensures dfNew[i] == r[i] {
      if i !in MissingIndices(df) {
        assert df[i][Target].Some?;
      }
    }
  }
}
