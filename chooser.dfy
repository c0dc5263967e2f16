/** `_choose_value`: the mode of the candidates, or of the global counter, with a method tag. */
module Chooser {
  import opened Wrappers
  import opened Counting

  /** The method tags `_choose_value` returns. */
  datatype Tag = FallbackEmpty | FallbackGlobalMode | ConditionalMode

  function TagName(t: Tag): string
  {
    match t
    case FallbackEmpty => "fallback_empty"
    case FallbackGlobalMode => "fallback_global_mode"
    case ConditionalMode => "conditional_mode"
  }

  datatype Choice = Choice(value: Option<string>, tag: Tag)

  /**
   * No candidate and no global value: nothing; no candidate: the first
   * global mode; otherwise the first candidate mode.
   */
  function ChooseValue(candidates: Counter, global: Counter): (r: Choice)
    ensures Total(candidates) == 0 && |global| == 0 ==> r == Choice(None, FallbackEmpty)
    ensures Total(candidates) == 0 && |global| > 0 ==>
      r.tag == FallbackGlobalMode && r.value.Some? && IsFirstMode(global, r.value.value)
    ensures Total(candidates) > 0 ==>
      r.tag == ConditionalMode && r.value.Some? && IsFirstMode(candidates, r.value.value)
  {
    if Total(candidates) == 0 then
      if |global| == 0 then Choice(None, FallbackEmpty)
      else Choice(Some(Mode(global)), FallbackGlobalMode)
    else Choice(Some(Mode(candidates)), ConditionalMode)
  }

  /**
   * When the candidates come from a non-empty list of target values, the
   * chooser answers with a value of that list that no other value
   * outnumbers, and on a tie with the one that occurs first in the list
   * (not the lexicographically smallest).
   */
  lemma ChosenValueIsMostFrequent(vals: seq<string>, global: Counter)
    requires |vals| > 0
    ensures var r := ChooseValue(CounterOf(vals), global);
      && r.tag == ConditionalMode && r.value.Some?
      && var v := r.value.value;
      && v in vals
      && (forall w :: multiset(vals)[w] <= multiset(vals)[v])
      && (forall w :: w in vals && w != v && multiset(vals)[w] == multiset(vals)[v] ==>
            FirstIndex(vals, v) < FirstIndex(vals, w))
  {
    var c := CounterOf(vals);
    CounterOfCounts(vals);
    ModeOfValues(vals);
    FirstModeUnique(c, ChooseValue(c, global).value.value, Mode(c));
  }

  /** The first mode of a counter is unique. */
  lemma FirstModeUnique(c: Counter, v: string, w: string)
    requires IsFirstMode(c, v) && IsFirstMode(c, w)
    ensures v == w
  {
    var k :| IsFirstMaxAt(c, k) && c[k].value == v;
    var l :| IsFirstMaxAt(c, l) && c[l].value == w;
    assert !(k < l) && !(l < k);
  }
}
