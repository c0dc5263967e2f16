/**
 * Frequency counters as built by Python's `collections.Counter`: a list of
 * (value, count) entries kept in the order in which each value first
 * appeared, and the arg-max that Python's `max(counter.items(), key=count)`
 * computes, which keeps the FIRST entry of maximal count.
 */
module Counting {

  datatype Entry = Entry(value: string, count: nat)

  /** An association list in first-appearance order. */
  type Counter = seq<Entry>

  /** Sum of all counts, `sum(counter.values())`. */
  function Total(c: Counter): nat
  {
    if c == [] then 0 else c[0].count + Total(c[1..])
  }

  /** The count recorded for `v` (0 when `v` is not a key). */
  function Count(c: Counter, v: string): nat
  {
    if c == [] then 0 else (if c[0].value == v then c[0].count else 0) + Count(c[1..], v)
  }

  /** `v` is a key of `c`. */
  ghost predicate Has(c: Counter, v: string)
  {
    exists i :: 0 <= i < |c| && c[i].value == v
  }

  /** No key appears twice. */
  ghost predicate Distinct(c: Counter)
  {
    forall i, j :: 0 <= i < j < |c| ==> c[i].value != c[j].value
  }

  /** Every recorded count is positive. */
  ghost predicate Positive(c: Counter)
  {
    forall i :: 0 <= i < |c| ==> c[i].count > 0
  }

  /** Position of the first occurrence of `v` in `s`. */
  function FirstIndex(s: seq<string>, v: string): (k: nat)
    requires v in s
    ensures k < |s| && s[k] == v
    ensures forall j :: 0 <= j < k ==> s[j] != v
  {
    if s[0] == v then 0 else 1 + FirstIndex(s[1..], v)
  }

  /** Counting one more occurrence of `v`: an existing entry is incremented in place, a new value goes at the end. */
  function Add(c: Counter, v: string): (r: Counter)
    ensures Has(c, v) ==> |r| == |c| && forall i :: 0 <= i < |c| ==> r[i].value == c[i].value
    ensures !Has(c, v) ==> r == c + [Entry(v, 1)]
  {
    if c == [] then [Entry(v, 1)]
    else if c[0].value == v then [Entry(v, c[0].count + 1)] + c[1..]
    else
      var rest := Add(c[1..], v);
      assert Has(c[1..], v) <==> Has(c, v) by {
        if Has(c, v) {
          var i :| 0 <= i < |c| && c[i].value == v;
          assert c[1..][i - 1].value == v;
        }
        if Has(c[1..], v) {
          var i :| 0 <= i < |c[1..]| && c[1..][i].value == v;
          assert c[i + 1].value == v;
        }
      }
      [c[0]] + rest
  }

  /** `Counter(vals)`: counts the values left to right. */
  function CounterOf(vals: seq<string>): (c: Counter)
  {
    if vals == [] then [] else Add(CounterOf(vals[..|vals| - 1]), vals[|vals| - 1])
  }

  lemma {:induction false} AddCount(c: Counter, v: string, w: string)
    ensures Count(Add(c, v), w) == Count(c, w) + (if w == v then 1 else 0)
  {
    if c != [] && c[0].value != v {
      AddCount(c[1..], v, w);
      assert Add(c, v)[1..] == Add(c[1..], v);
    }
  }

  lemma {:induction false} AddPositive(c: Counter, v: string)
    requires Positive(c)
    ensures Positive(Add(c, v))
  {
    if c != [] && c[0].value != v {
      AddPositive(c[1..], v);
      assert Add(c, v)[1..] == Add(c[1..], v);
    }
  }

  lemma {:induction false} AddTotal(c: Counter, v: string)
    ensures Total(Add(c, v)) == Total(c) + 1
  {
    if c != [] && c[0].value != v {
      AddTotal(c[1..], v);
      assert Add(c, v)[1..] == Add(c[1..], v);
    }
  }

  lemma {:induction false} AddDistinct(c: Counter, v: string)
    requires Distinct(c)
    ensures Distinct(Add(c, v))
  {
    var r := Add(c, v);
    if !Has(c, v) {
      forall i, j | 0 <= i < j < |r| ensures r[i].value != r[j].value {
        if j == |c| {
          assert r[i] == r[..|c|][i] == c[i];
        } else {
          assert r[i] == c[i] && r[j] == c[j];
        }
      }
    }
  }

  /** In a counter without repeated keys, an entry's count is the key's count. */
  lemma {:induction false} EntryCount(c: Counter, i: nat)
    requires Distinct(c) && i < |c|
    ensures Count(c, c[i].value) == c[i].count
  {
    if i == 0 {
      AbsentCount(c[1..], c[0].value);
    } else {
      EntryCount(c[1..], i - 1);
    }
  }

  lemma {:induction false} AbsentCount(c: Counter, v: string)
    requires forall i :: 0 <= i < |c| ==> c[i].value != v
    ensures Count(c, v) == 0
  {
    if c != [] {
      AbsentCount(c[1..], v);
    }
  }

  /**
   * What `Counter(vals)` holds: distinct keys with positive counts, the
   * count of every value is its number of occurrences, and the counts add up
   * to the number of values.
   */
  lemma {:induction false} CounterOfCounts(vals: seq<string>)
    ensures var c := CounterOf(vals);
      && Distinct(c) && Positive(c)
      && Total(c) == |vals|
      && (forall w :: Count(c, w) == multiset(vals)[w])
  {
    if vals != [] {
      var n := |vals| - 1;
      var p, x := vals[..n], vals[n];
      assert vals == p + [x];
      CounterOfCounts(p);
      var c0 := CounterOf(p);
      AddTotal(c0, x);
      AddDistinct(c0, x);
      AddPositive(c0, x);
      assert multiset(vals) == multiset(p) + multiset{x};
      forall w ensures Count(CounterOf(vals), w) == multiset(vals)[w] {
        AddCount(c0, x, w);
      }
    }
  }

  /** Every key of `Counter(vals)` is a value occurring in `vals`. */
  lemma {:induction false} CounterOfKeysOccur(vals: seq<string>)
    ensures forall i :: 0 <= i < |CounterOf(vals)| ==> CounterOf(vals)[i].value in vals
  {
    if vals != [] {
      var n := |vals| - 1;
      var p, x := vals[..n], vals[n];
      assert vals == p + [x];
      CounterOfKeysOccur(p);
      var c0, c := CounterOf(p), CounterOf(vals);
      forall i | 0 <= i < |c| ensures c[i].value in vals {
        if i < |c0| {
          assert c[i].value == c0[i].value && c0[i].value in p;
        } else {
          assert c[i].value == x;
        }
      }
    }
  }

  /** Every value occurring in `vals` is a key of `Counter(vals)`. */
  lemma {:induction false} CounterOfKeysComplete(vals: seq<string>)
    ensures forall w :: w in vals ==> Has(CounterOf(vals), w)
  {
    if vals != [] {
      var n := |vals| - 1;
      var p, x := vals[..n], vals[n];
      assert vals == p + [x];
      CounterOfKeysComplete(p);
      var c0, c := CounterOf(p), CounterOf(vals);
      forall w | w in vals ensures Has(c, w) {
        if w in p {
          var i :| 0 <= i < |c0| && c0[i].value == w;
          assert c[i].value == w;
        } else if Has(c0, x) {
          var i :| 0 <= i < |c0| && c0[i].value == x;
          assert c[i].value == w;
        } else {
          assert c[|c0|].value == w;
        }
      }
    }
  }

  /** The keys of `c` are values of `vals`, in the order of their first occurrence. */
  ghost predicate FirstAppearanceOrder(c: Counter, vals: seq<string>)
  {
    && (forall i :: 0 <= i < |c| ==> c[i].value in vals)
    && (forall i, j :: 0 <= i < j < |c| ==>
          FirstIndex(vals, c[i].value) < FirstIndex(vals, c[j].value))
  }

  /** `Counter(vals)` keeps its keys in the order in which they first occur in `vals`. */
  lemma {:induction false} CounterOfOrder(vals: seq<string>)
    ensures FirstAppearanceOrder(CounterOf(vals), vals)
  {
    if vals != [] {
      var n := |vals| - 1;
      var p, x := vals[..n], vals[n];
      assert vals == p + [x];
      CounterOfOrder(p);
      CounterOfKeysComplete(p);
      AddKeepsOrder(CounterOf(p), p, x);
    }
  }

  lemma AddKeepsOrder(c: Counter, p: seq<string>, x: string)
    requires FirstAppearanceOrder(c, p)
    requires forall w :: w in p ==> Has(c, w)
    ensures FirstAppearanceOrder(Add(c, x), p + [x])
  {
    if Has(c, x) {
      AddPresentKeepsOrder(c, p, x);
    } else {
      AddAbsentKeepsOrder(c, p, x);
    }
  }

  lemma AddPresentKeepsOrder(c: Counter, p: seq<string>, x: string)
    requires FirstAppearanceOrder(c, p) && Has(c, x)
    ensures FirstAppearanceOrder(Add(c, x), p + [x])
  {
    var r := Add(c, x);
    var s := p + [x];
    forall i | 0 <= i < |r| ensures r[i].value in s && FirstIndex(s, r[i].value) == FirstIndex(p, c[i].value) {
      assert r[i].value == c[i].value;
      FirstIndexExtend(p, x, c[i].value);
    }
  }

  lemma AddAbsentKeepsOrder(c: Counter, p: seq<string>, x: string)
    requires FirstAppearanceOrder(c, p) && !Has(c, x)
    requires forall w :: w in p ==> Has(c, w)
    ensures FirstAppearanceOrder(Add(c, x), p + [x])
  {
    assert x !in p;
    assert Add(c, x) == c + [Entry(x, 1)];
    AppendKeepsOrder(c, p, x);
  }

  lemma AppendKeepsOrder(c: Counter, p: seq<string>, x: string)
    requires FirstAppearanceOrder(c, p) && x !in p
    ensures FirstAppearanceOrder(c + [Entry(x, 1)], p + [x])
  {
    var r := c + [Entry(x, 1)];
    var s := p + [x];
    FirstIndexNew(p, x);
    forall i | 0 <= i < |c|
      ensures r[i] == c[i] && r[i].value in s && FirstIndex(s, r[i].value) == FirstIndex(p, c[i].value) < |p|
    {
      FirstIndexExtend(p, x, c[i].value);
    }
    assert forall i :: 0 <= i < |r| ==> r[i].value in s;
    forall i, j | 0 <= i < j < |r|
      ensures FirstIndex(s, r[i].value) < FirstIndex(s, r[j].value)
    {
      if j < |c| {
        assert FirstIndex(p, c[i].value) < FirstIndex(p, c[j].value);
      }
    }
  }

  lemma FirstIndexExtend(s: seq<string>, x: string, v: string)
    requires v in s
    ensures FirstIndex(s + [x], v) == FirstIndex(s, v)
  {
    assert (s + [x])[FirstIndex(s, v)] == v;
  }

  lemma FirstIndexNew(s: seq<string>, v: string)
    requires v !in s
    ensures FirstIndex(s + [v], v) == |s|
  {
    assert (s + [v])[|s|] == v;
  }

  /** `k` is the position Python's `max` returns: of maximal count, and every earlier entry strictly smaller. */
  ghost predicate IsFirstMaxAt(c: Counter, k: int)
  {
    && 0 <= k < |c|
    && (forall j :: 0 <= j < |c| ==> c[j].count <= c[k].count)
    && (forall j :: 0 <= j < k ==> c[j].count < c[k].count)
  }

  /** `v` is the key Python's `max(counter.items(), key=count)[0]` returns. */
  ghost predicate IsFirstMode(c: Counter, v: string)
  {
    exists k :: IsFirstMaxAt(c, k) && c[k].value == v
  }

  /** A left-to-right scan that replaces the best entry only on a strictly larger count. */
  function ArgMax(c: Counter): (k: nat)
    requires |c| > 0
    ensures IsFirstMaxAt(c, k)
  {
    if |c| == 1 then 0
    else
      var k := ArgMax(c[..|c| - 1]);
      assert forall j :: 0 <= j < |c| - 1 ==> c[..|c| - 1][j] == c[j];
      if c[|c| - 1].count > c[k].count then |c| - 1 else k
  }

  /** The most frequent key, ties going to the key recorded first. */
  function Mode(c: Counter): (v: string)
    requires |c| > 0
    ensures IsFirstMode(c, v)
  {
    c[ArgMax(c)].value
  }

  /**
   * The mode of `Counter(vals)` occurs in `vals`, no value occurs more often,
   * and among the values that occur as often it is the one that occurs
   * first in `vals`.
   */
  lemma ModeOfValues(vals: seq<string>)
    requires |vals| > 0
    ensures |CounterOf(vals)| > 0
    ensures var v := Mode(CounterOf(vals));
      && v in vals
      && (forall w :: multiset(vals)[w] <= multiset(vals)[v])
      && (forall w :: w in vals && w != v && multiset(vals)[w] == multiset(vals)[v] ==>
            FirstIndex(vals, v) < FirstIndex(vals, w))
  {
    var c := CounterOf(vals);
    CounterOfCounts(vals);
    CounterOfKeysOccur(vals);
    CounterOfKeysComplete(vals);
    CounterOfOrder(vals);
    assert |c| > 0;
    var k := ArgMax(c);
    var v := c[k].value;
    EntryCount(c, k);
    forall w ensures multiset(vals)[w] <= multiset(vals)[v] {
      if Has(c, w) {
        var j :| 0 <= j < |c| && c[j].value == w;
        EntryCount(c, j);
      } else {
        AbsentCount(c, w);
      }
    }
    forall w | w in vals && w != v && multiset(vals)[w] == multiset(vals)[v]
      ensures FirstIndex(vals, v) < FirstIndex(vals, w)
    {
      var j :| 0 <= j < |c| && c[j].value == w;
      EntryCount(c, j);
      assert j != k;
    }
  }
}
