/** A four-row example worked through the model: one row decided by its matches, one by the global mode. */
module Scenarios {
  import opened Wrappers
  import opened Schema
  import opened Counting
  import opened Candidates
  import opened Chooser
  import opened Imputation
  import opened Driver

  /** A row with the given race and target, every other column holding "x". */
  function SampleRow(race: string, country: Cell): (r: Row)
    ensures r[Race] == Some(race) && r[Target] == country
    ensures forall c: Column :: c != Race && c != Target ==> r[c] == Some("x")
  {
    seq(NumColumns, i requires 0 <= i < NumColumns =>
      if i == Race then Some(race) else if i == Target then country else Some("x"))
  }

  /** The rows of the scenario. */
  function Known(): Row { SampleRow("A", Some("Mexico")) }
  function MissingA(): Row { SampleRow("A", None) }
  function MissingB(): Row { SampleRow("B", None) }

  /** The four rows of the scenario. */
  function Table(): Dataset { [Known(), Known(), MissingA(), MissingB()] }

  lemma ScenarioKnownPool()
    ensures KnownPool(Table()) == [Known(), Known()]
  {
    var m, a, b := Known(), MissingA(), MissingB();
    assert Table()[1..] == [m, a, b] && [m, a, b][1..] == [a, b] && [a, b][1..] == [b] && [b][1..] == [];
    assert KnownPool([b]) == [];
    assert KnownPool([a, b]) == [];
    assert KnownPool([m, a, b]) == [m];
  }

  lemma ScenarioMissing()
    ensures MissingIndices(Table()) == [2, 3]
  {
    var t := Table();
    assert MissingFrom(t, 4) == [];
    assert MissingFrom(t, 3) == [3];
    assert MissingFrom(t, 2) == [2, 3];
    assert MissingFrom(t, 1) == [2, 3];
  }

  lemma ScenarioGlobal()
    ensures GlobalCounter([Known(), Known()]) == [Entry("Mexico", 2)]
  {
    var m := Known();
    assert [m, m][1..] == [m] && [m][1..] == [];
    assert TargetValues([m]) == ["Mexico"];
    assert TargetValues([m, m]) == ["Mexico", "Mexico"];
    assert CounterOf(["Mexico"]) == [Entry("Mexico", 1)];
    assert ["Mexico", "Mexico"][..1] == ["Mexico"];
  }

  lemma ScenarioCandidates()
    ensures ConditionalCandidates([Known(), Known()], MissingA(), Level1) == [Entry("Mexico", 2)]
    ensures ConditionalCandidates([Known(), Known()], MissingB(), Level1) == []
  {
    var m, a, b := Known(), MissingA(), MissingB();
    assert [m, m][1..] == [m] && [m][1..] == [];
    assert Matches(m, a, Level1);
    assert !Matches(m, b, Level1) by {
      assert Level1[0] == Race;
    }
    assert Subset([m], a, Level1) == [m];
    assert Subset([m, m], a, Level1) == [m, m];
    assert Subset([m], b, Level1) == [];
    assert Subset([m, m], b, Level1) == [];
    assert TargetValues([m]) == ["Mexico"];
    assert TargetValues([m, m]) == ["Mexico", "Mexico"];
    assert CounterOf(["Mexico"]) == [Entry("Mexico", 1)];
    assert ["Mexico", "Mexico"][..1] == ["Mexico"];
  }

  /** The decisions for the two missing rows against the pool of the two known rows. */
  lemma ScenarioDecisions()
    ensures Decide(MissingA(), ConditioningOrder, [Known(), Known()], [Entry("Mexico", 2)])
      == Decision("Mexico", Conditional(Level1))
    ensures Decide(MissingB(), ConditioningOrder, [Known(), Known()], [Entry("Mexico", 2)])
      == Decision("Mexico", Fallback(FallbackGlobalMode))
  {
    ScenarioCandidates();
  }

  /** The change entry of the missing row of race A: its seven-attribute matches decide. */
  lemma ScenarioFirstEntry(t: Dataset)
    requires t == Table()
    ensures |PassChanges(t, ConditioningOrder)| == 2
    ensures PassChanges(t, ConditioningOrder)[0] == ChangeRecord(2, "Mexico", Conditional(Level1))
  {
    ScenarioKnownPool();
    ScenarioMissing();
    ScenarioGlobal();
    ScenarioDecisions();
    PassChangeAt(t, ConditioningOrder, 0, 2, [Known(), Known()], [Entry("Mexico", 2)]);
    assert t[2] == MissingA();
  }

  /** The change entry of the missing row of race B: no seven-attribute match, so the global mode. */
  lemma ScenarioSecondEntry(t: Dataset)
    requires t == Table()
    ensures |PassChanges(t, ConditioningOrder)| == 2
    ensures PassChanges(t, ConditioningOrder)[1] == ChangeRecord(3, "Mexico", Fallback(FallbackGlobalMode))
  {
    ScenarioKnownPool();
    ScenarioMissing();
    ScenarioGlobal();
    ScenarioDecisions();
    PassChangeAt(t, ConditioningOrder, 1, 3, [Known(), Known()], [Entry("Mexico", 2)]);
    assert t[3] == MissingB();
  }

  /**
   * Two known "Mexico" rows of race A, then a missing row of race A and a
   * missing row of race B: the first is decided by its seven-attribute
   * matches, the second falls back to the global mode.
   */
  lemma FourRowScenario(t: Dataset)
    requires t == Table()
    ensures PassChanges(t, ConditioningOrder) ==
      [ChangeRecord(2, "Mexico", Conditional(Level1)),
       ChangeRecord(3, "Mexico", Fallback(FallbackGlobalMode))]
  {
    ScenarioFirstEntry(t);
    ScenarioSecondEntry(t);
  }
}
