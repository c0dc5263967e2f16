/**
 * `impute_native_country`: repeats passes of `impute_once` with the fixed
 * conditioning hierarchy until the target column stops changing or the
 * iteration budget runs out, keeping the first pass's change log.
 */
module Driver {
  import opened Schema
  import opened Counting
  import opened Candidates
  import opened Chooser
  import opened Imputation

  /** The most specific conditioning level. */
  const Level1: seq<Column> := [Race, Sex, Education, Occupation, MaritalStatus, Relationship, Income]

  /** The fixed hierarchy of the driver, from seven attributes down to none (the global mode). */
  const ConditioningOrder: seq<seq<Column>> := [
    Level1,
    [Race, Sex, Education, Occupation, MaritalStatus],
    [Race, Sex, Education],
    [Race, Sex],
    [Race],
    []
  ]

  /** The default iteration budget of `impute_native_country`, which the command line also passes. */
  const DefaultMaxIters: int := 3

  /** Why the driver stopped: "Sin cambios en iteración n" or "Iteraciones máximas (n) alcanzadas". */
  datatype StopReason = NoChangeAt(iteration: int) | MaxItersReached(maxIters: int)

  /**
   * With a known pool that is not empty, every row the driver's first pass
   * fills is decided at the first level: by the mode of its seven-attribute
   * matches when there are any, otherwise by the global mode, tagged
   * "fallback_global_mode". Levels two to six never decide.
   */
  lemma NonEmptyPoolOutcomes(df: Dataset)
    requires KnownPool(df) != []
    ensures var known := KnownPool(df);
      forall k :: 0 <= k < |PassChanges(df, ConditioningOrder)| ==>
        var rec := PassChanges(df, ConditioningOrder)[k];
        var first := ConditionalCandidates(known, df[rec.index], Level1);
        && (Total(first) > 0 ==> rec.provenance == Conditional(Level1) && IsFirstMode(first, rec.value))
        && (Total(first) == 0 ==>
              rec.provenance == Fallback(FallbackGlobalMode) && IsFirstMode(GlobalCounter(known), rec.value))
  {
    var known := KnownPool(df);
    forall i | 0 <= i < |df| {
      DecideNonEmptyPool(df[i], ConditioningOrder, known);
    }
  }

  /** The joined attribute names of a suffix of the seven-attribute level. */
  lemma JoinLevel1FromRelationship()
    ensures JoinNames([Relationship, Income]) ==
      "relationship" + "+" + "income"
  {
    JoinNamesCons(Relationship, [Income], "income");
  }

  /** The joined attribute names of a suffix of the seven-attribute level. */
  lemma JoinLevel1FromMaritalStatus()
    ensures JoinNames([MaritalStatus, Relationship, Income]) ==
      "marital-status" + "+" + ("relationship" + "+" + "income")
  {
    JoinLevel1FromRelationship();
    JoinNamesCons(MaritalStatus, [Relationship, Income], "relationship" + "+" + "income");
  }

  /** The joined attribute names of a suffix of the seven-attribute level. */
  lemma JoinLevel1FromOccupation()
    ensures JoinNames([Occupation, MaritalStatus, Relationship, Income]) ==
      "occupation" + "+" + ("marital-status" + "+" + ("relationship" + "+" + "income"))
  {
    JoinLevel1FromMaritalStatus();
    JoinNamesCons(Occupation, [MaritalStatus, Relationship, Income], "marital-status" + "+" + ("relationship" + "+" + "income"));
  }

  /** The joined attribute names of a suffix of the seven-attribute level. */
  lemma JoinLevel1FromEducation()
    ensures JoinNames([Education, Occupation, MaritalStatus, Relationship, Income]) ==
      "education" + "+" + ("occupation" + "+" + ("marital-status" + "+" + ("relationship" + "+" + "income")))
  {
    JoinLevel1FromOccupation();
    JoinNamesCons(Education, [Occupation, MaritalStatus, Relationship, Income], "occupation" + "+" + ("marital-status" + "+" + ("relationship" + "+" + "income")));
  }

  /** The joined attribute names of a suffix of the seven-attribute level. */
  lemma JoinLevel1FromSex()
    ensures JoinNames([Sex, Education, Occupation, MaritalStatus, Relationship, Income]) ==
      "sex" + "+" + ("education" + "+" + ("occupation" + "+" + ("marital-status" + "+" + ("relationship" + "+" + "income"))))
  {
    JoinLevel1FromEducation();
    JoinNamesCons(Sex, [Education, Occupation, MaritalStatus, Relationship, Income], "education" + "+" + ("occupation" + "+" + ("marital-status" + "+" + ("relationship" + "+" + "income"))));
  }

  /**
   * The method text of a row decided by its seven-attribute matches is
   * "cond(race+sex+education+occupation+marital-status+relationship+income)",
   * written here as the concatenation the join builds.
   */
  lemma Level1Text()
    ensures ProvenanceText(Conditional(Level1)) ==
      "cond(" + ("race" + "+" + ("sex" + "+" + ("education" + "+" + ("occupation" + "+" + ("marital-status" + "+" + ("relationship" + "+" + "income")))))) + ")"
  {
    JoinLevel1FromSex();
    JoinNamesCons(Race, [Sex, Education, Occupation, MaritalStatus, Relationship, Income], "sex" + "+" + ("education" + "+" + ("occupation" + "+" + ("marital-status" + "+" + ("relationship" + "+" + "income")))));
    assert [Race] + [Sex, Education, Occupation, MaritalStatus, Relationship, Income] == Level1;
  }

  /**
   * `impute_native_country(df, max_iters)`: no pass for a budget below one;
   * convergence at iteration 1 when nothing is missing; otherwise the first
   * pass fills every missing row, the second pass (when the budget allows)
   * changes nothing and the driver converges at iteration 2. The log is the
   * first pass's change list.
   */
  method ImputeNativeCountry(df: Dataset, maxIters: int)
    returns (result: Dataset, log: seq<ChangeRecord>, reason: StopReason, converged: bool)
    ensures maxIters <= 0 ==>
      result == df && log == [] && !converged && reason == MaxItersReached(maxIters)
    ensures maxIters >= 1 && MissingIndices(df) == [] ==>
      result == df && log == [] && converged && reason == NoChangeAt(1)
    ensures maxIters >= 1 && MissingIndices(df) != [] ==>
      result == PassResult(df, ConditioningOrder) && log == PassChanges(df, ConditioningOrder)
    ensures maxIters == 1 && MissingIndices(df) != [] ==> !converged && reason == MaxItersReached(1)
    ensures maxIters >= 2 && MissingIndices(df) != [] ==> converged && reason == NoChangeAt(2)
    ensures converged ==> forall i :: 0 <= i < |result| ==> result[i][Target].Some?
    ensures |log| <= |MissingIndices(df)|
  {
    var order := ConditioningOrder;
    var allChanges: seq<ChangeRecord> := [];
    var dfIter := df;
    converged := false;
    var it := 1;
    while it <= maxIters
      invariant 1 <= it <= 2
      invariant !converged
      invariant it == 1 ==> dfIter == df && allChanges == []
      invariant it == 2 ==>
        && maxIters >= 1 && MissingIndices(df) != []
        && dfIter == PassResult(df, order) && allChanges == PassChanges(df, order)
    {
      var before := TargetColumn(dfIter);
      var changes;
      ghost var previous := dfIter;
      dfIter, changes := ImputeOnce(dfIter, order);
      if it == 1 {
        allChanges := allChanges + changes;
      }
      if it == 1 && MissingIndices(df) != [] {
        PassChangesTargetColumn(df, order);
      } else if it == 1 {
        PassIdentityWhenComplete(df, order);
      } else {
        PassLeavesNothingMissing(df, order);
        PassIdentityWhenComplete(previous, order);
      }
      if before == TargetColumn(dfIter) {
        converged := true;
        reason := NoChangeAt(it);
        break;
      }
      it := it + 1;
    }
    if !converged {
      reason := MaxItersReached(maxIters);
    }
    result, log := dfIter, allChanges;
  }

  /**
   * `impute_native_country(df)` with its default budget of three passes:
   * it always converges, with every target filled, at iteration 1 when
   * nothing was missing and at iteration 2 otherwise; the log is the first
   * pass's change list.
   */
  method ImputeNativeCountryDefault(df: Dataset)
    returns (result: Dataset, log: seq<ChangeRecord>, reason: StopReason, converged: bool)
    ensures converged
    ensures forall i :: 0 <= i < |result| ==> result[i][Target].Some?
    ensures reason == if MissingIndices(df) == [] then NoChangeAt(1) else NoChangeAt(2)
    ensures result == PassResult(df, ConditioningOrder) && log == PassChanges(df, ConditioningOrder)
  {
    result, log, reason, converged := ImputeNativeCountry(df, DefaultMaxIters);
    if MissingIndices(df) == [] {
      PassIdentityWhenComplete(df, ConditioningOrder);
    }
  }
}
