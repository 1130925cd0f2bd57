/** Migrations without a transaction: runs cut off anywhere, then one full run. */
module Restart {
  import opened Common
  import opened Schemas

  /** How many steps a run gets through. */
  function Done(steps: seq<Step>, s: Schema): (d: nat)
    ensures d <= |steps|
  {
    if steps == [] then 0
    else
      var n := |steps| - 1;
      if Run(steps[..n], s).completed && Apply(steps[n], Run(steps[..n], s).schema).Some? then |steps|
      else Done(steps[..n], s)
  }

  /** The steps done are all that changed the schema. */
  lemma {:induction false} DoneIsTheEffect(steps: seq<Step>, s: Schema)
    ensures Run(steps[..Done(steps, s)], s) == Outcome(Run(steps, s).schema, true)
    decreases |steps|
  {
    if steps == [] {
    } else {
      var n := |steps| - 1;
      DoneIsTheEffect(steps[..n], s);
      if Run(steps[..n], s).completed && Apply(steps[n], Run(steps[..n], s).schema).Some? {
        assert steps[..|steps|] == steps;
      } else {
        assert steps[..n][..Done(steps[..n], s)] == steps[..Done(steps, s)];
      }
    }
  }

  /** Every step done stays done to the end of the run. */
  lemma {:induction false} DoneIsSettled(steps: seq<Step>, s: Schema, i: nat)
    requires ChangesLast(steps) && i < Done(steps, s)
    ensures Settled(steps[i], Run(steps, s).schema)
    decreases |steps|
  {
    hide Apply;
    var n := |steps| - 1;
    var before := Run(steps[..n], s);
    if before.completed && Apply(steps[n], before.schema).Some? {
      if i == n {
        SettledAfter(steps[n], before.schema);
      } else {
        DoneAll(steps[..n], s);
        DoneIsSettled(steps[..n], s, i);
        SettledStays(steps[i], steps[n], before.schema);
      }
    } else {
      DoneIsSettled(steps[..n], s, i);
    }
  }

  lemma DoneAll(steps: seq<Step>, s: Schema)
    requires Run(steps, s).completed
    ensures Done(steps, s) == |steps|
  {
  }

  lemma {:induction false} SettledStepsDoNothing(steps: seq<Step>, s: Schema)
    requires forall i :: 0 <= i < |steps| ==> Settled(steps[i], s)
    ensures Run(steps, s) == Outcome(s, true)
  {
    hide Apply;
    if steps == [] {
    } else {
      SettledStepsDoNothing(steps[..|steps| - 1], s);
    }
  }

  /** Runs that agree after some steps agree at the end. */
  lemma {:induction false} SameFrom(steps: seq<Step>, m: nat, a: Schema, b: Schema)
    requires m <= |steps| && Run(steps[..m], a) == Run(steps[..m], b)
    ensures Run(steps, a) == Run(steps, b)
    decreases |steps|
  {
    hide Apply;
    if m == |steps| {
      assert steps[..m] == steps;
    } else {
      var n := |steps| - 1;
      assert steps[..n][..m] == steps[..m];
      SameFrom(steps[..n], m, a, b);
    }
  }

  /** A full run after a cut one ends as a full run from the start does. */
  lemma RunAfterCut(steps: seq<Step>, s: Schema, cut: nat)
    requires ChangesLast(steps) && cut <= |steps|
    ensures Run(steps, Run(steps[..cut], s).schema) == Run(steps, s)
  {
    var first := steps[..cut];
    var s' := Run(first, s).schema;
    var m := Done(first, s);
    assert first[..m] == steps[..m];
    DoneIsTheEffect(first, s);
    forall i | 0 <= i < m
      ensures Settled(steps[..m][i], s')
    {
      assert ChangesLast(first);
      DoneIsSettled(first, s, i);
    }
    SettledStepsDoNothing(steps[..m], s');
    SameFrom(steps, m, s', s);
  }

  /** Runs one after another, each cut off after its own number of steps. */
  function AfterCutRuns(steps: seq<Step>, s: Schema, cuts: seq<nat>): Schema
    requires forall i :: 0 <= i < |cuts| ==> cuts[i] <= |steps|
  {
    if cuts == [] then s
    else Run(steps[..cuts[|cuts| - 1]], AfterCutRuns(steps, s, cuts[..|cuts| - 1])).schema
  }

  /** Any number of cut runs and then one full run end as a single full run does, in schema and in success. */
  lemma {:induction false} RestartConverges(steps: seq<Step>, s: Schema, cuts: seq<nat>)
    requires ChangesLast(steps)
    requires forall i :: 0 <= i < |cuts| ==> cuts[i] <= |steps|
    ensures Run(steps, AfterCutRuns(steps, s, cuts)) == Run(steps, s)
  {
    if cuts == [] {
    } else {
      var n := |cuts| - 1;
      RestartConverges(steps, s, cuts[..n]);
      RunAfterCut(steps, AfterCutRuns(steps, s, cuts[..n]), cuts[n]);
    }
  }

  /**
   * The condition on the order of changes is needed: a column added after a change of it is changed on the next run.
   */
  lemma ChangeBeforeAddDiverges(s: Schema, t: TableName, c: ColumnName, changed: Column, added: Column)
    requires t in s.tables && c !in s.tables[t]
    requires changed != added && changed.references.None? && added.references.None?
    ensures var steps := [ChangeColumn(t, c, changed), AddColumn(t, c, added)];
            Run(steps, Run(steps, s).schema) != Run(steps, s)
  {
    var change, add := ChangeColumn(t, c, changed), AddColumn(t, c, added);
    var steps := [change, add];
    assert steps[..1] == [change] && [change][..0] == [];
    forall x: Schema
      ensures Run(steps[..1], x) ==
          (if Apply(change, x).Some? then Outcome(Apply(change, x).value, true) else Outcome(x, false))
    {
      assert Run([], x) == Outcome(x, true);
    }
    var once := Run(steps, s).schema;
    assert Run(steps[..1], s) == Outcome(s, true);
    assert once == Apply(add, s).value && once.tables[t][c] == added;
    assert Apply(change, once).value.tables[t][c] == changed;
  }
}
