/** When the index kept statement by statement agrees with one built by a scan of the file, whatever is inserted. */
module Agreement {
  import opened Text
  import opened Frames
  import opened Log
  import opened Conditions
  import opened Schemas
  import opened Serializer
  import opened Normalizer
  import opened Validator
  import opened Statements
  import opened CompactionGate
  import opened Runs

  // ---- one statement ----

  /** A DELETE through the index that marks one of several records with the same key, and that no compaction
      follows. */
  ghost predicate DropsTwin(t: Table, s: State, stmt: Stmt)
    requires Inv(t, s)
  {
    && stmt.Delete?
    && var w := AcceptWhere(t, StripWhere(stmt.where), s.index.Keys);
    && w.Some? && UniqueEqualityLookup(w.value, t.KeyName())
    && var key := Strip(w.value.value.literal.value);
    && key in s.index
    && HasTwin(s.recs, key, RecordAt(t.Layout(), s.recs, key, s.index[key]))
    && var x := DeleteIndexed(t.Layout(), s, key);
    !(EstimateReached(x) && RatioReached(x.recs))
  }

  /** Every statement, quoted keys or not, keeps a complete index complete, except a DELETE of that kind. */
  lemma StepKeepsComplete(t: Table, s: State, stmt: Stmt)
    requires Inv(t, s) && Fits(t, s, stmt) && IndexComplete(t.Layout(), s.recs, s.index)
    ensures Inv(t, Step(t, s, stmt).0)
    ensures var s' := Step(t, s, stmt).0; IndexComplete(t.Layout(), s'.recs, s'.index) <==> !DropsTwin(t, s, stmt)
  {
    hide FileBytes, Rebuild, UpsertAll, DeleteStep, UpdateStep, Tombstones, PlanInsert, FileOrder, KeyIndex, IsKey, FramePos, DropsTwin;
    StepKeepsInv(t, s, stmt);
    match stmt
    case Insert(columns, rows) =>
      NoDelete(t, s, stmt);
      var plan := PlanInsert(t, s.index.Keys, columns, rows);
      if plan.Store? {
        UpsertAllKeepsIndex(t.Layout(), s.recs, Inserted, Filed(t.Layout(), plan.stored), s.index);
      }
    case Select(_, _) => NoDelete(t, s, stmt);
    case Update(assignments, where) =>
      NoDelete(t, s, stmt);
      UpdateCompletes(t, s, assignments, where);
    case Delete(where) => DeleteCompletes(t, s, where);
    case Restart =>
      NoDelete(t, s, stmt);
      RebuildIsRight(t.Layout(), s.recs);
  }

  lemma NoDelete(t: Table, s: State, stmt: Stmt)
    requires Inv(t, s) && !stmt.Delete?
    ensures !DropsTwin(t, s, stmt)
  {
  }

  lemma UpdateCompletes(t: Table, s: State, assignments: seq<Assignment>, where: Where)
    requires Inv(t, s) && Fits(t, s, Update(assignments, where)) && IndexComplete(t.Layout(), s.recs, s.index)
    ensures var s' := UpdateStep(t, s, assignments, where).0;
            Inv(t, s') && IndexComplete(t.Layout(), s'.recs, s'.index)
  {
    hide FileBytes, Rebuild, PlanUpdate, UpdatedLog, Tombstones, LiveRows, Filter, Selects, EstimateReached, RatioReached, KeyIndex, IsKey;
    UpdateKeepsInv(t, s, assignments, where);
    var l, plan := t.Layout(), PlanUpdate(t, assignments, where);
    if plan.Some? {
      var sel := Selects(t.nums, plan.value.1);
      UpdatedLogShaped(l, s.recs, sel, plan.value.0);
      var x := UpdateScanned(l, s, sel, plan.value.0);
      RebuildIsRight(l, x.recs);
      GateCompletes(l, x);
    }
  }

  /** The gate leaves a complete index where there was one, and where it compacts. */
  lemma GateCompletes(l: Layout, x: State)
    requires Shaped(l, x.recs)
    ensures var x' := Gate(l, x);
            && Shaped(l, x'.recs)
            && (IndexComplete(l, x'.recs, x'.index) <==>
                IndexComplete(l, x.recs, x.index) || (EstimateReached(x) && RatioReached(x.recs)))
  {
    hide Rebuild, EstimateReached, RatioReached;
    LiveRecsShrink(l, x.recs);
    RebuildIsRight(l, LiveRecs(x.recs));
  }

  lemma DeleteCompletes(t: Table, s: State, where: Where)
    requires Inv(t, s) && IndexComplete(t.Layout(), s.recs, s.index)
    ensures var s' := DeleteStep(t, s, where).0;
            && Inv(t, s')
            && (IndexComplete(t.Layout(), s'.recs, s'.index) <==> !DropsTwin(t, s, Delete(where)))
  {
    hide FileBytes, Rebuild, AcceptWhere, Tombstones, LiveRows, Filter, Mark, Selects, EstimateReached, RatioReached, Gate, KeyIndex, IsKey, FramePos, Strip, HasTwin;
    StepKeepsInv(t, s, Delete(where));
    var l, w := t.Layout(), AcceptWhere(t, StripWhere(where), s.index.Keys);
    if w.Some? && DeletePrepared(t, s, w.value).Some? {
      var x := DeletePrepared(t, s, w.value).value;
      GateCompletes(l, x);
      if UniqueEqualityLookup(w.value, t.KeyName()) {
        var key := Strip(w.value.value.literal.value);
        EraseKeepsIndex(l, s.recs, s.index, key, RecordAt(l, s.recs, key, s.index[key]));
      } else {
        RebuildIsRight(l, x.recs);
      }
    }
  }

  lemma UniqueHasNoTwin(t: Table, s: State, stmt: Stmt)
    requires Inv(t, s) && UniqueKeys(s.recs)
    ensures !DropsTwin(t, s, stmt)
  {
    hide FileBytes, Rebuild, AcceptWhere, EstimateReached, RatioReached, KeyIndex, IsKey, FramePos, Strip, DeleteIndexed;
  }

  // ---- whole runs ----

  /** No statement of the run drops one of two records with the same key. */
  ghost predicate NoTwinDropped(t: Table, s: State, stmts: seq<Stmt>)
    requires Inv(t, s) && RunFits(t, s, stmts)
    decreases |stmts|
  {
    stmts == [] ||
    (!DropsTwin(t, s, stmts[0]) && (RunStep(t, s, stmts); NoTwinDropped(t, Step(t, s, stmts[0]).0, stmts[1..])))
  }

  /** Live keys are unique before and after every statement of the run. */
  ghost predicate UniqueAllAlong(t: Table, s: State, stmts: seq<Stmt>)
    requires Inv(t, s) && RunFits(t, s, stmts)
    decreases |stmts|
  {
    UniqueKeys(s.recs) &&
    (stmts == [] || (RunStep(t, s, stmts); UniqueAllAlong(t, Step(t, s, stmts[0]).0, stmts[1..])))
  }

  /** After every run that starts with a complete index and drops no twin, whatever keys it stored: the index is
      complete, and if the live keys are unique it is the one a scan of the file would build. */
  lemma {:induction false} RunKeepsComplete(t: Table, s: State, stmts: seq<Stmt>)
    requires Inv(t, s) && RunFits(t, s, stmts) && IndexComplete(t.Layout(), s.recs, s.index)
    requires NoTwinDropped(t, s, stmts)
    ensures var s' := Run(t, s, stmts).0;
            && IndexComplete(t.Layout(), s'.recs, s'.index)
            && (UniqueKeys(s'.recs) ==> s'.index == Rebuild(t.Layout(), s'.recs))
    decreases |stmts|
  {
    hide Step, Fits, DropsTwin, FileBytes, Rebuild, KeyIndex, IsKey, FramePos;
    if stmts == [] {
      RunOfNothing(t, s);
      AgreesWhereUnique(t, s);
    } else {
      RunStep(t, s, stmts);
      StepKeepsComplete(t, s, stmts[0]);
      RunKeepsComplete(t, Step(t, s, stmts[0]).0, stmts[1..]);
    }
  }

  lemma AgreesWhereUnique(t: Table, s: State)
    requires Inv(t, s) && IndexComplete(t.Layout(), s.recs, s.index)
    ensures UniqueKeys(s.recs) ==> s.index == Rebuild(t.Layout(), s.recs)
  {
    hide FileBytes, Rebuild;
    RebuildIsRight(t.Layout(), s.recs);
    if UniqueKeys(s.recs) {
      IndexIsDetermined(t.Layout(), s.recs, s.index, Rebuild(t.Layout(), s.recs));
    }
  }

  /** While live keys have been unique all along, quoted or not, the index is the one a scan would build. */
  lemma {:induction false} UniqueRunsAgree(t: Table, s: State, stmts: seq<Stmt>)
    requires Inv(t, s) && RunFits(t, s, stmts) && IndexComplete(t.Layout(), s.recs, s.index)
    requires UniqueAllAlong(t, s, stmts)
    ensures NoTwinDropped(t, s, stmts)
    ensures var s' := Run(t, s, stmts).0; UniqueKeys(s'.recs) && s'.index == Rebuild(t.Layout(), s'.recs)
    decreases |stmts|
  {
    hide Step, Fits, DropsTwin, FileBytes, Rebuild, KeyIndex, IsKey, FramePos;
    if stmts == [] {
      RunOfNothing(t, s);
      AgreesWhereUnique(t, s);
    } else {
      RunStep(t, s, stmts);
      UniqueHasNoTwin(t, s, stmts[0]);
      StepKeepsComplete(t, s, stmts[0]);
      UniqueRunsAgree(t, Step(t, s, stmts[0]).0, stmts[1..]);
    }
  }

  /** From a clean state that is the case exactly while the keys of the plain table stay distinct. */
  lemma {:induction false} UniqueIsDistinct(t: Table, s: State, stmts: seq<Stmt>)
    requires Clean(t, s) && RunFits(t, s, stmts) && RowsShaped(t.Layout(), LiveRows(s.recs))
    ensures UniqueAllAlong(t, s, stmts) <==>
            KeysStayDistinct(t, LiveRows(s.recs), stmts) && DistinctKeys(TableRun(t, LiveRows(s.recs), stmts).0)
    decreases |stmts|
  {
    hide LiveRows, Step, TableStep, Fits, Inv, Clean, DistinctKeys, UniqueKeys, Indexed;
    CleanIsInv(t, s);
    CleanIsUnique(t, s);
    if stmts != [] {
      RunStep(t, s, stmts);
      StepRefinesTable(t, s, stmts[0]);
      var s1 := Step(t, s, stmts[0]).0;
      if Clean(t, s1) {
        UniqueIsDistinct(t, s1, stmts[1..]);
      } else {
        CleanIsUnique(t, s1);
      }
    }
  }

  // ---- the compaction gate under unique keys ----

  lemma UniqueLive(l: Layout, recs: seq<Rec>)
    requires Shaped(l, recs) && Shaped(l, LiveRecs(recs))
    ensures UniqueKeys(LiveRecs(recs)) <==> UniqueKeys(recs)
  {
    hide LiveRecs, UniqueKeys, DistinctKeys;
    CompactionIsStable(recs);
    LiveRowsShaped(l, recs);
    KeysOfLog(l, recs);
    KeysOfLog(l, LiveRecs(recs));
  }

  lemma BeforeGateComplete(t: Table, s: State, stmt: Stmt)
    requires Inv(t, s) && Fits(t, s, stmt) && IndexComplete(t.Layout(), s.recs, s.index) && UniqueKeys(s.recs)
    requires BeforeGate(t, s, stmt).Some?
    ensures var x := BeforeGate(t, s, stmt).value; Inv(t, x) && IndexComplete(t.Layout(), x.recs, x.index)
  {
    hide FileBytes, Rebuild, AcceptWhere, Tombstones, LiveRows, Filter, Mark, Selects, KeyIndex, IsKey, FramePos, Strip, PlanUpdate, UpdatedLog;
    StepPassesGate(t, s, stmt);
    var l, x := t.Layout(), BeforeGate(t, s, stmt).value;
    match stmt
    case Delete(where) =>
      var w := AcceptWhere(t, StripWhere(where), s.index.Keys).value;
      if UniqueEqualityLookup(w, t.KeyName()) {
        var key := Strip(w.value.literal.value);
        EraseKeepsIndex(l, s.recs, s.index, key, RecordAt(l, s.recs, key, s.index[key]));
      } else {
        RebuildIsRight(l, x.recs);
      }
    case Update(_, _) => RebuildIsRight(l, x.recs);
    case _ =>
  }

  /** Where a statement starts and ends with unique live keys, quoted or not, and a complete index, the exact ratio
      never declines: the estimate alone decides whether the statement ends with a compaction. */
  lemma GateNeverDeclines(t: Table, s: State, stmt: Stmt)
    requires Inv(t, s) && Fits(t, s, stmt) && IndexComplete(t.Layout(), s.recs, s.index) && UniqueKeys(s.recs)
    requires BeforeGate(t, s, stmt).Some? && Inv(t, Step(t, s, stmt).0) && UniqueKeys(Step(t, s, stmt).0.recs)
    ensures var x := BeforeGate(t, s, stmt).value;
            && Inv(t, x)
            && (EstimateReached(x) ==> |x.recs| > 0 && RatioReached(x.recs))
            && (EstimateReached(x) <==> 3 * x.deletes >= 2 * (|LiveRows(x.recs)| + 1))
            && Step(t, s, stmt).0 == (if EstimateReached(x) then Compacted(t.Layout(), x) else x)
  {
    hide LiveRows, FileBytes, FramePos, Step, BeforeGate, Rebuild, EstimateReached, RatioReached, Tombstones, UniqueKeys, Fits;
    StepPassesGate(t, s, stmt);
    BeforeGateComplete(t, s, stmt);
    var l, x := t.Layout(), BeforeGate(t, s, stmt).value;
    LiveRecsShrink(l, x.recs);
    UniqueLive(l, x.recs);
    IndexSize(l, x.recs, x.index);
    EstimateIsSound(x);
    ThresholdsAre(x);
  }

  /** No statement of the run has the exact ratio decline. */
  ghost predicate NoneDeclined(t: Table, s: State, stmts: seq<Stmt>)
    requires Inv(t, s) && RunFits(t, s, stmts)
    decreases |stmts|
  {
    stmts == [] ||
    var x := BeforeGate(t, s, stmts[0]);
    && (x.Some? && EstimateReached(x.value) ==> RatioReached(x.value.recs))
    && (RunStep(t, s, stmts); NoneDeclined(t, Step(t, s, stmts[0]).0, stmts[1..]))
  }

  /** While live keys have been unique all along, quoted or not and wherever the key stands, it never does. */
  lemma {:induction false} RunNeverDeclines(t: Table, s: State, stmts: seq<Stmt>)
    requires Inv(t, s) && RunFits(t, s, stmts) && IndexComplete(t.Layout(), s.recs, s.index)
    requires UniqueAllAlong(t, s, stmts)
    ensures NoneDeclined(t, s, stmts)
    decreases |stmts|
  {
    hide Step, Fits, DropsTwin, BeforeGate, EstimateReached, RatioReached, FileBytes, KeyIndex, IsKey, FramePos, UniqueKeys, Tombstones, LiveRows;
    if stmts != [] {
      RunStep(t, s, stmts);
      UniqueHasNoTwin(t, s, stmts[0]);
      StepKeepsComplete(t, s, stmts[0]);
      if BeforeGate(t, s, stmts[0]).Some? {
        GateNeverDeclines(t, s, stmts[0]);
      }
      RunNeverDeclines(t, Step(t, s, stmts[0]).0, stmts[1..]);
    }
  }
}
