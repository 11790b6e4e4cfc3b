/** How much of a file tombstones can take up, and what restarts do to that bound. */
module Space {
  import opened Text
  import opened Frames
  import opened Log
  import opened Conditions
  import opened Schemas
  import opened Serializer
  import opened Normalizer
  import opened Validator
  import opened Statements
  import opened CompactionGate
  import opened Runs
  import opened SmallTable

  /** The tombstones that the counter does not know of. */
  function Slack(s: State): int { Tombstones(s.recs) - s.deletes }

  lemma GateSlack(l: Layout, s: State)
    requires Shaped(l, s.recs) && s.deletes <= Tombstones(s.recs)
    ensures Slack(Gate(l, s)) <= Slack(s)
  {
    hide LiveRecs, Tombstones, EstimateReached, RatioReached;
    CompactionIsStable(s.recs);
  }

  /** No statement but a restart adds a tombstone that the counter does not count. */
  lemma StepSlack(t: Table, s: State, stmt: Stmt)
    requires Inv(t, s) && Fits(t, s, stmt) && !stmt.Restart?
    ensures Slack(Step(t, s, stmt).0) <= Slack(s)
  {
    hide InsertStep, SelectOutcome, UpdateStep, DeleteStep, Fits, FileBytes;
    match stmt
    case Insert(_, _) => InsertCounts(t, s, stmt);
    case Select(_, _) =>
    case Update(assignments, where) => UpdateSlack(t, s, assignments, where);
    case Delete(where) => DeleteSlack(t, s, where);
  }

  lemma UpdateSlack(t: Table, s: State, assignments: seq<Assignment>, where: Where)
    requires Inv(t, s)
    ensures Slack(UpdateStep(t, s, assignments, where).0) <= Slack(s)
  {
    hide Tombstones, LiveRows, Filter, Mark, Gate, Rebuild, FileBytes, FramePos, Selects, IsKey, KeyIndex, UpdatedLog, PlanUpdate;
    var l, plan := t.Layout(), PlanUpdate(t, assignments, where);
    if plan.Some? {
      var sel, texts := Selects(t.nums, plan.value.1), plan.value.0;
      UpdatedLogShaped(l, s.recs, sel, texts);
      UpdatedLogCounts(l, s.recs, sel, texts);
      GateSlack(l, UpdateScanned(l, s, sel, texts));
    }
  }

  lemma DeleteSlack(t: Table, s: State, where: Where)
    requires Inv(t, s)
    ensures Slack(DeleteStep(t, s, where).0) <= Slack(s)
  {
    hide Tombstones, Gate, FileBytes, AcceptWhere, DeletePrepared;
    var w := AcceptWhere(t, StripWhere(where), s.index.Keys);
    if w.Some? && DeletePrepared(t, s, w.value).Some? {
      DeletePreparedCounts(t, s, w.value);
      DeletePreparedKeepsInv(t, s, w.value);
      GateSlack(t.Layout(), DeletePrepared(t, s, w.value).value);
    }
  }

  /** DELETE counts what it marks. */
  lemma DeletePreparedCounts(t: Table, s: State, where: Where)
    requires Inv(t, s) && DeletePrepared(t, s, where).Some?
    ensures Slack(DeletePrepared(t, s, where).value) == Slack(s)
  {
    hide Tombstones, LiveRows, Filter, Mark, Rebuild, FileBytes, FramePos, Strip, Selects, KeyIndex, IsKey;
    if UniqueEqualityLookup(where, t.KeyName()) {
      var key := Strip(where.value.literal.value);
      KillOne(s.recs, RecordAt(t.Layout(), s.recs, key, s.index[key]));
    } else {
      MarkSplits(s.recs, Selects(t.nums, Placed(t.Layout(), where)));
    }
  }

  lemma InsertCounts(t: Table, s: State, ins: Stmt)
    requires Inv(t, s) && ins.Insert?
    ensures Tombstones(Step(t, s, ins).0.recs) == Tombstones(s.recs) && Step(t, s, ins).0.deletes == s.deletes
  {
    hide LiveRows, Tombstones, UpsertAll, FileBytes, PlanInsert, FileOrder;
    var plan := PlanInsert(t, s.index.Keys, ins.columns, ins.rows);
    if plan.Store? {
      LogConcat(s.recs, RecsOf(Inserted, Filed(t.Layout(), plan.stored)));
      AllLive(Inserted, Filed(t.Layout(), plan.stored));
    }
  }

  lemma RestartCounts(t: Table, s: State)
    requires Inv(t, s)
    ensures Step(t, s, Restart).0.recs == s.recs && Step(t, s, Restart).0.deletes == 0
    ensures Slack(Step(t, s, Restart).0) == Tombstones(s.recs)
  {
    hide FileBytes, Rebuild;
  }

  lemma {:induction false} RunSlack(t: Table, s: State, stmts: seq<Stmt>)
    requires Inv(t, s) && RunFits(t, s, stmts) && forall i :: 0 <= i < |stmts| ==> !stmts[i].Restart?
    ensures Slack(Run(t, s, stmts).0) <= Slack(s)
    decreases |stmts|
  {
    hide Step, Fits, Inv, Slack;
    if stmts == [] {
      RunOfNothing(t, s);
    } else {
      RunStep(t, s, stmts);
      StepSlack(t, s, stmts[0]);
      RunSlack(t, Step(t, s, stmts[0]).0, stmts[1..]);
    }
  }

  // ---- the bound of one session ----

  /** The space bound: whatever a session does, whatever its keys, the tombstones that it leaves beyond those it did
      not count at its start are fewer than two thirds of (live rows + 1). A session that starts without tombstones has
      none that are not counted; RestartCounts says how many there are after a restart. */
  lemma SpaceBound(t: Table, s: State, stmts: seq<Stmt>)
    requires Inv(t, s) && RunFits(t, s, stmts) && Bounded(s)
    requires forall i :: 0 <= i < |stmts| ==> !stmts[i].Restart?
    ensures var s' := Run(t, s, stmts).0; 3 * (Tombstones(s'.recs) - Slack(s)) < 2 * (|LiveRows(s'.recs)| + 1)
    ensures var s' := Run(t, s, stmts).0;
            Tombstones(s.recs) == 0 ==> 3 * Tombstones(s'.recs) < 2 * (|LiveRows(s'.recs)| + 1)
  {
    hide Run, RunFits, LiveRows, Tombstones, IndexSound;
    RunSlack(t, s, stmts);
    RunKeepsBound(t, s, stmts);
  }

  // ---- restarts break it ----

  /** On a table with these rows, one INSERT adds a row and one DELETE takes it away again. */
  predicate IsRound(t: Table, rows: seq<Row>, ins: Stmt, del: Stmt)
    requires t.KeyFirst() && RowsShaped(t.Layout(), rows)
  {
    && ins.Insert? && del.Delete? && rows != []
    && var (more, out) := TableStep(t, rows, ins);
    DistinctKeys(more) && out == Done && |more| == |rows| + 1 && TableStep(t, more, del) == (rows, Done)
  }

  function Rounds(ins: Stmt, del: Stmt, n: nat): seq<Stmt> {
    if n == 0 then [] else [ins, del, Restart] + Rounds(ins, del, n - 1)
  }

  /** Deleting one of at least two rows, at counter 0, does not reach the threshold. */
  lemma DeleteOneNotDue(t: Table, s: State, where: Where)
    requires Clean(t, s) && s.deletes == 0 && |LiveRows(DeleteStep(t, s, where).0.recs)| == |LiveRows(s.recs)| - 1 >= 1
    ensures Tombstones(DeleteStep(t, s, where).0.recs) == Tombstones(s.recs) + 1
  {
    hide LiveRows, Tombstones, Filter, FileBytes, AcceptWhere, DeletePrepared, Gate, Clean, DeleteScanned, EstimateReached, RatioReached, Mark, Rebuild, Strip;
    CleanIsInv(t, s);
    var w := AcceptWhere(t, StripWhere(where), s.index.Keys);
    if w.Some? {
      DeletePreparedIsScan(t, s, where);
      if DeletePrepared(t, s, w.value).Some? {
        var x, sel := DeletePrepared(t, s, w.value).value, Selects(t.nums, w.value);
        CleanIsInv(t, x);
        GateKeepsTable(t, x);
        FilterMembers(LiveRows(s.recs), sel, true);
        ScanCounts(t.Layout(), s, sel);
        NotDue(t, x);
      }
    }
  }

  lemma ScanCounts(l: Layout, s: State, sel: Row -> bool)
    requires Shaped(l, s.recs)
    ensures var x := DeleteScanned(l, s, sel);
            && x.deletes == s.deletes + |Filter(LiveRows(s.recs), sel, true)|
            && Tombstones(x.recs) == Tombstones(s.recs) + |Filter(LiveRows(s.recs), sel, true)|
  {
    hide LiveRows, Tombstones, Filter, Rebuild;
    MarkSplits(s.recs, sel);
  }

  lemma NotDue(t: Table, x: State)
    requires Clean(t, x) && Bounded(x)
    ensures Gate(t.Layout(), x) == x
  {
    hide LiveRows, Tombstones, FileBytes, EstimateReached, RatioReached, Compacted;
    CleanIndexSize(t, x);
    ThresholdsAre(x);
  }

  /** Inserting a row, deleting it and restarting leaves the table, a clean state, the counter at 0 and one
      tombstone more. */
  lemma RestartRound(t: Table, s: State, ins: Stmt, del: Stmt)
    requires Clean(t, s) && s.deletes == 0 && RowsShaped(t.Layout(), LiveRows(s.recs))
    requires IsRound(t, LiveRows(s.recs), ins, del) && RunFits(t, s, [ins, del, Restart])
    ensures var s' := Run(t, s, [ins, del, Restart]).0;
            && Clean(t, s') && LiveRows(s'.recs) == LiveRows(s.recs)
            && s'.deletes == 0 && Tombstones(s'.recs) == Tombstones(s.recs) + 1
  {
    hide LiveRows, Tombstones, TableStep, Step, Fits, Clean, Inv, Indexed, RunFits, Run, DistinctKeys;
    CleanIsInv(t, s);
    RunStep(t, s, [ins, del, Restart]);
    StepRefinesTable(t, s, ins);
    var s1 := Step(t, s, ins).0;
    assert [ins, del, Restart][1..] == [del, Restart];
    CleanIsInv(t, s1);
    RunStep(t, s1, [del, Restart]);
    StepRefinesTable(t, s1, del);
    var s2 := Step(t, s1, del).0;
    assert [del, Restart][1..] == [Restart];
    CleanIsInv(t, s2);
    RunStep(t, s2, [Restart]);
    TableRestart(t, LiveRows(s2.recs));
    StepRefinesTable(t, s2, Restart);
    assert [Restart][1..] == [];
    RunOfNothing(t, Step(t, s2, Restart).0);
    InsertCounts(t, s, ins);
    StepOfDelete(t, s1, del);
    DeleteOneNotDue(t, s1, del.where);
    RestartCounts(t, s2);
  }

  lemma StepOfDelete(t: Table, s: State, del: Stmt)
    requires Inv(t, s) && del.Delete?
    ensures Step(t, s, del) == DeleteStep(t, s, del.where)
  {
    hide DeleteStep, FileBytes;
  }

  lemma TableRestart(t: Table, rows: seq<Row>)
    requires t.KeyFirst() && RowsShaped(t.Layout(), rows)
    ensures TableStep(t, rows, Restart) == (rows, Done)
  {
  }

  /** n such rounds leave n tombstones, the same table, the counter at 0, and never a compaction. */
  lemma {:induction false} RestartRounds(t: Table, s: State, ins: Stmt, del: Stmt, n: nat)
    requires Clean(t, s) && s.deletes == 0 && RowsShaped(t.Layout(), LiveRows(s.recs))
    requires IsRound(t, LiveRows(s.recs), ins, del) && RunFits(t, s, Rounds(ins, del, n))
    ensures var s' := Run(t, s, Rounds(ins, del, n)).0;
            && Clean(t, s') && LiveRows(s'.recs) == LiveRows(s.recs)
            && s'.deletes == 0 && Tombstones(s'.recs) == Tombstones(s.recs) + n
    decreases n
  {
    hide LiveRows, Tombstones, Clean, Inv, RunFits, Run, IsRound;
    CleanIsInv(t, s);
    if n == 0 {
      RunOfNothing(t, s);
    } else {
      RunConcat(t, s, [ins, del, Restart], Rounds(ins, del, n - 1));
      RestartRound(t, s, ins, del);
      var s1 := Run(t, s, [ins, del, Restart]).0;
      CleanIsInv(t, s1);
      RestartRounds(t, s1, ins, del, n - 1);
    }
  }

  // ---- an instance: INSERT 2 and DELETE 2 on the one-column table with the row 1 ----

  const INSERT_2: Stmt := Insert(None, [[LiteralNode(Number, "2")]])
  const DELETE_2: Stmt := Delete(Some(Condition("id", Eq, LiteralNode(Number, "2"), 255)))

  lemma SmallestRound(nums: Numbers)
    ensures var t := OneColumn(nums); t.KeyFirst() && IsRound(t, [["1"]], INSERT_2, DELETE_2)
  {
    hide IsKey, KeyIndex, FlagsOf, DefaultOf, TableStep;
    OneColumnIsValid(nums);
    var t := OneColumn(nums);
    SmallestInsert(t);
    SmallestDelete(t);
    var rows: seq<Row> := [["1"], ["2"]];
    assert rows[0][0] == "1" && rows[1][0] == "2";
  }

  lemma SmallestInsert(t: Table)
    requires t.KeyFirst() && |t.cols| == 1
    ensures TableStep(t, [["1"]], INSERT_2) == ([["1"], ["2"]], Done)
  {
    hide PlanInsert;
    SmallestPlan(t, {"1"}, LiteralNode(Number, "2"));
    var one: seq<Row> := [["1"]];
    assert one[0][0] == "1" && KeysOf(one) == {"1"};
    assert one + [["2"]] == [["1"], ["2"]];
  }

  lemma SmallestDelete(t: Table)
    requires t.KeyFirst() && |t.cols| == 1 && t.cols[0].name == "id"
    ensures TableStep(t, [["1"], ["2"]], DELETE_2) == ([["1"]], Done)
  {
    hide IsKey, KeyIndex, FlagsOf, DefaultOf, Like.LikeMatches;
    var where := StripWhere(DELETE_2.where);
    var rows: seq<Row> := [["1"], ["2"]];
    assert rows[1][0] == "2";
    assert "2" in KeysOf(rows);
    assert t.Names()[0] == "id";
    var w := AcceptWhere(t, where, KeysOf(rows)).value;
    var sel := Selects(t.nums, w);
    assert sel(["2"]) && !sel(["1"]);
    assert rows[1..] == [["2"]] && rows[1..][1..] == [];
    assert Filter(rows[1..], sel, false) == [];
    assert Filter(rows, sel, false) == [["1"]];
  }

  /** DELETE and a restart do not make the file longer. */
  lemma NeverGrows(t: Table, s: State, stmt: Stmt)
    requires Inv(t, s) && (stmt.Delete? || stmt.Restart?)
    ensures Fits(t, s, stmt) && Inv(t, Step(t, s, stmt).0)
    ensures |FileBytes(t.Layout(), Step(t, s, stmt).0.recs)| <= |FileBytes(t.Layout(), s.recs)|
  {
    hide FileBytes, AcceptWhere, Gate, DeletePrepared, Rebuild;
    StepKeepsInv(t, s, stmt);
    if stmt.Delete? {
      var w := AcceptWhere(t, StripWhere(stmt.where), s.index.Keys);
      if w.Some? && DeletePrepared(t, s, w.value).Some? {
        DeletePreparedSize(t, s, w.value);
        GateNeverGrows(t.Layout(), DeletePrepared(t, s, w.value).value);
      }
    }
  }

  lemma DeletePreparedSize(t: Table, s: State, where: Where)
    requires Inv(t, s) && DeletePrepared(t, s, where).Some?
    ensures |FileBytes(t.Layout(), DeletePrepared(t, s, where).value.recs)| == |FileBytes(t.Layout(), s.recs)|
  {
    hide FileBytes, LiveRows, Filter, Rebuild, Strip, Selects, KeyIndex, IsKey, FramePos;
    MarkKeepsSize(t.Layout(), s.recs, DeletePrepared(t, s, where).value.recs);
  }

  lemma GateNeverGrows(l: Layout, s: State)
    requires Shaped(l, s.recs)
    ensures Shaped(l, Gate(l, s).recs) && |FileBytes(l, Gate(l, s).recs)| <= |FileBytes(l, s.recs)|
  {
    hide FrameBytes, Header, Rebuild, EstimateReached, RatioReached;
    LiveRecsShrink(l, s.recs);
  }

  /** One round of the instance takes 18 bytes. */
  lemma SmallestRoundFits(t: Table, s: State)
    requires t == OneColumn(t.nums) && Clean(t, s) && LiveRows(s.recs) == [["1"]]
    requires |FileBytes(t.Layout(), s.recs)| + 18 < FILE_LIMIT
    ensures RunFits(t, s, [INSERT_2, DELETE_2, Restart])
    ensures var s' := Run(t, s, [INSERT_2, DELETE_2, Restart]).0;
            |FileBytes(t.Layout(), s'.recs)| <= |FileBytes(t.Layout(), s.recs)| + 18
  {
    hide Inv, Step, Fits, Clean, LiveRows, FileBytes;
    CleanIsInv(t, s);
    CleanKeys(t, s);
    assert LiveRows(s.recs)[0][0] == "1";
    assert s.index.Keys == {"1"};
    InsertOne(t, s, LiteralNode(Number, "2"));
    var s1 := Step(t, s, INSERT_2).0;
    NeverGrows(t, s1, DELETE_2);
    var s2 := Step(t, s1, DELETE_2).0;
    NeverGrows(t, s2, Restart);
    var s3 := Step(t, s2, Restart).0;
    RunOfNothing(t, s3);
    assert [Restart][1..] == [] && [DELETE_2, Restart][1..] == [Restart];
    assert [INSERT_2, DELETE_2, Restart][1..] == [DELETE_2, Restart];
    assert RunFits(t, s2, [Restart]);
    assert RunFits(t, s1, [DELETE_2, Restart]);
    assert RunFits(t, s, [INSERT_2, DELETE_2, Restart]);
    RunStep(t, s, [INSERT_2, DELETE_2, Restart]);
    RunStep(t, s1, [DELETE_2, Restart]);
    RunStep(t, s2, [Restart]);
  }

  lemma {:induction false} SmallestRoundsFit(t: Table, s: State, n: nat)
    requires t == OneColumn(t.nums) && Clean(t, s) && LiveRows(s.recs) == [["1"]] && s.deletes == 0
    requires |FileBytes(t.Layout(), s.recs)| + 18 * n < FILE_LIMIT
    ensures RunFits(t, s, Rounds(INSERT_2, DELETE_2, n))
    decreases n
  {
    hide LiveRows, Tombstones, Clean, Inv, RunFits, Run, IsRound, FileBytes;
    CleanIsInv(t, s);
    if n == 0 {
      RunOfNothing(t, s);
    } else {
      SmallestRoundFits(t, s);
      SmallestRound(t.nums);
      RestartRound(t, s, INSERT_2, DELETE_2);
      var s1 := Run(t, s, [INSERT_2, DELETE_2, Restart]).0;
      CleanIsInv(t, s1);
      SmallestRoundsFit(t, s1, n - 1);
      RunConcat(t, s, [INSERT_2, DELETE_2, Restart], Rounds(INSERT_2, DELETE_2, n - 1));
    }
  }

  /** A file of one live row and nothing else ends, after n rounds of insert, delete and restart, with n tombstones
      beside its one live row, for every n for which the file stays small enough. From the second round on the bound
      of a session is broken. */
  lemma RestartsBreakTheBound(nums: Numbers, n: nat)
    requires 50 + 18 * n < FILE_LIMIT
    ensures var t := OneColumn(nums);
            t.KeyFirst() &&
            var s := State([Rec(Inserted, ["1"])], map["1" := 40], 0);
            && Clean(t, s) && RunFits(t, s, Rounds(INSERT_2, DELETE_2, n))
            && var s' := Run(t, s, Rounds(INSERT_2, DELETE_2, n)).0;
            && LiveRows(s'.recs) == [["1"]] && Tombstones(s'.recs) == n
            && (n >= 2 ==> 3 * Tombstones(s'.recs) >= 2 * (|LiveRows(s'.recs)| + 1))
  {
    hide LiveRows, Tombstones, Inv, RunFits, Run, IsRound, FileBytes;
    OneColumnIsValid(nums);
    var t := OneColumn(nums);
    var s := State([Rec(Inserted, ["1"])], map["1" := 40], 0);
    OneRowIsClean(t);
    CleanIsInv(t, s);
    SmallestRound(nums);
    SmallestRoundsFit(t, s, n);
    RestartRounds(t, s, INSERT_2, DELETE_2, n);
  }

}
