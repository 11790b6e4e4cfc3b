/** The end of DELETE and UPDATE (src/DBEngine/filehandler/handlers/delete.cpp): an estimate from counter and index,
    the exact ratio, compaction. What holds of it whatever the keys of the table and wherever they stand. */
module CompactionGate {
  import opened Text
  import opened Frames
  import opened Log
  import opened Conditions
  import opened Schemas
  import opened Serializer
  import opened Normalizer
  import opened Validator
  import opened Statements

  // ---- the two thresholds ----

  lemma ThresholdMeans(x: nat, y: nat)
    requires y > 0
    ensures x as real / y as real >= 0.40 <==> 5 * x >= 2 * y
  {
    var q := x as real / y as real;
    assert q * y as real == x as real;
    if q >= 0.40 {
      assert q * y as real >= 0.40 * y as real;
      assert 5.0 * x as real >= 2.0 * y as real;
    } else {
      assert q * y as real < 0.40 * y as real;
      assert 5.0 * x as real < 2.0 * y as real;
    }
  }

  /** The estimate is reached at 3D >= 2(|index| + 1), the exact ratio at 3T >= 2L. */
  lemma ThresholdsAre(s: State)
    ensures EstimateReached(s) <==> 3 * s.deletes >= 2 * (|s.index| + 1)
    ensures |s.recs| > 0 ==> (RatioReached(s.recs) <==> 3 * Tombstones(s.recs) >= 2 * |LiveRows(s.recs)|)
  {
    hide LiveRecs, Tombstones;
    LiveRecsMembers(s.recs);
    ThresholdMeans(s.deletes, 1 + |s.index| + s.deletes);
    if |s.recs| > 0 {
      ThresholdMeans(Tombstones(s.recs), |s.recs|);
    }
  }

  /** A counter within the tombstones triggers the exact ratio only of a file that has records; with one index entry
      per live row the ratio is then reached too. */
  lemma EstimateIsSound(s: State)
    requires s.deletes <= Tombstones(s.recs)
    ensures EstimateReached(s) ==> |s.recs| > 0
    ensures EstimateReached(s) && |s.index| == |LiveRows(s.recs)| ==> RatioReached(s.recs)
  {
    hide LiveRecs, Tombstones, EstimateReached, RatioReached;
    LiveRecsMembers(s.recs);
    ThresholdsAre(s);
  }

  // ---- an index never has more entries than there are live rows ----

  ghost function LiveKeys(recs: seq<Rec>): set<string>
    requires forall i :: 0 <= i < |recs| ==> |recs[i].row| > 0
  {
    set k | 0 <= k < |recs| && recs[k].Live() :: recs[k].row[0]
  }

  lemma {:induction false} LiveKeysAtMost(recs: seq<Rec>)
    requires forall i :: 0 <= i < |recs| ==> |recs[i].row| > 0
    ensures |LiveKeys(recs)| <= |LiveRows(recs)|
  {
    hide LiveRows;
    if recs == [] {
      assert LiveKeys(recs) == {};
    } else {
      var n := |recs| - 1;
      LiveKeysAtMost(recs[..n]);
      LogNext(recs, n);
      assert recs[..n + 1] == recs;
      var last := if recs[n].Live() then {recs[n].row[0]} else {};
      assert LiveKeys(recs) <= LiveKeys(recs[..n]) + last;
      AtMost(LiveKeys(recs), LiveKeys(recs[..n]) + last);
    }
  }

  lemma AtMost(a: set<string>, b: set<string>)
    requires a <= b
    ensures |a| <= |b|
  {
    assert b == a + (b - a);
  }

  lemma IndexAtMostLive(l: Layout, recs: seq<Rec>, index: map<string, nat>)
    requires Shaped(l, recs) && IndexSound(l, recs, index)
    ensures |index| <= |LiveRows(recs)|
  {
    hide LiveRows, TypePos;
    forall key | key in index.Keys ensures key in LiveKeys(recs) {
      var k :| IsAt(l, recs, key, index[key], k);
    }
    LiveKeysAtMost(recs);
    AtMost(index.Keys, LiveKeys(recs));
    assert |index.Keys| == |index|;
  }

  // ---- the bound on the counter ----

  /** The counter is below two thirds of (live rows + 1), as it is at every program start. */
  predicate Bounded(s: State) { 3 * s.deletes < 2 * (|LiveRows(s.recs)| + 1) }

  /** After the gate the counter is bounded, whether the estimate was not reached, the ratio declined, or the file
      was compacted. */
  lemma GateBounds(l: Layout, x: State)
    requires Shaped(l, x.recs) && IndexSound(l, x.recs, x.index) && x.deletes <= Tombstones(x.recs)
    ensures Bounded(Gate(l, x))
  {
    hide LiveRecs, LiveRows, Tombstones, EstimateReached, RatioReached, Rebuild;
    ThresholdsAre(x);
    EstimateIsSound(x);
    IndexAtMostLive(l, x.recs, x.index);
  }

  // ---- what the gate is asked ----

  /** The state that a statement hands to the gate, if it comes to that. */
  ghost function BeforeGate(t: Table, s: State, stmt: Stmt): (r: Option<State>)
    requires Inv(t, s)
  {
    match stmt
    case Delete(where) =>
      var w := AcceptWhere(t, StripWhere(where), s.index.Keys);
      if w.None? then None else DeletePrepared(t, s, w.value)
    case Update(assignments, where) =>
      var plan := PlanUpdate(t, assignments, where);
      if plan.None? then None
      else Some(UpdateScanned(t.Layout(), s, Selects(t.nums, plan.value.1), plan.value.0))
    case _ => None
  }

  /** DELETE and UPDATE leave what passes the gate, or nothing has changed. */
  lemma StepPassesGate(t: Table, s: State, stmt: Stmt)
    requires Inv(t, s) && Fits(t, s, stmt)
    ensures BeforeGate(t, s, stmt).Some? ==>
              Inv(t, BeforeGate(t, s, stmt).value) && Step(t, s, stmt).0 == Gate(t.Layout(), BeforeGate(t, s, stmt).value)
    ensures BeforeGate(t, s, stmt).None? && (stmt.Delete? || stmt.Update?) ==> Step(t, s, stmt).0 == s
  {
    hide LiveRows, Filter, FileBytes, FramePos, Gate, DeletePrepared, UpdateScanned, UpdatedLog, AcceptWhere, PlanUpdate, Selects, Strip, KeyIndex, IsKey, Tombstones;
    match stmt
    case Delete(where) =>
      var w := AcceptWhere(t, StripWhere(where), s.index.Keys);
      if w.Some? && DeletePrepared(t, s, w.value).Some? {
        DeletePreparedKeepsInv(t, s, w.value);
      }
    case Update(assignments, where) =>
      var plan := PlanUpdate(t, assignments, where);
      if plan.Some? {
        UpdateScannedKeepsInv(t, s, Selects(t.nums, plan.value.1), plan.value.0);
      }
    case _ =>
  }

  /** Whatever the keys: the ratio is computed only of a file that has records, so it never divides by zero; and the
      estimate is reached in vain exactly at 3D >= 2(|index| + 1) with 3T < 2L, for which the index must have fewer
      entries than there are live rows. */
  lemma GateDeclines(t: Table, s: State, stmt: Stmt)
    requires Inv(t, s) && Fits(t, s, stmt) && BeforeGate(t, s, stmt).Some?
    ensures var x := BeforeGate(t, s, stmt).value;
            && (EstimateReached(x) ==> |x.recs| > 0)
            && (EstimateReached(x) && !RatioReached(x.recs) <==>
                3 * x.deletes >= 2 * (|x.index| + 1) && 3 * Tombstones(x.recs) < 2 * |LiveRows(x.recs)|)
            && (EstimateReached(x) && !RatioReached(x.recs) ==> |x.index| < |LiveRows(x.recs)|)
  {
    hide LiveRows, Tombstones, EstimateReached, RatioReached, BeforeGate, Step, Fits, FileBytes;
    StepPassesGate(t, s, stmt);
    var x := BeforeGate(t, s, stmt).value;
    ThresholdsAre(x);
    EstimateIsSound(x);
    IndexAtMostLive(t.Layout(), x.recs, x.index);
  }

  // ---- runs ----

  /** No statement lets the counter out of its bound. */
  lemma StepKeepsBound(t: Table, s: State, stmt: Stmt)
    requires Inv(t, s) && Fits(t, s, stmt) && Bounded(s)
    ensures Bounded(Step(t, s, stmt).0)
  {
    hide LiveRows, Tombstones, FileBytes, PlanInsert, UpsertAll, FileOrder, UpdateStep, DeleteStep, Gate, Rebuild, KeyIndex, IsKey, BeforeGate;
    StepPassesGate(t, s, stmt);
    if BeforeGate(t, s, stmt).Some? {
      GateBounds(t.Layout(), BeforeGate(t, s, stmt).value);
    } else if stmt.Insert? {
      var plan := PlanInsert(t, s.index.Keys, stmt.columns, stmt.rows);
      if plan.Store? {
        LogConcat(s.recs, RecsOf(Inserted, Filed(t.Layout(), plan.stored)));
        AllLive(Inserted, Filed(t.Layout(), plan.stored));
      }
    }
  }

  /** The counter is bounded after every statement of every run, restarts included. */
  lemma {:induction false} RunKeepsBound(t: Table, s: State, stmts: seq<Stmt>)
    requires Inv(t, s) && RunFits(t, s, stmts) && Bounded(s)
    ensures Bounded(Run(t, s, stmts).0)
    decreases |stmts|
  {
    hide Step, Fits, Inv, Bounded;
    if stmts == [] {
      RunOfNothing(t, s);
    } else {
      RunStep(t, s, stmts);
      StepKeepsBound(t, s, stmts[0]);
      RunKeepsBound(t, Step(t, s, stmts[0]).0, stmts[1..]);
    }
  }
}
