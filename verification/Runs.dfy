/** What whole runs of statements do, seen from the table: the log, the index, tombstones, compaction and
    restarts leave no trace in the answers. */
module Runs {
  import opened Text
  import opened Frames
  import opened Log
  import opened Conditions
  import opened Schemas
  import opened Serializer
  import opened Normalizer
  import opened Validator
  import opened Statements
  import opened CompactionGate
  import opened AccessPaths
  import Scanners

  // ---- a table as a plain list of rows ----

  function KeysOf(rows: seq<Row>): (keys: set<string>)
    requires forall i :: 0 <= i < |rows| ==> |rows[i]| > 0
  {
    set i | 0 <= i < |rows| :: rows[i][0]
  }

  function TableInsert(t: Table, rows: seq<Row>, columns: Option<seq<string>>, given: seq<seq<LiteralNode>>): (r: (seq<Row>, Outcome))
    requires t.KeyFirst() && RowsShaped(t.Layout(), rows)
    ensures RowsShaped(t.Layout(), r.0)
  {
    var plan := PlanInsert(t, KeysOf(rows), columns, given);
    if plan.Refuse? then (rows, Rejected) else (rows + plan.stored, if plan.complete then Done else Aborted)
  }

  function TableSelect(t: Table, rows: seq<Row>, columns: Option<seq<string>>, where: Where): Outcome
    requires t.KeyFirst() && RowsShaped(t.Layout(), rows)
  {
    var list := ColumnList(t.Names(), columns);
    var w := AcceptWhere(t, where, KeysOf(rows));
    if (exists c :: c in list && c !in t.Names()) || w.None? then Rejected
    else if UniqueEqualityLookup(where, t.KeyName()) && Strip(where.value.literal.value) !in KeysOf(rows) then Aborted
    else
      FilterShaped(t.Layout(), rows, Selects(t.nums, w.value), true);
      Result(Projections(MaskOf(t.Names(), list), Filter(rows, Selects(t.nums, w.value), true)))
  }

  function TableUpdate(t: Table, rows: seq<Row>, assignments: seq<Assignment>, where: Where): (r: (seq<Row>, Outcome))
    requires t.KeyFirst() && RowsShaped(t.Layout(), rows)
    ensures RowsShaped(t.Layout(), r.0)
  {
    var plan := PlanUpdate(t, assignments, where);
    if plan.None? then (rows, Rejected)
    else
      var sel := Selects(t.nums, plan.value.1);
      FilterShaped(t.Layout(), rows, sel, true);
      FilterShaped(t.Layout(), rows, sel, false);
      (Filter(rows, sel, false) + UpdatedRows(Filter(rows, sel, true), plan.value.0), Done)
  }

  function TableDelete(t: Table, rows: seq<Row>, where: Where): (r: (seq<Row>, Outcome))
    requires t.KeyFirst() && RowsShaped(t.Layout(), rows)
    ensures RowsShaped(t.Layout(), r.0)
  {
    var stripped := StripWhere(where);
    var w := AcceptWhere(t, stripped, KeysOf(rows));
    if w.None? then (rows, Rejected)
    else if UniqueEqualityLookup(where, t.KeyName()) && Strip(stripped.value.literal.value) !in KeysOf(rows) then (rows, Aborted)
    else
      FilterShaped(t.Layout(), rows, Selects(t.nums, w.value), false);
      (Filter(rows, Selects(t.nums, w.value), false), Done)
  }

  /** The meaning of a statement on a table: no log, no index, no counter. */
  function TableStep(t: Table, rows: seq<Row>, stmt: Stmt): (r: (seq<Row>, Outcome))
    requires t.KeyFirst() && RowsShaped(t.Layout(), rows)
    ensures RowsShaped(t.Layout(), r.0)
  {
    match stmt
    case Insert(columns, given) => TableInsert(t, rows, columns, given)
    case Select(columns, where) => (rows, TableSelect(t, rows, columns, where))
    case Update(assignments, where) => TableUpdate(t, rows, assignments, where)
    case Delete(where) => TableDelete(t, rows, where)
    case Restart => (rows, Done)
  }

  function TableRun(t: Table, rows: seq<Row>, stmts: seq<Stmt>): (r: (seq<Row>, seq<Outcome>))
    requires t.KeyFirst() && RowsShaped(t.Layout(), rows)
    ensures RowsShaped(t.Layout(), r.0) && |r.1| == |stmts|
    decreases |stmts|
  {
    if stmts == [] then (rows, [])
    else
      var (rows1, out) := TableStep(t, rows, stmts[0]);
      var (rows2, outs) := TableRun(t, rows1, stmts[1..]);
      (rows2, [out] + outs)
  }

  // ---- keys ----

  predicate DistinctKeys(rows: seq<Row>)
    requires forall i :: 0 <= i < |rows| ==> |rows[i]| > 0
  {
    forall i, j :: 0 <= i < j < |rows| ==> rows[i][0] != rows[j][0]
  }

  /** Distinct keys without outer quotes. */
  predicate PlainKeys(rows: seq<Row>)
    requires forall i :: 0 <= i < |rows| ==> |rows[i]| > 0
  {
    DistinctKeys(rows) && forall i :: 0 <= i < |rows| ==> !Quoted(rows[i][0])
  }

  /** The key is the first column and the index is complete. */
  ghost predicate Indexed(t: Table, s: State) {
    Inv(t, s) && t.KeyFirst() && IndexComplete(t.Layout(), s.recs, s.index)
  }

  /** The states that the plain table describes: the keys of the live rows are also distinct. */
  ghost predicate Clean(t: Table, s: State) {
    Indexed(t, s) && (LiveRowsShaped(t.Layout(), s.recs); DistinctKeys(LiveRows(s.recs)))
  }

  // ---- keys of the table and keys of the log ----

  lemma {:induction false} KeysOfLog(l: Layout, recs: seq<Rec>)
    requires Shaped(l, recs) && RowsShaped(l, LiveRows(recs))
    ensures UniqueKeys(recs) <==> DistinctKeys(LiveRows(recs))
  {
    hide LiveRows, UniqueKeys, DistinctKeys;
    if recs == [] {
      NoKeys();
    } else {
      LiveRowsShaped(l, recs[1..]);
      KeysOfLog(l, recs[1..]);
      LiveRowsFront(recs);
      if recs[0].Live() {
        FirstKeyUnique(l, recs);
      } else {
        assert LiveRows(recs) == LiveRows(recs[1..]);
        DeadKeyIrrelevant(recs);
      }
    }
  }

  lemma NoKeys() ensures LiveRows([]) == [] && UniqueKeys([]) && DistinctKeys([]) {}

  lemma LiveRowsFront(recs: seq<Rec>)
    requires recs != []
    ensures LiveRows(recs) == (if recs[0].Live() then [recs[0].row] else []) + LiveRows(recs[1..])
  {
  }

  lemma DeadKeyIrrelevant(recs: seq<Rec>)
    requires recs != [] && !recs[0].Live() && forall i :: 0 <= i < |recs| ==> |recs[i].row| > 0
    ensures UniqueKeys(recs) <==> UniqueKeys(recs[1..])
  {
    var rest := recs[1..];
    if UniqueKeys(recs) {
      forall i, j | 0 <= i < j < |rest| && rest[i].Live() && rest[j].Live() ensures rest[i].row[0] != rest[j].row[0] {
        assert recs[i + 1] == rest[i] && recs[j + 1] == rest[j];
      }
    }
    if UniqueKeys(rest) {
      forall i, j | 0 <= i < j < |recs| && recs[i].Live() && recs[j].Live() ensures recs[i].row[0] != recs[j].row[0] {
        assert rest[i - 1] == recs[i] && rest[j - 1] == recs[j];
      }
    }
  }

  lemma FirstKeyUnique(l: Layout, recs: seq<Rec>)
    requires Shaped(l, recs) && recs != [] && recs[0].Live() && RowsShaped(l, LiveRows(recs[1..]))
    requires UniqueKeys(recs[1..]) <==> DistinctKeys(LiveRows(recs[1..]))
    ensures UniqueKeys(recs) <==> DistinctKeys([recs[0].row] + LiveRows(recs[1..]))
  {
    hide LiveRows;
    var rest, rows := recs[1..], LiveRows(recs[1..]);
    var all := [recs[0].row] + rows;
    LiveRowsMembers(rest);
    if UniqueKeys(recs) {
      forall i, j | 0 <= i < j < |rest| && rest[i].Live() && rest[j].Live() ensures rest[i].row[0] != rest[j].row[0] {
        assert recs[i + 1] == rest[i] && recs[j + 1] == rest[j];
      }
      forall j | 0 < j < |all| ensures all[0][0] != all[j][0] {
        assert rows[j - 1] in rows;
        var k :| 0 <= k < |rest| && rest[k].Live() && rest[k].row == rows[j - 1];
        assert recs[k + 1] == rest[k];
      }
      forall i, j | 0 < i < j < |all| ensures all[i][0] != all[j][0] {
        assert rows[i - 1][0] != rows[j - 1][0];
      }
    }
    if DistinctKeys(all) {
      forall i, j | 0 <= i < j < |rows| ensures rows[i][0] != rows[j][0] {
        assert all[i + 1] == rows[i] && all[j + 1] == rows[j];
      }
      forall i, j | 0 <= i < j < |recs| && recs[i].Live() && recs[j].Live() ensures recs[i].row[0] != recs[j].row[0] {
        if i == 0 {
          assert rest[j - 1] == recs[j];
          assert recs[j].row in rows;
          var k :| 0 <= k < |rows| && rows[k] == recs[j].row;
          assert all[k + 1] == rows[k];
        } else {
          assert rest[i - 1] == recs[i] && rest[j - 1] == recs[j];
        }
      }
    }
  }

  /** A sound and complete index holds the keys of the table. */
  lemma IndexKeys(l: Layout, recs: seq<Rec>, index: map<string, nat>)
    requires Shaped(l, recs) && RowsShaped(l, LiveRows(recs))
    requires IndexSound(l, recs, index) && IndexComplete(l, recs, index)
    ensures index.Keys == KeysOf(LiveRows(recs))
  {
    hide LiveRows, TypePos;
    var rows := LiveRows(recs);
    LiveRowsMembers(recs);
    forall key ensures key in index <==> key in KeysOf(rows) {
      if key in index {
        var k :| IsAt(l, recs, key, index[key], k);
        assert recs[k].row in rows;
        var i :| 0 <= i < |rows| && rows[i] == recs[k].row;
      }
      if key in KeysOf(rows) {
        var i :| 0 <= i < |rows| && rows[i][0] == key;
        assert rows[i] in rows;
      }
    }
  }

  // ---- index and gate ----

  /** The gate leaves the table as it is, and the index complete. */
  lemma GateKeepsTable(t: Table, s: State)
    requires Indexed(t, s)
    ensures Indexed(t, Gate(t.Layout(), s)) && LiveRows(Gate(t.Layout(), s).recs) == LiveRows(s.recs)
  {
    hide LiveRecs, Rebuild, EstimateReached, RatioReached, FileBytes, FrameBytes;
    var l := t.Layout();
    GateKeepsInv(t, s);
    CompactionIsStable(s.recs);
    LiveRecsShrink(l, s.recs);
    RebuildIsRight(l, LiveRecs(s.recs));
  }

  lemma CleanIndexSize(t: Table, s: State)
    requires Clean(t, s)
    ensures |s.index| == |LiveRows(s.recs)|
  {
    hide LiveRecs, LiveRows, FileBytes, FrameBytes, TypePos;
    LiveRowsShaped(t.Layout(), s.recs);
    KeysOfLog(t.Layout(), s.recs);
    IndexSize(t.Layout(), s.recs, s.index);
  }

  lemma IndexSize(l: Layout, recs: seq<Rec>, index: map<string, nat>)
    requires Shaped(l, recs) && UniqueKeys(recs) && IndexSound(l, recs, index) && IndexComplete(l, recs, index)
    ensures |index| == |LiveRows(recs)|
  {
    RebuildIsRight(l, recs);
    IndexIsDetermined(l, recs, index, Rebuild(l, recs));
    RebuildCounts(l, recs);
  }

  // ---- what statements do to the keys of a table ----

  lemma PlainFilter(rows: seq<Row>, sel: Row -> bool, want: bool)
    requires (forall i :: 0 <= i < |rows| ==> |rows[i]| > 0) && PlainKeys(rows)
    ensures forall i :: 0 <= i < |Filter(rows, sel, want)| ==> |Filter(rows, sel, want)[i]| > 0
    ensures PlainKeys(Filter(rows, sel, want))
  {
    FilterMembers(rows, sel, want);
    var kept := Filter(rows, sel, want);
    forall i | 0 <= i < |kept| ensures |kept[i]| > 0 && !Quoted(kept[i][0]) {
      assert kept[i] in rows;
    }
    DistinctFilter(rows, sel, want);
  }

  lemma {:induction false} DistinctFilter(rows: seq<Row>, sel: Row -> bool, want: bool)
    requires (forall i :: 0 <= i < |rows| ==> |rows[i]| > 0) && DistinctKeys(rows)
    requires forall i :: 0 <= i < |Filter(rows, sel, want)| ==> |Filter(rows, sel, want)[i]| > 0
    ensures DistinctKeys(Filter(rows, sel, want))
  {
    if rows != [] {
      var rest := Filter(rows[1..], sel, want);
      FilterMembers(rows[1..], sel, want);
      forall i | 0 <= i < |rest| ensures |rest[i]| > 0 && rest[i][0] != rows[0][0] {
        assert rest[i] in rows[1..];
        var j :| 0 <= j < |rows[1..]| && rows[1..][j] == rest[i];
        assert rows[j + 1] == rest[i];
      }
      DistinctFilter(rows[1..], sel, want);
    }
  }

  /** UPDATE keeps every key: it is not assigned to, and has no quotes to lose. */
  lemma UpdateKeepsKeys(t: Table, rows: seq<Row>, sel: Row -> bool, assignments: seq<Assignment>)
    requires t.KeyFirst() && RowsShaped(t.Layout(), rows) && PlainKeys(rows)
    requires UpdateNormalizes(t.Names(), t.KeyName(), assignments)
    ensures var texts := AssignedTexts(t.Names(), assignments);
            var updated := Filter(rows, sel, false) + UpdatedRows(Filter(rows, sel, true), texts);
            && RowsShaped(t.Layout(), updated) && PlainKeys(updated)
            && |updated| == |rows| && KeysOf(updated) == KeysOf(rows)
  {
    hide IsKey, KeyIndex, AssignedTexts, Filter, Quoted, Strip;
    var texts := AssignedTexts(t.Names(), assignments);
    AssignedTextsMean(t.cols, t.KeyName(), assignments, 0);
    var kept, matched := Filter(rows, sel, false), Filter(rows, sel, true);
    FilterShaped(t.Layout(), rows, sel, false);
    FilterShaped(t.Layout(), rows, sel, true);
    FilterMembers(rows, sel, true);
    FilterMembers(rows, sel, false);
    PlainFilter(rows, sel, true);
    PlainFilter(rows, sel, false);
    var updated := kept + UpdatedRows(matched, texts);
    forall i | 0 <= i < |matched| ensures UpdatedRows(matched, texts)[i][0] == matched[i][0] {}
    KeptAndMatched(rows, sel, kept, matched);
    forall key ensures key in KeysOf(updated) <==> key in KeysOf(rows) {
      KeysOfUpdated(rows, kept, matched, updated, key);
    }
  }

  lemma KeptAndMatched(rows: seq<Row>, sel: Row -> bool, kept: seq<Row>, matched: seq<Row>)
    requires (forall i :: 0 <= i < |rows| ==> |rows[i]| > 0) && DistinctKeys(rows)
    requires forall i :: 0 <= i < |kept| ==> kept[i] in rows && !sel(kept[i])
    requires forall i :: 0 <= i < |matched| ==> matched[i] in rows && sel(matched[i])
    ensures forall i, j :: 0 <= i < |kept| && 0 <= j < |matched| ==> kept[i][0] != matched[j][0]
  {
    forall i, j | 0 <= i < |kept| && 0 <= j < |matched| ensures kept[i][0] != matched[j][0] {
      var a :| 0 <= a < |rows| && rows[a] == kept[i];
      var b :| 0 <= b < |rows| && rows[b] == matched[j];
      assert a != b;
    }
  }

  lemma KeysOfUpdated(rows: seq<Row>, kept: seq<Row>, matched: seq<Row>, updated: seq<Row>, key: string)
    requires |updated| == |kept| + |matched| && (forall i :: 0 <= i < |rows| ==> |rows[i]| > 0)
    requires forall i :: 0 <= i < |updated| ==> |updated[i]| > 0
    requires forall i :: 0 <= i < |kept| ==> kept[i] in rows && updated[i] == kept[i]
    requires forall i :: 0 <= i < |matched| ==> matched[i] in rows && updated[|kept| + i][0] == matched[i][0]
    requires forall r :: r in rows ==> r in kept || r in matched
    ensures key in KeysOf(updated) <==> key in KeysOf(rows)
  {
    if key in KeysOf(updated) {
      var i :| 0 <= i < |updated| && updated[i][0] == key;
      var r := if i < |kept| then kept[i] else matched[i - |kept|];
      assert r in rows;
      var j :| 0 <= j < |rows| && rows[j] == r;
      assert rows[j][0] == key;
    }
    if key in KeysOf(rows) {
      var i :| 0 <= i < |rows| && rows[i][0] == key;
      assert rows[i] in rows;
      if rows[i] in kept {
        var j :| 0 <= j < |kept| && kept[j] == rows[i];
        assert updated[j][0] == key;
      } else {
        var j :| 0 <= j < |matched| && matched[j] == rows[i];
        assert updated[|kept| + j][0] == key;
      }
    }
  }

  // ---- INSERT and the keys it stores ----

  /** The key literals of an INSERT as they are stored: without one pair of outer quotes. */
  function GivenKeys(t: Table, columns: Option<seq<string>>, given: seq<seq<LiteralNode>>): (keys: seq<string>)
    requires t.Valid()
    ensures |keys| == |given|
  {
    StripAll(RawKeys(t.cols, NormalRows(t.Names(), ColumnList(t.Names(), columns), given)))
  }

  /** The keys that an INSERT stores differ from each other and from those of the table, and none is quoted once
      more. Statements of other kinds store no new key. */
  predicate NewKeys(t: Table, rows: seq<Row>, stmt: Stmt)
    requires t.KeyFirst() && RowsShaped(t.Layout(), rows)
  {
    match stmt
    case Insert(columns, given) =>
      var plan := PlanInsert(t, KeysOf(rows), columns, given);
      plan.Store? ==>
        var keys := GivenKeys(t, columns, given)[..|plan.stored|];
        FreshKeys(keys, KeysOf(rows)) && forall i :: 0 <= i < |keys| ==> !Quoted(keys[i])
    case _ => true
  }

  /** Row by row, an INSERT stores the keys it was given. */
  lemma StoredKeys(t: Table, taken: set<string>, columns: Option<seq<string>>, given: seq<seq<LiteralNode>>)
    requires t.KeyFirst()
    ensures var plan := PlanInsert(t, taken, columns, given);
            plan.Store? ==> forall i :: 0 <= i < |plan.stored| ==> plan.stored[i][0] == GivenKeys(t, columns, given)[i]
  {
    hide IsKey, DefaultOf, SlotFor, Quoted, Strip, FlagsOf, Storable, FreshKeys;
    var plan := PlanInsert(t, taken, columns, given);
    if plan.Store? {
      var list := ColumnList(t.Names(), columns);
      var normal := NormalRows(t.Names(), list, given);
      forall i | 0 <= i < |plan.stored| ensures plan.stored[i][0] == GivenKeys(t, columns, given)[i] {
        ValidRowHasKey(t.cols, MaskOf(t.Names(), list), normal[i]);
      }
    }
  }

  /** Appending rows keeps the keys of a table distinct exactly when the appended keys are new. */
  lemma DistinctAppend(rows: seq<Row>, more: seq<Row>, keys: seq<string>)
    requires (forall i :: 0 <= i < |rows| ==> |rows[i]| > 0) && DistinctKeys(rows)
    requires |keys| == |more| && forall i :: 0 <= i < |more| ==> |more[i]| > 0 && more[i][0] == keys[i]
    ensures DistinctKeys(rows + more) <==> FreshKeys(keys, KeysOf(rows))
  {
    var all := rows + more;
    forall i | 0 <= i < |rows| ensures all[i] == rows[i] && rows[i][0] in KeysOf(rows) {}
    forall i | 0 <= i < |keys| ensures all[|rows| + i] == more[i] {}
    if DistinctKeys(all) {
      forall i, j | 0 <= i < |keys| && 0 <= j < |rows| ensures keys[i] != rows[j][0] {
        assert all[j][0] != all[|rows| + i][0];
      }
      forall i, j | 0 <= i < j < |keys| ensures keys[i] != keys[j] {
        assert all[|rows| + i][0] != all[|rows| + j][0];
      }
    }
  }

  lemma PlainAppend(rows: seq<Row>, more: seq<Row>, keys: seq<string>)
    requires (forall i :: 0 <= i < |rows| ==> |rows[i]| > 0) && PlainKeys(rows)
    requires |keys| == |more| && forall i :: 0 <= i < |more| ==> |more[i]| > 0 && more[i][0] == keys[i]
    ensures PlainKeys(rows + more) <==> FreshKeys(keys, KeysOf(rows)) && forall i :: 0 <= i < |keys| ==> !Quoted(keys[i])
  {
    hide Quoted, DistinctKeys, FreshKeys;
    var all := rows + more;
    DistinctAppend(rows, more, keys);
    forall i | 0 <= i < |rows| ensures all[i] == rows[i] {}
    forall i | 0 <= i < |keys| ensures all[|rows| + i] == more[i] {}
    if PlainKeys(all) {
      forall i | 0 <= i < |keys| ensures !Quoted(keys[i]) {
        assert !Quoted(all[|rows| + i][0]);
      }
    }
  }

  /** An accepted INSERT keeps the keys of the table distinct if and only if those it stores are new. */
  lemma InsertKeepsDistinct(t: Table, rows: seq<Row>, columns: Option<seq<string>>, given: seq<seq<LiteralNode>>)
    requires t.KeyFirst() && RowsShaped(t.Layout(), rows) && DistinctKeys(rows)
    ensures var plan := PlanInsert(t, KeysOf(rows), columns, given);
            plan.Store? ==>
              (DistinctKeys(rows + plan.stored) <==> FreshKeys(GivenKeys(t, columns, given)[..|plan.stored|], KeysOf(rows)))
  {
    hide PlanInsert, DistinctKeys, FreshKeys, Quoted, GivenKeys;
    var plan := PlanInsert(t, KeysOf(rows), columns, given);
    StoredKeys(t, KeysOf(rows), columns, given);
    if plan.Store? {
      DistinctAppend(rows, plan.stored, GivenKeys(t, columns, given)[..|plan.stored|]);
    }
  }

  /** An accepted INSERT keeps the keys of the table distinct and unquoted if and only if those it stores are
      new and unquoted. */
  lemma InsertKeepsKeys(t: Table, rows: seq<Row>, columns: Option<seq<string>>, given: seq<seq<LiteralNode>>)
    requires t.KeyFirst() && RowsShaped(t.Layout(), rows) && PlainKeys(rows)
    ensures var plan := PlanInsert(t, KeysOf(rows), columns, given);
            plan.Store? ==> (PlainKeys(rows + plan.stored) <==> NewKeys(t, rows, Insert(columns, given)))
  {
    hide PlanInsert, PlainKeys, FreshKeys, Quoted, GivenKeys;
    var plan := PlanInsert(t, KeysOf(rows), columns, given);
    StoredKeys(t, KeysOf(rows), columns, given);
    if plan.Store? {
      PlainAppend(rows, plan.stored, GivenKeys(t, columns, given)[..|plan.stored|]);
    }
  }

  /** Every statement keeps the keys of the table distinct and unquoted if and only if it stores only new,
      unquoted ones. */
  lemma TableStepKeepsKeys(t: Table, rows: seq<Row>, stmt: Stmt)
    requires t.KeyFirst() && RowsShaped(t.Layout(), rows) && PlainKeys(rows)
    ensures PlainKeys(TableStep(t, rows, stmt).0) <==> NewKeys(t, rows, stmt)
  {
    hide PlanInsert, PlainKeys, FreshKeys, Quoted, GivenKeys, Filter, AssignedTexts, Selects, AcceptWhere, Strip, TableSelect, ResolveWhere, IsKey, KeyIndex;
    match stmt
    case Insert(columns, given) => InsertKeepsKeys(t, rows, columns, given);
    case Update(assignments, where) =>
      var plan := PlanUpdate(t, assignments, where);
      if plan.Some? {
        UpdateKeepsKeys(t, rows, Selects(t.nums, plan.value.1), assignments);
      }
    case Delete(where) =>
      var w := AcceptWhere(t, StripWhere(where), KeysOf(rows));
      if w.Some? {
        PlainFilter(rows, Selects(t.nums, w.value), false);
      }
    case _ =>
  }

  /** The keys of the plain table are distinct before every statement of a run. */
  predicate KeysStayDistinct(t: Table, rows: seq<Row>, stmts: seq<Stmt>)
    requires t.KeyFirst() && RowsShaped(t.Layout(), rows)
    decreases |stmts|
  {
    stmts == [] || (DistinctKeys(rows) && KeysStayDistinct(t, TableStep(t, rows, stmts[0]).0, stmts[1..]))
  }

  /** NewKeys for each statement of a run, on the table that the statements before it leave. */
  predicate KeysStayNew(t: Table, rows: seq<Row>, stmts: seq<Stmt>)
    requires t.KeyFirst() && RowsShaped(t.Layout(), rows)
    decreases |stmts|
  {
    stmts == [] || (NewKeys(t, rows, stmts[0]) && KeysStayNew(t, TableStep(t, rows, stmts[0]).0, stmts[1..]))
  }

  /** The keys of the table are clean before and after every statement of a run. */
  predicate PlainAllAlong(t: Table, rows: seq<Row>, stmts: seq<Stmt>)
    requires t.KeyFirst() && RowsShaped(t.Layout(), rows)
    decreases |stmts|
  {
    PlainKeys(rows) && (stmts == [] || PlainAllAlong(t, TableStep(t, rows, stmts[0]).0, stmts[1..]))
  }

  lemma {:induction false} RunKeepsKeys(t: Table, rows: seq<Row>, stmts: seq<Stmt>)
    requires t.KeyFirst() && RowsShaped(t.Layout(), rows) && PlainKeys(rows)
    ensures PlainAllAlong(t, rows, stmts) <==> KeysStayNew(t, rows, stmts)
    decreases |stmts|
  {
    hide PlainKeys, NewKeys, TableStep;
    if stmts != [] {
      TableStepKeepsKeys(t, rows, stmts[0]);
      if NewKeys(t, rows, stmts[0]) {
        RunKeepsKeys(t, TableStep(t, rows, stmts[0]).0, stmts[1..]);
      } else {
        NotPlainAlong(t, TableStep(t, rows, stmts[0]).0, stmts[1..]);
      }
    }
  }

  lemma NotPlainAlong(t: Table, rows: seq<Row>, stmts: seq<Stmt>)
    requires t.KeyFirst() && RowsShaped(t.Layout(), rows) && !PlainKeys(rows)
    ensures !PlainAllAlong(t, rows, stmts)
  {
    hide PlainKeys, TableStep;
  }

  /** So new, unquoted keys are enough for them to stay distinct. */
  lemma {:induction false} NewKeysStayDistinct(t: Table, rows: seq<Row>, stmts: seq<Stmt>)
    requires t.KeyFirst() && RowsShaped(t.Layout(), rows) && PlainKeys(rows) && KeysStayNew(t, rows, stmts)
    ensures KeysStayDistinct(t, rows, stmts) && PlainKeys(TableRun(t, rows, stmts).0)
    decreases |stmts|
  {
    hide NewKeys, TableStep, DistinctKeys;
    if stmts != [] {
      TableStepKeepsKeys(t, rows, stmts[0]);
      NewKeysStayDistinct(t, TableStep(t, rows, stmts[0]).0, stmts[1..]);
    }
  }

  // ---- keys given without quotes ----

  /** No key given by an INSERT is spelled with outer quotes. */
  predicate BareKeys(t: Table, stmt: Stmt)
    requires t.Valid()
  {
    match stmt
    case Insert(columns, given) =>
      forall i :: 0 <= i < |given| ==>
        !Quoted(RawKey(t.cols, NormalRows(t.Names(), ColumnList(t.Names(), columns), given)[i]))
    case _ => true
  }

  /** Bare keys are always new: for them the uniqueness check is right (Validator.UniquenessCheckExact). */
  lemma BareKeysAreNew(t: Table, rows: seq<Row>, stmt: Stmt)
    requires t.KeyFirst() && RowsShaped(t.Layout(), rows) && BareKeys(t, stmt)
    ensures NewKeys(t, rows, stmt)
  {
    hide IsKey, KeyIndex, DefaultOf, SlotFor, Quoted, Strip, FlagsOf, StoredPrefix, InsertNormalizes;
    if stmt.Insert? {
      var plan := PlanInsert(t, KeysOf(rows), stmt.columns, stmt.rows);
      if plan.Store? {
        var raw := RawKeys(t.cols, NormalRows(t.Names(), ColumnList(t.Names(), stmt.columns), stmt.rows));
        assert FreshKeys(raw, KeysOf(rows));
        UniquenessCheckExact(raw);
        var keys := GivenKeys(t, stmt.columns, stmt.rows);
        assert keys == StripAll(raw);
        assert FreshKeys(keys, KeysOf(rows));
        forall i | 0 <= i < |keys| ensures !Quoted(keys[i]) {
          assert !Quoted(raw[i]);
        }
      }
    }
  }

  lemma {:induction false} BareRunIsNew(t: Table, rows: seq<Row>, stmts: seq<Stmt>)
    requires t.KeyFirst() && RowsShaped(t.Layout(), rows) && forall i :: 0 <= i < |stmts| ==> BareKeys(t, stmts[i])
    ensures KeysStayNew(t, rows, stmts)
    decreases |stmts|
  {
    hide BareKeys, NewKeys, TableStep;
    if stmts != [] {
      BareKeysAreNew(t, rows, stmts[0]);
      BareRunIsNew(t, TableStep(t, rows, stmts[0]).0, stmts[1..]);
    }
  }

  // ---- one statement ----

  lemma InsertRefines(t: Table, s: State, columns: Option<seq<string>>, given: seq<seq<LiteralNode>>)
    requires Clean(t, s) && Fits(t, s, Insert(columns, given)) && RowsShaped(t.Layout(), LiveRows(s.recs))
    ensures var (s', out) := InsertStep(t, s, columns, given);
            Indexed(t, s') && (LiveRows(s'.recs), out) == TableStep(t, LiveRows(s.recs), Insert(columns, given))
  {
    hide LiveRows, Tombstones, UpsertAll, FileBytes, PlanInsert, DistinctKeys;
    var l := t.Layout();
    IndexKeys(l, s.recs, s.index);
    var plan := PlanInsert(t, s.index.Keys, columns, given);
    if plan.Store? {
      FiledFirst(l, plan.stored);
      UpsertAllKeepsIndex(l, s.recs, Inserted, plan.stored, s.index);
      LogConcat(s.recs, RecsOf(Inserted, plan.stored));
      AllLive(Inserted, plan.stored);
    }
  }

  lemma SelectRefines(t: Table, s: State, columns: Option<seq<string>>, where: Where)
    requires Clean(t, s)
    ensures RowsShaped(t.Layout(), LiveRows(s.recs))
    ensures (LiveRows(s.recs), SelectOutcome(t, s, columns, where)) == TableStep(t, LiveRows(s.recs), Select(columns, where))
  {
    hide LiveRows, Filter, FramePos, FileBytes, Tombstones, AcceptWhere, Strip, Scanners.Project, Holds, Selects, Clean, IsKey, KeyIndex, IndexSound, HasTwin, OthersMatch;
    CleanIsInv(t, s);
    CleanKeys(t, s);
    var w := AcceptWhere(t, where, s.index.Keys);
    if w.Some? && UniqueEqualityLookup(where, t.KeyName()) && Strip(where.value.literal.value) in s.index {
      IndexedSelectIsScan(t, s, MaskOf(t.Names(), ColumnList(t.Names(), columns)), where);
      CleanHasNoTwin(t, s, Strip(where.value.literal.value));
    }
  }

  /** In a clean state the record to which the index leads is the only one with its key. */
  lemma CleanHasNoTwin(t: Table, s: State, key: string)
    requires Clean(t, s) && key in s.index
    ensures !HasTwin(s.recs, key, RecordAt(t.Layout(), s.recs, key, s.index[key]))
  {
    hide LiveRows, FileBytes, FramePos, Tombstones, KeyIndex, IsKey, DistinctKeys;
    LiveRowsShaped(t.Layout(), s.recs);
    KeysOfLog(t.Layout(), s.recs);
  }

  lemma CleanKeys(t: Table, s: State)
    requires Clean(t, s) && RowsShaped(t.Layout(), LiveRows(s.recs))
    ensures s.index.Keys == KeysOf(LiveRows(s.recs))
  {
    IndexKeys(t.Layout(), s.recs, s.index);
  }

  lemma UpdateScannedIsIndexed(t: Table, s: State, sel: Row -> bool, texts: map<nat, string>)
    requires Indexed(t, s) && Sized(t.Layout(), UpdatedLog(t.Layout(), s.recs, sel, texts))
    ensures var x := UpdateScanned(t.Layout(), s, sel, texts);
            && Indexed(t, x)
            && LiveRows(x.recs) == Filter(LiveRows(s.recs), sel, false) + UpdatedRows(Filter(LiveRows(s.recs), sel, true), texts)
  {
    hide LiveRows, Filter, FramePos, FileBytes, Tombstones, Rebuild, Mark, IsKey, KeyIndex, UpdatedLog, UpdatedRow;
    var l := t.Layout();
    UpdateScannedKeepsInv(t, s, sel, texts);
    UpdatedLogShaped(l, s.recs, sel, texts);
    UpdatedLogCounts(l, s.recs, sel, texts);
    FiledFirst(l, UpdatedRows(Filter(LiveRows(s.recs), sel, true), texts));
    RebuildIsRight(l, UpdatedLog(l, s.recs, sel, texts));
  }

  lemma UpdateRefines(t: Table, s: State, assignments: seq<Assignment>, where: Where)
    requires Clean(t, s) && Fits(t, s, Update(assignments, where)) && RowsShaped(t.Layout(), LiveRows(s.recs))
    ensures var (s', out) := UpdateStep(t, s, assignments, where);
            Indexed(t, s') && (LiveRows(s'.recs), out) == TableStep(t, LiveRows(s.recs), Update(assignments, where))
  {
    hide LiveRows, Filter, Rebuild, UpdatedLog, Selects, Gate, PlanUpdate, FileBytes, Tombstones, IndexSound, KeyIndex, IsKey, UpdatedRow;
    var plan := PlanUpdate(t, assignments, where);
    if plan.Some? {
      UpdateScannedIsIndexed(t, s, Selects(t.nums, plan.value.1), plan.value.0);
      GateKeepsTable(t, UpdateScanned(t.Layout(), s, Selects(t.nums, plan.value.1), plan.value.0));
    }
  }

  /** From a clean state, what DELETE hands to the gate is what the scan leaves. */
  lemma DeletePreparedIsScan(t: Table, s: State, where: Where)
    requires Clean(t, s) && AcceptWhere(t, StripWhere(where), s.index.Keys).Some?
    requires RowsShaped(t.Layout(), LiveRows(s.recs))
    ensures var w := AcceptWhere(t, StripWhere(where), s.index.Keys).value;
            var x, sel := DeletePrepared(t, s, w), Selects(t.nums, w);
            && (x.None? <==> UniqueEqualityLookup(where, t.KeyName()) &&
                             Strip(StripWhere(where).value.literal.value) !in KeysOf(LiveRows(s.recs)))
            && (x.Some? ==> Clean(t, x.value) && x.value == DeleteScanned(t.Layout(), s, sel) &&
                            LiveRows(x.value.recs) == Filter(LiveRows(s.recs), sel, false))
  {
    hide LiveRows, Filter, FileBytes, FramePos, Clean, DeleteIndexed, DeleteScanned, AcceptWhere, Selects, Strip, KeyIndex, IsKey;
    CleanIsInv(t, s);
    CleanKeys(t, s);
    AcceptedWhere(t, StripWhere(where), s.index.Keys);
    var w := AcceptWhere(t, StripWhere(where), s.index.Keys).value;
    PlacedFirst(t.Layout());
    if DeletePrepared(t, s, w).Some? {
      if UniqueEqualityLookup(where, t.KeyName()) {
        CleanIsUnique(t, s);
        UniqueDeleteIsScan(t, s, StripWhere(where), s.index.Keys);
      }
      DeleteScannedIsClean(t, s, Selects(t.nums, w));
    }
  }

  lemma DeleteRefines(t: Table, s: State, where: Where)
    requires Clean(t, s) && RowsShaped(t.Layout(), LiveRows(s.recs))
    ensures var (s', out) := DeleteStep(t, s, where);
            Indexed(t, s') && (LiveRows(s'.recs), out) == TableStep(t, LiveRows(s.recs), Delete(where))
  {
    hide LiveRows, Filter, FileBytes, Gate, AcceptWhere, Strip, DeletePrepared, Selects, DeleteScanned, Tombstones, IndexSound, DistinctKeys;
    CleanKeys(t, s);
    var w := AcceptWhere(t, StripWhere(where), s.index.Keys);
    if w.Some? {
      DeletePreparedIsScan(t, s, where);
      if DeletePrepared(t, s, w.value).Some? {
        GateKeepsTable(t, DeletePrepared(t, s, w.value).value);
      }
    }
  }

  lemma DeleteScannedIsClean(t: Table, s: State, sel: Row -> bool)
    requires Clean(t, s)
    ensures var x := DeleteScanned(t.Layout(), s, sel);
            Clean(t, x) && LiveRows(x.recs) == Filter(LiveRows(s.recs), sel, false)
  {
    hide LiveRows, Filter, FramePos, FileBytes, Tombstones, Rebuild, Mark, DistinctKeys;
    var l := t.Layout();
    LiveRowsShaped(l, s.recs);
    DeleteScannedKeepsInv(t, s, sel);
    MarkSplits(s.recs, sel);
    FilterShaped(l, LiveRows(s.recs), sel, false);
    DistinctFilter(LiveRows(s.recs), sel, false);
    RebuildIsRight(l, Mark(s.recs, sel));
    LiveRowsShaped(l, Mark(s.recs, sel));
  }

  /** One statement on the engine, from a clean state, is the statement on the plain table: same answer, and the same
      rows afterwards. The state stays clean exactly when the keys of the plain table stay distinct. */
  lemma StepRefinesTable(t: Table, s: State, stmt: Stmt)
    requires Clean(t, s) && Fits(t, s, stmt) && RowsShaped(t.Layout(), LiveRows(s.recs))
    ensures var (s', out) := Step(t, s, stmt);
            && (LiveRows(s'.recs), out) == TableStep(t, LiveRows(s.recs), stmt)
            && Indexed(t, s')
            && (Clean(t, s') <==> DistinctKeys(TableStep(t, LiveRows(s.recs), stmt).0))
  {
    hide LiveRows, Gate, Rebuild, InsertStep, SelectOutcome, UpdateStep, DeleteStep, DistinctKeys;
    match stmt
    case Insert(columns, given) => InsertRefines(t, s, columns, given);
    case Select(columns, where) => SelectRefines(t, s, columns, where);
    case Update(assignments, where) => UpdateRefines(t, s, assignments, where);
    case Delete(where) => DeleteRefines(t, s, where);
    case Restart =>
      StepKeepsInv(t, s, Restart);
      RebuildIsRight(t.Layout(), s.recs);
  }

  // ---- whole runs ----

  /** Every run, restarts included, answers as the plain table does and ends with its rows, as long as the keys of the
      plain table are distinct before each statement. */
  lemma {:induction false} RunRefinesTable(t: Table, s: State, stmts: seq<Stmt>)
    requires Clean(t, s) && RunFits(t, s, stmts) && RowsShaped(t.Layout(), LiveRows(s.recs))
    requires KeysStayDistinct(t, LiveRows(s.recs), stmts)
    ensures var (s', outs) := Run(t, s, stmts);
            && (LiveRows(s'.recs), outs) == TableRun(t, LiveRows(s.recs), stmts)
            && Indexed(t, s')
            && (Clean(t, s') <==> DistinctKeys(TableRun(t, LiveRows(s.recs), stmts).0))
    decreases |stmts|
  {
    hide LiveRows, Step, TableStep, Fits, Clean, Inv, DistinctKeys, Indexed;
    CleanIsInv(t, s);
    if stmts == [] {
      RunOfNothing(t, s);
    } else {
      RunStep(t, s, stmts);
      StepRefinesTable(t, s, stmts[0]);
      var s1 := Step(t, s, stmts[0]).0;
      if stmts[1..] == [] {
        RunOfNothing(t, s1);
      } else {
        CleanIsInv(t, s1);
        RunRefinesTable(t, s1, stmts[1..]);
      }
    }
  }

  lemma CleanIsInv(t: Table, s: State)
    requires Clean(t, s)
    ensures Inv(t, s) && t.KeyFirst() && RowsShaped(t.Layout(), LiveRows(s.recs)) && Indexed(t, s)
    ensures DistinctKeys(LiveRows(s.recs))
  {
    LiveRowsShaped(t.Layout(), s.recs);
  }

  lemma CleanIsUnique(t: Table, s: State)
    requires Indexed(t, s) && RowsShaped(t.Layout(), LiveRows(s.recs))
    ensures IndexComplete(t.Layout(), s.recs, s.index)
    ensures Clean(t, s) <==> UniqueKeys(s.recs)
  {
    hide LiveRows, FileBytes, DistinctKeys, UniqueKeys;
    KeysOfLog(t.Layout(), s.recs);
  }

  /** A program start on a file whose live keys are distinct is clean. */
  lemma StartIsClean(t: Table, recs: seq<Rec>)
    requires t.KeyFirst() && Sized(t.Layout(), recs) && RowsShaped(t.Layout(), LiveRows(recs)) && DistinctKeys(LiveRows(recs))
    ensures Clean(t, State(recs, Rebuild(t.Layout(), recs), 0))
  {
    hide LiveRows, Rebuild, FileBytes;
    RebuildIsRight(t.Layout(), recs);
  }

  /** A table that was just created is clean. */
  lemma NewTableIsClean(t: Table)
    requires t.KeyFirst()
    ensures Clean(t, State([], map[], 0)) && FileBytes(t.Layout(), []) == Header()
  {
    hide Header;
    StartIsClean(t, []);
  }

  /** In the state that such a run reaches: the index has the keys of the table and, if these are distinct, is the one
      a scan of the file would build, with one entry per live row; the counter exceeds neither the tombstones nor, if
      it did not at the start, two thirds of the live rows. */
  lemma ReachableStates(t: Table, s: State, stmts: seq<Stmt>)
    requires Clean(t, s) && RunFits(t, s, stmts) && RowsShaped(t.Layout(), LiveRows(s.recs))
    requires KeysStayDistinct(t, LiveRows(s.recs), stmts)
    ensures var s' := Run(t, s, stmts).0;
            var rows' := TableRun(t, LiveRows(s.recs), stmts).0;
            && s'.index.Keys == KeysOf(rows')
            && (DistinctKeys(rows') ==>
                  UniqueKeys(s'.recs) && s'.index == Rebuild(t.Layout(), s'.recs) && |s'.index| == |rows'|)
            && s'.deletes <= Tombstones(s'.recs)
            && (Bounded(s) ==> Bounded(s'))
  {
    hide LiveRows, Rebuild, FileBytes, Run, RunFits, TableRun, KeysStayDistinct, DistinctKeys, Bounded;
    RunRefinesTable(t, s, stmts);
    var s' := Run(t, s, stmts).0;
    IndexKeys(t.Layout(), s'.recs, s'.index);
    if Bounded(s) {
      RunKeepsBound(t, s, stmts);
    }
    if Clean(t, s') {
      CleanIsUnique(t, s');
      RebuildIsRight(t.Layout(), s'.recs);
      IndexIsDetermined(t.Layout(), s'.recs, s'.index, Rebuild(t.Layout(), s'.recs));
      RebuildCounts(t.Layout(), s'.recs);
    }
  }
}
