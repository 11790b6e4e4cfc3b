/** What each statement does to the state of the engine: the log, the in-memory index and the delete counter.
    The methods of the engine are proved against these functions. */
module Statements {
  import opened Text
  import opened Frames
  import opened Log
  import opened Conditions
  import opened Schemas
  import opened Serializer
  import opened Normalizer
  import opened Validator
  import opened Scanners

  datatype Table = Table(cols: seq<ColumnDef>, nums: Numbers) {
    predicate Valid() { ValidSchema(cols) }

    /** The tables whose rows the readers get right: see Serializer.ReadersNeedKeyFirst. */
    predicate KeyFirst() { Valid() && KeyIndex(cols) == 0 }

    function Layout(): (l: Layout)
      requires Valid()
      ensures l.Valid() && l.pk == KeyIndex(cols) && l.n == |cols|
    {
      LayoutOf(cols)
    }

    function Names(): seq<string> { Schemas.Names(cols) }

    function KeyName(): string
      requires Valid()
    {
      cols[KeyIndex(cols)].name
    }
  }

  datatype Stmt =
    | Insert(columns: Option<seq<string>>, rows: seq<seq<LiteralNode>>)
    | Select(columns: Option<seq<string>>, where: Where)
    | Update(assignments: seq<Assignment>, where: Where)
    | Delete(where: Where)
    | Restart

  /** Rejected: normalizer or validator refused, nothing was done. Aborted: an exception ended the statement. */
  datatype Outcome = Done | Rejected | Aborted | Result(rows: seq<Row>)

  datatype State = State(recs: seq<Rec>, index: map<string, nat>, deletes: nat)

  /** What holds in every state, whatever statements were run. */
  ghost predicate Inv(t: Table, s: State) {
    && t.Valid()
    && Sized(t.Layout(), s.recs)
    && IndexSound(t.Layout(), s.recs, s.index)
    && s.deletes <= Tombstones(s.recs)
  }

  function Selects(nums: Numbers, where: Where): Row -> bool {
    (row: Row) => Holds(nums, where, row)
  }

  /** The condition as DELETE evaluates it: the value is found through the column codes. SELECT and UPDATE take
      the i-th value of the record for column i. */
  function Placed(l: Layout, where: Where): Where
    requires l.Valid()
  {
    if where.None? || where.value.schemaIndex >= l.n then where
    else Some(where.value.(schemaIndex := l.Place(where.value.schemaIndex)))
  }

  /** DELETE evaluates every condition on the value on which the others do exactly when the key is the first
      column. */
  lemma PlacedFirst(l: Layout)
    requires l.Valid()
    ensures (forall where :: Placed(l, where) == where) <==> l.pk == 0
  {
    if l.pk != 0 {
      var first := Some(Condition("", Eq, LiteralNode(Number, ""), 0));
      assert Placed(l, first) != first;
    }
  }

  // ---- appending ----

  function RecsOf(kind: Kind, rows: seq<Row>): (recs: seq<Rec>)
    ensures |recs| == |rows| && forall i :: 0 <= i < |recs| ==> recs[i] == Rec(kind, rows[i])
  {
    seq(|rows|, i requires 0 <= i < |rows| => Rec(kind, rows[i]))
  }

  predicate RowsShaped(l: Layout, rows: seq<Row>) {
    l.Valid() && forall i :: 0 <= i < |rows| ==> |rows[i]| == l.n
  }

  /** Rows as they stand in the file. */
  function Filed(l: Layout, rows: seq<Row>): (r: seq<Row>)
    requires RowsShaped(l, rows)
    ensures |r| == |rows| && forall i :: 0 <= i < |r| ==> r[i] == FileOrder(l, rows[i])
    ensures RowsShaped(l, r)
  {
    seq(|rows|, i requires 0 <= i < |rows| => FileOrder(l, rows[i]))
  }

  lemma FiledFirst(l: Layout, rows: seq<Row>)
    requires RowsShaped(l, rows) && l.pk == 0
    ensures Filed(l, rows) == rows
  {
    hide FileOrder;
    ReadersNeedKeyFirst(l);
  }

  /** The index after the serializer has appended the rows one by one: the last record of a key wins. */
  function UpsertAll(l: Layout, recs: seq<Rec>, kind: Kind, rows: seq<Row>, index: map<string, nat>): map<string, nat>
    requires Shaped(l, recs) && RowsShaped(l, rows)
  {
    if rows == [] then index
    else
      var n := |rows| - 1;
      UpsertAll(l, recs, kind, rows[..n], index)[rows[n][0] := FramePos(l, recs + RecsOf(kind, rows[..n]), |recs| + n) + 8]
  }

  // ---- INSERT ----

  /** Refused, or the rows that are stored; not all of them if a default that cannot be read comes up. */
  datatype InsertPlan = Refuse | Store(stored: seq<Row>, complete: bool)

  function StoredPrefix(cols: seq<ColumnDef>, mask: seq<bool>, rows: seq<seq<Slot>>): (r: seq<Row>)
    requires |mask| == |cols| && forall i :: 0 <= i < |rows| ==> |rows[i]| == |cols| && HasKey(cols, rows[i])
    ensures |r| <= |rows| && forall i :: 0 <= i < |r| ==> |r[i]| == |cols|
    ensures forall i :: 0 <= i < |r| ==> Storable(cols, rows[i], mask) && r[i] == StoredRow(cols, rows[i], mask)
    ensures |r| < |rows| ==> !Storable(cols, rows[|r|], mask)
  {
    hide StoredValue, IsKey, KeyIndex, StoredRow, Storable, DefaultOf, FlagsOf;
    if rows == [] || !Storable(cols, rows[0], mask) then []
    else [StoredRow(cols, rows[0], mask)] + StoredPrefix(cols, mask, rows[1..])
  }

  function PlanInsert(t: Table, taken: set<string>, columns: Option<seq<string>>, rows: seq<seq<LiteralNode>>): (p: InsertPlan)
    requires t.Valid()
    ensures p.Store? ==> RowsShaped(t.Layout(), p.stored) && |p.stored| <= |rows|
  {
    var list := ColumnList(t.Names(), columns);
    var mask, normal := MaskOf(t.Names(), list), NormalRows(t.Names(), list, rows);
    if !InsertNormalizes(t.Names(), list, rows) || !InsertValid(t.cols, mask, normal, taken) then Refuse
    else
      assert forall i :: 0 <= i < |normal| ==> HasKey(t.cols, normal[i]) by {
        forall i | 0 <= i < |normal| ensures HasKey(t.cols, normal[i]) { ValidRowHasKey(t.cols, mask, normal[i]); }
      }
      var stored := StoredPrefix(t.cols, mask, normal);
      Store(stored, |stored| == |normal|)
  }

  // ---- compaction gate ----

  const COMPACTION_THRESHOLD: real := 0.40

  /** deletes / (1 + entries + deletes). */
  function Estimate(deletes: nat, entries: nat): real {
    deletes as real / (1 + entries + deletes) as real
  }

  /** calculateTombstoneRatio; None stands for the 0/0 of a file without records. */
  function TombstoneRatio(recs: seq<Rec>): Option<real> {
    if |recs| == 0 then None else Some(Tombstones(recs) as real / |recs| as real)
  }

  predicate EstimateReached(s: State) { Estimate(s.deletes, |s.index|) >= COMPACTION_THRESHOLD }

  predicate RatioReached(recs: seq<Rec>) {
    TombstoneRatio(recs).Some? && TombstoneRatio(recs).value >= COMPACTION_THRESHOLD
  }

  function Reindexed(l: Layout, s: State): State
    requires Shaped(l, s.recs)
  {
    s.(index := Rebuild(l, s.recs))
  }

  /** compactTable, the counter reset, and the index rebuilt. */
  function Compacted(l: Layout, s: State): State
    requires Shaped(l, s.recs)
  {
    LiveRecsShrink(l, s.recs);
    Reindexed(l, State(LiveRecs(s.recs), s.index, 0))
  }

  function Gate(l: Layout, s: State): State
    requires Shaped(l, s.recs)
  {
    if EstimateReached(s) && RatioReached(s.recs) then Compacted(l, s) else s
  }

  // ---- lookups ----

  /** The record to which an index entry leads. */
  ghost function RecordAt(l: Layout, recs: seq<Rec>, key: string, offset: nat): (k: nat)
    requires Shaped(l, recs) && exists k :: IsAt(l, recs, key, offset, k)
    ensures IsAt(l, recs, key, offset, k)
  {
    var k :| IsAt(l, recs, key, offset, k); k
  }

  /** The condition as the handlers see it: the column is known and, for `key = literal`, the lookup of the
      literal as it stands succeeds, and the literal suits the comparator. */
  function AcceptWhere(t: Table, where: Where, keys: set<string>): (r: Option<Where>)
    requires t.Valid()
    ensures r.Some? && r.value.Some? ==> where.Some? && r.value.value.schemaIndex < |t.cols|
  {
    var resolved := ResolveWhere(t.Names(), where);
    if resolved.Some? && WhereValid(resolved.value) &&
       (UniqueEqualityLookup(where, t.KeyName()) ==> where.value.literal.value in keys)
    then resolved else None
  }

  // ---- SELECT ----

  function Projections(mask: seq<bool>, rows: seq<Row>): (r: seq<Row>)
    requires forall i :: 0 <= i < |rows| ==> |rows[i]| == |mask|
    ensures |r| == |rows| && forall i :: 0 <= i < |r| ==> r[i] == Project(mask, rows[i])
  {
    seq(|rows|, i requires 0 <= i < |rows| => Project(mask, rows[i]))
  }

  lemma LiveRowsShaped(l: Layout, recs: seq<Rec>)
    requires Shaped(l, recs)
    ensures RowsShaped(l, LiveRows(recs))
  {
    LiveRowsMembers(recs);
    forall i | 0 <= i < |LiveRows(recs)| ensures |LiveRows(recs)[i]| == l.n {
      assert LiveRows(recs)[i] in LiveRows(recs);
    }
  }

  lemma FilterShaped(l: Layout, rows: seq<Row>, sel: Row -> bool, want: bool)
    requires RowsShaped(l, rows)
    ensures RowsShaped(l, Filter(rows, sel, want))
  {
    FilterMembers(rows, sel, want);
    forall i | 0 <= i < |Filter(rows, sel, want)| ensures |Filter(rows, sel, want)[i]| == l.n {
      assert Filter(rows, sel, want)[i] in rows;
    }
  }

  lemma MatchesShaped(l: Layout, recs: seq<Rec>, sel: Row -> bool)
    requires Shaped(l, recs)
    ensures RowsShaped(l, Filter(LiveRows(recs), sel, true))
  {
    LiveRowsShaped(l, recs);
    FilterShaped(l, LiveRows(recs), sel, true);
  }

  ghost function SelectOutcome(t: Table, s: State, columns: Option<seq<string>>, where: Where): Outcome
    requires Inv(t, s)
  {
    var list := ColumnList(t.Names(), columns);
    var mask := MaskOf(t.Names(), list);
    var w := AcceptWhere(t, where, s.index.Keys);
    if (exists c :: c in list && c !in t.Names()) || w.None? then Rejected
    else if UniqueEqualityLookup(where, t.KeyName()) then
      var key := Strip(where.value.literal.value);
      if key !in s.index then Aborted
      else
        var row := s.recs[RecordAt(t.Layout(), s.recs, key, s.index[key])].row;
        Result(if Holds(t.nums, w.value, row) then [Project(mask, row)] else [])
    else
      MatchesShaped(t.Layout(), s.recs, Selects(t.nums, w.value));
      Result(Projections(mask, Filter(LiveRows(s.recs), Selects(t.nums, w.value), true)))
  }

  // ---- DELETE ----

  /** The scan of DELETE, before the compaction gate. */
  function DeleteScanned(l: Layout, s: State, sel: Row -> bool): State
    requires Shaped(l, s.recs)
  {
    Reindexed(l, State(Mark(s.recs, sel), s.index, s.deletes + |Filter(LiveRows(s.recs), sel, true)|))
  }

  /** DELETE through the index, before the compaction gate. */
  ghost function DeleteIndexed(l: Layout, s: State, key: string): State
    requires Shaped(l, s.recs) && IndexSound(l, s.recs, s.index) && key in s.index
  {
    var k := RecordAt(l, s.recs, key, s.index[key]);
    State(s.recs[k := s.recs[k].Kill()], s.index - {key}, s.deletes + 1)
  }

  /** DELETE on an accepted condition, before the compaction gate: through the index where it is `key = literal`
      (None if the index does not have the key), by a scan otherwise. */
  ghost function DeletePrepared(t: Table, s: State, where: Where): (r: Option<State>)
    requires Inv(t, s)
    ensures r.Some? ==> Shaped(t.Layout(), r.value.recs)
  {
    hide FileBytes, IsKey, KeyIndex, LiveRows, Filter, Strip, Selects;
    var l := t.Layout();
    if UniqueEqualityLookup(where, t.KeyName()) then
      var key := Strip(where.value.literal.value);
      if key !in s.index then None else Some(DeleteIndexed(l, s, key))
    else Some(DeleteScanned(l, s, Selects(t.nums, Placed(l, where))))
  }

  ghost function DeleteAccepted(t: Table, s: State, where: Where): (State, Outcome)
    requires Inv(t, s)
  {
    var x := DeletePrepared(t, s, where);
    if x.None? then (s, Aborted) else (Gate(t.Layout(), x.value), Done)
  }

  /** Resolving and accepting a condition changes neither its kind nor its literal. */
  lemma AcceptedWhere(t: Table, where: Where, keys: set<string>)
    requires t.Valid() && AcceptWhere(t, where, keys).Some?
    ensures var w := AcceptWhere(t, where, keys).value;
            && (UniqueEqualityLookup(w, t.KeyName()) <==> UniqueEqualityLookup(where, t.KeyName()))
            && w.Some? == where.Some? && (w.Some? ==> w.value.literal == where.value.literal)
  {
    hide KeyIndex, IsKey, Find, WhereValid;
  }

  ghost function DeleteStep(t: Table, s: State, where: Where): (State, Outcome)
    requires Inv(t, s)
  {
    hide FileBytes, IsKey, KeyIndex;
    var w := AcceptWhere(t, StripWhere(where), s.index.Keys);
    if w.None? then (s, Rejected) else DeleteAccepted(t, s, w.value)
  }

  // ---- UPDATE ----

  /** The replacement of a row that was read: assigned texts and kept values alike pass removeOuterQuotes again on their way
      into the file. */
  function UpdatedRow(row: Row, texts: map<nat, string>): (r: Row)
    ensures |r| == |row|
  {
    seq(|row|, i requires 0 <= i < |row| => Strip(if i in texts then texts[i] else row[i]))
  }

  function UpdatedRows(rows: seq<Row>, texts: map<nat, string>): (r: seq<Row>)
    ensures |r| == |rows| && forall i :: 0 <= i < |r| ==> r[i] == UpdatedRow(rows[i], texts)
  {
    seq(|rows|, i requires 0 <= i < |rows| => UpdatedRow(rows[i], texts))
  }

  /** The assigned texts and the resolved condition of an UPDATE that is accepted. */
  function PlanUpdate(t: Table, assignments: seq<Assignment>, where: Where): Option<(map<nat, string>, Where)>
    requires t.Valid()
  {
    var w := ResolveWhere(t.Names(), where);
    if UpdateNormalizes(t.Names(), t.KeyName(), assignments) && w.Some? && WhereValid(w.value)
    then Some((AssignedTexts(t.Names(), assignments), w.value)) else None
  }

  /** The log that UPDATE leaves before the compaction gate: matched records marked, replacements appended. */
  function UpdatedLog(l: Layout, recs: seq<Rec>, sel: Row -> bool, texts: map<nat, string>): seq<Rec>
    requires Shaped(l, recs)
  {
    MatchesShaped(l, recs, sel);
    Mark(recs, sel) + RecsOf(Updated, Filed(l, UpdatedRows(Filter(LiveRows(recs), sel, true), texts)))
  }

  lemma UpdatedLogShaped(l: Layout, recs: seq<Rec>, sel: Row -> bool, texts: map<nat, string>)
    requires Shaped(l, recs)
    ensures Shaped(l, Mark(recs, sel)) && Shaped(l, UpdatedLog(l, recs, sel, texts))
    ensures RowsShaped(l, UpdatedRows(Filter(LiveRows(recs), sel, true), texts))
  {
    MatchesShaped(l, recs, sel);
  }

  /** UPDATE before the compaction gate. */
  function UpdateScanned(l: Layout, s: State, sel: Row -> bool, texts: map<nat, string>): State
    requires Shaped(l, s.recs)
  {
    UpdatedLogShaped(l, s.recs, sel, texts);
    Reindexed(l, State(UpdatedLog(l, s.recs, sel, texts), s.index, s.deletes + |Filter(LiveRows(s.recs), sel, true)|))
  }

  ghost function UpdateStep(t: Table, s: State, assignments: seq<Assignment>, where: Where): (State, Outcome)
    requires Inv(t, s)
  {
    var plan := PlanUpdate(t, assignments, where);
    if plan.None? then (s, Rejected)
    else
      var l, sel := t.Layout(), Selects(t.nums, plan.value.1);
      UpdatedLogShaped(l, s.recs, sel, plan.value.0);
      (Gate(l, UpdateScanned(l, s, sel, plan.value.0)), Done)
  }

  // ---- one statement, and runs of them ----

  ghost function InsertStep(t: Table, s: State, columns: Option<seq<string>>, rows: seq<seq<LiteralNode>>): (State, Outcome)
    requires Inv(t, s)
  {
    var plan := PlanInsert(t, s.index.Keys, columns, rows);
    if plan.Refuse? then (s, Rejected)
    else
      var l := t.Layout();
      (State(s.recs + RecsOf(Inserted, Filed(l, plan.stored)),
             UpsertAll(l, s.recs, Inserted, Filed(l, plan.stored), s.index), s.deletes),
       if plan.complete then Done else Aborted)
  }

  /** The file stays below 2^63 bytes while the statement runs. */
  ghost predicate Fits(t: Table, s: State, stmt: Stmt)
    requires Inv(t, s)
  {
    match stmt
    case Insert(columns, rows) =>
      var plan := PlanInsert(t, s.index.Keys, columns, rows);
      plan.Store? ==> Sized(t.Layout(), s.recs + RecsOf(Inserted, Filed(t.Layout(), plan.stored)))
    case Update(assignments, where) =>
      var plan := PlanUpdate(t, assignments, where);
      plan.Some? ==> Sized(t.Layout(), UpdatedLog(t.Layout(), s.recs, Selects(t.nums, plan.value.1), plan.value.0))
    case _ => true
  }

  /** A restart of the program: the index is built from the file and the counter starts at 0. */
  function Restarted(l: Layout, s: State): State
    requires Shaped(l, s.recs)
  {
    Reindexed(l, s.(deletes := 0))
  }

  ghost function Step(t: Table, s: State, stmt: Stmt): (State, Outcome)
    requires Inv(t, s)
  {
    match stmt
    case Insert(columns, rows) => InsertStep(t, s, columns, rows)
    case Select(columns, where) => (s, SelectOutcome(t, s, columns, where))
    case Update(assignments, where) => UpdateStep(t, s, assignments, where)
    case Delete(where) => DeleteStep(t, s, where)
    case Restart => (Restarted(t.Layout(), s), Done)
  }

  // ---- every statement keeps the invariant ----

  lemma MarkKeepsSize(l: Layout, recs: seq<Rec>, recs': seq<Rec>)
    requires Shaped(l, recs) && |recs| == |recs'|
    requires forall i :: 0 <= i < |recs| ==> recs'[i].row == recs[i].row
    ensures Shaped(l, recs') && |FileBytes(l, recs')| == |FileBytes(l, recs)|
  {
    hide Frame, FrameBytes;
    FramePosByRows(l, recs, recs', |recs|);
    FrameAt(l, recs, |recs|);
    FrameAt(l, recs', |recs|);
  }

  lemma {:induction false} UpsertAllKeepsIndex(l: Layout, recs: seq<Rec>, kind: Kind, rows: seq<Row>, index: map<string, nat>)
    requires Shaped(l, recs) && RowsShaped(l, rows) && (kind.Inserted? || kind.Updated?)
    requires IndexSound(l, recs, index)
    ensures Shaped(l, recs + RecsOf(kind, rows))
    ensures IndexSound(l, recs + RecsOf(kind, rows), UpsertAll(l, recs, kind, rows, index))
    ensures IndexComplete(l, recs, index) ==>
            IndexComplete(l, recs + RecsOf(kind, rows), UpsertAll(l, recs, kind, rows, index))
  {
    hide FramePos;
    if rows == [] {
      assert recs + RecsOf(kind, rows) == recs;
    } else {
      var n := |rows| - 1;
      UpsertAllKeepsIndex(l, recs, kind, rows[..n], index);
      var before := recs + RecsOf(kind, rows[..n]);
      var r := Rec(kind, rows[n]);
      assert recs + RecsOf(kind, rows) == before + [r];
      UpsertKeepsIndex(l, before, UpsertAll(l, recs, kind, rows[..n], index), r);
      TypePosAtEnd(l, before, r);
    }
  }

  lemma TypePosAtEnd(l: Layout, recs: seq<Rec>, r: Rec)
    requires Shaped(l, recs) && |r.row| == l.n && Shaped(l, recs + [r])
    ensures TypePos(l, recs + [r], |recs|) == FramePos(l, recs, |recs|) + 8
  {
    assert (recs + [r])[..|recs|] == recs[..|recs|];
  }

  lemma {:induction false} AllLive(kind: Kind, rows: seq<Row>)
    requires kind.Inserted? || kind.Updated?
    ensures LiveRows(RecsOf(kind, rows)) == rows && Tombstones(RecsOf(kind, rows)) == 0
    ensures LiveRecs(RecsOf(kind, rows)) == RecsOf(kind, rows)
  {
    if rows != [] {
      AllLive(kind, rows[1..]);
      assert RecsOf(kind, rows)[1..] == RecsOf(kind, rows[1..]);
      assert rows == [rows[0]] + rows[1..];
    }
  }

  lemma GateKeepsInv(t: Table, s: State)
    requires Inv(t, s)
    ensures Inv(t, Gate(t.Layout(), s))
  {
    hide FrameBytes, Rebuild, EstimateReached, RatioReached;
    var l := t.Layout();
    LiveRecsShrink(l, s.recs);
    CompactionIsStable(s.recs);
    RebuildIsRight(l, LiveRecs(s.recs));
  }

  lemma DeleteIndexedKeepsInv(t: Table, s: State, key: string)
    requires Inv(t, s) && key in s.index
    ensures Inv(t, DeleteIndexed(t.Layout(), s, key))
  {
    hide FileBytes, TypePos, IsKey, KeyIndex, Tombstones;
    var l := t.Layout();
    var k := RecordAt(l, s.recs, key, s.index[key]);
    EraseKeepsIndex(l, s.recs, s.index, key, k);
    KillOne(s.recs, k);
    MarkKeepsSize(l, s.recs, s.recs[k := s.recs[k].Kill()]);
  }

  lemma DeleteScannedKeepsInv(t: Table, s: State, sel: Row -> bool)
    requires Inv(t, s)
    ensures Inv(t, DeleteScanned(t.Layout(), s, sel))
  {
    hide FileBytes, Rebuild;
    var l := t.Layout();
    MarkSplits(s.recs, sel);
    MarkKeepsSize(l, s.recs, Mark(s.recs, sel));
    RebuildIsRight(l, Mark(s.recs, sel));
  }

  lemma DeletePreparedKeepsInv(t: Table, s: State, where: Where)
    requires Inv(t, s) && DeletePrepared(t, s, where).Some?
    ensures Inv(t, DeletePrepared(t, s, where).value)
  {
    hide FileBytes, IsKey, KeyIndex, LiveRows, Filter, Strip, Selects, DeleteScanned, DeleteIndexed;
    if UniqueEqualityLookup(where, t.KeyName()) {
      DeleteIndexedKeepsInv(t, s, Strip(where.value.literal.value));
    } else {
      DeleteScannedKeepsInv(t, s, Selects(t.nums, Placed(t.Layout(), where)));
    }
  }

  lemma UpdateKeepsInv(t: Table, s: State, assignments: seq<Assignment>, where: Where)
    requires Inv(t, s) && Fits(t, s, Update(assignments, where))
    ensures Inv(t, UpdateStep(t, s, assignments, where).0)
  {
    hide FileBytes, Rebuild, Gate, AssignedTexts, Mark, LiveRows, Filter, Tombstones, FramePos, Selects, UpdatedLog, IsKey, KeyIndex, PlanUpdate;
    var plan := PlanUpdate(t, assignments, where);
    if plan.Some? {
      UpdateScannedKeepsInv(t, s, Selects(t.nums, plan.value.1), plan.value.0);
      GateKeepsInv(t, UpdateScanned(t.Layout(), s, Selects(t.nums, plan.value.1), plan.value.0));
    }
  }

  lemma UpdateScannedKeepsInv(t: Table, s: State, sel: Row -> bool, texts: map<nat, string>)
    requires Inv(t, s) && Sized(t.Layout(), UpdatedLog(t.Layout(), s.recs, sel, texts))
    ensures Inv(t, UpdateScanned(t.Layout(), s, sel, texts))
  {
    hide FileBytes, Rebuild, Mark, LiveRows, Filter, Tombstones, FramePos, UpdatedLog, IsKey, KeyIndex;
    var l := t.Layout();
    UpdatedLogShaped(l, s.recs, sel, texts);
    UpdatedLogCounts(l, s.recs, sel, texts);
    RebuildIsRight(l, UpdatedLog(l, s.recs, sel, texts));
  }

  /** The live rows that UPDATE leaves: the unmatched ones in order, then each matched row once, replaced. */
  lemma UpdatedLogCounts(l: Layout, recs: seq<Rec>, sel: Row -> bool, texts: map<nat, string>)
    requires Shaped(l, recs) && RowsShaped(l, UpdatedRows(Filter(LiveRows(recs), sel, true), texts))
    ensures LiveRows(UpdatedLog(l, recs, sel, texts)) ==
            Filter(LiveRows(recs), sel, false) + Filed(l, UpdatedRows(Filter(LiveRows(recs), sel, true), texts))
    ensures Tombstones(UpdatedLog(l, recs, sel, texts)) == Tombstones(recs) + |Filter(LiveRows(recs), sel, true)|
  {
    hide Filter, LiveRows, Tombstones, FileOrder;
    var replaced := Filed(l, UpdatedRows(Filter(LiveRows(recs), sel, true), texts));
    MarkSplits(recs, sel);
    LogConcat(Mark(recs, sel), RecsOf(Updated, replaced));
    AllLive(Updated, replaced);
  }

  /** Every statement keeps the invariant: the index never leads anywhere but to a live record with its key,
      and the counter never exceeds the number of tombstones. */
  lemma StepKeepsInv(t: Table, s: State, stmt: Stmt)
    requires Inv(t, s) && Fits(t, s, stmt)
    ensures Inv(t, Step(t, s, stmt).0)
  {
    hide FileBytes, Rebuild, Gate, StoredPrefix, UpsertAll, DeletePrepared;
    var l := t.Layout();
    match stmt
    case Insert(columns, rows) =>
      var plan := PlanInsert(t, s.index.Keys, columns, rows);
      if plan.Store? {
        var filed := Filed(l, plan.stored);
        UpsertAllKeepsIndex(l, s.recs, Inserted, filed, s.index);
        LogConcat(s.recs, RecsOf(Inserted, filed));
      }
    case Select(_, _) =>
    case Update(assignments, where) => UpdateKeepsInv(t, s, assignments, where);
    case Delete(where) =>
      var w := AcceptWhere(t, StripWhere(where), s.index.Keys);
      if w.Some? && DeletePrepared(t, s, w.value).Some? {
        DeletePreparedKeepsInv(t, s, w.value);
        GateKeepsInv(t, DeletePrepared(t, s, w.value).value);
      }
    case Restart => RebuildIsRight(l, s.recs);
  }

  // ---- runs ----

  /** The file stays below 2^63 bytes all through a run. */
  ghost predicate RunFits(t: Table, s: State, stmts: seq<Stmt>)
    requires Inv(t, s)
    decreases |stmts|
  {
    stmts == [] ||
    (Fits(t, s, stmts[0]) && (StepKeepsInv(t, s, stmts[0]); RunFits(t, Step(t, s, stmts[0]).0, stmts[1..])))
  }

  /** The state after a run, and what each statement answered. */
  ghost function Run(t: Table, s: State, stmts: seq<Stmt>): (r: (State, seq<Outcome>))
    requires Inv(t, s) && RunFits(t, s, stmts)
    ensures Inv(t, r.0) && |r.1| == |stmts|
    decreases |stmts|
  {
    if stmts == [] then (s, [])
    else
      StepKeepsInv(t, s, stmts[0]);
      var (s1, out) := Step(t, s, stmts[0]);
      var (s2, outs) := Run(t, s1, stmts[1..]);
      (s2, [out] + outs)
  }

  lemma RunStep(t: Table, s: State, stmts: seq<Stmt>)
    requires Inv(t, s) && stmts != [] && RunFits(t, s, stmts)
    ensures Fits(t, s, stmts[0])
    ensures var s1 := Step(t, s, stmts[0]).0;
            && Inv(t, s1) && RunFits(t, s1, stmts[1..])
            && Run(t, s, stmts) == (Run(t, s1, stmts[1..]).0, [Step(t, s, stmts[0]).1] + Run(t, s1, stmts[1..]).1)
  {
    hide Step, Fits, Inv;
    StepKeepsInv(t, s, stmts[0]);
  }

  lemma RunOfNothing(t: Table, s: State)
    requires Inv(t, s)
    ensures RunFits(t, s, []) && Run(t, s, []) == (s, [])
  {
    hide Inv;
  }

  /** A run can be cut anywhere. */
  lemma {:induction false} RunConcat(t: Table, s: State, a: seq<Stmt>, b: seq<Stmt>)
    requires Inv(t, s)
    ensures RunFits(t, s, a + b) <==> RunFits(t, s, a) && RunFits(t, Run(t, s, a).0, b)
    ensures RunFits(t, s, a + b) ==>
              var (s1, outs1) := Run(t, s, a);
              var (s2, outs2) := Run(t, s1, b);
              Run(t, s, a + b) == (s2, outs1 + outs2)
    decreases |a|
  {
    hide Step, Fits, Inv;
    if a == [] {
      RunOfNothing(t, s);
      assert a + b == b;
      if RunFits(t, s, b) {
        assert [] + Run(t, s, b).1 == Run(t, s, b).1;
      }
    } else {
      assert (a + b)[0] == a[0] && (a + b)[1..] == a[1..] + b;
      if Fits(t, s, a[0]) {
        StepKeepsInv(t, s, a[0]);
        var s1 := Step(t, s, a[0]).0;
        RunConcat(t, s1, a[1..], b);
        if RunFits(t, s, a + b) {
          RunStep(t, s, a + b);
          RunStep(t, s, a);
          var out, outs1 := [Step(t, s, a[0]).1], Run(t, s1, a[1..]).1;
          var outs2 := Run(t, Run(t, s, a).0, b).1;
          assert out + (outs1 + outs2) == (out + outs1) + outs2;
        }
      }
    }
  }
}
