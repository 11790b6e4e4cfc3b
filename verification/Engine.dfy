/** The running engine: one table file and, beside it, the in-memory index and the delete counter. The statement
    handlers (src/DBEngine/filehandler/handlers) and the visitor that calls normalizer, validator and handler in
    turn (src/interpreter/interpreter_visitor.hpp). */
module Engines {
  import opened Text
  import opened Frames
  import opened Log
  import opened Conditions
  import opened Schemas
  import opened Serializer
  import opened TableFiles
  import opened Scanners
  import opened Compactor
  import opened Normalizer
  import opened Validator
  import opened Statements
  import opened Runs

  // ---- a scan that marks records while it goes on reading ----

  /** The rows marked among the first k records. */
  ghost function MarkedRows(recs: seq<Rec>, sel: Row -> bool, k: nat): seq<Row>
    requires k <= |recs|
  {
    Filter(LiveRows(recs[..k]), sel, true)
  }

  lemma MarkedRowsNext(recs: seq<Rec>, sel: Row -> bool, k: nat)
    requires k < |recs|
    ensures MarkedRows(recs, sel, k + 1) ==
            MarkedRows(recs, sel, k) + if recs[k].Live() && sel(recs[k].row) then [recs[k].row] else []
  {
    hide LiveRows;
    LogNext(recs, k);
    var tail := if recs[k].Live() then [recs[k].row] else [];
    FilterConcat(LiveRows(recs[..k]), tail, sel, true);
    assert recs[k].Live() ==> tail[1..] == [];
  }

  /** A file in which the first k records have been marked. Whatever was marked, every frame stands where it
      stood, the scan is at a frame boundary, and the record that comes next is the one that stood there. */
  ghost predicate MarkingAt(l: Layout, bytes: string, pos: nat, recs: seq<Rec>, sel: Row -> bool, k: nat) {
    && k <= |recs|
    && Sized(l, recs)
    && Sized(l, MarkedTo(recs, sel, k))
    && bytes == FileBytes(l, MarkedTo(recs, sel, k))
    && pos == FramePos(l, recs, k)
  }

  lemma MarkedKeepsFrames(l: Layout, recs: seq<Rec>, sel: Row -> bool, k: nat)
    requires Sized(l, recs) && k <= |recs|
    ensures Sized(l, MarkedTo(recs, sel, k))
    ensures FramePos(l, MarkedTo(recs, sel, k), k) == FramePos(l, recs, k)
    ensures |FileBytes(l, MarkedTo(recs, sel, k))| == |FileBytes(l, recs)|
    ensures NextAt(MarkedTo(recs, sel, k), k) == NextAt(recs, k)
  {
    hide FileBytes, FramePos;
    var marked := MarkedTo(recs, sel, k);
    MarkKeepsSize(l, recs, marked);
    FramePosByRows(l, recs, marked, k);
  }

  lemma MarkingBoundary(l: Layout, bytes: string, pos: nat, recs: seq<Rec>, sel: Row -> bool, k: nat)
    requires MarkingAt(l, bytes, pos, recs, sel, k)
    ensures Upcoming(l, bytes, pos, NextAt(recs, k))
    ensures k < |recs| ==> Landing(l, pos, NextAt(recs, k)) == FramePos(l, recs, k + 1)
    ensures k < |recs| ==> pos + 9 <= FramePos(l, recs, k + 1) <= |bytes|
  {
    hide FileBytes, Frame, Upcoming;
    MarkedKeepsFrames(l, recs, sel, k);
    BoundaryAt(l, MarkedTo(recs, sel, k), k);
    BoundaryAt(l, recs, k);
  }

  /** One step of the scan: the type byte overwritten if the record matches. */
  lemma MarkingStep(l: Layout, recs: seq<Rec>, sel: Row -> bool, k: nat)
    requires Sized(l, recs) && k < |recs|
    ensures Sized(l, MarkedTo(recs, sel, k)) && Sized(l, MarkedTo(recs, sel, k + 1))
    ensures FramePos(l, recs, k) + 8 < |FileBytes(l, MarkedTo(recs, sel, k))|
    ensures FileBytes(l, MarkedTo(recs, sel, k + 1)) ==
            if recs[k].Live() && sel(recs[k].row)
            then FileBytes(l, MarkedTo(recs, sel, k))[FramePos(l, recs, k) + 8 := KindCode(Deleted)]
            else FileBytes(l, MarkedTo(recs, sel, k))
  {
    hide FileBytes, FramePos;
    MarkedKeepsFrames(l, recs, sel, k);
    MarkedKeepsFrames(l, recs, sel, k + 1);
    MarkedNext(recs, sel, k);
    var marked := MarkedTo(recs, sel, k);
    if recs[k].Live() && sel(recs[k].row) {
      TombstoneWriteIsLocal(l, marked, k);
    } else {
      assert MarkedTo(recs, sel, k + 1) == marked;
      TombstoneWriteIsLocal(l, marked, k);
    }
  }

  /** The value DELETE reads through the column codes is the one at the place of the column in the file. */
  lemma SameValueRead(t: Table, where: Where, row: Row)
    requires t.Valid() && |row| == |t.cols|
    requires where.Some? ==> where.value.schemaIndex < |t.cols|
    ensures HoldsInFile(t.nums, t.Layout(), if where.Some? then where.value.schemaIndex else 0, where, row)
            == Selects(t.nums, Placed(t.Layout(), where))(row)
  {
  }

  lemma SelectsIsHolds(t: Table, where: Where, row: Row)
    ensures Selects(t.nums, where)(row) == Holds(t.nums, where, row)
  {
  }

  lemma NoRowsUpserted(l: Layout, recs: seq<Rec>, kind: Kind, index: map<string, nat>)
    requires Shaped(l, recs)
    ensures UpsertAll(l, recs, kind, [], index) == index && recs + RecsOf(kind, []) == recs
  {
  }

  /** One record appended: log, file and index each grow by it. */
  lemma AppendStep(l: Layout, recs: seq<Rec>, kind: Kind, rows: seq<Row>, i: nat, index: map<string, nat>)
    requires Shaped(l, recs) && RowsShaped(l, rows) && i < |rows|
    ensures Shaped(l, recs + RecsOf(kind, rows[..i])) && Shaped(l, recs + RecsOf(kind, rows[..i + 1]))
    ensures recs + RecsOf(kind, rows[..i + 1]) == recs + RecsOf(kind, rows[..i]) + [Rec(kind, rows[i])]
    ensures FileBytes(l, recs + RecsOf(kind, rows[..i + 1])) ==
            FileBytes(l, recs + RecsOf(kind, rows[..i])) + Frame(l, Rec(kind, rows[i]))
    ensures UpsertAll(l, recs, kind, rows[..i + 1], index) ==
            UpsertAll(l, recs, kind, rows[..i], index)[rows[i][0] := |FileBytes(l, recs + RecsOf(kind, rows[..i]))| + 8]
  {
    hide FileBytes, Frame, FramePos;
    var before := recs + RecsOf(kind, rows[..i]);
    assert rows[..i + 1][..i] == rows[..i];
    assert recs + RecsOf(kind, rows[..i + 1]) == before + [Rec(kind, rows[i])];
    AppendFrame(l, before, Rec(kind, rows[i]));
    FrameAt(l, before, |before|);
  }

  /** Before a turn of a marking scan: the record that comes next. */
  lemma ScanTurn(l: Layout, bytes: string, pos: nat, sel: Row -> bool, recs: seq<Rec>, k: nat)
    requires MarkingAt(l, bytes, pos, recs, sel, k)
    ensures Upcoming(l, bytes, pos, NextAt(recs, k)) && k <= |recs| && l.Valid()
    ensures k < |recs| ==> |recs[k].row| == l.n && NextAt(recs, k) == Some(recs[k])
    ensures k == |recs| ==> NextAt(recs, k) == None
  {
    hide FileBytes, Upcoming, FramePos, Frame;
    MarkingBoundary(l, bytes, pos, recs, sel, k);
  }

  /** After the turn: the frame has been passed and, if its record matches, marked; the scan stands at the next
      boundary, and there is less left of the file. */
  lemma ScanTurned(l: Layout, bytes: string, pos: nat, bytes': string, sel: Row -> bool, recs: seq<Rec>, k: nat)
    requires MarkingAt(l, bytes, pos, recs, sel, k) && k < |recs| && |recs[k].row| == l.n && l.Valid()
    requires var matches := recs[k].Live() && sel(recs[k].row);
             bytes' == if matches && pos + 8 < |bytes| then bytes[pos + 8 := KindCode(Deleted)] else bytes
    ensures var pos' := Landing(l, pos, Some(recs[k]));
            && MarkingAt(l, bytes', pos', recs, sel, k + 1)
            && pos < pos' <= |bytes'| == |bytes|
    ensures MarkedRows(recs, sel, k + 1) ==
            MarkedRows(recs, sel, k) + (if recs[k].Live() && sel(recs[k].row) then [recs[k].row] else [])
  {
    hide FileBytes, FramePos, MarkedRows, Frame, Upcoming, Landing;
    MarkingBoundary(l, bytes, pos, recs, sel, k);
    MarkingStep(l, recs, sel, k);
    MarkedRowsNext(recs, sel, k);
  }

  lemma MarkingStarts(l: Layout, f: TableFile, recs: seq<Rec>, sel: Row -> bool)
    requires Holding(l, f, recs) && f.pos == 32
    ensures MarkingAt(l, f.bytes, f.pos, recs, sel, 0) && MarkedRows(recs, sel, 0) == []
  {
    hide FileBytes;
    NothingMarked(l, recs, sel);
  }

  lemma MarkingEnds(l: Layout, f: TableFile, recs: seq<Rec>, sel: Row -> bool)
    requires MarkingAt(l, f.bytes, f.pos, recs, sel, |recs|)
    ensures Holding(l, f, Mark(recs, sel)) && MarkedRows(recs, sel, |recs|) == Filter(LiveRows(recs), sel, true)
  {
    hide FileBytes, LiveRows, Filter;
    AllMarked(recs, sel);
  }

  /** All that one turn of a reading scan needs to know. */
  lemma SelectTurn(t: Table, mask: seq<bool>, where: Where, recs: seq<Rec>, k: nat)
    requires t.Valid() && Sized(t.Layout(), recs) && k < |recs| && |mask| == |t.cols|
    requires RowsShaped(t.Layout(), MarkedRows(recs, Selects(t.nums, where), k))
    ensures var sel := Selects(t.nums, where);
            && RowsShaped(t.Layout(), MarkedRows(recs, sel, k + 1))
            && Projections(mask, MarkedRows(recs, sel, k + 1)) ==
               Projections(mask, MarkedRows(recs, sel, k)) +
               (if recs[k].Live() && sel(recs[k].row) then [Project(mask, recs[k].row)] else [])
            && Holds(t.nums, where, recs[k].row) == sel(recs[k].row)
  {
    hide FileBytes, MarkedRows, Evaluate, IsKey, KeyIndex, Project;
    MarkedRowsNext(recs, Selects(t.nums, where), k);
  }

  /** The column of a resolved condition is named like the key exactly when its index is that of the key. */
  lemma KeyColumnByName(t: Table, c: nat)
    requires t.Valid() && c < |t.cols|
    ensures t.cols[c].name == t.KeyName() <==> c == t.Layout().pk
  {
  }

  lemma NothingMarked(l: Layout, recs: seq<Rec>, sel: Row -> bool)
    requires Sized(l, recs)
    ensures MarkedTo(recs, sel, 0) == recs && MarkedRows(recs, sel, 0) == [] && FramePos(l, recs, 0) == 32
  {
    assert recs[..0] == [];
  }

  lemma AllMarked(recs: seq<Rec>, sel: Row -> bool)
    ensures MarkedTo(recs, sel, |recs|) == Mark(recs, sel)
    ensures MarkedRows(recs, sel, |recs|) == Filter(LiveRows(recs), sel, true)
  {
    assert recs[..|recs|] == recs && recs[|recs|..] == [];
  }

  /** The record that updateData builds: every value a string literal, assigned or old. */
  function Replacement(row: Row, texts: map<nat, string>): (slots: seq<Slot>)
    ensures |slots| == |row|
  {
    seq(|row|, i requires 0 <= i < |row| => Some(LiteralNode(Str, if i in texts then texts[i] else row[i])))
  }

  lemma ReplacementStored(t: Table, row: Row, texts: map<nat, string>)
    requires t.Valid() && |row| == |t.cols|
    ensures var mask, slots := seq(|t.cols|, _ => true), Replacement(row, texts);
            HasKey(t.cols, slots) && Storable(t.cols, slots, mask) &&
            StoredRow(t.cols, slots, mask) == UpdatedRow(row, texts)
  {
    hide IsKey, DefaultOf, Strip;
  }

  class Engine {
    const table: Table
    const file: TableFile
    var index: map<string, nat>
    var codes: map<string, nat>
    var deleteCount: nat
    ghost var recs: seq<Rec>

    ghost function Abs(): State
      reads this
    {
      State(recs, index, deleteCount)
    }

    /** The file holds the log byte for byte, and the column codes are those of the schema. */
    ghost predicate FileValid()
      reads this, file
    {
      && table.Valid()
      && Holding(table.Layout(), file, recs)
      && forall i :: 0 <= i < |table.cols| ==> table.cols[i].name in codes && codes[table.cols[i].name] == i
    }

    ghost predicate Valid()
      reads this, file
    {
      FileValid() && Inv(table, Abs())
    }

    /** Program start on an existing table: codes from the schema, index from the file, counter at 0. */
    constructor (t: Table, f: TableFile, ghost log: seq<Rec>)
      requires t.Valid() && Holding(t.Layout(), f, log)
      modifies f`pos
      ensures Valid() && table == t && file == f
      ensures Abs() == State(log, Rebuild(t.Layout(), log), 0)
    {
      hide FileBytes, Header, Frame, FrameBytes, IsKey, KeyIndex, Rebuild, FramePos;
      table, file, recs := t, f, log;
      index, codes, deleteCount := map[], map[], 0;
      new;
      var fatal, columnCodes := InitializeColumnEncodingMap(t.cols);
      codes := columnCodes;
      RecalculateIndices();
      RebuildIsRight(t.Layout(), log);
    }

    /** recalculateIndicesForTable. */
    method RecalculateIndices()
      requires FileValid()
      modifies `index, file`pos
      ensures FileValid() && Abs() == Reindexed(table.Layout(), old(Abs()))
    {
      hide FileBytes, Rebuild, Header, Frame, FrameBytes, IsKey, KeyIndex;
      OpensAtHeader(table.Layout(), recs);
      var valid := file.Open();
      index := ExtractPrimaryKeysIndex(table.Layout(), file, recs);
    }

    /** The end of deleteData and updateData: estimate, exact ratio, compaction. */
    method CompactIfDue()
      requires FileValid()
      modifies this, file
      ensures FileValid() && Abs() == Gate(table.Layout(), old(Abs()))
    {
      hide FileBytes, Rebuild, LiveRecs, Header, Frame, FrameBytes, IsKey, KeyIndex;
      var approximation := deleteCount as real / (1 + |index| + deleteCount) as real;
      if approximation >= COMPACTION_THRESHOLD {
        var ratio := CalculateTombstoneRatio(table.Layout(), file, recs);
        if ratio.Some? && ratio.value >= COMPACTION_THRESHOLD {
          CompactTable(table.Layout(), file, recs);
          recs := LiveRecs(recs);
          deleteCount := 0;
          RecalculateIndices();
        }
      }
    }

    // ---- INSERT ----

    /** insertData: the serializer is called row by row; an exception leaves the rows written before it. */
    method InsertData(mask: seq<bool>, rows: seq<seq<Slot>>) returns (complete: bool)
      requires FileValid() && |mask| == |table.cols|
      requires forall i :: 0 <= i < |rows| ==> |rows[i]| == |table.cols| && HasKey(table.cols, rows[i])
      requires Sized(table.Layout(), recs + RecsOf(Inserted, Filed(table.Layout(), StoredPrefix(table.cols, mask, rows))))
      modifies this, file
      ensures FileValid() && complete == (|StoredPrefix(table.cols, mask, rows)| == |rows|)
      ensures var stored := Filed(table.Layout(), StoredPrefix(table.cols, mask, rows));
              Abs() == State(old(recs) + RecsOf(Inserted, stored),
                             UpsertAll(table.Layout(), old(recs), Inserted, stored, old(index)), old(deleteCount))
    {
      hide FileBytes, StoredRow, Frame, FramePos, StoredPrefix, UpsertAll, FileOrder, Header, FrameBytes, IsKey, KeyIndex, RecsOf, Storable, Filed;
      NoRowsUpserted(table.Layout(), recs, Inserted, index);
      ghost var l := table.Layout();
      ghost var stored := Filed(l, StoredPrefix(table.cols, mask, rows));
      complete := true;
      assert stored[..0] == [];
      var i := 0;
      while i < |rows| && complete
        invariant i <= |stored| && (complete || i == |stored| < |rows|)
        invariant table.Valid() && codes == old(codes) && deleteCount == old(deleteCount)
        invariant recs == old(recs) + RecsOf(Inserted, stored[..i]) && Shaped(l, recs)
        invariant file.bytes == FileBytes(l, recs)
        invariant index == UpsertAll(l, old(recs), Inserted, stored[..i], old(index))
        decreases |rows| - i, complete
      {
        complete, index := SerializeNormalizedRecord(table.cols, codes, rows[i], mask, file, Inserted, index);
        if complete {
          AppendStep(l, old(recs), Inserted, stored, i, old(index));
          KeyLeads(l, StoredRow(table.cols, rows[i], mask));
          recs := recs + [Rec(Inserted, stored[i])];
          i := i + 1;
        }
      }
      assert stored[..|stored|] == stored;
    }

    // ---- DELETE ----

    /** performDeleteByIndexLookup: the key is looked up without its outer quotes; a missing key is an exception
        before anything is written. */
    method DeleteByIndexLookup(where: Where) returns (found: bool)
      requires Valid() && where.Some?
      modifies this, file
      ensures FileValid()
      ensures var key := Strip(where.value.literal.value);
              && found == (key in old(index))
              && Abs() == if found then DeleteIndexed(table.Layout(), old(Abs()), key).(deletes := old(deleteCount))
                          else old(Abs())
    {
      hide FileBytes, Header, Frame, FrameBytes, IsKey, KeyIndex;
      var key := Strip(where.value.literal.value);
      found := key in index;
      if found {
        var offset := index[key];
        ghost var k := RecordAt(table.Layout(), recs, key, offset);
        TombstoneWriteIsLocal(table.Layout(), recs, k);
        file.SeekTo(offset);
        file.PutByte(KindCode(Deleted));
        recs := recs[k := recs[k].Kill()];
        index := index - {key};
      }
    }

    /** The sequential loop of deleteData. */
    method MarkSequentially(where: Where)
      requires FileValid()
      requires where.Some? ==> where.value.schemaIndex < |table.cols| &&
                               table.cols[where.value.schemaIndex].name == where.value.column
      modifies this, file
      ensures FileValid()
      ensures var sel, s := Selects(table.nums, Placed(table.Layout(), where)), old(Abs());
              Abs() == State(Mark(s.recs, sel), s.index, s.deletes + |Filter(LiveRows(s.recs), sel, true)|)
    {
      hide MarkingAt, FileBytes, LiveRows, Frame, FramePos, Upcoming, Evaluate, MarkedTo, Mark, Filter, DistinctNames, MarkedRows, Holds, HoldsInFile, Selects, Placed, IsKey, Header, FrameBytes, KeyIndex, Tombstones, Rebuild;
      ghost var l, log, sel := table.Layout(), recs, Selects(table.nums, Placed(table.Layout(), where));
      ghost var column := if where.Some? then where.value.schemaIndex else 0;
      var keyColumn := ExtractPrimaryKeyColumn(table.cols);
      KeyColumnByName(table, column);
      OpensAtHeader(l, recs);
      var valid := file.Open();
      MarkingStarts(l, file, log, sel);
      ghost var k := 0;
      var result := Skip;
      while result != EndOfTable
        invariant k <= |log| && MarkingAt(l, file.bytes, file.pos, log, sel, k) && (result == EndOfTable ==> k == |log|)
        invariant codes == old(codes) && index == old(index) && deleteCount == old(deleteCount) + |MarkedRows(log, sel, k)|
        decreases |file.bytes| - file.pos, if result == EndOfTable then 0 else 1
      {
        ghost var bytes, pos := file.bytes, file.pos;
        ScanTurn(l, bytes, pos, sel, log, k);
        if k < |log| {
          SameValueRead(table, where, log[k].row);
        }
        result := PerformSequentialDelete(table.Layout(), file, table.nums, keyColumn, codes, where, column, NextAt(log, k));
        if result == Live {
          deleteCount := deleteCount + 1;
        }
        if k < |log| {
          ScanTurned(l, bytes, pos, file.bytes, sel, log, k);
          k := k + 1;
        }
      }
      MarkingEnds(l, file, log, sel);
      recs := Mark(log, sel);
    }

    /** deleteData, on a condition that was normalized and validated. */
    method DeleteData(where: Where) returns (out: Outcome)
      requires Valid()
      requires where.Some? ==> where.value.schemaIndex < |table.cols| &&
                               table.cols[where.value.schemaIndex].name == where.value.column
      modifies this, file
      ensures FileValid()
      ensures (Abs(), out) == DeleteAccepted(table, old(Abs()), where)
    {
      hide FileBytes, Gate, Mark, Rebuild, Header, Frame, FrameBytes, IsKey, KeyIndex, LiveRows, Filter, Selects, Placed, Strip, Tombstones, FramePos;
      var keyColumn := ExtractPrimaryKeyColumn(table.cols);
      if UniqueEqualityLookup(where, keyColumn) {
        var found := DeleteByIndexLookup(where);
        if !found {
          return Aborted;
        }
        deleteCount := 1 + deleteCount;
      } else {
        MarkSequentially(where);
        RecalculateIndices();
      }
      CompactIfDue();
      out := Done;
    }

    // ---- UPDATE ----

    /** The first step of updateData: collect the matched rows, marking each. */
    method CollectAndMark(where: Where) returns (oldRecords: seq<Row>)
      requires FileValid()
      requires where.Some? ==> where.value.schemaIndex < |table.cols|
      modifies this, file
      ensures FileValid()
      ensures var sel, s := Selects(table.nums, where), old(Abs());
              && oldRecords == Filter(LiveRows(s.recs), sel, true)
              && Abs() == State(Mark(s.recs, sel), s.index, s.deletes + |oldRecords|)
    {
      hide MarkingAt, FileBytes, LiveRows, Frame, FramePos, Upcoming, Evaluate, MarkedTo, Mark, Filter, DistinctNames, MarkedRows, Holds, HoldsInFile, Selects, IsKey, Header, FrameBytes, KeyIndex;
      ghost var l, log, sel := table.Layout(), recs, Selects(table.nums, where);
      OpensAtHeader(l, recs);
      var valid := file.Open();
      MarkingStarts(l, file, log, sel);
      ghost var k := 0;
      oldRecords := [];
      var result := Skip;
      while result != EndOfTable
        invariant k <= |log| && MarkingAt(l, file.bytes, file.pos, log, sel, k) && (result == EndOfTable ==> k == |log|)
        invariant codes == old(codes) && index == old(index) && deleteCount == old(deleteCount) + |oldRecords|
        invariant oldRecords == MarkedRows(log, sel, k)
        decreases |file.bytes| - file.pos, if result == EndOfTable then 0 else 1
      {
        ghost var bytes, pos := file.bytes, file.pos;
        ScanTurn(l, bytes, pos, sel, log, k);
        if k < |log| {
          SelectsIsHolds(table, where, log[k].row);
        }
        var row;
        result, row := DeserializeNextRecordAndMarkAsTombstone(table.Layout(), file, table.nums, where, NextAt(log, k));
        if result == Live {
          oldRecords := oldRecords + [row];
          deleteCount := deleteCount + 1;
        }
        if k < |log| {
          ScanTurned(l, bytes, pos, file.bytes, sel, log, k);
          k := k + 1;
        }
      }
      MarkingEnds(l, file, log, sel);
      recs := Mark(log, sel);
    }

    /** The second step of updateData: the replacement records. */
    method BuildReplacements(mask: seq<bool>, texts: map<nat, string>, oldRecords: seq<Row>)
      returns (newRecords: seq<seq<Slot>>)
      requires |mask| == |table.cols| && forall i :: 0 <= i < |mask| ==> mask[i] == (i !in texts)
      requires forall i :: 0 <= i < |oldRecords| ==> |oldRecords[i]| == |table.cols|
      ensures |newRecords| == |oldRecords|
      ensures forall i :: 0 <= i < |oldRecords| ==> newRecords[i] == Replacement(oldRecords[i], texts)
    {
      newRecords := [];
      for r := 0 to |oldRecords|
        invariant |newRecords| == r
        invariant forall i :: 0 <= i < r ==> newRecords[i] == Replacement(oldRecords[i], texts)
      {
        var values: seq<Slot> := [];
        for i := 0 to |table.cols|
          invariant values == Replacement(oldRecords[r], texts)[..i]
        {
          if mask[i] {
            values := values + [Some(LiteralNode(Str, oldRecords[r][i]))];
          } else {
            values := values + [Some(LiteralNode(Str, texts[i]))];
          }
        }
        newRecords := newRecords + [values];
      }
    }

    /** The third step of updateData: the replacements are appended. */
    method AppendReplacements(newRecords: seq<seq<Slot>>, ghost rows: seq<Row>, texts: map<nat, string>)
      requires FileValid() && |newRecords| == |rows| && RowsShaped(table.Layout(), rows)
      requires forall i :: 0 <= i < |rows| ==> newRecords[i] == Replacement(rows[i], texts)
      requires Sized(table.Layout(), recs + RecsOf(Updated, Filed(table.Layout(), UpdatedRows(rows, texts))))
      modifies this, file
      ensures FileValid() && recs == old(recs) + RecsOf(Updated, Filed(table.Layout(), UpdatedRows(rows, texts)))
      ensures deleteCount == old(deleteCount)
    {
      hide FileBytes, StoredRow, Frame, FramePos, UpsertAll, FileOrder, Header, FrameBytes, IsKey, KeyIndex, Storable, UpdatedRow;
      ghost var l := table.Layout();
      ghost var updated := Filed(l, UpdatedRows(rows, texts));
      NoRowsUpserted(l, recs, Updated, index);
      assert updated[..0] == [];
      var writeMask := seq(|table.cols|, _ => true);
      var i := 0;
      while i < |newRecords|
        invariant i <= |rows| && table.Valid() && codes == old(codes) && deleteCount == old(deleteCount)
        invariant recs == old(recs) + RecsOf(Updated, updated[..i]) && Shaped(l, recs)
        invariant file.bytes == FileBytes(l, recs)
      {
        ReplacementStored(table, rows[i], texts);
        var ok;
        ok, index := SerializeNormalizedRecord(table.cols, codes, newRecords[i], writeMask, file, Updated, index);
        AppendStep(l, old(recs), Updated, updated, i, index);
        recs := recs + [Rec(Updated, updated[i])];
        i := i + 1;
      }
      assert updated[..|updated|] == updated;
    }

    /** updateData, on a statement that was normalized and validated. */
    method UpdateData(mask: seq<bool>, texts: map<nat, string>, where: Where)
      requires Valid() && |mask| == |table.cols| && forall i :: 0 <= i < |mask| ==> mask[i] == (i !in texts)
      requires where.Some? ==> where.value.schemaIndex < |table.cols|
      requires Sized(table.Layout(), UpdatedLog(table.Layout(), recs, Selects(table.nums, where), texts))
      modifies this, file
      ensures FileValid()
      ensures var l, s, sel := table.Layout(), old(Abs()), Selects(table.nums, where);
              Shaped(l, UpdatedLog(l, s.recs, sel, texts)) && Abs() == Gate(l, UpdateScanned(l, s, sel, texts))
    {
      hide FileBytes, Gate, Mark, Rebuild, IsKey, KeyIndex, Header, FrameBytes, Frame, LiveRows, Filter, Selects, RecsOf, Filed, UpdatedRow, Tombstones, FileOrder;
      MatchesShaped(table.Layout(), recs, Selects(table.nums, where));
      var oldRecords := CollectAndMark(where);
      var newRecords := BuildReplacements(mask, texts, oldRecords);
      AppendReplacements(newRecords, oldRecords, texts);
      RecalculateIndices();
      CompactIfDue();
    }

    // ---- SELECT ----

    /** selectData through the index: the record before whose type byte the index points is read. */
    method SelectByIndexLookup(mask: seq<bool>, where: Where) returns (out: Outcome)
      requires Valid() && |mask| == |table.cols| && where.Some?
      modifies file`pos
      ensures Valid() && Abs() == old(Abs())
      ensures var key := Strip(where.value.literal.value);
              out == if key !in index then Aborted
                     else
                       var row := recs[RecordAt(table.Layout(), recs, key, index[key])].row;
                       Result(if Holds(table.nums, where, row) then [Project(mask, row)] else [])
    {
      hide FileBytes, IsKey, KeyIndex, Header, FrameBytes, Frame, FramePos, Evaluate, Upcoming, Landing;
      var key := Strip(where.value.literal.value);
      if key !in index {
        return Aborted;
      }
      var offset := index[key];
      ghost var k := RecordAt(table.Layout(), recs, key, offset);
      BoundaryAt(table.Layout(), recs, k);
      var start: nat := offset - 8;
      file.SeekTo(start);
      var result, row := DeserializeNextRecord(table.Layout(), file, table.nums, mask, where, NextAt(recs, k));
      out := Result(if result == Live then [row] else []);
    }

    /** selectData by a scan of the whole file. */
    method SelectSequentially(mask: seq<bool>, where: Where) returns (results: seq<Row>)
      requires FileValid() && |mask| == |table.cols|
      modifies file`pos
      ensures FileValid()
      ensures RowsShaped(table.Layout(), Filter(LiveRows(recs), Selects(table.nums, where), true))
      ensures results == Projections(mask, Filter(LiveRows(recs), Selects(table.nums, where), true))
    {
      hide FileBytes, IsKey, KeyIndex, Header, FrameBytes, Frame, FramePos, Evaluate, Upcoming, LiveRows, MarkedRows, MarkedTo, Mark, DistinctNames, Filter, Holds, Selects, Project;
      ghost var l, sel := table.Layout(), Selects(table.nums, where);
      MatchesShaped(l, recs, sel);
      OpensAtHeader(l, recs);
      NothingMarked(l, recs, sel);
      var valid := file.Open();
      results := [];
      ghost var k := 0;
      BoundaryAt(l, recs, 0);
      var result, row := DeserializeNextRecord(table.Layout(), file, table.nums, mask, where, NextAt(recs, 0));
      ghost var at := 32;
      while result != EndOfTable
        invariant k <= |recs| && at == FramePos(l, recs, k) && file.pos == Landing(l, at, NextAt(recs, k))
        invariant result == if k == |recs| then EndOfTable else if !recs[k].Live() then Tombstone
                            else if Holds(table.nums, where, recs[k].row) then Live else Skip
        invariant k < |recs| && recs[k].Live() ==> row == Project(mask, recs[k].row)
        invariant RowsShaped(l, MarkedRows(recs, sel, k)) && results == Projections(mask, MarkedRows(recs, sel, k))
        decreases |file.bytes| - at
      {
        BoundaryAt(l, recs, k);
        SelectTurn(table, mask, where, recs, k);
        if result == Live {
          results := results + [row];
        }
        k := k + 1;
        BoundaryAt(l, recs, k);
        at := file.pos;
        result, row := DeserializeNextRecord(table.Layout(), file, table.nums, mask, where, NextAt(recs, k));
      }
      AllMarked(recs, sel);
    }

    // ---- statements: normalize, validate, handle ----

    method VisitInsert(columns: Option<seq<string>>, rows: seq<seq<LiteralNode>>) returns (out: Outcome)
      requires Valid() && Fits(table, Abs(), Insert(columns, rows))
      modifies this, file
      ensures FileValid() && (Abs(), out) == InsertStep(table, old(Abs()), columns, rows)
    {
      hide FileBytes, IsKey, KeyIndex, Header, FrameBytes, Frame, StoredPrefix, UpsertAll, FlagsOf, SlotFor, Storable;
      var ok, mask, normalized := NormalizeInsert(table.cols, columns, rows);
      if !ok {
        return Rejected;
      }
      ok := ValidateInsertSemantics(table.cols, mask, normalized, index);
      AcceptedIsValid(table.cols, mask, normalized, index.Keys);
      if !ok {
        return Rejected;
      }
      forall i | 0 <= i < |normalized| ensures HasKey(table.cols, normalized[i]) {
        ValidRowHasKey(table.cols, mask, normalized[i]);
      }
      var complete := InsertData(mask, normalized);
      out := if complete then Done else Aborted;
    }

    method VisitSelect(columns: Option<seq<string>>, where: Where) returns (out: Outcome)
      requires Valid()
      modifies file`pos
      ensures Valid() && Abs() == old(Abs()) && out == SelectOutcome(table, Abs(), columns, where)
    {
      hide FileBytes, IsKey, KeyIndex, Header, FrameBytes, Frame, FramePos, LiveRows, Filter, Evaluate, Find, Selects;
      var ok, mask := NormalizeSelect(table.cols, columns);
      var resolved := ResolveWhere(Schemas.Names(table.cols), where);
      if !ok || resolved.None? {
        return Rejected;
      }
      var keyColumn := ExtractPrimaryKeyColumn(table.cols);
      if !KeyLookupValid(where, keyColumn, index) || !WhereValid(resolved.value) {
        return Rejected;
      }
      if UniqueEqualityLookup(where, keyColumn) {
        out := SelectByIndexLookup(mask, resolved.value);
      } else {
        var results := SelectSequentially(mask, resolved.value);
        out := Result(results);
      }
    }

    method VisitUpdate(assignments: seq<Assignment>, where: Where) returns (out: Outcome)
      requires Valid() && Fits(table, Abs(), Update(assignments, where))
      modifies this, file
      ensures FileValid() && (Abs(), out) == UpdateStep(table, old(Abs()), assignments, where)
    {
      hide FileBytes, IsKey, KeyIndex, Header, FrameBytes, Frame, FramePos, LiveRows, Filter, Find, Gate, Rebuild, AssignedTexts, UpdatedLog, Mark, Selects, Tombstones, Strip;
      var keyColumn := ExtractPrimaryKeyColumn(table.cols);
      var ok, mask, texts := NormalizeUpdate(table.cols, keyColumn, assignments);
      var resolved := ResolveWhere(Schemas.Names(table.cols), where);
      if !ok || resolved.None? || !WhereValid(resolved.value) {
        return Rejected;
      }
      UpdateData(mask, texts, resolved.value);
      out := Done;
    }

    method VisitDelete(where: Where) returns (out: Outcome)
      requires Valid()
      modifies this, file
      ensures FileValid() && (Abs(), out) == DeleteStep(table, old(Abs()), where)
    {
      hide FileBytes, IsKey, KeyIndex, Header, FrameBytes, Frame, LiveRows, Filter, Find, Gate, Rebuild, Mark, FramePos, Strip;
      var stripped := StripWhere(where);
      var resolved := ResolveWhere(Schemas.Names(table.cols), stripped);
      if resolved.None? {
        return Rejected;
      }
      var keyColumn := ExtractPrimaryKeyColumn(table.cols);
      if !KeyLookupValid(stripped, keyColumn, index) || !WhereValid(resolved.value) {
        return Rejected;
      }
      out := DeleteData(resolved.value);
    }

    /** One statement, or a restart: state and answer are those of Step, and the engine stays valid. */
    method Execute(stmt: Stmt) returns (out: Outcome)
      requires Valid() && Fits(table, Abs(), stmt)
      modifies this, file
      ensures Valid() && (Abs(), out) == Step(table, old(Abs()), stmt)
    {
      hide FileBytes, IsKey, KeyIndex, Inv, InsertStep, SelectOutcome, UpdateStep, DeleteStep, Fits;
      StepKeepsInv(table, Abs(), stmt);
      match stmt
      case Insert(columns, rows) => out := VisitInsert(columns, rows);
      case Select(columns, where) => out := VisitSelect(columns, where);
      case Update(assignments, where) => out := VisitUpdate(assignments, where);
      case Delete(where) => out := VisitDelete(where);
      case Restart =>
        deleteCount := 0;
        RecalculateIndices();
        out := Done;
    }

    /** A list of statements: the run of the specification. */
    method RunAll(stmts: seq<Stmt>) returns (outs: seq<Outcome>)
      requires Valid() && RunFits(table, Abs(), stmts)
      modifies this, file
      ensures Valid() && (Abs(), outs) == Run(table, old(Abs()), stmts)
    {
      hide Step, Fits, Inv, FileBytes, Run, RunFits, KeyIndex, IsKey, LiveRows;
      outs := [];
      assert stmts[0..] == stmts;
      ghost var whole := Run(table, Abs(), stmts);
      var i := 0;
      while i < |stmts|
        invariant i <= |stmts| && Valid() && RunFits(table, Abs(), stmts[i..])
        invariant Run(table, Abs(), stmts[i..]).0 == whole.0 && outs + Run(table, Abs(), stmts[i..]).1 == whole.1
      {
        assert stmts[i..][1..] == stmts[i + 1..];
        RunStep(table, Abs(), stmts[i..]);
        var out := Execute(stmts[i]);
        outs := outs + [out];
        i := i + 1;
      }
      RunOfNothing(table, Abs());
      assert stmts[i..] == [] && outs + [] == outs;
    }

    /** A list of statements: the run of the specification, and, while the keys of the plain table are distinct, the
        run of the plain table. */
    method ExecuteAll(stmts: seq<Stmt>) returns (outs: seq<Outcome>)
      requires Valid() && RunFits(table, Abs(), stmts)
      modifies this, file
      ensures Valid() && (Abs(), outs) == Run(table, old(Abs()), stmts)
      ensures old(Clean(table, Abs())) && RowsShaped(table.Layout(), LiveRows(old(recs))) && table.KeyFirst() &&
              KeysStayDistinct(table, LiveRows(old(recs)), stmts) ==>
                (LiveRows(recs), outs) == TableRun(table, LiveRows(old(recs)), stmts)
    {
      hide Step, Fits, Inv, FileBytes, Run, RunFits, Clean, KeysStayDistinct, TableRun, LiveRows;
      ghost var rows := LiveRows(recs);
      if Clean(table, Abs()) && RowsShaped(table.Layout(), rows) && table.KeyFirst() && KeysStayDistinct(table, rows, stmts) {
        RunRefinesTable(table, Abs(), stmts);
      }
      outs := RunAll(stmts);
    }
  }
}
