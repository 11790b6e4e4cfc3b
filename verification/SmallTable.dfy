/** A table of one column, on which runs can be followed byte by byte. */
module SmallTable {
  import opened Text
  import opened Frames
  import opened Log
  import opened Conditions
  import opened Schemas
  import opened Serializer
  import opened Normalizer
  import opened Validator
  import opened Statements
  import opened Runs

  function OneColumn(nums: Numbers): Table { Table([ColumnDef("id", ["PRIMARY KEY"])], nums) }

  /** The engine accepts it. */
  lemma OneColumnIsValid(nums: Numbers)
    ensures OneColumn(nums).KeyFirst()
  {
    var col := ColumnDef("id", ["PRIMARY KEY"]);
    hide Trim, Contains;
    TrimOfWord(col.modifiers[0]);
    assert Trim(col.modifiers[0]) == "PRIMARY KEY";
    assert IsKey([col][0]);
  }

  lemma SmallestRow(t: Table, literal: LiteralNode)
    requires t.KeyFirst() && |t.cols| == 1
    ensures NormalRows(t.Names(), ColumnList(t.Names(), None), [[literal]]) == [[Some(literal)]]
    ensures MaskOf(t.Names(), t.Names()) == [true]
    ensures RawKeys(t.cols, [[Some(literal)]]) == [literal.value]
  {
    var names := t.Names();
    assert names[..0] == [];
    assert SlotFor(names, [literal], names[0]) == Some(literal);
    assert NormalRow(names, names, [literal]) == [Some(literal)];
  }

  /** A new key is stored without its outer quotes. */
  lemma SmallestPlan(t: Table, taken: set<string>, literal: LiteralNode)
    requires t.KeyFirst() && |t.cols| == 1 && !literal.kind.Empty? && literal.value !in taken
    ensures PlanInsert(t, taken, None, [[literal]]) == Store([[Strip(literal.value)]], true)
  {
    hide IsKey, KeyIndex, FlagsOf, DefaultOf, Strip, NormalRows;
    SmallestRow(t, literal);
    var slots, mask := [Some(literal)], [true];
    var normal: seq<seq<Slot>> := [slots];
    assert RowComplete(t.cols, mask, slots);
    assert Storable(t.cols, slots, mask) && StoredRow(t.cols, slots, mask) == [Strip(literal.value)];
    assert normal[1..] == [];
    assert StoredPrefix(t.cols, mask, normal) == [[Strip(literal.value)]];
  }

  /** The frame of a one-column row takes 17 bytes and the key. */
  lemma SmallestFrame(l: Layout, recs: seq<Rec>, r: Rec)
    requires Shaped(l, recs) && l.n == 1 && |r.row| == 1
    ensures Shaped(l, recs + [r]) && |FileBytes(l, recs + [r])| == |FileBytes(l, recs)| + 17 + |r.row[0]|
  {
    hide FileBytes;
    AppendFrame(l, recs, r);
    assert r.row[1..] == [] && Literals([]) == [];
    assert |Tail(l, r.row)| == 8 + |r.row[0]|;
  }

  /** INSERT of one row. */
  lemma InsertOne(t: Table, s: State, literal: LiteralNode)
    requires |t.cols| == 1 && t.KeyFirst() && Inv(t, s)
    requires !literal.kind.Empty? && literal.value !in s.index
    requires |FileBytes(t.Layout(), s.recs)| + 17 + |Strip(literal.value)| < FILE_LIMIT
    ensures var ins, key := Insert(None, [[literal]]), Strip(literal.value);
            && Fits(t, s, ins)
            && Step(t, s, ins) == (State(s.recs + [Rec(Inserted, [key])],
                                         s.index[key := |FileBytes(t.Layout(), s.recs)| + 8], s.deletes), Done)
            && Inv(t, Step(t, s, ins).0)
            && |FileBytes(t.Layout(), Step(t, s, ins).0.recs)| == |FileBytes(t.Layout(), s.recs)| + 17 + |key|
  {
    hide LiveRows, FileBytes, PlanInsert, KeyIndex, IsKey, FileOrder, UpsertAll, Strip;
    var l, key := t.Layout(), Strip(literal.value);
    SmallestPlan(t, s.index.Keys, literal);
    FiledFirst(l, [[key]]);
    SmallestFrame(l, s.recs, Rec(Inserted, [key]));
    assert RecsOf(Inserted, [[key]]) == [Rec(Inserted, [key])];
    StepKeepsInv(t, s, Insert(None, [[literal]]));
    UpsertOne(l, s.recs, [key], s.index);
  }

  lemma UpsertOne(l: Layout, recs: seq<Rec>, row: Row, index: map<string, nat>)
    requires Shaped(l, recs) && |row| == l.n
    ensures UpsertAll(l, recs, Inserted, [row], index) == index[row[0] := |FileBytes(l, recs)| + 8]
  {
    hide FileBytes, FramePos;
    assert [row][..0] == [] && recs + RecsOf(Inserted, []) == recs;
    FrameAt(l, recs, |recs|);
  }

  lemma OneRowIsClean(t: Table)
    requires t.KeyFirst() && |t.cols| == 1
    ensures var s := State([Rec(Inserted, ["1"])], map["1" := 40], 0);
            Clean(t, s) && LiveRows(s.recs) == [["1"]] && Tombstones(s.recs) == 0 && |FileBytes(t.Layout(), s.recs)| == 50
  {
    hide KeyIndex, IsKey, FileBytes;
    var l, r := t.Layout(), Rec(Inserted, ["1"]);
    var recs := [r];
    assert recs[1..] == [] && LiveRecs([]) == [];
    assert LiveRecs(recs) == [r];
    assert LiveRows(recs) == [["1"]];
    assert [] + [r] == recs;
    SmallestFrame(l, [], r);
    EmptyFile(l);
    StartIsClean(t, recs);
    RebuildOne(l, r);
  }

  lemma EmptyFile(l: Layout)
    requires l.Valid()
    ensures |FileBytes(l, [])| == 32
  {
    hide Header;
  }

  lemma RebuildOne(l: Layout, r: Rec)
    requires l.Valid() && |r.row| == l.n && r.Live()
    ensures Rebuild(l, [r]) == map[r.row[0] := 40]
  {
    assert [r][..0] == [];
    assert FrameBytes(l, []) == [];
    assert Rebuild(l, []) == map[];
  }
}
