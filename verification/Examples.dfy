/** Runs on the one-column table that show what happens once a key is in it twice, or is stored with quotes. Each
    starts from a file with the one row 1. */
module Examples {
  import opened Text
  import opened Frames
  import opened Log
  import opened Conditions
  import opened Schemas
  import opened Serializer
  import opened Normalizer
  import opened Validator
  import opened Statements
  import opened CompactionGate
  import opened AccessPaths
  import opened Runs
  import opened SmallTable
  import Scanners

  // ---- following a run ----

  ghost predicate Reaches(t: Table, s: State, stmts: seq<Stmt>, s': State, outs: seq<Outcome>) {
    Inv(t, s) && RunFits(t, s, stmts) && Run(t, s, stmts) == (s', outs)
  }

  lemma ReachNext(t: Table, s: State, stmts: seq<Stmt>, s': State, outs: seq<Outcome>, next: Stmt)
    requires Reaches(t, s, stmts, s', outs) && Inv(t, s') && Fits(t, s', next)
    ensures Reaches(t, s, stmts + [next], Step(t, s', next).0, outs + [Step(t, s', next).1])
    ensures Inv(t, Step(t, s', next).0)
  {
    hide Inv, Fits, Step;
    StepKeepsInv(t, s', next);
    var s'' := Step(t, s', next).0;
    RunOfNothing(t, s'');
    assert [next][1..] == [] && [next][0] == next;
    assert RunFits(t, s', [next]);
    RunConcat(t, s, stmts, [next]);
    RunStep(t, s', [next]);
    assert [Step(t, s', next).1] + [] == [Step(t, s', next).1];
  }

  function InsertKey(literal: LiteralNode): Stmt { Insert(None, [[literal]]) }

  function WhereKey(literal: LiteralNode): Where { Some(Condition("id", Eq, literal, 0)) }

  const START: State := State([Rec(Inserted, ["1"])], map["1" := 40], 0)

  lemma AtStart(nums: Numbers)
    ensures var t := OneColumn(nums);
            && t.KeyFirst() && Clean(t, START) && Reaches(t, START, [], START, [])
            && |FileBytes(t.Layout(), START.recs)| == 50
  {
    hide FileBytes, KeyIndex, IsKey, Clean;
    OneColumnIsValid(nums);
    var t := OneColumn(nums);
    OneRowIsClean(t);
    CleanIsInv(t, START);
    RunOfNothing(t, START);
  }

  lemma ReachInsert(t: Table, stmts: seq<Stmt>, s: State, outs: seq<Outcome>, literal: LiteralNode)
    requires |t.cols| == 1 && t.KeyFirst() && Reaches(t, START, stmts, s, outs) && Inv(t, s)
    requires !literal.kind.Empty? && literal.value !in s.index
    requires |FileBytes(t.Layout(), s.recs)| + 17 + |Strip(literal.value)| < FILE_LIMIT
    ensures var key := Strip(literal.value);
            var s' := State(s.recs + [Rec(Inserted, [key])], s.index[key := |FileBytes(t.Layout(), s.recs)| + 8], s.deletes);
            && Reaches(t, START, stmts + [InsertKey(literal)], s', outs + [Done]) && Inv(t, s')
            && |FileBytes(t.Layout(), s'.recs)| == |FileBytes(t.Layout(), s.recs)| + 17 + |key|
  {
    hide Inv, Fits, Step, Reaches, FileBytes, Strip;
    InsertOne(t, s, literal);
    ReachNext(t, START, stmts, s, outs, InsertKey(literal));
  }

  // ---- DELETE by key on the one-column table ----

  lemma AcceptKey(t: Table, literal: LiteralNode, keys: set<string>)
    requires t == OneColumn(t.nums) && t.KeyFirst() && (literal.kind.Str? || literal.kind.Number?) && literal.value in keys
    ensures AcceptWhere(t, WhereKey(literal), keys) == Some(WhereKey(literal))
    ensures UniqueEqualityLookup(WhereKey(literal), t.KeyName())
  {
    hide KeyIndex, IsKey;
    assert t.Names()[0] == "id";
  }

  /** What a DELETE by a key of the index hands to the compaction gate, if the index leads to record k. */
  lemma DeleteKey(t: Table, s: State, literal: LiteralNode, k: nat)
    requires t == OneColumn(t.nums) && t.KeyFirst() && Inv(t, s) && (literal.kind.Str? || literal.kind.Number?)
    requires var key := Strip(literal.value);
             Strip(key) == key && key in s.index && k < |s.recs| && RecordAt(t.Layout(), s.recs, key, s.index[key]) == k
    ensures var key, del := Strip(literal.value), Delete(WhereKey(literal));
            && BeforeGate(t, s, del) == Some(State(s.recs[k := s.recs[k].Kill()], s.index - {key}, s.deletes + 1))
            && Fits(t, s, del) && Step(t, s, del).1 == Done
  {
    hide KeyIndex, IsKey, Strip, FileBytes, Tombstones, AcceptWhere, Gate, DeleteScanned, FramePos;
    var stripped := literal.(value := Strip(literal.value));
    AcceptKey(t, stripped, s.index.Keys);
    assert StripWhere(WhereKey(literal)) == WhereKey(stripped);
  }

  /** The same for a key that only record k has. */
  lemma DeleteOnlyKey(t: Table, s: State, literal: LiteralNode, k: nat)
    requires t == OneColumn(t.nums) && t.KeyFirst() && Inv(t, s) && (literal.kind.Str? || literal.kind.Number?)
    requires k < |s.recs| && Strip(Strip(literal.value)) == Strip(literal.value) && Strip(literal.value) in s.index
    requires forall j :: 0 <= j < |s.recs| && j != k && s.recs[j].Live() ==> s.recs[j].row != [Strip(literal.value)]
    ensures var key, del := Strip(literal.value), Delete(WhereKey(literal));
            var x := State(s.recs[k := s.recs[k].Kill()], s.index - {key}, s.deletes + 1);
            && BeforeGate(t, s, del) == Some(x) && Fits(t, s, del) && Step(t, s, del).1 == Done
            && Inv(t, x) && |FileBytes(t.Layout(), x.recs)| == |FileBytes(t.Layout(), s.recs)|
  {
    hide KeyIndex, IsKey, Strip, FileBytes, Tombstones, TypePos, Step, Fits, BeforeGate;
    var key := Strip(literal.value);
    var at := RecordAt(t.Layout(), s.recs, key, s.index[key]);
    assert s.recs[at].row == [key];
    assert at == k;
    DeleteKey(t, s, literal, k);
    StepPassesGate(t, s, Delete(WhereKey(literal)));
    MarkKeepsSize(t.Layout(), s.recs, s.recs[k := s.recs[k].Kill()]);
  }

  // ---- literals and records ----

  const ONE: LiteralNode := LiteralNode(Number, "1")
  const TWO: LiteralNode := LiteralNode(Number, "2")
  const QUOTED_ONE: LiteralNode := LiteralNode(Str, "'1'")
  const QUOTED_A: LiteralNode := LiteralNode(Str, "'a'")
  const DOUBLY_QUOTED_A: LiteralNode := LiteralNode(Str, "'\"a\"'")

  const LIVE_1: Rec := Rec(Inserted, ["1"])
  const LIVE_A: Rec := Rec(Inserted, ["a"])
  const LIVE_2: Rec := Rec(Inserted, ["2"])
  const DEAD_2: Rec := Rec(Deleted, ["2"])

  lemma KnownLiterals()
    ensures Strip("'a'") == "a" && Strip("a") == "a" && "'a'" != "a" && "'a'" != "1" && "'a'" != "2"
    ensures Strip("'1'") == "1" && Strip("1") == "1" && "'1'" != "1" && Strip("2") == "2"
    ensures Strip("'\"a\"'") == "\"a\"" && Strip("\"a\"") == "a" && "'\"a\"'" != "1"
  {
    assert |"'a'"| == 3 && |"'1'"| == 3;
    var twice, once := "'\"a\"'", "\"a\"";
    assert |twice| == 5 && twice[0] == '\'' && twice[4] == '\'' && twice[1..4] == once;
    assert |once| == 3 && once[0] == '"' && once[2] == '"' && once[1..2] == "a";
  }

  // ---- a dropped twin ----

  const INSERT_A: Stmt := InsertKey(QUOTED_A)
  const DELETE_A: Stmt := Delete(WhereKey(QUOTED_A))

  /** INSERT 'a' is accepted twice, and DELETE WHERE id = 'a' takes one of the two rows away. The live keys are then
      unique again, but the row a is not in the index, where a scan of the file would find it. */
  lemma TwinExample(nums: Numbers)
    ensures var t := OneColumn(nums);
            && t.KeyFirst() && Clean(t, START) && RunFits(t, START, [INSERT_A, INSERT_A, DELETE_A])
            && var (s', outs) := Run(t, START, [INSERT_A, INSERT_A, DELETE_A]);
            && outs == [Done, Done, Done] && UniqueKeys(s'.recs)
            && LiveRows(s'.recs) == [["1"], ["a"]]
            && s'.index.Keys == {"1"} && Rebuild(t.Layout(), s'.recs).Keys == {"1", "a"}
  {
    hide FileBytes, Rebuild, LiveRows, Step, Fits, KeyIndex, IsKey, Clean, UniqueKeys, Tombstones, Strip, Run, RunFits, EstimateReached, RatioReached, BeforeGate, Inv;
    var t := OneColumn(nums);
    AtStart(nums);
    KnownLiterals();
    var p0, o0 := [], [];
    ReachInsert(t, p0, START, o0, QUOTED_A);
    var p1, o1, s1 := p0 + [INSERT_A], o0 + [Done], State(START.recs + [LIVE_A], START.index["a" := 58], 0);
    ReachInsert(t, p1, s1, o1, QUOTED_A);
    var p2, o2, s2 := p1 + [INSERT_A], o1 + [Done], State(s1.recs + [LIVE_A], s1.index["a" := 76], 0);
    SecondTwin(t, s2);
    ReachNext(t, START, p2, s2, o2, DELETE_A);
    assert p2 + [DELETE_A] == [INSERT_A, INSERT_A, DELETE_A] && o2 + [Done] == [Done, Done, Done];
    AfterTwin(t, Step(t, s2, DELETE_A).0);
  }

  /** Of the two records with the key, the index leads to the one at which it points; the estimate is 1/3. */
  lemma SecondTwin(t: Table, s: State)
    requires t == OneColumn(t.nums) && t.KeyFirst() && Inv(t, s)
    requires s == State([LIVE_1, LIVE_A, LIVE_A], map["1" := 40, "a" := 76], 0)
    ensures Fits(t, s, DELETE_A)
    ensures Step(t, s, DELETE_A) == (State([LIVE_1, LIVE_A, Rec(Deleted, ["a"])], map["1" := 40], 1), Done)
  {
    hide FileBytes, LiveRows, Step, Fits, KeyIndex, IsKey, Tombstones, Strip, EstimateReached, RatioReached, BeforeGate, FramePos;
    KnownLiterals();
    TwinPositions(t.Layout(), s.recs);
    DeleteKey(t, s, QUOTED_A, 2);
    StepPassesGate(t, s, DELETE_A);
    var x := State(s.recs[2 := s.recs[2].Kill()], s.index - {"a"}, 1);
    assert x.index == map["1" := 40];
    assert x.recs == [LIVE_1, LIVE_A, Rec(Deleted, ["a"])];
    ThresholdsAre(x);
  }

  lemma TwinPositions(l: Layout, recs: seq<Rec>)
    requires Shaped(l, recs) && l.n == 1 && recs == [LIVE_1, LIVE_A, LIVE_A]
    ensures TypePos(l, recs, 0) == 40 && TypePos(l, recs, 1) == 58
  {
    hide Frame, FrameBytes;
    NoFrames(l);
    FramePosNext(l, recs, 0);
    SmallestFrame(l, [], recs[0]);
    AppendFrame(l, [], recs[0]);
    assert recs[..0] == [];
  }

  lemma AfterTwin(t: Table, s: State)
    requires Inv(t, s) && s.recs == [LIVE_1, LIVE_A, Rec(Deleted, ["a"])]
    ensures UniqueKeys(s.recs) && LiveRows(s.recs) == [["1"], ["a"]] && Rebuild(t.Layout(), s.recs).Keys == {"1", "a"}
  {
    hide TypePos, FileBytes, KeyIndex, IsKey, Tombstones;
    var l, recs := t.Layout(), s.recs;
    RebuildIsRight(l, recs);
    assert recs[1].row[0] in Rebuild(l, recs) && recs[0].row[0] in Rebuild(l, recs);
    forall key | key in Rebuild(l, recs) ensures key == "1" || key == "a" {
      var k :| IsAt(l, recs, key, Rebuild(l, recs)[key], k);
    }
    assert recs[1..][1..][1..] == [];
    assert LiveRecs(recs[1..][1..]) == [];
    assert LiveRecs(recs[1..]) == [recs[1]];
    assert LiveRecs(recs) == [recs[0], recs[1]];
  }

  // ---- the index and the scan disagree ----

  /** After INSERT '1' the table has the row 1 twice. SELECT * WHERE id = 1 answers one of them, where a scan with that
      condition accepts both; DELETE WHERE id = 1 leaves one, where the scan would leave none. */
  lemma PathsExample(nums: Numbers)
    ensures var t := OneColumn(nums);
            && t.KeyFirst() && Clean(t, START) && RunFits(t, START, [InsertKey(QUOTED_ONE)])
            && var s := Run(t, START, [InsertKey(QUOTED_ONE)]).0;
            && LiveRows(s.recs) == [["1"], ["1"]]
            && SelectOutcome(t, s, None, WhereKey(ONE)) == Result([["1"]])
            && Filter(LiveRows(s.recs), Selects(nums, WhereKey(ONE)), true) == [["1"], ["1"]]
            && LiveRows(Step(t, s, Delete(WhereKey(ONE))).0.recs) == [["1"]]
            && LiveRows(DeleteScanned(t.Layout(), s, Selects(nums, WhereKey(ONE))).recs) == []
  {
    hide FileBytes, LiveRows, Step, KeyIndex, IsKey, Clean, Tombstones, Strip, Run, RunFits, Filter, Selects, DeleteScanned, SelectOutcome, Inv;
    var t := OneColumn(nums);
    AtStart(nums);
    KnownLiterals();
    var p0, o0 := [], [];
    ReachInsert(t, p0, START, o0, QUOTED_ONE);
    var s := State(START.recs + [LIVE_1], START.index["1" := 58], 0);
    assert p0 + [InsertKey(QUOTED_ONE)] == [InsertKey(QUOTED_ONE)];
    assert s.recs == [LIVE_1, LIVE_1];
    TwoRows(s.recs, nums);
    TwoRowsScanned(t, s);
    SelectOne(t, s);
    DeleteOneOfTwo(t, s);
  }

  lemma DeleteOneOfTwo(t: Table, s: State)
    requires t == OneColumn(t.nums) && t.KeyFirst() && Inv(t, s) && s.recs == [LIVE_1, LIVE_1] && "1" in s.index
    ensures LiveRows(Step(t, s, Delete(WhereKey(ONE))).0.recs) == [["1"]]
  {
    hide FileBytes, LiveRows, Step, KeyIndex, IsKey, Tombstones, Strip, BeforeGate, Gate, TypePos;
    KnownLiterals();
    var k := RecordAt(t.Layout(), s.recs, "1", s.index["1"]);
    DeleteKey(t, s, ONE, k);
    StepPassesGate(t, s, Delete(WhereKey(ONE)));
    OneRowLeft(s.recs, k);
    GateKeepsRows(t.Layout(), State(s.recs[k := s.recs[k].Kill()], s.index - {"1"}, s.deletes + 1));
  }

  lemma GateKeepsRows(l: Layout, x: State)
    requires Shaped(l, x.recs)
    ensures LiveRows(Gate(l, x).recs) == LiveRows(x.recs)
  {
    hide LiveRecs, Rebuild, EstimateReached, RatioReached;
    CompactionIsStable(x.recs);
    LiveRecsShrink(l, x.recs);
  }

  lemma TwoRows(recs: seq<Rec>, nums: Numbers)
    requires recs == [LIVE_1, LIVE_1]
    ensures LiveRows(recs) == [["1"], ["1"]]
    ensures Filter(LiveRows(recs), Selects(nums, WhereKey(ONE)), true) == [["1"], ["1"]]
    ensures Filter(LiveRows(recs), Selects(nums, WhereKey(ONE)), false) == []
  {
    hide Like.LikeMatches;
    KnownLiterals();
    assert recs[1..][1..] == [] && LiveRecs([]) == [];
    assert LiveRecs(recs[1..]) == [recs[1]];
    var rows := LiveRows(recs);
    var sel := Selects(nums, WhereKey(ONE));
    assert sel(["1"]);
    assert rows[1..] == [["1"]] && rows[1..][1..] == [];
    assert Filter(rows[1..], sel, true) == [["1"]] && Filter(rows[1..], sel, false) == [];
  }

  lemma TwoRowsScanned(t: Table, s: State)
    requires Inv(t, s) && s.recs == [LIVE_1, LIVE_1]
    ensures LiveRows(DeleteScanned(t.Layout(), s, Selects(t.nums, WhereKey(ONE))).recs) == []
  {
    hide LiveRows, Filter, Selects, Rebuild, FileBytes, Tombstones, KeyIndex, IsKey;
    TwoRows(s.recs, t.nums);
    MarkSplits(s.recs, Selects(t.nums, WhereKey(ONE)));
  }

  lemma OneRowLeft(recs: seq<Rec>, k: nat)
    requires recs == [LIVE_1, LIVE_1] && k < 2
    ensures LiveRows(recs[k := recs[k].Kill()]) == [["1"]]
  {
    var left := recs[k := recs[k].Kill()];
    assert left[1..][1..] == [] && LiveRecs([]) == [];
    assert LiveRecs(left[1..]) == if k == 1 then [] else [left[1]];
  }

  lemma SelectOne(t: Table, s: State)
    requires t == OneColumn(t.nums) && t.KeyFirst() && Inv(t, s) && "1" in s.index
    ensures SelectOutcome(t, s, None, WhereKey(ONE)) == Result([["1"]])
  {
    hide KeyIndex, IsKey, FileBytes, FramePos, SelectOutcome, AcceptWhere, Evaluate, Tombstones, Strip;
    KnownLiterals();
    AcceptKey(t, ONE, s.index.Keys);
    var mask := MaskOf(t.Names(), t.Names());
    assert t.Names()[..0] == [] && mask == [true];
    var row := s.recs[RecordAt(t.Layout(), s.recs, "1", s.index["1"])].row;
    assert row == ["1"];
    assert Holds(t.nums, WhereKey(ONE), row);
    ProjectOne(row);
    SelectIndexed(t, s, ONE);
  }

  lemma SelectIndexed(t: Table, s: State, literal: LiteralNode)
    requires t == OneColumn(t.nums) && t.KeyFirst() && Inv(t, s)
    requires AcceptWhere(t, WhereKey(literal), s.index.Keys) == Some(WhereKey(literal)) && Strip(literal.value) in s.index
    ensures var key := Strip(literal.value);
            var row := s.recs[RecordAt(t.Layout(), s.recs, key, s.index[key])].row;
            SelectOutcome(t, s, None, WhereKey(literal)) ==
            Result(if Holds(t.nums, WhereKey(literal), row) then [Scanners.Project(MaskOf(t.Names(), t.Names()), row)] else [])
  {
    hide KeyIndex, IsKey, FileBytes, FramePos, LiveRows, Filter, AcceptWhere, Holds, Tombstones, Strip, Scanners.Project;
    assert t.KeyName() == "id";
  }

  lemma ProjectOne(row: Row)
    requires |row| == 1
    ensures Scanners.Project([true], row) == row
  {
    assert row[..0] == [] && [true][..0] == [];
  }

  // ---- the exact ratio declines ----

  const INSERT_2: Stmt := InsertKey(TWO)
  const DELETE_2: Stmt := Delete(WhereKey(TWO))

  /** INSERT 'a' three times, INSERT 2, DELETE 2, INSERT 2, DELETE 2: the second DELETE of 2 finds the estimate
      reached, 2/5, for an index of two entries, but of the six records only two are tombstones. */
  lemma DeclineExample(nums: Numbers)
    ensures var t, stmts := OneColumn(nums), [INSERT_A, INSERT_A, INSERT_A, INSERT_2, DELETE_2, INSERT_2];
            && t.KeyFirst() && Clean(t, START) && RunFits(t, START, stmts)
            && var s := Run(t, START, stmts).0;
            && Fits(t, s, DELETE_2) && BeforeGate(t, s, DELETE_2).Some?
            && var x := BeforeGate(t, s, DELETE_2).value;
            && EstimateReached(x) && !RatioReached(x.recs)
            && x.deletes == 2 && |x.index| == 2 && Tombstones(x.recs) == 2 && |LiveRows(x.recs)| == 4
  {
    hide FileBytes, LiveRows, Step, Fits, KeyIndex, IsKey, Clean, Tombstones, Strip, EstimateReached, RatioReached, BeforeGate, Inv, Run, RunFits;
    var t := OneColumn(nums);
    AtStart(nums);
    KnownLiterals();
    var p0, o0 := [], [];
    ReachInsert(t, p0, START, o0, QUOTED_A);
    var p1, o1, s1 := p0 + [INSERT_A], o0 + [Done], State(START.recs + [LIVE_A], START.index["a" := 58], 0);
    ReachInsert(t, p1, s1, o1, QUOTED_A);
    var p2, o2, s2 := p1 + [INSERT_A], o1 + [Done], State(s1.recs + [LIVE_A], s1.index["a" := 76], 0);
    ReachInsert(t, p2, s2, o2, QUOTED_A);
    var p3, o3, s3 := p2 + [INSERT_A], o2 + [Done], State(s2.recs + [LIVE_A], s2.index["a" := 94], 0);
    ReachInsert(t, p3, s3, o3, TWO);
    var p4, o4, s4 := p3 + [INSERT_2], o3 + [Done], State(s3.recs + [LIVE_2], s3.index["2" := 112], 0);
    DeleteTwo(t, p4, s4, o4);
    var p5, o5, s5 := p4 + [DELETE_2], o4 + [Done], State([LIVE_1, LIVE_A, LIVE_A, LIVE_A, DEAD_2], map["1" := 40, "a" := 94], 1);
    ReachInsert(t, p5, s5, o5, TWO);
    var p6, s6 := p5 + [INSERT_2], State(s5.recs + [LIVE_2], s5.index["2" := 130], 1);
    assert p6 == [INSERT_A, INSERT_A, INSERT_A, INSERT_2, DELETE_2, INSERT_2];
    Declines(t, s6);
  }

  /** The first DELETE of 2: one of three entries leaves the index, and the estimate is 1/4. */
  lemma DeleteTwo(t: Table, stmts: seq<Stmt>, s: State, outs: seq<Outcome>)
    requires t == OneColumn(t.nums) && t.KeyFirst() && Reaches(t, START, stmts, s, outs) && Inv(t, s)
    requires s == State([LIVE_1, LIVE_A, LIVE_A, LIVE_A, LIVE_2], map["1" := 40, "a" := 94, "2" := 112], 0)
    ensures var s' := State([LIVE_1, LIVE_A, LIVE_A, LIVE_A, DEAD_2], map["1" := 40, "a" := 94], 1);
            && Reaches(t, START, stmts + [DELETE_2], s', outs + [Done]) && Inv(t, s')
            && |FileBytes(t.Layout(), s'.recs)| == |FileBytes(t.Layout(), s.recs)|
  {
    hide FileBytes, LiveRows, Step, Fits, KeyIndex, IsKey, Tombstones, Strip, EstimateReached, RatioReached, BeforeGate, Reaches, Inv;
    KnownLiterals();
    DeleteOnlyKey(t, s, TWO, 4);
    var x := State(s.recs[4 := s.recs[4].Kill()], s.index - {"2"}, 1);
    assert x.index == map["1" := 40, "a" := 94];
    assert x.recs == [LIVE_1, LIVE_A, LIVE_A, LIVE_A, DEAD_2];
    ThresholdsAre(x);
    StepPassesGate(t, s, DELETE_2);
    ReachNext(t, START, stmts, s, outs, DELETE_2);
  }

  /** The second one: an index of two entries, and two tombstones among six records. */
  lemma Declines(t: Table, s: State)
    requires t == OneColumn(t.nums) && t.KeyFirst() && Inv(t, s)
    requires s == State([LIVE_1, LIVE_A, LIVE_A, LIVE_A, DEAD_2, LIVE_2], map["1" := 40, "a" := 94, "2" := 130], 1)
    ensures Fits(t, s, DELETE_2) && BeforeGate(t, s, DELETE_2).Some?
    ensures var x := BeforeGate(t, s, DELETE_2).value;
            && EstimateReached(x) && !RatioReached(x.recs)
            && x.deletes == 2 && |x.index| == 2 && Tombstones(x.recs) == 2 && |LiveRows(x.recs)| == 4
  {
    hide FileBytes, LiveRows, Step, Fits, KeyIndex, IsKey, Tombstones, Strip, EstimateReached, RatioReached, BeforeGate;
    KnownLiterals();
    DeleteOnlyKey(t, s, TWO, 5);
    var x := State(s.recs[5 := s.recs[5].Kill()], s.index - {"2"}, 2);
    assert x.index == map["1" := 40, "a" := 94];
    FourAndTwo(x.recs);
    ThresholdsAre(x);
  }

  lemma FourAndTwo(recs: seq<Rec>)
    requires recs == [LIVE_1, LIVE_A, LIVE_A, LIVE_A, DEAD_2, DEAD_2]
    ensures Tombstones(recs) == 2 && |LiveRows(recs)| == 4
  {
    var rows: seq<Row> := [["1"], ["a"], ["a"], ["a"]];
    var dead := [DEAD_2, DEAD_2];
    assert recs == RecsOf(Inserted, rows) + dead;
    AllLive(Inserted, rows);
    LogConcat(RecsOf(Inserted, rows), dead);
    assert dead[1..][1..] == [] && Tombstones([]) == 0;
    assert Tombstones(dead[1..]) == 1;
    LiveRecsMembers(dead);
  }

  // ---- the lookup misses ----

  const INSERT_QUOTED: Stmt := InsertKey(DOUBLY_QUOTED_A)
  const DELETE_QUOTED: Stmt := Delete(WhereKey(DOUBLY_QUOTED_A))

  /** INSERT '"a"' stores the key with its double quotes. The state is clean, and yet DELETE WHERE id = '"a"' is
      aborted: the key is found by the validator, and looked for without its quotes by the handler. */
  lemma MissExample(nums: Numbers)
    ensures var t := OneColumn(nums);
            && t.KeyFirst() && Clean(t, START) && RunFits(t, START, [INSERT_QUOTED, DELETE_QUOTED])
            && var (s', outs) := Run(t, START, [INSERT_QUOTED, DELETE_QUOTED]);
            && outs == [Done, Aborted] && LiveRows(s'.recs) == [["1"], ["\"a\""]] && UniqueKeys(s'.recs)
  {
    hide FileBytes, LiveRows, Step, Fits, KeyIndex, IsKey, Clean, Tombstones, Strip, Run, RunFits, UniqueKeys;
    var t := OneColumn(nums);
    AtStart(nums);
    KnownLiterals();
    ReachInsert(t, [], START, [], DOUBLY_QUOTED_A);
    var s1 := State(START.recs + [Rec(Inserted, ["\"a\""])], map["1" := 40, "\"a\"" := 58], 0);
    assert [] + [INSERT_QUOTED] == [INSERT_QUOTED] && [] + [Done] == [Done];
    Misses(t, s1);
    ReachNext(t, START, [INSERT_QUOTED], s1, [Done], DELETE_QUOTED);
    assert [INSERT_QUOTED] + [DELETE_QUOTED] == [INSERT_QUOTED, DELETE_QUOTED];
    assert [Done] + [Aborted] == [Done, Aborted];
    TwoKeys(s1.recs, "\"a\"");
  }

  lemma Misses(t: Table, s: State)
    requires t == OneColumn(t.nums) && t.KeyFirst() && Inv(t, s) && "\"a\"" in s.index && "a" !in s.index
    ensures Fits(t, s, DELETE_QUOTED) && Step(t, s, DELETE_QUOTED) == (s, Aborted)
  {
    hide KeyIndex, IsKey, Strip, FileBytes, Tombstones, AcceptWhere, Gate, DeleteScanned, FramePos;
    KnownLiterals();
    var stripped := LiteralNode(Str, "\"a\"");
    AcceptKey(t, stripped, s.index.Keys);
    assert StripWhere(WhereKey(DOUBLY_QUOTED_A)) == WhereKey(stripped);
  }

  lemma TwoKeys(recs: seq<Rec>, key: string)
    requires recs == [Rec(Inserted, ["1"]), Rec(Inserted, [key])] && key != "1"
    ensures LiveRows(recs) == [["1"], [key]] && UniqueKeys(recs)
  {
    assert recs[1..][1..] == [] && LiveRecs([]) == [];
    assert LiveRecs(recs[1..]) == [recs[1]];
  }
}
