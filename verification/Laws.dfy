/** Laws that relate several operations, and the exact conditions of those that do not hold of every input. */
module Laws {
  import opened Text
  import opened Frames
  import opened Log
  import opened Conditions
  import opened Schemas
  import opened Serializer
  import opened Normalizer
  import opened Validator
  import opened Statements
  import opened AccessPaths
  import opened Runs
  import opened SmallTable
  import Metadata
  import Scanners

  // ---- compaction ----

  /** The frames of the live records, in file order. */
  function LiveFrames(l: Layout, recs: seq<Rec>): string
    requires Shaped(l, recs)
  {
    if recs == [] then [] else (if recs[0].Live() then Frame(l, recs[0]) else []) + LiveFrames(l, recs[1..])
  }

  lemma {:induction false} CompactedBytes(l: Layout, recs: seq<Rec>)
    requires Shaped(l, recs)
    ensures Shaped(l, LiveRecs(recs)) && FrameBytes(l, LiveRecs(recs)) == LiveFrames(l, recs)
  {
    hide Frame;
    LiveRecsShrink(l, recs);
    if recs != [] {
      CompactedBytes(l, recs[1..]);
      if recs[0].Live() {
        assert LiveRecs(recs)[1..] == LiveRecs(recs[1..]);
      } else {
        assert LiveRecs(recs) == LiveRecs(recs[1..]);
      }
    }
  }

  /** Compaction: the header and the live frames, byte for byte and in order; no tombstone; the same table; and a
      file that would be compacted to itself. */
  lemma CompactionPreservesTable(l: Layout, recs: seq<Rec>)
    requires Sized(l, recs)
    ensures Sized(l, LiveRecs(recs)) && FileBytes(l, LiveRecs(recs)) == Header() + LiveFrames(l, recs)
    ensures Tombstones(LiveRecs(recs)) == 0 && LiveRows(LiveRecs(recs)) == LiveRows(recs)
    ensures LiveRecs(LiveRecs(recs)) == LiveRecs(recs)
  {
    hide FrameBytes, Header, LiveRecs, LiveRows, LiveFrames;
    CompactedBytes(l, recs);
    LiveRecsShrink(l, recs);
    CompactionIsStable(recs);
  }

  /** Looking a key up in the compacted file, through the rebuilt index, finds the row it found before. */
  lemma LookupSurvivesCompaction(l: Layout, recs: seq<Rec>, key: string)
    requires Sized(l, recs) && UniqueKeys(recs) && Shaped(l, LiveRecs(recs))
    ensures key in Rebuild(l, recs) <==> key in Rebuild(l, LiveRecs(recs))
    ensures key in Rebuild(l, recs) ==>
      (RebuildIsRight(l, recs); RebuildIsRight(l, LiveRecs(recs));
       recs[RecordAt(l, recs, key, Rebuild(l, recs)[key])].row ==
       LiveRecs(recs)[RecordAt(l, LiveRecs(recs), key, Rebuild(l, LiveRecs(recs))[key])].row)
  {
    hide TypePos, Rebuild, LiveRecs, FileBytes;
    var live := LiveRecs(recs);
    RebuildIsRight(l, recs);
    RebuildIsRight(l, live);
    LiveRecsMembers(recs);
    if key in Rebuild(l, recs) {
      var k := RecordAt(l, recs, key, Rebuild(l, recs)[key]);
      assert recs[k] in live;
      var i :| 0 <= i < |live| && live[i] == recs[k];
      assert live[i].row[0] in Rebuild(l, live);
      var j := RecordAt(l, live, key, Rebuild(l, live)[key]);
      assert live[j] in recs;
      var m :| 0 <= m < |recs| && recs[m] == live[j];
      assert m == k;
    }
    if key in Rebuild(l, live) {
      var j := RecordAt(l, live, key, Rebuild(l, live)[key]);
      assert live[j] in recs;
      var m :| 0 <= m < |recs| && recs[m] == live[j];
      assert recs[m].row[0] in Rebuild(l, recs);
    }
  }

  // ---- one condition, three statements ----

  /** DELETE takes outer quotes off its literal twice, SELECT and UPDATE once. The two readings accept the same
      rows, for every comparator, exactly when nothing is left to take off the second time. */
  lemma DeleteStripsTwice(nums: Numbers, c: Condition)
    ensures (forall cmp, row :: Holds(nums, StripWhere(Some(c.(cmp := cmp))), row) == Holds(nums, Some(c.(cmp := cmp)), row))
            <==> !Quoted(Strip(c.literal.value))
  {
    hide Strip, Quoted;
    var once := Strip(c.literal.value);
    if Quoted(once) {
      var row := seq(c.schemaIndex + 1, _ => once);
      assert Strip(once) != once;
      assert Holds(nums, Some(c.(cmp := Eq)), row) && !Holds(nums, StripWhere(Some(c.(cmp := Eq))), row);
    } else {
      assert Strip(once) == once;
      forall cmp, row ensures Holds(nums, StripWhere(Some(c.(cmp := cmp))), row) == Holds(nums, Some(c.(cmp := cmp)), row) {
        SameLiteral(nums, c.(cmp := cmp), row);
      }
    }
  }

  /** The literal '"a"', as the lexer hands it over, is such a literal: DELETE WHERE c = '"a"' takes the row a and
      leaves the row "a" that SELECT and UPDATE find. */
  lemma StripsTwiceExample(nums: Numbers)
    ensures var c := Condition("c", Eq, LiteralNode(Str, "'\"a\"'"), 0);
            && Holds(nums, Some(c), ["\"a\""]) && !Holds(nums, StripWhere(Some(c)), ["\"a\""])
            && !Holds(nums, Some(c), ["a"]) && Holds(nums, StripWhere(Some(c)), ["a"])
  {
    hide Like.LikeMatches;
    var literal, once, twice := "'\"a\"'", "\"a\"", "a";
    assert Quoted(literal) && Strip(literal) == literal[1..4] == once;
    assert Quoted(once) && Strip(once) == once[1..2] == twice;
    assert |once| != |twice|;
  }

  lemma SameLiteral(nums: Numbers, c: Condition, row: Row)
    requires !Quoted(Strip(c.literal.value))
    ensures Holds(nums, StripWhere(Some(c)), row) == Holds(nums, Some(c), row)
  {
    hide Strip, Like.LikeMatches;
    assert Strip(Strip(c.literal.value)) == Strip(c.literal.value);
  }

  lemma {:induction false} SameSelector(rows: seq<Row>, a: Row -> bool, b: Row -> bool, want: bool)
    requires forall r :: r in rows ==> a(r) == b(r)
    ensures Filter(rows, a, want) == Filter(rows, b, want)
  {
    if rows != [] {
      assert rows[0] in rows;
      SameSelector(rows[1..], a, b, want);
    }
  }

  lemma {:induction false} ProjectAll(mask: seq<bool>, row: Row)
    requires |mask| == |row| && forall i :: 0 <= i < |mask| ==> mask[i]
    ensures Scanners.Project(mask, row) == row
  {
    if row != [] {
      ProjectAll(mask[..|row| - 1], row[..|row| - 1]);
    }
  }

  /** Where all three statements go through, with a literal that has no second pair of quotes: DELETE removes
      exactly the rows that SELECT * returns, and UPDATE leaves what DELETE leaves, followed by the replacements
      of exactly those rows. */
  lemma SameConditionSameRows(t: Table, rows: seq<Row>, where: Where, assignments: seq<Assignment>, found: seq<Row>)
    requires t.KeyFirst() && RowsShaped(t.Layout(), rows)
    requires where.Some? ==> !Quoted(Strip(where.value.literal.value))
    requires TableStep(t, rows, Select(None, where)).1 == Result(found)
    requires TableStep(t, rows, Delete(where)).1 == Done
    requires TableStep(t, rows, Update(assignments, where)).1 == Done
    ensures forall r :: r in TableStep(t, rows, Delete(where)).0 <==> r in rows && r !in found
    ensures |TableStep(t, rows, Delete(where)).0| + |found| == |rows|
    ensures TableStep(t, rows, Update(assignments, where)).0 ==
            TableStep(t, rows, Delete(where)).0 + UpdatedRows(found, AssignedTexts(t.Names(), assignments))
  {
    hide Filter, IsKey, KeyIndex, AssignedTexts, Holds, Strip, Scanners.Project;
    var w := ResolveWhere(t.Names(), where).value;
    var d := ResolveWhere(t.Names(), StripWhere(where)).value;
    assert d == StripWhere(w);
    var sel := Selects(t.nums, w);
    forall r | r in rows ensures Selects(t.nums, d)(r) == sel(r) {
      if where.Some? {
        SameLiteral(t.nums, w.value, r);
      }
    }
    SameSelector(rows, Selects(t.nums, d), sel, false);
    FilterShaped(t.Layout(), rows, sel, true);
    var mask := MaskOf(t.Names(), t.Names());
    var matches := Filter(rows, sel, true);
    forall i | 0 <= i < |matches| ensures Projections(mask, matches)[i] == matches[i] {
      ProjectAll(mask, matches[i]);
    }
    assert found == matches;
    FilterMembers(rows, sel, true);
    FilterMembers(rows, sel, false);
  }

  // ---- UPDATE ----

  /** What an UPDATE is meant to leave of a row. */
  function Overlay(row: Row, texts: map<nat, string>): (r: Row)
    ensures |r| == |row|
  {
    seq(|row|, i requires 0 <= i < |row| => if i in texts then texts[i] else row[i])
  }

  function OverlaidRows(rows: seq<Row>, texts: map<nat, string>): (r: seq<Row>)
    ensures |r| == |rows| && forall i :: 0 <= i < |r| ==> r[i] == Overlay(rows[i], texts)
  {
    seq(|rows|, i requires 0 <= i < |rows| => Overlay(rows[i], texts))
  }

  predicate NoneQuoted(row: Row) { forall i :: 0 <= i < |row| ==> !Quoted(row[i]) }

  lemma RowIsExact(row: Row, texts: map<nat, string>)
    ensures UpdatedRow(row, texts) == Overlay(row, texts) <==> NoneQuoted(Overlay(row, texts))
  {
    hide Strip, Quoted;
    if UpdatedRow(row, texts) == Overlay(row, texts) {
      forall i | 0 <= i < |row| ensures !Quoted(Overlay(row, texts)[i]) {
        assert UpdatedRow(row, texts)[i] == Overlay(row, texts)[i];
      }
    }
  }

  /** Kept and assigned values lose a pair of outer quotes when they are written back: an accepted UPDATE leaves the
      table that it is meant to leave exactly when no value of a matched row, kept or assigned, has one. */
  lemma UpdateIsExact(t: Table, rows: seq<Row>, assignments: seq<Assignment>, where: Where)
    requires t.KeyFirst() && RowsShaped(t.Layout(), rows) && PlanUpdate(t, assignments, where).Some?
    ensures var texts, w := PlanUpdate(t, assignments, where).value.0, PlanUpdate(t, assignments, where).value.1;
            var sel := Selects(t.nums, w);
            TableStep(t, rows, Update(assignments, where)).0 ==
              Filter(rows, sel, false) + OverlaidRows(Filter(rows, sel, true), texts)
            <==> forall r :: r in rows && sel(r) ==> NoneQuoted(Overlay(r, texts))
  {
    hide Filter, Selects, PlanUpdate, IsKey, KeyIndex, Overlay, UpdatedRow, NoneQuoted;
    var texts, sel := PlanUpdate(t, assignments, where).value.0, Selects(t.nums, PlanUpdate(t, assignments, where).value.1);
    var kept, matched := Filter(rows, sel, false), Filter(rows, sel, true);
    FilterMembers(rows, sel, true);
    forall r ensures UpdatedRow(r, texts) == Overlay(r, texts) <==> NoneQuoted(Overlay(r, texts)) {
      RowIsExact(r, texts);
    }
    SameTail(kept, UpdatedRows(matched, texts), OverlaidRows(matched, texts));
    if UpdatedRows(matched, texts) == OverlaidRows(matched, texts) {
      forall r | r in matched ensures NoneQuoted(Overlay(r, texts)) {
        var i :| 0 <= i < |matched| && matched[i] == r;
        assert UpdatedRows(matched, texts)[i] == OverlaidRows(matched, texts)[i];
      }
    } else {
      var i :| 0 <= i < |matched| && UpdatedRows(matched, texts)[i] != OverlaidRows(matched, texts)[i];
      assert matched[i] in matched;
    }
  }

  lemma SameTail(a: seq<Row>, b: seq<Row>, c: seq<Row>)
    requires |b| == |c|
    ensures a + b == a + c <==> b == c
  {
    if a + b == a + c {
      assert b == (a + b)[|a|..] && c == (a + c)[|a|..];
    }
  }

  /** A stored value "a" that kept its double quotes loses them to an UPDATE of another column. */
  lemma UpdateUnquotesExample()
    ensures UpdatedRow(["1", "\"a\"", "x"], map[2 := "y"]) == ["1", "a", "y"]
  {
    var quoted := "\"a\"";
    assert Quoted(quoted) && Strip(quoted) == quoted[1..2] == "a";
    var updated := UpdatedRow(["1", quoted, "x"], map[2 := "y"]);
    assert updated[0] == "1" && updated[1] == "a" && updated[2] == "y";
  }

  /** No key is the key of another row, or its unquoted form, once that of the other row has lost its quotes. */
  predicate UpdateSafe(rows: seq<Row>)
    requires forall i :: 0 <= i < |rows| ==> |rows[i]| > 0
  {
    forall i, j :: 0 <= i < |rows| && 0 <= j < |rows| && i != j ==>
      Strip(rows[i][0]) != Strip(rows[j][0]) && rows[i][0] != Strip(rows[j][0])
  }

  /** UPDATE writes keys back without outer quotes. On a table with a second column, every UPDATE leaves distinct keys
      distinct if and only if no two of them meet in that way. */
  lemma UpdatesKeepDistinct(t: Table, rows: seq<Row>)
    requires t.KeyFirst() && |t.cols| >= 2 && RowsShaped(t.Layout(), rows) && DistinctKeys(rows)
    ensures (forall assignments, where :: DistinctKeys(TableStep(t, rows, Update(assignments, where)).0)) <==> UpdateSafe(rows)
  {
    hide TableStep, DistinctKeys, KeyIndex, IsKey, Strip, UpdateSafe;
    if UpdateSafe(rows) {
      forall assignments, where ensures DistinctKeys(TableStep(t, rows, Update(assignments, where)).0) {
        SafeUpdate(t, rows, assignments, where);
      }
    } else {
      var i, j := UnsafePair(rows);
      var assignments := [Assignment(t.cols[1].name, LiteralNode(Number, "0"))];
      if Strip(rows[i][0]) == Strip(rows[j][0]) {
        UpdateOfAll(t, rows, assignments, i, j);
      } else {
        UpdateOfOne(t, rows, assignments, i, j);
      }
    }
  }

  lemma UnsafePair(rows: seq<Row>) returns (i: nat, j: nat)
    requires (forall k :: 0 <= k < |rows| ==> |rows[k]| > 0) && !UpdateSafe(rows)
    ensures i < |rows| && j < |rows| && i != j
    ensures Strip(rows[i][0]) == Strip(rows[j][0]) || rows[i][0] == Strip(rows[j][0])
  {
    hide Strip;
    i, j :| 0 <= i < |rows| && 0 <= j < |rows| && i != j && (Strip(rows[i][0]) == Strip(rows[j][0]) || rows[i][0] == Strip(rows[j][0]));
  }

  /** The keys that an accepted UPDATE leaves. */
  lemma UpdatedKeys(t: Table, rows: seq<Row>, assignments: seq<Assignment>, where: Where)
    requires t.KeyFirst() && RowsShaped(t.Layout(), rows) && PlanUpdate(t, assignments, where).Some?
    ensures var plan := PlanUpdate(t, assignments, where).value;
            var kept, matched := Filter(rows, Selects(t.nums, plan.1), false), Filter(rows, Selects(t.nums, plan.1), true);
            var updated := TableStep(t, rows, Update(assignments, where)).0;
            && RowsShaped(t.Layout(), kept) && RowsShaped(t.Layout(), matched)
            && updated == kept + UpdatedRows(matched, plan.0)
            && forall i :: 0 <= i < |matched| ==> UpdatedRows(matched, plan.0)[i][0] == Strip(matched[i][0])
  {
    hide Filter, Selects, AssignedTexts, KeyIndex, IsKey, Strip, ResolveWhere, WhereValid;
    var plan := PlanUpdate(t, assignments, where).value;
    AssignedTextsMean(t.cols, t.KeyName(), assignments, 0);
    FilterShaped(t.Layout(), rows, Selects(t.nums, plan.1), false);
    FilterShaped(t.Layout(), rows, Selects(t.nums, plan.1), true);
  }

  lemma SafeUpdate(t: Table, rows: seq<Row>, assignments: seq<Assignment>, where: Where)
    requires t.KeyFirst() && RowsShaped(t.Layout(), rows) && DistinctKeys(rows) && UpdateSafe(rows)
    ensures DistinctKeys(TableStep(t, rows, Update(assignments, where)).0)
  {
    hide Filter, Selects, PlanUpdate, KeyIndex, IsKey, Strip, UpdatedRow;
    var plan := PlanUpdate(t, assignments, where);
    if plan.Some? {
      var sel := Selects(t.nums, plan.value.1);
      var kept, matched := Filter(rows, sel, false), Filter(rows, sel, true);
      UpdatedKeys(t, rows, assignments, where);
      DistinctFilter(rows, sel, false);
      DistinctFilter(rows, sel, true);
      FilterMembers(rows, sel, true);
      FilterMembers(rows, sel, false);
      forall i, j | 0 <= i < j < |matched| ensures Strip(matched[i][0]) != Strip(matched[j][0]) {
        assert matched[i] in rows && matched[j] in rows;
        SafePair(rows, matched[i], matched[j]);
      }
      forall i, j | 0 <= i < |kept| && 0 <= j < |matched| ensures kept[i][0] != Strip(matched[j][0]) {
        assert kept[i] in rows && matched[j] in rows;
        SafePair(rows, kept[i], matched[j]);
      }
    }
  }

  lemma SafePair(rows: seq<Row>, a: Row, b: Row)
    requires (forall k :: 0 <= k < |rows| ==> |rows[k]| > 0) && UpdateSafe(rows) && a in rows && b in rows && a != b
    ensures |a| > 0 && |b| > 0 && Strip(a[0]) != Strip(b[0]) && a[0] != Strip(b[0])
  {
    hide Strip;
    var i :| 0 <= i < |rows| && rows[i] == a;
    var j :| 0 <= j < |rows| && rows[j] == b;
  }

  lemma OneAssignment(t: Table, assignments: seq<Assignment>, where: Where)
    requires t.KeyFirst() && |t.cols| >= 2
    requires |assignments| == 1 && assignments[0].column == t.cols[1].name
    requires where.Some? ==> where.value.column == t.KeyName() && where.value.cmp.Eq? && where.value.literal.kind.Str?
    ensures PlanUpdate(t, assignments, where).Some?
    ensures var w := PlanUpdate(t, assignments, where).value.1;
            if where.None? then w == None else w == Some(where.value.(schemaIndex := 0))
  {
    hide KeyIndex, IsKey;
    var names := t.Names();
    assert names[0] == t.cols[0].name && names[1] == t.cols[1].name;
    assert t.cols[0].name != t.cols[1].name;
    if where.Some? {
      FindIsUnique(t.cols, 0);
    }
  }

  /** Two keys with the same unquoted form: an UPDATE of all rows. */
  lemma UpdateOfAll(t: Table, rows: seq<Row>, assignments: seq<Assignment>, i: nat, j: nat)
    requires t.KeyFirst() && |t.cols| >= 2 && RowsShaped(t.Layout(), rows)
    requires |assignments| == 1 && assignments[0].column == t.cols[1].name
    requires i < |rows| && j < |rows| && i != j && Strip(rows[i][0]) == Strip(rows[j][0])
    ensures !DistinctKeys(TableStep(t, rows, Update(assignments, None)).0)
  {
    hide TableStep, KeyIndex, IsKey, Strip, PlanUpdate, Filter, UpdatedRow;
    OneAssignment(t, assignments, None);
    UpdatedKeys(t, rows, assignments, None);
    var sel := Selects(t.nums, None);
    FilterAll(rows, sel);
    FilterMembers(rows, sel, true);
    var updated := TableStep(t, rows, Update(assignments, None)).0;
    assert Filter(rows, sel, false) == [];
    assert updated[i][0] == Strip(rows[i][0]) && updated[j][0] == Strip(rows[j][0]);
  }

  /** A key and another one that is quoted once more: an UPDATE of the row of the other. */
  lemma UpdateOfOne(t: Table, rows: seq<Row>, assignments: seq<Assignment>, i: nat, j: nat)
    requires t.KeyFirst() && |t.cols| >= 2 && RowsShaped(t.Layout(), rows) && DistinctKeys(rows)
    requires |assignments| == 1 && assignments[0].column == t.cols[1].name
    requires i < |rows| && j < |rows| && i != j && rows[i][0] == Strip(rows[j][0])
    ensures var where := Some(Condition(t.KeyName(), Eq, LiteralNode(Str, "'" + rows[j][0] + "'"), 0));
            !DistinctKeys(TableStep(t, rows, Update(assignments, where)).0)
  {
    hide TableStep, KeyIndex, IsKey, Strip, PlanUpdate, Filter, UpdatedRow, Like.LikeMatches;
    var key := rows[j][0];
    var where := Some(Condition(t.KeyName(), Eq, LiteralNode(Str, "'" + key + "'"), 0));
    OneAssignment(t, assignments, where);
    UpdatedKeys(t, rows, assignments, where);
    InQuotes(key);
    var plan := PlanUpdate(t, assignments, where).value;
    var sel := Selects(t.nums, plan.1);
    forall r | r in rows ensures sel(r) <==> r[0] == key {}
    var kept, matched := Filter(rows, sel, false), Filter(rows, sel, true);
    FilterMembers(rows, sel, true);
    FilterMembers(rows, sel, false);
    assert rows[j] in rows && rows[i] in rows && rows[i][0] != rows[j][0];
    assert rows[j] in matched && rows[i] in kept;
    var a :| 0 <= a < |kept| && kept[a] == rows[i];
    var b :| 0 <= b < |matched| && matched[b] == rows[j];
    var updated := TableStep(t, rows, Update(assignments, where)).0;
    assert updated[a][0] == rows[i][0] && updated[|kept| + b][0] == Strip(key);
  }

  lemma InQuotes(key: string)
    ensures Strip("'" + key + "'") == key
  {
    var quoted := "'" + key + "'";
    assert Quoted(quoted) && quoted[1..|quoted| - 1] == key;
  }

  /** The keys "a", with its double quotes, and a: an UPDATE of another column makes them equal. */
  lemma KeysMeetExample(t: Table)
    requires t.KeyFirst() && |t.cols| == 2
    ensures DistinctKeys([["\"a\"", "x"], ["a", "y"]])
    ensures exists assignments, where ::
              !DistinctKeys(TableStep(t, [["\"a\"", "x"], ["a", "y"]], Update(assignments, where)).0)
  {
    hide TableStep, KeyIndex, IsKey;
    var quoted, bare := "\"a\"", "a";
    assert Quoted(quoted) && Strip(quoted) == quoted[1..2] == bare;
    assert |quoted| != |bare|;
    var rows: seq<Row> := [[quoted, "x"], [bare, "y"]];
    assert rows[0][0] == quoted && rows[1][0] == bare;
    var assignments := [Assignment(t.cols[1].name, LiteralNode(Number, "0"))];
    UpdateOfAll(t, rows, assignments, 0, 1);
  }

  // ---- lookups by key ----

  /** Whatever loses its outer quotes among these keys is among them still. */
  ghost predicate ClosedUnderStrip(keys: set<string>) { forall key :: key in keys ==> Strip(key) in keys }

  /** The validator finds the literal of a DELETE in the index, and the handler looks it up with another pair of quotes
      taken off. No DELETE is aborted by a key that the index does not have if and only if every key of the index is
      there without its quotes too. */
  lemma DeletesNeverMiss(t: Table, s: State)
    requires Inv(t, s)
    ensures (forall where :: DeleteStep(t, s, where).1 != Aborted) <==> ClosedUnderStrip(s.index.Keys)
  {
    hide DeleteStep, FileBytes, KeyIndex, IsKey, Strip;
    if ClosedUnderStrip(s.index.Keys) {
      forall where ensures DeleteStep(t, s, where).1 != Aborted {
        DeleteAborts(t, s, where);
      }
    } else {
      var key :| key in s.index && Strip(key) !in s.index;
      var where := Some(Condition(t.KeyName(), Eq, LiteralNode(Str, "'" + key + "'"), 0));
      InQuotes(key);
      KeyLiteral(t, StripWhere(where), s.index.Keys);
      DeleteAborts(t, s, where);
      assert DeleteStep(t, s, where).1 == Aborted;
    }
  }

  /** A DELETE is aborted exactly when it is accepted, goes through the index, and its literal, stripped again, is not
      there. */
  lemma DeleteAborts(t: Table, s: State, where: Where)
    requires Inv(t, s)
    ensures DeleteStep(t, s, where).1 == Aborted <==>
            && AcceptWhere(t, StripWhere(where), s.index.Keys).Some? && UniqueEqualityLookup(where, t.KeyName())
            && Strip(StripWhere(where).value.literal.value) !in s.index
    ensures DeleteStep(t, s, where).1 == Aborted ==> StripWhere(where).value.literal.value in s.index
  {
    hide FileBytes, KeyIndex, IsKey, Strip, Gate, DeleteIndexed, DeleteScanned;
    if AcceptWhere(t, StripWhere(where), s.index.Keys).Some? {
      AcceptedWhere(t, StripWhere(where), s.index.Keys);
    }
  }

  lemma KeyLiteral(t: Table, where: Where, keys: set<string>)
    requires t.Valid() && where.Some? && where.value.literal.kind.Str? && UniqueEqualityLookup(where, t.KeyName())
    requires where.value.literal.value in keys
    ensures AcceptWhere(t, where, keys).Some?
  {
    hide KeyIndex, IsKey;
    assert t.Names()[t.Layout().pk] == t.KeyName();
  }

  /** The same of SELECT, whose literal the validator takes as it is spelled. */
  lemma SelectsNeverMiss(t: Table, s: State)
    requires Inv(t, s)
    ensures (forall columns, where :: SelectOutcome(t, s, columns, where) != Aborted) <==> ClosedUnderStrip(s.index.Keys)
  {
    hide SelectOutcome, FileBytes, KeyIndex, IsKey, Strip;
    if ClosedUnderStrip(s.index.Keys) {
      forall columns, where ensures SelectOutcome(t, s, columns, where) != Aborted {
        SelectAborts(t, s, columns, where);
      }
    } else {
      var key :| key in s.index && Strip(key) !in s.index;
      var where := Some(Condition(t.KeyName(), Eq, LiteralNode(Str, key), 0));
      KeyLiteral(t, where, s.index.Keys);
      SelectAborts(t, s, None, where);
      assert SelectOutcome(t, s, None, where) == Aborted;
    }
  }

  lemma SelectAborts(t: Table, s: State, columns: Option<seq<string>>, where: Where)
    requires Inv(t, s)
    ensures SelectOutcome(t, s, columns, where) == Aborted <==>
            && (forall c :: c in ColumnList(t.Names(), columns) ==> c in t.Names())
            && AcceptWhere(t, where, s.index.Keys).Some? && UniqueEqualityLookup(where, t.KeyName())
            && Strip(where.value.literal.value) !in s.index
    ensures SelectOutcome(t, s, columns, where) == Aborted ==> where.value.literal.value in s.index
  {
    hide FileBytes, KeyIndex, IsKey, Strip, LiveRows, Filter, Scanners.Project;
  }

  /** The validator of SELECT looks the literal up as it is spelled. A key that is in the index is found by
      `WHERE key = literal` if the literal carries no outer quotes; with quotes, the statement is refused unless the
      literal is a key with these quotes on. */
  lemma SelectByKeyNeedsBareLiteral(t: Table, s: State, columns: Option<seq<string>>, where: Where)
    requires Inv(t, s) && UniqueEqualityLookup(where, t.KeyName()) && WhereValid(where)
    requires Strip(where.value.literal.value) in s.index
    requires forall c :: c in ColumnList(t.Names(), columns) ==> c in t.Names()
    ensures SelectOutcome(t, s, columns, where) != Rejected <==>
            !Quoted(where.value.literal.value) || where.value.literal.value in s.index
    ensures SelectOutcome(t, s, columns, where) != Rejected && t.KeyFirst() ==>
            SelectOutcome(t, s, columns, where).Result? && |SelectOutcome(t, s, columns, where).rows| == 1
  {
    hide LiveRows, Filter, IsKey, KeyIndex, Scanners.Project, FramePos, FileBytes, Strip, Quoted, Evaluate;
    var literal := where.value.literal.value;
    assert t.Names()[t.Layout().pk] == t.KeyName();
    if AcceptWhere(t, where, s.index.Keys).Some? {
      var k := RecordAt(t.Layout(), s.recs, Strip(literal), s.index[Strip(literal)]);
      KeyCondition(t, where, s.index.Keys, s.recs[k].row);
    }
  }

  /** On a table with the row a, SELECT WHERE id = 'a' is refused, and DELETE with the same condition takes the row
      away. */
  lemma SelectByKeyExample(nums: Numbers)
    ensures var t, where := OneColumn(nums), Some(Condition("id", Eq, LiteralNode(Str, "'a'"), 0));
            && t.KeyFirst()
            && TableStep(t, [["a"]], Select(None, where)) == ([["a"]], Rejected)
            && TableStep(t, [["a"]], Delete(where)) == ([], Done)
  {
    hide IsKey, KeyIndex, FlagsOf, DefaultOf, Like.LikeMatches, Strip;
    OneColumnIsValid(nums);
    SingleA();
    var t, rows := OneColumn(nums), [["a"]];
    var where := StripWhere(Some(Condition("id", Eq, LiteralNode(Str, "'a'"), 0)));
    assert t.Names()[0] == "id";
    assert rows[0][0] == "a" && KeysOf(rows) == {"a"};
    var w := AcceptWhere(t, where, KeysOf(rows)).value;
    assert Selects(t.nums, w)(["a"]);
    assert rows[1..] == [];
    assert Filter(rows, Selects(t.nums, w), false) == [];
  }

  lemma SingleA()
    ensures Strip("'a'") == "a" && Strip("a") == "a" && "'a'" != "a"
  {
    assert |"'a'"| == 3;
  }

  // ---- INSERT ----

  lemma StoredRowMeans(t: Table, mask: seq<bool>, slots: seq<Slot>, i: nat)
    requires t.Valid() && |mask| == |slots| == |t.cols| && RowComplete(t.cols, mask, slots)
    requires HasKey(t.cols, slots) && Storable(t.cols, slots, mask) && i < |t.cols|
    ensures mask[i] && !EmptySlot(slots[i]) ==> StoredRow(t.cols, slots, mask)[i] == Strip(slots[i].value.value)
    ensures !mask[i] || EmptySlot(slots[i]) ==>
              i != KeyIndex(t.cols) && DefaultOf(t.cols[i].modifiers) == Some(StoredRow(t.cols, slots, mask)[i])
  {
    hide DefaultOf, Strip, FlagsOf;
    ValidRowHasKey(t.cols, mask, slots);
  }

  /** Naming the columns of an INSERT in another order, with every row in that order, plans the same rows: the
      bytes written are identical. */
  lemma InsertOrderIsIrrelevant(t: Table, taken: set<string>, list: seq<string>, given: seq<seq<LiteralNode>>,
                                permuted: seq<seq<LiteralNode>>, order: seq<nat>)
    requires t.Valid() && IsPermutation(order, |list|) && forall a, b :: 0 <= a < b < |list| ==> list[a] != list[b]
    requires |permuted| == |given|
    requires forall r :: 0 <= r < |given| ==> |given[r]| == |list| && permuted[r] == Permuted(given[r], order)
    ensures PlanInsert(t, taken, Some(Permuted(list, order)), permuted) == PlanInsert(t, taken, Some(list), given)
  {
    hide IsKey, KeyIndex, SlotFor, InsertValid, StoredPrefix;
    var names, list' := t.Names(), Permuted(list, order);
    forall r | 0 <= r < |given| ensures NormalRow(names, list', permuted[r]) == NormalRow(names, list, given[r]) {
      ColumnOrderIsIrrelevant(names, list, given[r], order);
    }
    assert NormalRows(names, list', permuted) == NormalRows(names, list, given);
    SameColumns(names, list, order);
  }

  lemma SameColumns(names: seq<string>, list: seq<string>, order: seq<nat>)
    requires IsPermutation(order, |list|)
    ensures MaskOf(names, Permuted(list, order)) == MaskOf(names, list)
    ensures (forall c :: c in Permuted(list, order) ==> c in names) <==> (forall c :: c in list ==> c in names)
  {
    var list' := Permuted(list, order);
    forall c ensures c in list' <==> c in list {
      if c in list {
        var j :| 0 <= j < |list| && list[j] == c;
        assert j in order;
        var p :| 0 <= p < |order| && order[p] == j;
        assert list'[p] == c;
      }
    }
  }

  // ---- what is stored and what is read back ----

  /** SELECT * returns the live rows as they stand in the file, wherever the key is. */
  lemma SelectStar(t: Table, s: State)
    requires Inv(t, s)
    ensures SelectOutcome(t, s, None, None) == Result(LiveRows(s.recs))
  {
    hide LiveRows, Filter, KeyIndex, IsKey, FileBytes, Scanners.Project;
    var mask, sel := MaskOf(t.Names(), t.Names()), Selects(t.nums, None);
    var rows := LiveRows(s.recs);
    LiveRowsShaped(t.Layout(), s.recs);
    AllFirstNamed(t.cols);
    FilterAll(rows, sel);
    forall i | 0 <= i < |rows| ensures Scanners.Project(mask, rows[i]) == rows[i] {
      ProjectAll(mask, rows[i]);
    }
    assert Projections(mask, rows) == rows;
  }

  lemma {:induction false} FilterAll(rows: seq<Row>, sel: Row -> bool)
    requires forall r :: sel(r)
    ensures Filter(rows, sel, true) == rows
  {
    if rows != [] {
      FilterAll(rows[1..], sel);
    }
  }

  /** After an accepted INSERT, SELECT * answers the rows that were there and then the stored ones, in the order of
      the file. */
  lemma SelectStarAfterInsert(t: Table, s: State, columns: Option<seq<string>>, given: seq<seq<LiteralNode>>)
    requires Inv(t, s) && Fits(t, s, Insert(columns, given)) && PlanInsert(t, s.index.Keys, columns, given).Store?
    ensures var s' := Step(t, s, Insert(columns, given)).0;
            && Inv(t, s')
            && SelectOutcome(t, s', None, None) ==
               Result(LiveRows(s.recs) + Filed(t.Layout(), PlanInsert(t, s.index.Keys, columns, given).stored))
  {
    hide LiveRows, PlanInsert, KeyIndex, IsKey, FileBytes, FileOrder, UpsertAll, SelectOutcome;
    StepKeepsInv(t, s, Insert(columns, given));
    var filed := Filed(t.Layout(), PlanInsert(t, s.index.Keys, columns, given).stored);
    LogConcat(s.recs, RecsOf(Inserted, filed));
    AllLive(Inserted, filed);
    SelectStar(t, Step(t, s, Insert(columns, given)).0);
  }

  /** The rows that INSERT stores are read back as they were meant, for every INSERT into the table, if and only if
      the key is its first column. */
  lemma StoredRowsReadBack(t: Table)
    requires t.Valid()
    ensures (forall taken, columns, given ::
               PlanInsert(t, taken, columns, given).Store? ==>
               Filed(t.Layout(), PlanInsert(t, taken, columns, given).stored) == PlanInsert(t, taken, columns, given).stored)
            <==> t.KeyFirst()
  {
    hide PlanInsert, KeyIndex, IsKey, FileOrder;
    if t.KeyFirst() {
      forall taken, columns, given | PlanInsert(t, taken, columns, given).Store?
        ensures Filed(t.Layout(), PlanInsert(t, taken, columns, given).stored) == PlanInsert(t, taken, columns, given).stored
      {
        FiledFirst(t.Layout(), PlanInsert(t, taken, columns, given).stored);
      }
    } else {
      var row := seq(|t.cols|, k => LiteralNode(Number, if k == KeyIndex(t.cols) then "1" else "2"));
      WholeRowStored(t, row);
      var stored := PlanInsert(t, {}, None, [row]).stored;
      KeyLeads(t.Layout(), stored[0]);
      assert Filed(t.Layout(), stored)[0][0] == "1" && stored[0][0] == "2";
    }
  }

  /** A row that gives every column is stored as it is given, but for outer quotes. */
  lemma WholeRowStored(t: Table, row: seq<LiteralNode>)
    requires t.Valid() && |row| == |t.cols| && forall k :: 0 <= k < |row| ==> !row[k].kind.Empty?
    ensures var plan := PlanInsert(t, {}, None, [row]);
            && plan.Store? && plan.complete && |plan.stored| == 1
            && forall k :: 0 <= k < |row| ==> plan.stored[0][k] == Strip(row[k].value)
  {
    hide KeyIndex, DefaultOf, SlotFor, FlagsOf, Strip, RawKey, FreshKeys, NormalRow;
    var names := t.Names();
    WholeRow(t.cols, row);
    AllFirstNamed(t.cols);
    var slots, mask := NormalRow(names, names, row), MaskOf(names, names);
    assert NormalRows(names, names, [row]) == [slots];
    OneFreshKey(RawKeys(t.cols, [slots]));
    assert RowComplete(t.cols, mask, slots);
    assert InsertNormalizes(names, names, [row]);
    assert InsertValid(t.cols, mask, [slots], {});
    assert HasKey(t.cols, slots) && Storable(t.cols, slots, mask);
    OneStored(t.cols, mask, [slots]);
  }

  lemma OneStored(cols: seq<ColumnDef>, mask: seq<bool>, rows: seq<seq<Slot>>)
    requires |mask| == |cols| && ValidSchema(cols)
    requires forall i :: 0 <= i < |rows| ==> |rows[i]| == |cols| && HasKey(cols, rows[i])
    requires |rows| == 1 && Storable(cols, rows[0], mask)
    ensures StoredPrefix(cols, mask, rows) == [StoredRow(cols, rows[0], mask)]
  {
    hide FlagsOf, DefaultOf, KeyIndex, Storable, StoredRow;
    assert StoredPrefix(cols, mask, rows[1..]) == [];
  }

  // ---- an INSERT that stops half way ----

  lemma {:induction false} AllStored(cols: seq<ColumnDef>, mask: seq<bool>, rows: seq<seq<Slot>>)
    requires ValidSchema(cols) && |mask| == |cols|
    requires forall i :: 0 <= i < |rows| ==> |rows[i]| == |cols| && HasKey(cols, rows[i])
    ensures |StoredPrefix(cols, mask, rows)| == |rows| <==> forall i :: 0 <= i < |rows| ==> Storable(cols, rows[i], mask)
  {
    hide Storable, KeyIndex, IsKey, StoredRow;
    if rows != [] && Storable(cols, rows[0], mask) {
      AllStored(cols, mask, rows[1..]);
      if forall i :: 0 <= i < |rows[1..]| ==> Storable(cols, rows[1..][i], mask) {
        forall i | 0 < i < |rows| ensures Storable(cols, rows[i], mask) {
          assert rows[1..][i - 1] == rows[i];
        }
      }
    }
  }

  /** The default of every column but the key can be read. */
  predicate DefaultsReadable(cols: seq<ColumnDef>) {
    forall i :: 0 <= i < |cols| && i != KeyIndex(cols) ==> DefaultOf(cols[i].modifiers).Some?
  }

  /** Every accepted INSERT into a table stores all its rows if and only if the table has no column whose default
      cannot be read. */
  lemma InsertsComplete(t: Table)
    requires t.Valid()
    ensures (forall taken, columns, given ::
               PlanInsert(t, taken, columns, given).Store? ==> PlanInsert(t, taken, columns, given).complete)
            <==> DefaultsReadable(t.cols)
  {
    hide PlanInsert, KeyIndex, DefaultOf, IsKey, DefaultsReadable;
    if DefaultsReadable(t.cols) {
      forall taken, columns, given | PlanInsert(t, taken, columns, given).Store?
        ensures PlanInsert(t, taken, columns, given).complete
      {
        ReadableCompletes(t, taken, columns, given);
      }
    } else {
      var i := UnreadableColumn(t.cols);
      var row := seq(|t.cols|, k => if k == i then EMPTY else LiteralNode(Number, "1"));
      UnreadableStops(t, i, row);
    }
  }

  lemma UnreadableColumn(cols: seq<ColumnDef>) returns (i: nat)
    requires !DefaultsReadable(cols)
    ensures i < |cols| && i != KeyIndex(cols) && DefaultOf(cols[i].modifiers).None?
  {
    hide KeyIndex, DefaultOf;
    i :| 0 <= i < |cols| && i != KeyIndex(cols) && DefaultOf(cols[i].modifiers).None?;
  }

  lemma ReadableCompletes(t: Table, taken: set<string>, columns: Option<seq<string>>, given: seq<seq<LiteralNode>>)
    requires t.Valid() && DefaultsReadable(t.cols) && PlanInsert(t, taken, columns, given).Store?
    ensures PlanInsert(t, taken, columns, given).complete
  {
    hide IsKey, KeyIndex, DefaultOf, SlotFor, FlagsOf, StoredPrefix, Strip, InsertNormalizes;
    var list := ColumnList(t.Names(), columns);
    var mask, normal := MaskOf(t.Names(), list), NormalRows(t.Names(), list, given);
    forall i | 0 <= i < |normal| ensures HasKey(t.cols, normal[i]) {
      ValidInsertRow(t.cols, mask, normal, taken, i);
    }
    AllStored(t.cols, mask, normal);
  }

  /** A row that gives every column but number i, whose default cannot be read, is accepted and not stored. */
  lemma UnreadableStops(t: Table, i: nat, row: seq<LiteralNode>)
    requires t.Valid() && i < |t.cols| == |row| && i != KeyIndex(t.cols) && DefaultOf(t.cols[i].modifiers).None?
    requires forall k :: 0 <= k < |row| ==> row[k] == if k == i then EMPTY else LiteralNode(Number, "1")
    ensures PlanInsert(t, {}, None, [row]) == Store([], false)
  {
    hide KeyIndex, DefaultOf, SlotFor, FlagsOf, Strip, RowComplete, RawKey, FreshKeys, Storable, StoredRow, NormalRow;
    var names := t.Names();
    WholeRow(t.cols, row);
    var slots := NormalRow(names, names, row);
    var mask := MaskOf(names, names);
    assert NormalRows(names, names, [row]) == [slots];
    UnreadableRowIsComplete(t.cols, mask, slots, i);
    ValidRowHasKey(t.cols, mask, slots);
    NotStorable(t.cols, mask, slots, i);
    OneFreshKey(RawKeys(t.cols, [slots]));
    assert InsertNormalizes(names, names, [row]);
    assert InsertValid(t.cols, mask, [slots], {});
    assert StoredPrefix(t.cols, mask, [slots]) == [];
  }

  lemma OneFreshKey(keys: seq<string>)
    requires |keys| == 1
    ensures FreshKeys(keys, {})
  {
  }

  lemma WholeRow(cols: seq<ColumnDef>, row: seq<LiteralNode>)
    requires DistinctNames(cols) && |row| == |cols|
    ensures forall k :: 0 <= k < |row| ==> NormalRow(Names(cols), Names(cols), row)[k] == Some(row[k])
  {
    forall k | 0 <= k < |row| ensures NormalRow(Names(cols), Names(cols), row)[k] == Some(row[k]) {
      SlotForMeans(Names(cols), row, Names(cols)[k], k);
    }
  }

  lemma UnreadableRowIsComplete(cols: seq<ColumnDef>, mask: seq<bool>, slots: seq<Slot>, i: nat)
    requires ValidSchema(cols) && |mask| == |slots| == |cols| && i < |cols| && i != KeyIndex(cols)
    requires DefaultOf(cols[i].modifiers).None? && forall k :: 0 <= k < |mask| ==> mask[k]
    requires forall k :: 0 <= k < |slots| && k != i ==> slots[k] == Some(LiteralNode(Number, "1"))
    ensures RowComplete(cols, mask, slots)
  {
    hide DefaultOf, KeyIndex;
    UnreadableIsDefault(cols[i].modifiers);
    assert !IsKey(cols[i]);
  }

  lemma {:induction false} UnreadableIsDefault(modifiers: seq<string>)
    requires DefaultOf(modifiers).None?
    ensures FlagsOf(modifiers).hasDefault
  {
    hide IsDefault, Trim, Strip;
    if !IsDefault(modifiers[0]) {
      UnreadableIsDefault(modifiers[1..]);
      var k :| 0 <= k < |modifiers[1..]| && IsDefault(modifiers[1..][k]);
      assert IsDefault(modifiers[k + 1]);
    }
  }

  lemma NotStorable(cols: seq<ColumnDef>, mask: seq<bool>, slots: seq<Slot>, i: nat)
    requires |mask| == |slots| == |cols| && i < |cols| && i != KeyIndex(cols)
    requires DefaultOf(cols[i].modifiers).None? && EmptySlot(slots[i])
    ensures !Storable(cols, slots, mask)
  {
    hide DefaultOf, KeyIndex;
    assert StoredValue(cols[i], slots[i], mask[i]).None?;
  }

  /** A table with a column `a DEFAULT`, without a value: of the rows (1, 2) and (3, nothing) the first is stored,
      then the statement is aborted. */
  lemma HalfAnInsertExample(nums: Numbers)
    ensures var t := Table([ColumnDef("id", ["PRIMARY KEY"]), ColumnDef("a", ["DEFAULT "])], nums);
            var one, two, three := LiteralNode(Number, "1"), LiteralNode(Number, "2"), LiteralNode(Number, "3");
            && t.KeyFirst() && !DefaultsReadable(t.cols)
            && PlanInsert(t, {}, None, [[one, two], [three, EMPTY]]) == Store([["1", "2"]], false)
            && TableStep(t, [], Insert(None, [[one, two], [three, EMPTY]])) == ([["1", "2"]], Aborted)
  {
    hide FlagsOf, DefaultOf, PlanInsert;
    var t := Table([ColumnDef("id", ["PRIMARY KEY"]), ColumnDef("a", ["DEFAULT "])], nums);
    HalfTable(t.cols);
    HalfPlan(t);
    assert [] + [["1", "2"]] == [["1", "2"]];
    assert KeysOf([]) == {};
  }

  lemma HalfTable(cols: seq<ColumnDef>)
    requires cols == [ColumnDef("id", ["PRIMARY KEY"]), ColumnDef("a", ["DEFAULT "])]
    ensures ValidSchema(cols) && KeyIndex(cols) == 0
    ensures FlagsOf(cols[1].modifiers) == Flags(true, false, false, false) && DefaultOf(cols[1].modifiers).None?
  {
    hide Trim, Contains, KeyIndex;
    var pk, def := "PRIMARY KEY", "DEFAULT ";
    TrimOfWord(pk);
    HalfDefault(def);
    assert cols[0].modifiers[0] == pk && cols[1].modifiers[0] == def;
    assert IsKey(cols[0]) && !IsKey(cols[1]);
    assert cols[0].name != cols[1].name;
  }

  lemma TrimLastBlank(s: string)
    requires s != [] && !IsSpace(s[|s| - 1])
    ensures TrimRight(s + [' ']) == s
  {
    assert (s + [' '])[..|s|] == s;
  }

  lemma HalfDefault(def: string)
    requires def == "DEFAULT "
    ensures Trim(def) == "DEFAULT" && Contains(Trim(def), "DEFAULT")
  {
    hide TrimRight;
    var word := "DEFAULT";
    assert def == word + [' '] && def[0] == 'D' && word[6] == 'T';
    assert TrimLeft(def) == def;
    TrimLastBlank(word);
    assert word <= word[0..];
  }

  lemma HalfPlan(t: Table)
    requires t.cols == [ColumnDef("id", ["PRIMARY KEY"]), ColumnDef("a", ["DEFAULT "])]
    requires ValidSchema(t.cols) && KeyIndex(t.cols) == 0
    requires FlagsOf(t.cols[1].modifiers) == Flags(true, false, false, false) && DefaultOf(t.cols[1].modifiers).None?
    ensures var one, two, three := LiteralNode(Number, "1"), LiteralNode(Number, "2"), LiteralNode(Number, "3");
            PlanInsert(t, {}, None, [[one, two], [three, EMPTY]]) == Store([["1", "2"]], false)
  {
    hide FlagsOf, DefaultOf, KeyIndex, SlotFor, NormalRow;
    var one, two, three := LiteralNode(Number, "1"), LiteralNode(Number, "2"), LiteralNode(Number, "3");
    var names, mask := t.Names(), [true, true];
    WholeRow(t.cols, [one, two]);
    WholeRow(t.cols, [three, EMPTY]);
    var a, b := [Some(one), Some(two)], [Some(three), Some(EMPTY)];
    var given := [[one, two], [three, EMPTY]];
    assert NormalRow(names, names, [one, two]) == a && NormalRow(names, names, [three, EMPTY]) == b;
    assert NormalRows(names, names, given) == [a, b];
    assert MaskOf(names, names) == mask;
    assert RawKeys(t.cols, [a, b]) == ["1", "3"];
    var x, y := "1", "3";
    assert x[0] != y[0];
    assert InsertValid(t.cols, mask, [a, b], {});
    NotStorable(t.cols, mask, b, 1);
    assert Storable(t.cols, a, mask) && StoredRow(t.cols, a, mask) == ["1", "2"];
    HalfStored(t.cols, mask, [a, b]);
  }

  lemma HalfStored(cols: seq<ColumnDef>, mask: seq<bool>, rows: seq<seq<Slot>>)
    requires |mask| == |cols| && ValidSchema(cols)
    requires forall i :: 0 <= i < |rows| ==> |rows[i]| == |cols| && HasKey(cols, rows[i])
    requires |rows| == 2 && Storable(cols, rows[0], mask) && !Storable(cols, rows[1], mask)
    ensures StoredPrefix(cols, mask, rows) == [StoredRow(cols, rows[0], mask)]
  {
    hide FlagsOf, DefaultOf, KeyIndex, Storable, StoredRow;
    assert StoredPrefix(cols, mask, rows[1..]) == [];
  }

  /** On a table that holds the key k, inserting one complete row with k spelled in quotes is accepted, unless that
      spelling is a key too, and the table then holds k twice. */
  lemma QuotedKeyIsStoredTwice(t: Table, rows: seq<Row>, columns: Option<seq<string>>, row: seq<LiteralNode>)
    requires t.KeyFirst() && RowsShaped(t.Layout(), rows)
    requires InsertNormalizes(t.Names(), ColumnList(t.Names(), columns), [row])
    requires var list := ColumnList(t.Names(), columns);
             var mask, slots := MaskOf(t.Names(), list), NormalRow(t.Names(), list, row);
             && RowComplete(t.cols, mask, slots) && Storable(t.cols, slots, mask)
             && Strip(RawKey(t.cols, slots)) in KeysOf(rows) && RawKey(t.cols, slots) !in KeysOf(rows)
    ensures var plan := PlanInsert(t, KeysOf(rows), columns, [row]);
            plan.Store? && plan.complete && |plan.stored| == 1 && !DistinctKeys(rows + plan.stored)
  {
    hide IsKey, SlotFor, Quoted, Strip, DefaultOf, FlagsOf;
    var list := ColumnList(t.Names(), columns);
    var mask, slots := MaskOf(t.Names(), list), NormalRow(t.Names(), list, row);
    ValidRowHasKey(t.cols, mask, slots);
    assert NormalRows(t.Names(), list, [row]) == [slots];
    var raw := RawKey(t.cols, slots);
    var plan := PlanInsert(t, KeysOf(rows), columns, [row]);
    assert [slots][1..] == [];
    var i :| 0 <= i < |rows| && rows[i][0] == Strip(raw);
    assert plan.stored[0][0] == Strip(raw);
    assert (rows + plan.stored)[|rows|] == plan.stored[0] && (rows + plan.stored)[i] == rows[i];
  }

  // ---- a restart rereads the schema ----

  lemma SameKeyIndex(a: seq<ColumnDef>, b: seq<ColumnDef>)
    requires Metadata.SameMeaning(a, b)
    ensures KeyIndex(a) == KeyIndex(b)
  {
    hide FlagsOf, DefaultOf;
    assert KeyFlags(a) == KeyFlags(b);
  }

  lemma SameSchema(a: seq<ColumnDef>, b: seq<ColumnDef>)
    requires Metadata.SameMeaning(a, b)
    ensures ValidSchema(a) <==> ValidSchema(b)
    ensures Names(a) == Names(b) && KeyIndex(a) == KeyIndex(b)
  {
    hide FlagsOf, DefaultOf, KeyIndex;
    SameKeyIndex(a, b);
  }

  lemma {:induction false} SameStoredPrefix(a: seq<ColumnDef>, b: seq<ColumnDef>, mask: seq<bool>, rows: seq<seq<Slot>>)
    requires Metadata.SameMeaning(a, b) && KeyIndex(a) == KeyIndex(b) && |mask| == |a|
    requires forall i :: 0 <= i < |rows| ==> |rows[i]| == |a| && HasKey(a, rows[i])
    ensures StoredPrefix(a, mask, rows) == StoredPrefix(b, mask, rows)
  {
    hide FlagsOf, DefaultOf, KeyIndex, Strip;
    if rows != [] {
      SameStored(a, b, mask, rows[0]);
      SameStoredPrefix(a, b, mask, rows[1..]);
    }
  }

  lemma SameStored(a: seq<ColumnDef>, b: seq<ColumnDef>, mask: seq<bool>, row: seq<Slot>)
    requires Metadata.SameMeaning(a, b) && KeyIndex(a) == KeyIndex(b) && |mask| == |a| == |row| && HasKey(a, row)
    ensures Storable(a, row, mask) <==> Storable(b, row, mask)
    ensures Storable(a, row, mask) ==> StoredRow(a, row, mask) == StoredRow(b, row, mask)
  {
    hide FlagsOf, DefaultOf, KeyIndex, Strip;
    assert forall i :: 0 <= i < |a| ==> StoredValue(a[i], row[i], mask[i]) == StoredValue(b[i], row[i], mask[i]);
  }

  lemma SameInsertValid(a: seq<ColumnDef>, b: seq<ColumnDef>, mask: seq<bool>, rows: seq<seq<Slot>>, taken: set<string>)
    requires Metadata.SameMeaning(a, b) && ValidSchema(a) && ValidSchema(b) && KeyIndex(a) == KeyIndex(b)
    requires |mask| == |a| && forall i :: 0 <= i < |rows| ==> |rows[i]| == |a|
    ensures InsertValid(a, mask, rows, taken) <==> InsertValid(b, mask, rows, taken)
  {
    hide FlagsOf, DefaultOf, KeyIndex, IsKey, FreshKeys;
    assert RawKeys(a, rows) == RawKeys(b, rows);
    forall i | 0 <= i < |rows| ensures RowComplete(a, mask, rows[i]) <==> RowComplete(b, mask, rows[i]) {}
  }

  lemma SamePlanInsert(t: Table, u: Table, taken: set<string>, columns: Option<seq<string>>, given: seq<seq<LiteralNode>>)
    requires Metadata.SameMeaning(t.cols, u.cols) && t.Valid() && u.Valid()
    ensures PlanInsert(t, taken, columns, given) == PlanInsert(u, taken, columns, given)
  {
    hide IsKey, KeyIndex, SlotFor, InsertValid, StoredPrefix;
    SameSchema(t.cols, u.cols);
    var list := ColumnList(t.Names(), columns);
    var mask, normal := MaskOf(t.Names(), list), NormalRows(t.Names(), list, given);
    SameInsertValid(t.cols, u.cols, mask, normal, taken);
    if InsertNormalizes(t.Names(), list, given) && InsertValid(t.cols, mask, normal, taken) {
      forall i | 0 <= i < |normal| ensures HasKey(t.cols, normal[i]) {
        ValidInsertRow(t.cols, mask, normal, taken, i);
      }
      SameStoredPrefix(t.cols, u.cols, mask, normal);
    }
  }

  lemma ValidInsertRow(cols: seq<ColumnDef>, mask: seq<bool>, rows: seq<seq<Slot>>, taken: set<string>, i: nat)
    requires ValidSchema(cols) && |mask| == |cols| && forall k :: 0 <= k < |rows| ==> |rows[k]| == |cols|
    requires InsertValid(cols, mask, rows, taken) && i < |rows|
    ensures HasKey(cols, rows[i])
  {
    ValidRowHasKey(cols, mask, rows[i]);
  }

  /** The tables differ only in how their modifiers are spelled. */
  ghost predicate Alike(t: Table, u: Table) {
    t.Valid() && u.Valid() && Metadata.SameMeaning(t.cols, u.cols) && t.nums == u.nums &&
    t.Layout() == u.Layout() && t.Names() == u.Names() && t.KeyName() == u.KeyName()
  }

  lemma AlikeSelect(t: Table, u: Table, s: State, columns: Option<seq<string>>, where: Where)
    requires Alike(t, u) && Inv(t, s) && Inv(u, s)
    ensures SelectOutcome(u, s, columns, where) == SelectOutcome(t, s, columns, where)
  {
    hide KeyIndex, IsKey, FileBytes, LiveRows, Filter, FramePos, Metadata.SameMeaning, ResolveWhere, Scanners.Project;
  }

  lemma AlikeUpdate(t: Table, u: Table, s: State, assignments: seq<Assignment>, where: Where)
    requires Alike(t, u) && Inv(t, s) && Inv(u, s)
    ensures UpdateStep(u, s, assignments, where) == UpdateStep(t, s, assignments, where)
  {
    hide KeyIndex, IsKey, FileBytes, LiveRows, Filter, FramePos, Metadata.SameMeaning, ResolveWhere, Gate, AssignedTexts, UpdatedLog, Mark, Selects, Rebuild, UpdateNormalizes, WhereValid, Tombstones;
  }

  lemma AlikeDelete(t: Table, u: Table, s: State, where: Where)
    requires Alike(t, u) && Inv(t, s) && Inv(u, s)
    ensures DeleteStep(u, s, where) == DeleteStep(t, s, where)
  {
    hide KeyIndex, IsKey, FileBytes, LiveRows, Filter, FramePos, Metadata.SameMeaning, ResolveWhere, Gate, DeleteIndexed, DeleteScanned;
  }

  /** The engine sees of a schema only the names, flags and defaults of its columns. */
  lemma SameMeaningSameStep(t: Table, u: Table, s: State, stmt: Stmt)
    requires Inv(t, s) && Metadata.SameMeaning(t.cols, u.cols) && t.nums == u.nums
    ensures Inv(u, s) && Step(u, s, stmt) == Step(t, s, stmt) && (Fits(u, s, stmt) <==> Fits(t, s, stmt))
  {
    hide KeyIndex, IsKey, PlanInsert, FileBytes, Rebuild, SelectOutcome, UpdateStep, DeleteStep, UpsertAll, FramePos;
    SameSchema(t.cols, u.cols);
    assert Alike(t, u);
    match stmt
    case Insert(columns, given) => SamePlanInsert(t, u, s.index.Keys, columns, given);
    case Select(columns, where) => AlikeSelect(t, u, s, columns, where);
    case Update(assignments, where) => AlikeUpdate(t, u, s, assignments, where);
    case Delete(where) => AlikeDelete(t, u, s, where);
    case Restart =>
  }

  /** Nor does a whole run: it is possible on the one table if it is on the other, and then goes the same way. */
  lemma {:induction false} SameMeaningSameRun(t: Table, u: Table, s: State, stmts: seq<Stmt>)
    requires Inv(t, s) && Metadata.SameMeaning(t.cols, u.cols) && t.nums == u.nums
    ensures Inv(u, s) && (RunFits(u, s, stmts) <==> RunFits(t, s, stmts))
    ensures RunFits(t, s, stmts) ==> Run(u, s, stmts) == Run(t, s, stmts)
    decreases |stmts|
  {
    hide Step, Fits, Inv, Metadata.SameMeaning;
    if stmts == [] {
      SameMeaningSameStep(t, u, s, Restart);
      RunOfNothing(t, s);
      RunOfNothing(u, s);
    } else {
      SameMeaningSameStep(t, u, s, stmts[0]);
      if Fits(t, s, stmts[0]) {
        StepKeepsInv(t, s, stmts[0]);
        SameMeaningSameRun(t, u, Step(t, s, stmts[0]).0, stmts[1..]);
        if RunFits(t, s, stmts) {
          RunStep(t, s, stmts);
          RunStep(u, s, stmts);
        }
      }
    }
  }

  /** A program that is started again on the printed schema goes on exactly as the one that printed it, whatever is
      run, if every column survives. */
  lemma RestartOnPrintedSchema(t: Table, s: State, stmts: seq<Stmt>)
    requires Inv(t, s) && Metadata.AllGrammatical(t.cols) && Metadata.AllSurvive(t.cols)
    ensures var u := Table(Metadata.Read(Metadata.Print(t.cols)), t.nums);
            Inv(u, s) && (RunFits(u, s, stmts) <==> RunFits(t, s, stmts)) &&
            (RunFits(t, s, stmts) ==> Run(u, s, stmts) == Run(t, s, stmts))
  {
    hide Step, Inv, Run, RunFits, Metadata.Read, Metadata.Print, Metadata.AllSurvive;
    Metadata.MetadataRoundTrip(t.cols);
    var u := Table(Metadata.Read(Metadata.Print(t.cols)), t.nums);
    SameMeaningIsSymmetric(u.cols, t.cols);
    SameMeaningSameRun(t, u, s, stmts);
  }

  lemma SameMeaningIsSymmetric(a: seq<ColumnDef>, b: seq<ColumnDef>)
    requires Metadata.SameMeaning(a, b)
    ensures Metadata.SameMeaning(b, a)
  {
    hide FlagsOf, DefaultOf;
  }
}
