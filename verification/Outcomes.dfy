/** What each statement accepts and what it answers, spelled out on the statement, the schema and the rows: none of the
    functions that the normalizers, validators and handlers are specified by stands on the right-hand side. */
module Outcomes {
  import opened Text
  import opened Frames
  import opened Log
  import opened Conditions
  import opened Schemas
  import opened Serializer
  import opened Normalizer
  import opened Validator
  import opened Statements
  import opened Runs
  import opened Laws
  import Like
  import Metadata
  import Scanners

  // ---- conditions ----

  predicate Named(t: Table, name: string) { exists i :: 0 <= i < |t.cols| && t.cols[i].name == name }

  /** The column exists, and the literal is of a kind that the comparator takes: NULL, TRUE or FALSE for IS, a string
      for LIKE, a string or a number for = and !=, a number for the range comparators. */
  predicate Fitting(t: Table, where: Where) {
    where.Some? ==>
      var cmp, kind := where.value.cmp, where.value.literal.kind;
      && Named(t, where.value.column)
      && (cmp.Is? || cmp.IsNot? ==> kind.NullVal? || kind.TrueVal? || kind.FalseVal?)
      && (cmp.Like? || cmp.NotLike? ==> kind.Str?)
      && (cmp.Eq? || cmp.Ne? ==> kind.Str? || kind.Number?)
      && (cmp.Lt? || cmp.Le? || cmp.Gt? || cmp.Ge? ==> kind.Number?)
  }

  predicate ByKey(t: Table, where: Where)
    requires t.KeyFirst()
  {
    where.Some? && where.value.column == t.cols[0].name && where.value.cmp.Eq?
  }

  predicate Keyed(rows: seq<Row>, key: string) { exists r :: 0 <= r < |rows| && |rows[r]| > 0 && rows[r][0] == key }

  lemma InNames(t: Table, name: string)
    ensures name in t.Names() <==> Named(t, name)
  {
    if Named(t, name) {
      var i :| 0 <= i < |t.cols| && t.cols[i].name == name;
      assert t.Names()[i] == name;
    }
  }

  lemma FittingAccepted(t: Table, where: Where)
    ensures ResolveWhere(t.Names(), where).Some? && WhereValid(ResolveWhere(t.Names(), where).value) <==> Fitting(t, where)
  {
    if where.Some? {
      InNames(t, where.value.column);
    }
  }

  lemma AcceptedIf(t: Table, rows: seq<Row>, where: Where)
    requires t.KeyFirst() && RowsShaped(t.Layout(), rows)
    ensures AcceptWhere(t, where, KeysOf(rows)).Some? <==>
            Fitting(t, where) && (ByKey(t, where) ==> Keyed(rows, where.value.literal.value))
  {
    hide KeyIndex, IsKey, ResolveWhere, WhereValid, Fitting;
    FittingAccepted(t, where);
  }

  /** SELECT is aborted if it is by key and no row has the literal, without its quotes, for its key; it is refused
      exactly if it names a column that is not there, if its condition does not fit, or if it is
      `key = literal` and no row has the literal, as it is spelled, for its key. */
  lemma SelectAccepts(t: Table, rows: seq<Row>, columns: Option<seq<string>>, where: Where)
    requires t.KeyFirst() && RowsShaped(t.Layout(), rows)
    ensures TableStep(t, rows, Select(columns, where)).1 != Rejected <==>
            && (columns.Some? ==> forall c :: c in columns.value ==> Named(t, c))
            && Fitting(t, where) && (ByKey(t, where) ==> Keyed(rows, where.value.literal.value))
    ensures TableStep(t, rows, Select(columns, where)).1 != Rejected ==>
            if ByKey(t, where) && !Keyed(rows, Strip(where.value.literal.value))
            then TableStep(t, rows, Select(columns, where)).1 == Aborted
            else TableStep(t, rows, Select(columns, where)).1.Result?
  {
    hide KeyIndex, IsKey, AcceptWhere, Fitting, Filter, Scanners.Project, Selects;
    AcceptedIf(t, rows, where);
    forall c ensures c in t.Names() <==> Named(t, c) {
      InNames(t, c);
    }
  }

  /** DELETE likewise, with its literal taken out of its quotes first. */
  lemma DeleteAccepts(t: Table, rows: seq<Row>, where: Where)
    requires t.KeyFirst() && RowsShaped(t.Layout(), rows)
    ensures TableStep(t, rows, Delete(where)).1 ==
            if !(Fitting(t, where) && (ByKey(t, where) ==> Keyed(rows, Strip(where.value.literal.value)))) then Rejected
            else if ByKey(t, where) && !Keyed(rows, Strip(Strip(where.value.literal.value))) then Aborted
            else Done
  {
    hide KeyIndex, IsKey, AcceptWhere, Filter, Selects, Strip;
    AcceptedIf(t, rows, StripWhere(where));
  }

  // ---- the rows of a condition ----

  predicate RowMeets(nums: Numbers, row: Row, i: nat, cmp: Comparator, text: string) {
    i < |row| && Meets(nums, row[i], cmp, text)
  }

  /** The rows on which the comparison of column i answers `want`, in order. */
  function RowsWhere(nums: Numbers, rows: seq<Row>, i: nat, cmp: Comparator, text: string, want: bool): seq<Row> {
    if rows == [] then []
    else (if RowMeets(nums, rows[0], i, cmp, text) == want then [rows[0]] else []) + RowsWhere(nums, rows[1..], i, cmp, text, want)
  }

  /** LIKE is asked of values without line ends only. */
  predicate LikeIsExact(rows: seq<Row>, i: nat, cmp: Comparator) {
    (cmp.Like? || cmp.NotLike?) ==> forall r :: r in rows && i < |r| ==> Like.OneLine(r[i])
  }

  lemma {:induction false} FilterIsRowsWhere(nums: Numbers, rows: seq<Row>, c: Condition, want: bool)
    requires (forall r :: r in rows ==> c.schemaIndex < |r|) && LikeIsExact(rows, c.schemaIndex, c.cmp)
    ensures Filter(rows, Selects(nums, Some(c)), want) ==
            RowsWhere(nums, rows, c.schemaIndex, c.cmp, Strip(c.literal.value), want)
  {
    hide Meets, Evaluate, Strip, Like.OneLine;
    if rows != [] {
      assert rows[0] in rows;
      EvaluateMeans(nums, rows[0][c.schemaIndex], c.cmp, c.literal.value);
      FilterIsRowsWhere(nums, rows[1..], c, want);
    }
  }

  lemma {:induction false} FilterAllRows(nums: Numbers, rows: seq<Row>)
    ensures Filter(rows, Selects(nums, None), true) == rows && Filter(rows, Selects(nums, None), false) == []
  {
    if rows != [] {
      FilterAllRows(nums, rows[1..]);
    }
  }

  /** The condition names column i. */
  predicate OnColumn(t: Table, where: Where, i: nat) {
    where.Some? && i < |t.cols| && t.cols[i].name == where.value.column
  }

  lemma ResolvedColumn(t: Table, where: Where, i: nat)
    requires t.Valid() && OnColumn(t, where, i)
    ensures ResolveWhere(t.Names(), where) == Some(Some(where.value.(schemaIndex := i)))
  {
    FindIsUnique(t.cols, i);
  }

  lemma ShapedRows(l: Layout, rows: seq<Row>)
    requires RowsShaped(l, rows)
    ensures forall r :: r in rows ==> |r| == l.n
  {
  }

  // ---- SELECT ----

  /** The values of the columns that the list names, in schema order. */
  function Chosen(cols: seq<ColumnDef>, list: seq<string>, row: Row): Row
    requires |row| == |cols|
  {
    if cols == [] then []
    else
      var n := |cols| - 1;
      Chosen(cols[..n], list, row[..n]) + if cols[n].name in list then [row[n]] else []
  }

  lemma {:induction false} ProjectIsChosen(cols: seq<ColumnDef>, list: seq<string>, mask: seq<bool>, row: Row)
    requires |row| == |cols| == |mask| && forall i :: 0 <= i < |cols| ==> mask[i] == (cols[i].name in list)
    ensures Scanners.Project(mask, row) == Chosen(cols, list, row)
  {
    if cols != [] {
      var n := |cols| - 1;
      ProjectIsChosen(cols[..n], list, mask[..n], row[..n]);
    }
  }

  function AllChosen(cols: seq<ColumnDef>, list: seq<string>, rows: seq<Row>): (r: seq<Row>)
    requires forall i :: 0 <= i < |rows| ==> |rows[i]| == |cols|
    ensures |r| == |rows| && forall i :: 0 <= i < |r| ==> r[i] == Chosen(cols, list, rows[i])
  {
    seq(|rows|, i requires 0 <= i < |rows| => Chosen(cols, list, rows[i]))
  }

  lemma ProjectionsChosen(t: Table, list: seq<string>, rows: seq<Row>)
    requires t.Valid() && RowsShaped(t.Layout(), rows)
    ensures Projections(MaskOf(t.Names(), list), rows) == AllChosen(t.cols, list, rows)
  {
    hide Scanners.Project, Chosen, KeyIndex, IsKey;
    AllFirstNamed(t.cols);
    forall i | 0 <= i < |rows| ensures Scanners.Project(MaskOf(t.Names(), list), rows[i]) == Chosen(t.cols, list, rows[i]) {
      ProjectIsChosen(t.cols, list, MaskOf(t.Names(), list), rows[i]);
    }
  }

  function Listed(t: Table, columns: Option<seq<string>>): seq<string> {
    if columns.Some? then columns.value else t.Names()
  }

  /** What a SELECT with a condition on column i answers: the named columns of exactly the rows whose value in column i
      meets the comparator, in the order of the table. */
  lemma SelectAnswers(t: Table, rows: seq<Row>, columns: Option<seq<string>>, where: Where, i: nat)
    requires t.KeyFirst() && RowsShaped(t.Layout(), rows) && OnColumn(t, where, i) && LikeIsExact(rows, i, where.value.cmp)
    requires TableStep(t, rows, Select(columns, where)).1.Result?
    ensures var met := RowsWhere(t.nums, rows, i, where.value.cmp, Strip(where.value.literal.value), true);
            && RowsShaped(t.Layout(), met)
            && TableStep(t, rows, Select(columns, where)).1 == Result(AllChosen(t.cols, Listed(t, columns), met))
  {
    hide KeyIndex, IsKey, Filter, Scanners.Project, Selects, Strip, Chosen, RowsWhere, LikeIsExact, WhereValid;
    ResolvedColumn(t, where, i);
    var c := where.value.(schemaIndex := i);
    ShapedRows(t.Layout(), rows);
    FilterIsRowsWhere(t.nums, rows, c, true);
    FilterShaped(t.Layout(), rows, Selects(t.nums, Some(c)), true);
    ProjectionsChosen(t, Listed(t, columns), Filter(rows, Selects(t.nums, Some(c)), true));
  }

  /** Without a condition: of all rows. */
  lemma SelectAnswersAll(t: Table, rows: seq<Row>, columns: Option<seq<string>>)
    requires t.KeyFirst() && RowsShaped(t.Layout(), rows) && forall c :: c in Listed(t, columns) ==> Named(t, c)
    ensures TableStep(t, rows, Select(columns, None)).1 == Result(AllChosen(t.cols, Listed(t, columns), rows))
  {
    hide KeyIndex, IsKey, Filter, Scanners.Project, Selects, Chosen;
    forall c ensures c in t.Names() <==> Named(t, c) {
      InNames(t, c);
    }
    FilterAllRows(t.nums, rows);
    ProjectionsChosen(t, Listed(t, columns), rows);
  }

  /** SELECT * of a condition on a column other than the key. LIKE is the case of interest: the answer is exactly the
      text values that match the pattern as LIKE is defined. */
  lemma SelectLike(t: Table, rows: seq<Row>, i: nat, pattern: string)
    requires t.KeyFirst() && RowsShaped(t.Layout(), rows) && i < |t.cols| && LikeIsExact(rows, i, Comparator.Like)
    ensures var where := Some(Condition(t.cols[i].name, Comparator.Like, LiteralNode(Str, pattern), 0));
            TableStep(t, rows, Select(None, where)).1.Result? &&
            forall r :: r in TableStep(t, rows, Select(None, where)).1.rows <==>
              r in rows && IsText(t.nums, r[i]) && Like.Like(Strip(pattern), r[i])
  {
    hide KeyIndex, IsKey, Strip, Chosen, RowsWhere, LikeIsExact, TableStep, Like.Like;
    var where := Some(Condition(t.cols[i].name, Comparator.Like, LiteralNode(Str, pattern), 0));
    assert Named(t, t.cols[i].name);
    SelectAccepts(t, rows, None, where);
    SelectAnswers(t, rows, None, where, i);
    var met := RowsWhere(t.nums, rows, i, Comparator.Like, Strip(pattern), true);
    AllOfThem(t, met);
    RowsWhereMembers(t.nums, rows, i, Comparator.Like, Strip(pattern), true);
    ShapedRows(t.Layout(), rows);
  }

  lemma {:induction false} ChosenAll(cols: seq<ColumnDef>, list: seq<string>, row: Row)
    requires |row| == |cols| && forall i :: 0 <= i < |cols| ==> cols[i].name in list
    ensures Chosen(cols, list, row) == row
  {
    if cols != [] {
      var n := |cols| - 1;
      ChosenAll(cols[..n], list, row[..n]);
    }
  }

  lemma AllOfThem(t: Table, rows: seq<Row>)
    requires t.Valid() && RowsShaped(t.Layout(), rows)
    ensures AllChosen(t.cols, t.Names(), rows) == rows
  {
    hide Chosen, KeyIndex, IsKey;
    forall i | 0 <= i < |rows| ensures Chosen(t.cols, t.Names(), rows[i]) == rows[i] {
      forall k | 0 <= k < |t.cols| ensures t.cols[k].name in t.Names() {
        assert t.Names()[k] == t.cols[k].name;
      }
      ChosenAll(t.cols, t.Names(), rows[i]);
    }
  }

  lemma {:induction false} RowsWhereMembers(nums: Numbers, rows: seq<Row>, i: nat, cmp: Comparator, text: string, want: bool)
    ensures forall r :: r in RowsWhere(nums, rows, i, cmp, text, want) <==> r in rows && RowMeets(nums, r, i, cmp, text) == want
  {
    hide RowMeets;
    if rows != [] {
      RowsWhereMembers(nums, rows[1..], i, cmp, text, want);
      assert rows == [rows[0]] + rows[1..];
    }
  }

  // ---- DELETE ----

  /** What a DELETE with a condition on column i leaves: the rows whose value does not meet the comparator, the literal
      being taken out of its quotes twice. */
  lemma DeleteLeaves(t: Table, rows: seq<Row>, where: Where, i: nat)
    requires t.KeyFirst() && RowsShaped(t.Layout(), rows) && OnColumn(t, where, i) && LikeIsExact(rows, i, where.value.cmp)
    requires TableStep(t, rows, Delete(where)).1 == Done
    ensures TableStep(t, rows, Delete(where)).0 ==
            RowsWhere(t.nums, rows, i, where.value.cmp, Strip(Strip(where.value.literal.value)), false)
  {
    hide KeyIndex, IsKey, Filter, Selects, Strip, RowsWhere, LikeIsExact, WhereValid;
    var stripped := StripWhere(where);
    ResolvedColumn(t, stripped, i);
    ShapedRows(t.Layout(), rows);
    FilterIsRowsWhere(t.nums, rows, stripped.value.(schemaIndex := i), false);
  }

  lemma DeleteLeavesNothing(t: Table, rows: seq<Row>)
    requires t.KeyFirst() && RowsShaped(t.Layout(), rows)
    ensures TableStep(t, rows, Delete(None)) == ([], Done)
  {
    hide KeyIndex, IsKey, Filter, Selects;
    FilterAllRows(t.nums, rows);
  }

  // ---- UPDATE ----

  /** At least one column is assigned to, each one exists and is not the key, and none is assigned to twice. */
  predicate Assignable(t: Table, assignments: seq<Assignment>)
    requires t.KeyFirst()
  {
    && |assignments| >= 1
    && (forall a :: 0 <= a < |assignments| ==> Named(t, assignments[a].column) && assignments[a].column != t.cols[0].name)
    && (forall a, b :: 0 <= a < |assignments| && 0 <= b < |assignments| && a != b ==> assignments[a].column != assignments[b].column)
  }

  lemma PlanIf(t: Table, assignments: seq<Assignment>, where: Where)
    requires t.KeyFirst()
    ensures PlanUpdate(t, assignments, where).Some? <==> Assignable(t, assignments) && Fitting(t, where)
  {
    hide KeyIndex, IsKey, ResolveWhere, WhereValid, Fitting, AssignedTexts;
    FittingAccepted(t, where);
    forall a | 0 <= a < |assignments| ensures assignments[a].column in t.Names() <==> Named(t, assignments[a].column) {
      InNames(t, assignments[a].column);
    }
  }

  /** UPDATE is done or refused, and done exactly if the assignments and the condition are in order. */
  lemma UpdateAccepts(t: Table, rows: seq<Row>, assignments: seq<Assignment>, where: Where)
    requires t.KeyFirst() && RowsShaped(t.Layout(), rows)
    ensures TableStep(t, rows, Update(assignments, where)).1 ==
            if Assignable(t, assignments) && Fitting(t, where) then Done else Rejected
  {
    hide KeyIndex, IsKey, PlanUpdate, Filter, Selects, UpdatedRow;
    PlanIf(t, assignments, where);
  }

  /** The text assigned to a column, or its old value. */
  function NewValue(assignments: seq<Assignment>, name: string, kept: string): string {
    if assignments == [] then kept
    else if assignments[0].column == name then Strip(assignments[0].literal.value)
    else NewValue(assignments[1..], name, kept)
  }

  /** The row after an UPDATE: every value, assigned or kept, is written without a pair of outer quotes. */
  function NewRow(cols: seq<ColumnDef>, assignments: seq<Assignment>, row: Row): (r: Row)
    requires |row| == |cols|
    ensures |r| == |row| && forall i :: 0 <= i < |r| ==> r[i] == Strip(NewValue(assignments, cols[i].name, row[i]))
  {
    seq(|row|, i requires 0 <= i < |row| => Strip(NewValue(assignments, cols[i].name, row[i])))
  }

  function NewRows(cols: seq<ColumnDef>, assignments: seq<Assignment>, rows: seq<Row>): (r: seq<Row>)
    requires forall i :: 0 <= i < |rows| ==> |rows[i]| == |cols|
    ensures |r| == |rows| && forall i :: 0 <= i < |r| ==> r[i] == NewRow(cols, assignments, rows[i])
  {
    seq(|rows|, i requires 0 <= i < |rows| => NewRow(cols, assignments, rows[i]))
  }

  lemma {:induction false} NewValueMeans(assignments: seq<Assignment>, name: string, kept: string)
    ensures (forall a :: 0 <= a < |assignments| ==> assignments[a].column != name) ==> NewValue(assignments, name, kept) == kept
    ensures (forall a, b :: 0 <= a < b < |assignments| ==> assignments[a].column != assignments[b].column) ==>
              forall a :: 0 <= a < |assignments| && assignments[a].column == name ==>
                NewValue(assignments, name, kept) == Strip(assignments[a].literal.value)
  {
    hide Strip;
    if assignments != [] {
      NewValueMeans(assignments[1..], name, kept);
      forall a | 0 < a < |assignments| ensures assignments[a] == assignments[1..][a - 1] {}
    }
  }

  lemma UpdatedIsNew(t: Table, assignments: seq<Assignment>, row: Row)
    requires t.Valid() && |row| == |t.cols| && UpdateNormalizes(t.Names(), t.KeyName(), assignments)
    ensures UpdatedRow(row, AssignedTexts(t.Names(), assignments)) == NewRow(t.cols, assignments, row)
  {
    hide Strip, AssignedTexts, NewValue, KeyIndex, IsKey;
    var texts := AssignedTexts(t.Names(), assignments);
    AllFirstNamed(t.cols);
    forall i | 0 <= i < |row| ensures UpdatedRow(row, texts)[i] == NewRow(t.cols, assignments, row)[i] {
      AssignedTextsMean(t.cols, t.KeyName(), assignments, i);
      NewValueMeans(assignments, t.cols[i].name, row[i]);
      if Assigns(assignments, t.cols[i].name) {
        var a :| 0 <= a < |assignments| && assignments[a].column == t.cols[i].name;
        assert texts[i] == Strip(assignments[a].literal.value);
      }
    }
  }

  lemma UpdatedAreNew(t: Table, assignments: seq<Assignment>, rows: seq<Row>)
    requires t.Valid() && RowsShaped(t.Layout(), rows) && UpdateNormalizes(t.Names(), t.KeyName(), assignments)
    ensures UpdatedRows(rows, AssignedTexts(t.Names(), assignments)) == NewRows(t.cols, assignments, rows)
  {
    hide UpdatedRow, NewRow, AssignedTexts, KeyIndex, IsKey;
    forall i | 0 <= i < |rows|
      ensures UpdatedRow(rows[i], AssignedTexts(t.Names(), assignments)) == NewRow(t.cols, assignments, rows[i])
    {
      UpdatedIsNew(t, assignments, rows[i]);
    }
  }

  /** What an UPDATE with a condition on column i leaves: the rows that do not meet it, then the new rows of those that
      do. */
  lemma UpdateLeaves(t: Table, rows: seq<Row>, assignments: seq<Assignment>, where: Where, i: nat)
    requires t.KeyFirst() && RowsShaped(t.Layout(), rows) && OnColumn(t, where, i) && LikeIsExact(rows, i, where.value.cmp)
    requires Assignable(t, assignments) && Fitting(t, where)
    ensures var text := Strip(where.value.literal.value);
            var met := RowsWhere(t.nums, rows, i, where.value.cmp, text, true);
            && RowsShaped(t.Layout(), met)
            && TableStep(t, rows, Update(assignments, where)).0 ==
               RowsWhere(t.nums, rows, i, where.value.cmp, text, false) + NewRows(t.cols, assignments, met)
  {
    hide KeyIndex, IsKey, Filter, Selects, Strip, RowsWhere, LikeIsExact, Fitting, NewRow, UpdatedRow, AssignedTexts, WhereValid;
    PlanIf(t, assignments, where);
    ResolvedColumn(t, where, i);
    var c := where.value.(schemaIndex := i);
    ShapedRows(t.Layout(), rows);
    FilterIsRowsWhere(t.nums, rows, c, true);
    FilterIsRowsWhere(t.nums, rows, c, false);
    FilterShaped(t.Layout(), rows, Selects(t.nums, Some(c)), true);
    UpdatedAreNew(t, assignments, Filter(rows, Selects(t.nums, Some(c)), true));
  }

  /** Without a condition: the new rows of all. */
  lemma UpdateLeavesAll(t: Table, rows: seq<Row>, assignments: seq<Assignment>)
    requires t.KeyFirst() && RowsShaped(t.Layout(), rows) && Assignable(t, assignments)
    ensures TableStep(t, rows, Update(assignments, None)).0 == NewRows(t.cols, assignments, rows)
  {
    hide KeyIndex, IsKey, Filter, Selects, NewRow, UpdatedRow, AssignedTexts;
    PlanIf(t, assignments, None);
    FilterAllRows(t.nums, rows);
    UpdatedAreNew(t, assignments, rows);
  }

  // ---- several assignments ----

  predicate AllUnquoted(rows: seq<Row>) {
    forall r, i :: 0 <= r < |rows| && 0 <= i < |rows[r]| ==> !Quoted(rows[r][i])
  }

  function Singles(assignments: seq<Assignment>): (stmts: seq<Stmt>)
    ensures |stmts| == |assignments| && forall i :: 0 <= i < |stmts| ==> stmts[i] == Update([assignments[i]], None)
  {
    seq(|assignments|, i requires 0 <= i < |assignments| => Update([assignments[i]], None))
  }

  /** An UPDATE of several columns leaves what UPDATEs of one column each leave, one after the other, if neither the
      table nor the assigned texts have outer quotes to lose. */
  lemma {:induction false} UpdatesOneByOne(t: Table, rows: seq<Row>, assignments: seq<Assignment>)
    requires t.KeyFirst() && RowsShaped(t.Layout(), rows) && Assignable(t, assignments) && AllUnquoted(rows)
    requires forall a :: 0 <= a < |assignments| ==> !Quoted(Strip(assignments[a].literal.value))
    ensures TableRun(t, rows, Singles(assignments)).0 == TableStep(t, rows, Update(assignments, None)).0
    ensures forall i :: 0 <= i < |assignments| ==> TableRun(t, rows, Singles(assignments)).1[i] == Done
    decreases |assignments|
  {
    hide KeyIndex, IsKey, TableStep, NewRow, Quoted, Strip, AllUnquoted;
    var first, rest := [assignments[0]], assignments[1..];
    var stmts := Singles(assignments);
    assert stmts[1..] == Singles(rest) && stmts[0] == Update(first, None);
    FirstAssignable(t, assignments);
    UpdateAccepts(t, rows, first, None);
    UpdateLeavesAll(t, rows, first);
    var rows1 := TableStep(t, rows, Update(first, None)).0;
    if rest == [] {
      assert assignments == first;
      assert TableRun(t, rows1, []) == (rows1, []);
    } else {
      NewRowsUnquoted(t.cols, first, rows);
      UpdatesOneByOne(t, rows1, rest);
      UpdateLeavesAll(t, rows1, rest);
      UpdateLeavesAll(t, rows, assignments);
      NewRowsCompose(t.cols, assignments, rows);
    }
  }

  lemma FirstAssignable(t: Table, assignments: seq<Assignment>)
    requires t.KeyFirst() && Assignable(t, assignments)
    ensures Assignable(t, [assignments[0]]) && (|assignments| > 1 ==> Assignable(t, assignments[1..]))
  {
    hide Named;
  }

  lemma NewRowsUnquoted(cols: seq<ColumnDef>, first: seq<Assignment>, rows: seq<Row>)
    requires |first| == 1 && !Quoted(Strip(first[0].literal.value)) && AllUnquoted(rows)
    requires forall i :: 0 <= i < |rows| ==> |rows[i]| == |cols|
    ensures AllUnquoted(NewRows(cols, first, rows))
  {
    hide Quoted, Strip;
    forall r, i | 0 <= r < |rows| && 0 <= i < |rows[r]| ensures !Quoted(NewRows(cols, first, rows)[r][i]) {
      OneValue(first, cols[i].name, rows[r][i]);
    }
  }

  lemma OneValue(first: seq<Assignment>, name: string, kept: string)
    requires |first| == 1
    ensures NewValue(first, name, kept) == if first[0].column == name then Strip(first[0].literal.value) else kept
  {
    hide Strip;
    assert NewValue(first[1..], name, kept) == kept;
  }

  lemma NewRowsCompose(cols: seq<ColumnDef>, assignments: seq<Assignment>, rows: seq<Row>)
    requires assignments != [] && AllUnquoted(rows) && forall i :: 0 <= i < |rows| ==> |rows[i]| == |cols|
    requires forall a :: 0 <= a < |assignments| ==> !Quoted(Strip(assignments[a].literal.value))
    requires forall a, b :: 0 <= a < b < |assignments| ==> assignments[a].column != assignments[b].column
    ensures NewRows(cols, assignments[1..], NewRows(cols, [assignments[0]], rows)) == NewRows(cols, assignments, rows)
  {
    hide Quoted, Strip, NewValue;
    var first, rest := [assignments[0]], assignments[1..];
    var rows1 := NewRows(cols, first, rows);
    forall r | 0 <= r < |rows| ensures NewRow(cols, rest, rows1[r]) == NewRow(cols, assignments, rows[r]) {
      forall i | 0 <= i < |cols| ensures NewRow(cols, rest, rows1[r])[i] == NewRow(cols, assignments, rows[r])[i] {
        ValueComposes(assignments, cols[i].name, rows[r][i]);
      }
    }
  }

  lemma ValueComposes(assignments: seq<Assignment>, name: string, kept: string)
    requires assignments != [] && !Quoted(kept)
    requires forall a :: 0 <= a < |assignments| ==> !Quoted(Strip(assignments[a].literal.value))
    requires forall a, b :: 0 <= a < b < |assignments| ==> assignments[a].column != assignments[b].column
    ensures NewValue(assignments[1..], name, Strip(NewValue([assignments[0]], name, kept))) == NewValue(assignments, name, kept)
  {
    hide Strip, Quoted;
    OneValue([assignments[0]], name, kept);
    NewValueMeans(assignments[1..], name, Strip(Strip(assignments[0].literal.value)));
  }

  // ---- INSERT ----

  /** The last place at which a column list names the column: a later mention overrides an earlier one. */
  predicate LastNamed(list: seq<string>, name: string, j: int) {
    0 <= j < |list| && list[j] == name && forall k :: j < k < |list| ==> list[k] != name
  }

  /** The row gives the column this literal: not empty, and at the place of the column. */
  ghost predicate GivenAs(list: seq<string>, row: seq<LiteralNode>, name: string, literal: LiteralNode) {
    !literal.kind.Empty? && exists j :: LastNamed(list, name, j) && j < |row| && row[j] == literal
  }

  /** The row gives the column a value at all. */
  ghost predicate Given(list: seq<string>, row: seq<LiteralNode>, name: string) {
    exists j :: LastNamed(list, name, j) && j < |row| && !row[j].kind.Empty?
  }

  /** A column that need not be given a value: it is not the key, and if it is NOT NULL it has a default. UNIQUE makes
      no difference. */
  predicate MayBeEmpty(modifiers: seq<string>) {
    && !Mentions(modifiers, "PRIMARY KEY")
    && (Mentions(modifiers, "NOT NULL") ==> exists m :: 0 <= m < |modifiers| && IsDefault(modifiers[m]))
  }

  /** For the modifiers that the grammar produces: the words stand there. */
  lemma MayBeEmptyWords(modifiers: seq<string>)
    requires Metadata.GrammaticalModifiers(modifiers)
    ensures MayBeEmpty(modifiers) <==>
            && "PRIMARY KEY" !in modifiers
            && ("NOT NULL" in modifiers ==> exists m :: 0 <= m < |modifiers| && "DEFAULT " <= modifiers[m])
  {
    hide IsDefault, Mentions, Metadata.HasPiece;
    Metadata.KeywordsGiven(modifiers, "PRIMARY KEY");
    Metadata.KeywordsGiven(modifiers, "NOT NULL");
    forall m | 0 <= m < |modifiers| ensures IsDefault(modifiers[m]) <==> "DEFAULT " <= modifiers[m] {
      assert Metadata.GrammaticalModifier(modifiers[m]);
      if "DEFAULT " <= modifiers[m] {
        Metadata.StartsWithDefault(modifiers[m]);
      } else {
        Metadata.KeywordIsNoDefault(modifiers[m]);
      }
    }
  }

  lemma {:induction false} SlotForLast(list: seq<string>, row: seq<LiteralNode>, name: string)
    ensures EmptySlot(SlotFor(list, row, name)) <==> !Given(list, row, name)
    ensures forall literal :: GivenAs(list, row, name, literal) <==>
              SlotFor(list, row, name) == Some(literal) && !literal.kind.Empty?
    ensures SlotFor(list, row, name).Some? <==> name in list
  {
    if list != [] {
      var n := |list| - 1;
      SlotForLast(list[..n], row, name);
      if list[n] == name {
        assert LastNamed(list, name, n);
        assert forall j :: LastNamed(list, name, j) ==> j == n;
      } else {
        forall j ensures LastNamed(list, name, j) <==> LastNamed(list[..n], name, j) {}
        assert list == list[..n] + [list[n]];
      }
    }
  }

  /** The keys that the rows are given are not taken, and no two rows are given the same. */
  ghost predicate KeysAreFresh(list: seq<string>, given: seq<seq<LiteralNode>>, name: string, taken: set<string>) {
    && (forall r, literal :: 0 <= r < |given| && GivenAs(list, given[r], name, literal) ==> literal.value !in taken)
    && (forall r, q, a, b :: 0 <= r < q < |given| && GivenAs(list, given[r], name, a) && GivenAs(list, given[q], name, b) ==>
          a.value != b.value)
  }

  /** What INSERT demands, on a table whose column number k is the key. */
  ghost predicate Insertable(t: Table, k: nat, taken: set<string>, columns: Option<seq<string>>, given: seq<seq<LiteralNode>>)
    requires k < |t.cols|
  {
    var list := Listed(t, columns);
    && (columns.Some? ==> forall c :: c in list ==> Named(t, c))
    && (forall r :: 0 <= r < |given| ==> |given[r]| <= |t.cols|)
    && (forall r, i :: 0 <= r < |given| && 0 <= i < |t.cols| && !Given(list, given[r], t.cols[i].name) ==>
          MayBeEmpty(t.cols[i].modifiers))
    && KeysAreFresh(list, given, t.cols[k].name, taken)
  }

  lemma NormalizesIf(t: Table, columns: Option<seq<string>>, given: seq<seq<LiteralNode>>)
    requires t.Valid()
    ensures InsertNormalizes(t.Names(), ColumnList(t.Names(), columns), given) <==>
            && (columns.Some? ==> forall c :: c in columns.value ==> Named(t, c))
            && (forall r :: 0 <= r < |given| ==> |given[r]| <= |t.cols|)
  {
    hide KeyIndex, IsKey;
    forall c ensures c in t.Names() <==> Named(t, c) {
      InNames(t, c);
    }
  }

  lemma CompleteIf(t: Table, list: seq<string>, row: seq<LiteralNode>)
    requires t.Valid()
    ensures RowComplete(t.cols, MaskOf(t.Names(), list), NormalRow(t.Names(), list, row)) <==>
            forall i :: 0 <= i < |t.cols| && !Given(list, row, t.cols[i].name) ==> MayBeEmpty(t.cols[i].modifiers)
  {
    hide KeyIndex, IsKey, Mentions, IsDefault, Given, SlotFor;
    AllFirstNamed(t.cols);
    var mask, slots := MaskOf(t.Names(), list), NormalRow(t.Names(), list, row);
    forall i | 0 <= i < |t.cols|
      ensures !mask[i] || EmptySlot(slots[i]) <==> !Given(list, row, t.cols[i].name)
      ensures EmptyIsViolation(FlagsOf(t.cols[i].modifiers)) <==> !MayBeEmpty(t.cols[i].modifiers)
    {
      SlotForLast(list, row, t.cols[i].name);
    }
  }

  lemma FreshIf(t: Table, k: nat, list: seq<string>, given: seq<seq<LiteralNode>>, taken: set<string>)
    requires t.Valid() && k == KeyIndex(t.cols)
    requires forall r :: 0 <= r < |given| ==> Given(list, given[r], t.cols[k].name)
    ensures FreshKeys(RawKeys(t.cols, NormalRows(t.Names(), list, given)), taken) <==>
            KeysAreFresh(list, given, t.cols[k].name, taken)
  {
    hide KeyIndex, IsKey, Given, GivenAs, SlotFor;
    AllFirstNamed(t.cols);
    var name, keys := t.cols[k].name, RawKeys(t.cols, NormalRows(t.Names(), list, given));
    forall r | 0 <= r < |given|
      ensures forall literal :: GivenAs(list, given[r], name, literal) ==> literal.value == keys[r]
      ensures exists literal :: GivenAs(list, given[r], name, literal)
    {
      SlotForLast(list, given[r], name);
      var slot := SlotFor(list, given[r], name);
      assert NormalRows(t.Names(), list, given)[r][k] == slot;
      assert GivenAs(list, given[r], name, slot.value);
    }
  }

  lemma KeyIsNumber(t: Table, k: nat)
    requires t.Valid() && k < |t.cols| && Mentions(t.cols[k].modifiers, "PRIMARY KEY")
    ensures k == KeyIndex(t.cols) && forall i :: 0 <= i < |t.cols| && Mentions(t.cols[i].modifiers, "PRIMARY KEY") ==> i == k
  {
    hide KeyIndex, Mentions, IsDefault;
    assert IsKey(t.cols[k]);
  }

  /** INSERT is accepted exactly if every listed name is a column, no row has more values than the table has columns,
      every column that a row leaves out or empty may be empty, and the key literals are fresh. */
  lemma InsertAccepts(t: Table, k: nat, taken: set<string>, columns: Option<seq<string>>, given: seq<seq<LiteralNode>>)
    requires t.Valid() && k < |t.cols| && Mentions(t.cols[k].modifiers, "PRIMARY KEY")
    ensures PlanInsert(t, taken, columns, given).Store? <==> Insertable(t, k, taken, columns, given)
  {
    hide KeyIndex, IsKey, Mentions, IsDefault, InsertNormalizes, RowComplete, FreshKeys, KeysAreFresh, Given, NormalRow, StoredPrefix, FlagsOf;
    KeyIsNumber(t, k);
    var list := ColumnList(t.Names(), columns);
    assert list == Listed(t, columns);
    NormalizesIf(t, columns, given);
    forall r | 0 <= r < |given|
      ensures RowComplete(t.cols, MaskOf(t.Names(), list), NormalRow(t.Names(), list, given[r])) <==>
              forall i :: 0 <= i < |t.cols| && !Given(list, given[r], t.cols[i].name) ==> MayBeEmpty(t.cols[i].modifiers)
    {
      CompleteIf(t, list, given[r]);
    }
    if forall r, i :: 0 <= r < |given| && 0 <= i < |t.cols| && !Given(list, given[r], t.cols[i].name) ==> MayBeEmpty(t.cols[i].modifiers) {
      assert !MayBeEmpty(t.cols[k].modifiers);
      FreshIf(t, k, list, given, taken);
    }
  }

  /** What an accepted INSERT stores in a column: the value the row gives it, without outer quotes, or else the default
      of the column. The key is always given. */
  lemma InsertStores(t: Table, k: nat, taken: set<string>, columns: Option<seq<string>>, given: seq<seq<LiteralNode>>, r: nat, i: nat)
    requires t.Valid() && k < |t.cols| && Mentions(t.cols[k].modifiers, "PRIMARY KEY") && i < |t.cols|
    requires PlanInsert(t, taken, columns, given).Store? && r < |PlanInsert(t, taken, columns, given).stored|
    ensures var list, value := Listed(t, columns), PlanInsert(t, taken, columns, given).stored[r][i];
            && (forall literal :: GivenAs(list, given[r], t.cols[i].name, literal) ==> value == Strip(literal.value))
            && (!Given(list, given[r], t.cols[i].name) ==> i != k && DefaultOf(t.cols[i].modifiers) == Some(value))
  {
    hide IsKey, KeyIndex, DefaultOf, SlotFor, Strip, FlagsOf, InsertNormalizes, StoredPrefix, StoredRow, Storable, EmptySlot, Mentions, Given, GivenAs;
    KeyIsNumber(t, k);
    var list := ColumnList(t.Names(), columns);
    var mask, normal := MaskOf(t.Names(), list), NormalRows(t.Names(), list, given);
    AllFirstNamed(t.cols);
    ValidInsertRow(t.cols, mask, normal, taken, r);
    StoredRowMeans(t, mask, normal[r], i);
    SlotForLast(list, given[r], t.cols[i].name);
    SomeIsNotEmpty(SlotFor(list, given[r], t.cols[i].name));
  }

  lemma SomeIsNotEmpty(slot: Slot)
    ensures !EmptySlot(slot) <==> slot.Some? && !slot.value.kind.Empty?
  {
  }

  /** An INSERT is refused, done, or aborted: done exactly if it is accepted and every column, other than the key, that
      a row leaves out or empty has a default that can be read. */
  lemma InsertAnswers(t: Table, rows: seq<Row>, columns: Option<seq<string>>, given: seq<seq<LiteralNode>>)
    requires t.KeyFirst() && RowsShaped(t.Layout(), rows) && Mentions(t.cols[0].modifiers, "PRIMARY KEY")
    ensures var out := TableStep(t, rows, Insert(columns, given)).1;
            && (out == Rejected <==> !Insertable(t, 0, KeysOf(rows), columns, given))
            && (out == Done <==>
                && Insertable(t, 0, KeysOf(rows), columns, given)
                && forall r, i :: 0 <= r < |given| && 0 < i < |t.cols| && !Given(Listed(t, columns), given[r], t.cols[i].name) ==>
                     DefaultOf(t.cols[i].modifiers).Some?)
            && (out == Done || out == Rejected || out == Aborted)
  {
    hide IsKey, KeyIndex, DefaultOf, FlagsOf, Mentions, Given, Insertable;
    InsertAccepts(t, 0, KeysOf(rows), columns, given);
    if PlanInsert(t, KeysOf(rows), columns, given).Store? {
      CompleteInsert(t, KeysOf(rows), columns, given);
    }
  }

  lemma CompleteInsert(t: Table, taken: set<string>, columns: Option<seq<string>>, given: seq<seq<LiteralNode>>)
    requires t.KeyFirst() && PlanInsert(t, taken, columns, given).Store?
    ensures PlanInsert(t, taken, columns, given).complete <==>
            forall r, i :: 0 <= r < |given| && 0 < i < |t.cols| && !Given(Listed(t, columns), given[r], t.cols[i].name) ==>
              DefaultOf(t.cols[i].modifiers).Some?
  {
    hide IsKey, KeyIndex, DefaultOf, SlotFor, Strip, FlagsOf, InsertNormalizes, StoredPrefix, Storable, Given;
    var list := ColumnList(t.Names(), columns);
    var mask, normal := MaskOf(t.Names(), list), NormalRows(t.Names(), list, given);
    forall r | 0 <= r < |given|
      ensures HasKey(t.cols, normal[r])
      ensures Storable(t.cols, normal[r], mask) <==>
              forall i :: 0 < i < |t.cols| && !Given(list, given[r], t.cols[i].name) ==> DefaultOf(t.cols[i].modifiers).Some?
    {
      ValidInsertRow(t.cols, mask, normal, taken, r);
      StorableIf(t, list, given[r]);
    }
    AllStored(t.cols, mask, normal);
  }

  lemma StorableIf(t: Table, list: seq<string>, row: seq<LiteralNode>)
    requires t.KeyFirst()
    ensures Storable(t.cols, NormalRow(t.Names(), list, row), MaskOf(t.Names(), list)) <==>
            forall i :: 0 < i < |t.cols| && !Given(list, row, t.cols[i].name) ==> DefaultOf(t.cols[i].modifiers).Some?
  {
    hide IsKey, DefaultOf, SlotFor, Strip, Given;
    AllFirstNamed(t.cols);
    var mask, slots := MaskOf(t.Names(), list), NormalRow(t.Names(), list, row);
    forall i | 0 <= i < |t.cols| ensures !mask[i] || EmptySlot(slots[i]) <==> !Given(list, row, t.cols[i].name) {
      SlotForLast(list, row, t.cols[i].name);
    }
  }

  /** The default of a column is the text after DEFAULT, without a pair of outer quotes. */
  lemma DefaultText(modifiers: seq<string>, k: nat, text: string)
    requires k < |modifiers| && modifiers[k] == "DEFAULT " + text && text != "" && !IsSpace(text[|text| - 1])
    requires forall i :: 0 <= i < k ==> Metadata.Keyword(modifiers[i])
    ensures DefaultOf(modifiers) == Some(Strip(text))
  {
    hide IsDefault, Strip, Metadata.Keyword, TrimRight;
    var m := modifiers[k];
    assert m[..8] == "DEFAULT ";
    Metadata.StartsWithDefault(m);
    forall i | 0 <= i < k ensures !IsDefault(modifiers[i]) {
      Metadata.KeywordIsNoDefault(modifiers[i]);
    }
    Metadata.DefaultAt(modifiers, k);
    assert m[0] == 'D' && m[|m| - 1] == text[|text| - 1];
    TrimOfWord(m);
    assert m[8..] == text;
  }
}
