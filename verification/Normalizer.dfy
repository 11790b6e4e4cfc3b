/** Rewriting statements into schema order (src/DBEngine/services/semantic_normalizer). */
module Normalizer {
  import opened Text
  import opened Frames
  import opened Conditions
  import opened Schemas
  import opened Serializer

  const EMPTY: LiteralNode := LiteralNode(Empty, "")

  // ---- INSERT ----

  function ColumnList(names: seq<string>, columns: Option<seq<string>>): seq<string> {
    if columns.None? then names else columns.value
  }

  predicate InsertNormalizes(names: seq<string>, list: seq<string>, rows: seq<seq<LiteralNode>>) {
    (forall c :: c in list ==> c in names) && forall i :: 0 <= i < |rows| ==> |rows[i]| <= |names|
  }

  /** The columns that the list names; of columns with the same name, the first. */
  function MaskOf(names: seq<string>, list: seq<string>): (mask: seq<bool>)
    ensures |mask| == |names| && forall i :: 0 <= i < |mask| ==> mask[i] == (names[i] in list && FirstNamed(names, i))
  {
    seq(|names|, i requires 0 <= i < |names| => names[i] in list && FirstNamed(names, i))
  }

  /** What a row gives for a column: nothing if the column list does not name it, otherwise the value at the
      last place where the list names it, and an empty literal if the row is too short for that place. */
  function SlotFor(list: seq<string>, row: seq<LiteralNode>, name: string): Slot {
    if list == [] then None
    else
      var j := |list| - 1;
      if list[j] == name then Some(if j < |row| then row[j] else EMPTY) else SlotFor(list[..j], row, name)
  }

  function NormalRow(names: seq<string>, list: seq<string>, row: seq<LiteralNode>): (slots: seq<Slot>)
    ensures |slots| == |names|
    ensures forall i :: 0 <= i < |slots| ==> slots[i] == if FirstNamed(names, i) then SlotFor(list, row, names[i]) else None
  {
    seq(|names|, i requires 0 <= i < |names| => if FirstNamed(names, i) then SlotFor(list, row, names[i]) else None)
  }

  function NormalRows(names: seq<string>, list: seq<string>, rows: seq<seq<LiteralNode>>): (r: seq<seq<Slot>>)
    ensures |r| == |rows| && forall i :: 0 <= i < |r| ==> r[i] == NormalRow(names, list, rows[i])
  {
    seq(|rows|, i requires 0 <= i < |rows| => NormalRow(names, list, rows[i]))
  }

  /** A name that is found belongs to one first-named column. */
  lemma NamedBy(names: seq<string>, name: string)
    requires name in names
    ensures forall k :: 0 <= k < |names| ==> (names[k] == name && FirstNamed(names, k) <==> k == Find(names, name))
  {
    forall k | 0 <= k < |names| ensures names[k] == name && FirstNamed(names, k) <==> k == Find(names, name) {
      FindIsFirst(names, k);
    }
  }

  method NormalizeInsert(cols: seq<ColumnDef>, columns: Option<seq<string>>, rows: seq<seq<LiteralNode>>)
    returns (ok: bool, mask: seq<bool>, normalized: seq<seq<Slot>>)
    ensures ok <==> InsertNormalizes(Names(cols), ColumnList(Names(cols), columns), rows)
    ensures ok ==> mask == MaskOf(Names(cols), ColumnList(Names(cols), columns))
    ensures ok ==> normalized == NormalRows(Names(cols), ColumnList(Names(cols), columns), rows)
  {
    var names := Names(cols);
    var list := if columns.None? then names else columns.value;
    ok := false;
    normalized := [];
    mask := seq(|names|, _ => false);
    for i := 0 to |list|
      invariant !ok && |mask| == |names|
      invariant forall c :: c in list[..i] ==> c in names
      invariant forall k :: 0 <= k < |mask| ==> mask[k] == (names[k] in list[..i] && FirstNamed(names, k))
    {
      var index := Find(names, list[i]);
      assert list[..i + 1] == list[..i] + [list[i]];
      if index == |names| {
        return;
      }
      NamedBy(names, list[i]);
      mask := mask[index := true];
    }
    assert list[..|list|] == list;
    for r := 0 to |rows|
      invariant |normalized| == r
      invariant forall i :: 0 <= i < r ==> |rows[i]| <= |names| && normalized[i] == NormalRow(names, list, rows[i])
    {
      if |rows[r]| > |names| {
        return;
      }
      var row := NormalizeRow(cols, list, rows[r]);
      normalized := normalized + [row];
    }
    ok := true;
  }

  /** One row rewritten to schema order. */
  method NormalizeRow(cols: seq<ColumnDef>, list: seq<string>, given: seq<LiteralNode>) returns (row: seq<Slot>)
    requires forall c :: c in list ==> c in Names(cols)
    ensures row == NormalRow(Names(cols), list, given)
  {
    hide Find;
    var names := Names(cols);
    row := seq(|names|, _ => None);
    for j := 0 to |list|
      invariant |row| == |names|
      invariant forall k :: 0 <= k < |row| ==> row[k] == if FirstNamed(names, k) then SlotFor(list[..j], given, names[k]) else None
    {
      var index := Find(names, list[j]);
      assert list[..j + 1][..j] == list[..j];
      assert list[j] in list;
      NamedBy(names, list[j]);
      row := row[index := Some(if j < |given| then given[j] else EMPTY)];
    }
    assert list[..|list|] == list;
  }

  // ---- what INSERT normalization means ----

  /** With a column list without repetitions, a named column gets the value standing at its place in the row
      (an empty literal if there is none), and a column that is not named gets nothing. */
  lemma {:induction false} SlotForMeans(list: seq<string>, row: seq<LiteralNode>, name: string, j: nat)
    requires forall i, k :: 0 <= i < k < |list| ==> list[i] != list[k]
    requires j < |list| && list[j] == name
    ensures SlotFor(list, row, name) == Some(if j < |row| then row[j] else EMPTY)
    decreases |list|
  {
    if j < |list| - 1 {
      SlotForMeans(list[..|list| - 1], row, name, j);
    }
  }

  lemma {:induction false} SlotForAbsent(list: seq<string>, row: seq<LiteralNode>, name: string)
    requires name !in list
    ensures SlotFor(list, row, name) == None
  {
    if list != [] {
      SlotForAbsent(list[..|list| - 1], row, name);
    }
  }

  /** The column list of `list` in another order, and its row of values in the same order. */
  function Permuted<T>(s: seq<T>, order: seq<nat>): (r: seq<T>)
    requires forall i :: 0 <= i < |order| ==> order[i] < |s|
    ensures |r| == |order| && forall i :: 0 <= i < |r| ==> r[i] == s[order[i]]
  {
    seq(|order|, i requires 0 <= i < |order| => s[order[i]])
  }

  predicate IsPermutation(order: seq<nat>, n: nat) {
    && |order| == n
    && (forall i :: 0 <= i < n ==> order[i] < n)
    && (forall i, j :: 0 <= i < j < n ==> order[i] != order[j])
    && (forall k :: 0 <= k < n ==> k in order)
  }

  /** Naming the columns in another order, with the values in that order too, is the same statement: mask and
      normalized row, and so every stored byte, are equal. */
  lemma ColumnOrderIsIrrelevant(names: seq<string>, list: seq<string>, row: seq<LiteralNode>, order: seq<nat>)
    requires |list| == |row| && IsPermutation(order, |list|)
    requires forall i, k :: 0 <= i < k < |list| ==> list[i] != list[k]
    ensures MaskOf(names, Permuted(list, order)) == MaskOf(names, list)
    ensures NormalRow(names, Permuted(list, order), Permuted(row, order)) == NormalRow(names, list, row)
  {
    var list', row' := Permuted(list, order), Permuted(row, order);
    forall i | 0 <= i < |names|
      ensures (names[i] in list') == (names[i] in list)
      ensures SlotFor(list', row', names[i]) == SlotFor(list, row, names[i])
    {
      if names[i] in list {
        var j :| 0 <= j < |list| && list[j] == names[i];
        assert j in order;
        var p :| 0 <= p < |order| && order[p] == j;
        assert list'[p] == names[i];
        SlotForMeans(list, row, names[i], j);
        SlotForMeans(list', row', names[i], p);
      } else {
        assert names[i] !in list';
        SlotForAbsent(list, row, names[i]);
        SlotForAbsent(list', row', names[i]);
      }
    }
  }

  // ---- UPDATE ----

  datatype Assignment = Assignment(column: string, literal: LiteralNode)

  predicate Assigns(assignments: seq<Assignment>, name: string) {
    exists a :: 0 <= a < |assignments| && assignments[a].column == name
  }

  /** At least one assignment, each to a different existing column that is not the key. */
  predicate UpdateNormalizes(names: seq<string>, key: string, assignments: seq<Assignment>) {
    && assignments != []
    && (forall a :: 0 <= a < |assignments| ==> assignments[a].column in names && assignments[a].column != key)
    && (forall a, b :: 0 <= a < b < |assignments| ==> assignments[a].column != assignments[b].column)
  }

  /** schema_index_to_literal_map: the assigned text of each column; a second insertion for a column is ignored. */
  function AssignedTexts(names: seq<string>, assignments: seq<Assignment>): map<nat, string> {
    if assignments == [] then map[]
    else
      var a := |assignments| - 1;
      var before := AssignedTexts(names, assignments[..a]);
      var index := Find(names, assignments[a].column);
      if index in before then before else before[index := Strip(assignments[a].literal.value)]
  }

  lemma {:induction false} AssignedTextsKeys(names: seq<string>, assignments: seq<Assignment>)
    ensures forall i :: i in AssignedTexts(names, assignments) <==>
              exists a :: 0 <= a < |assignments| && Find(names, assignments[a].column) == i
  {
    hide Find, Strip;
    if assignments != [] {
      var n := |assignments| - 1;
      AssignedTextsKeys(names, assignments[..n]);
      forall i ensures i in AssignedTexts(names, assignments) <==>
                 exists a :: 0 <= a < |assignments| && Find(names, assignments[a].column) == i
      {
        if i in AssignedTexts(names, assignments[..n]) {
          var a :| 0 <= a < n && Find(names, assignments[..n][a].column) == i;
          assert Find(names, assignments[a].column) == i;
        } else if a :| 0 <= a < |assignments| && Find(names, assignments[a].column) == i {
          assert a < n ==> assignments[..n][a] == assignments[a];
        }
      }
    }
  }

  lemma {:induction false} AssignedTextAt(names: seq<string>, assignments: seq<Assignment>, a: nat)
    requires a < |assignments|
    requires forall b :: 0 <= b < a ==> Find(names, assignments[b].column) != Find(names, assignments[a].column)
    ensures var i := Find(names, assignments[a].column);
            i in AssignedTexts(names, assignments) &&
            AssignedTexts(names, assignments)[i] == Strip(assignments[a].literal.value)
    decreases |assignments|
  {
    hide Find, Strip;
    var n := |assignments| - 1;
    if a < n {
      AssignedTextAt(names, assignments[..n], a);
    } else {
      AssignedTextsKeys(names, assignments[..n]);
    }
  }

  lemma DistinctPlaces(names: seq<string>, key: string, assignments: seq<Assignment>, a: nat)
    requires UpdateNormalizes(names, key, assignments) && a < |assignments|
    ensures forall b :: 0 <= b < a ==> Find(names, assignments[b].column) != Find(names, assignments[a].column)
  {
  }

  /** Of a statement that normalizes, the map holds exactly the columns assigned to, each with its literal. */
  lemma AssignedTextsMean(cols: seq<ColumnDef>, key: string, assignments: seq<Assignment>, i: nat)
    requires UpdateNormalizes(Names(cols), key, assignments) && i < |cols|
    ensures i in AssignedTexts(Names(cols), assignments) <==> Assigns(assignments, cols[i].name) && FirstNamed(Names(cols), i)
    ensures forall a :: 0 <= a < |assignments| && assignments[a].column == cols[i].name && FirstNamed(Names(cols), i) ==>
              i in AssignedTexts(Names(cols), assignments) &&
              AssignedTexts(Names(cols), assignments)[i] == Strip(assignments[a].literal.value)
  {
    hide Find, Strip;
    var names := Names(cols);
    AssignedTextsKeys(names, assignments);
    if i in AssignedTexts(names, assignments) {
      var a :| 0 <= a < |assignments| && Find(names, assignments[a].column) == i;
      assert assignments[a].column == cols[i].name;
      FindIsFirst(names, i);
    }
    forall a | 0 <= a < |assignments| && assignments[a].column == cols[i].name && FirstNamed(names, i)
      ensures i in AssignedTexts(names, assignments) &&
              AssignedTexts(names, assignments)[i] == Strip(assignments[a].literal.value)
    {
      FindIsFirst(names, i);
      DistinctPlaces(names, key, assignments, a);
      AssignedTextAt(names, assignments, a);
    }
  }

  method NormalizeUpdate(cols: seq<ColumnDef>, key: string, assignments: seq<Assignment>)
    returns (ok: bool, mask: seq<bool>, texts: map<nat, string>)
    ensures ok <==> UpdateNormalizes(Names(cols), key, assignments)
    ensures ok ==> texts == AssignedTexts(Names(cols), assignments)
    ensures ok ==> |mask| == |cols| && forall i :: 0 <= i < |mask| ==> mask[i] == (i !in texts)
  {
    hide Find, Strip;
    ok := false;
    texts := map[];
    mask := [];
    if assignments == [] {
      return;
    }
    var assignedColumns: set<string> := {};
    var names := Names(cols);
    mask := seq(|cols|, _ => true);
    for k := 0 to |assignments|
      invariant !ok && |mask| == |cols|
      invariant assignedColumns == set a | 0 <= a < k :: assignments[a].column
      invariant k > 0 ==> UpdateNormalizes(names, key, assignments[..k])
      invariant texts == AssignedTexts(names, assignments[..k])
      invariant forall i :: 0 <= i < |mask| ==> mask[i] == (i !in texts)
    {
      var column := assignments[k].column;
      var text := Strip(assignments[k].literal.value);
      var index := Find(names, column);
      if index == |names| {
        return;
      }
      mask := mask[index := false];
      assert assignments[..k + 1][..k] == assignments[..k];
      if index !in texts {
        texts := texts[index := text];
      }
      if column in assignedColumns {
        return;
      }
      if column == key {
        return;
      }
      assignedColumns := assignedColumns + {column};
    }
    assert assignments[..|assignments|] == assignments;
    ok := true;
  }

  // ---- WHERE and SELECT ----

  /** normalizeWhereClause: the schema index of the column, or failure for an unknown column. */
  function ResolveWhere(names: seq<string>, where: Where): (r: Option<Where>)
    ensures r.None? <==> where.Some? && where.value.column !in names
    ensures r.Some? && where.Some? ==>
      r.value == Some(where.value.(schemaIndex := Find(names, where.value.column))) && r.value.value.schemaIndex < |names|
  {
    if where.None? then Some(None)
    else
      var index := Find(names, where.value.column);
      if index == |names| then None else Some(Some(where.value.(schemaIndex := index)))
  }

  /** What normalizeDelete does to the literal before anything else reads it. */
  function StripWhere(where: Where): Where {
    if where.None? then None
    else Some(where.value.(literal := where.value.literal.(value := Strip(where.value.literal.value))))
  }

  method NormalizeSelect(cols: seq<ColumnDef>, columns: Option<seq<string>>)
    returns (ok: bool, mask: seq<bool>)
    ensures ok <==> forall c :: c in ColumnList(Names(cols), columns) ==> c in Names(cols)
    ensures ok ==> mask == MaskOf(Names(cols), ColumnList(Names(cols), columns))
  {
    var names := Names(cols);
    var list := if columns.None? then names else columns.value;
    ok := false;
    mask := seq(|names|, _ => false);
    for i := 0 to |list|
      invariant !ok && |mask| == |names|
      invariant forall c :: c in list[..i] ==> c in names
      invariant forall k :: 0 <= k < |mask| ==> mask[k] == (names[k] in list[..i] && FirstNamed(names, k))
    {
      var index := Find(names, list[i]);
      assert list[..i + 1] == list[..i] + [list[i]];
      if index == |names| {
        return;
      }
      NamedBy(names, list[i]);
      mask := mask[index := true];
    }
    assert list[..|list|] == list;
    ok := true;
  }
}
