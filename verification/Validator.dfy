/** Semantic checks on normalized statements (src/DBEngine/services/semantic_validator). */
module Validator {
  import opened Text
  import opened Frames
  import opened Conditions
  import opened Schemas
  import opened Serializer

  // ---- INSERT ----

  /** hasEmptyLiteralRuleViolations: no empty key, no empty NOT NULL column without a default. */
  predicate EmptyIsViolation(flags: Flags) { flags.primaryKey || (flags.notNull && !flags.hasDefault) }

  predicate RowComplete(cols: seq<ColumnDef>, mask: seq<bool>, row: seq<Slot>)
    requires |row| == |mask| == |cols|
  {
    forall j :: 0 <= j < |cols| && (!mask[j] || EmptySlot(row[j])) ==> !EmptyIsViolation(FlagsOf(cols[j].modifiers))
  }

  /** The key literal of a normalized row as the statement spelled it, quotes included. */
  function RawKey(cols: seq<ColumnDef>, row: seq<Slot>): string
    requires KeyIndex(cols) < |cols| == |row|
  {
    if row[KeyIndex(cols)].Some? then row[KeyIndex(cols)].value.value else ""
  }

  function RawKeys(cols: seq<ColumnDef>, rows: seq<seq<Slot>>): (keys: seq<string>)
    requires KeyIndex(cols) < |cols| && forall i :: 0 <= i < |rows| ==> |rows[i]| == |cols|
    ensures |keys| == |rows| && forall i :: 0 <= i < |keys| ==> keys[i] == RawKey(cols, rows[i])
  {
    seq(|rows|, i requires 0 <= i < |rows| => RawKey(cols, rows[i]))
  }

  /** No two of the keys are equal, and none is taken. */
  predicate FreshKeys(keys: seq<string>, taken: set<string>) {
    (forall i :: 0 <= i < |keys| ==> keys[i] !in taken) &&
    forall i, j :: 0 <= i < j < |keys| ==> keys[i] != keys[j]
  }

  predicate InsertValid(cols: seq<ColumnDef>, mask: seq<bool>, rows: seq<seq<Slot>>, taken: set<string>)
    requires ValidSchema(cols) && |mask| == |cols| && forall i :: 0 <= i < |rows| ==> |rows[i]| == |cols|
  {
    && (forall i :: 0 <= i < |rows| ==> RowComplete(cols, mask, rows[i]))
    && FreshKeys(RawKeys(cols, rows), taken)
  }

  // ---- the check as it runs, on any schema ----

  /** The literals that a row gives for primary-key columns, as spelled, in schema order. */
  function KeyLiterals(cols: seq<ColumnDef>, row: seq<Slot>): seq<string>
    requires |row| == |cols|
  {
    if cols == [] then []
    else
      var n := |cols| - 1;
      KeyLiterals(cols[..n], row[..n]) + if IsKey(cols[n]) && !EmptySlot(row[n]) then [row[n].value.value] else []
  }

  function AllKeyLiterals(cols: seq<ColumnDef>, rows: seq<seq<Slot>>): seq<string>
    requires forall i :: 0 <= i < |rows| ==> |rows[i]| == |cols|
  {
    if rows == [] then [] else AllKeyLiterals(cols, rows[..|rows| - 1]) + KeyLiterals(cols, rows[|rows| - 1])
  }

  /** Every row is complete, and no literal of a primary-key column is taken or comes twice. */
  predicate InsertAccepted(cols: seq<ColumnDef>, mask: seq<bool>, rows: seq<seq<Slot>>, taken: set<string>)
    requires |mask| == |cols| && forall i :: 0 <= i < |rows| ==> |rows[i]| == |cols|
  {
    && (forall i :: 0 <= i < |rows| ==> RowComplete(cols, mask, rows[i]))
    && FreshKeys(AllKeyLiterals(cols, rows), taken)
  }

  method ValidateInsertSemantics(cols: seq<ColumnDef>, mask: seq<bool>, rows: seq<seq<Slot>>, index: map<string, nat>)
    returns (ok: bool)
    requires |mask| == |cols| && forall i :: 0 <= i < |rows| ==> |rows[i]| == |cols|
    ensures ok <==> InsertAccepted(cols, mask, rows, index.Keys)
  {
    hide FlagsOf, KeyLiterals, AllKeyLiterals, FreshKeys, EmptyIsViolation, EmptySlot;
    var seen: set<string> := {};
    ghost var keys: seq<string> := [];
    NoKeyLiterals(cols, index.Keys);
    for i := 0 to |rows|
      invariant forall k :: 0 <= k < i ==> RowComplete(cols, mask, rows[k])
      invariant keys == AllKeyLiterals(cols, rows[..i]) && FreshKeys(keys, index.Keys) && seen == set k | k in keys
    {
      NextRowKeys(cols, rows, i);
      NoRowKeys(keys);
      for j := 0 to |cols|
        invariant forall k :: 0 <= k < j && (!mask[k] || EmptySlot(rows[i][k])) ==>
          !EmptyIsViolation(FlagsOf(cols[k].modifiers))
        invariant keys == AllKeyLiterals(cols, rows[..i]) + KeyLiterals(cols[..j], rows[i][..j])
        invariant FreshKeys(keys, index.Keys) && seen == set k | k in keys
      {
        var flags := GetModifiers(cols[j].modifiers);
        var lit := rows[i][j];
        var isEmpty := lit.None? || lit.value.kind.Empty?;
        SlotIsEmpty(lit);
        if (!mask[j] || isEmpty) && (flags.primaryKey || (flags.notNull && !flags.hasDefault)) {
          IncompleteRow(cols, mask, rows[i], j);
          return false;
        }
        NoViolation(flags);
        NextKeyLiteral(cols, rows, i, j);
        if !isEmpty && flags.primaryKey {
          OneMoreKey(keys, lit.value.value, index.Keys);
          if lit.value.value in seen || lit.value.value in index {
            StaleKeys(keys + [lit.value.value], AllKeyLiterals(cols, rows), index.Keys);
            return false;
          }
          seen := seen + {lit.value.value};
          keys := keys + [lit.value.value];
        }
      }
      assert cols[..|cols|] == cols && rows[i][..|cols|] == rows[i];
    }
    assert rows[..|rows|] == rows;
    return true;
  }

  lemma NoKeyLiterals(cols: seq<ColumnDef>, taken: set<string>)
    ensures AllKeyLiterals(cols, []) == [] && FreshKeys([], taken)
  {
  }

  lemma NoRowKeys(keys: seq<string>)
    ensures KeyLiterals([], []) == [] && keys + [] == keys
  {
  }

  lemma SlotIsEmpty(lit: Slot)
    ensures EmptySlot(lit) <==> lit.None? || lit.value.kind.Empty?
  {
  }

  lemma NoViolation(flags: Flags)
    ensures EmptyIsViolation(flags) <==> flags.primaryKey || (flags.notNull && !flags.hasDefault)
  {
  }

  lemma IncompleteRow(cols: seq<ColumnDef>, mask: seq<bool>, row: seq<Slot>, j: nat)
    requires |row| == |mask| == |cols| && j < |cols| && (!mask[j] || EmptySlot(row[j]))
    requires var flags := FlagsOf(cols[j].modifiers); flags.primaryKey || (flags.notNull && !flags.hasDefault)
    ensures !RowComplete(cols, mask, row)
  {
    hide FlagsOf;
    assert EmptyIsViolation(FlagsOf(cols[j].modifiers));
  }

  lemma NextRowKeys(cols: seq<ColumnDef>, rows: seq<seq<Slot>>, i: nat)
    requires i < |rows| && forall k :: 0 <= k < |rows| ==> |rows[k]| == |cols|
    ensures AllKeyLiterals(cols, rows[..i + 1]) == AllKeyLiterals(cols, rows[..i]) + KeyLiterals(cols, rows[i])
  {
    hide KeyLiterals;
    assert rows[..i + 1][..i] == rows[..i];
  }

  /** One column on: the literals grow by at most one, and stay a prefix of those of the whole statement. */
  lemma NextKeyLiteral(cols: seq<ColumnDef>, rows: seq<seq<Slot>>, i: nat, j: nat)
    requires i < |rows| && j < |cols| && forall k :: 0 <= k < |rows| ==> |rows[k]| == |cols|
    ensures var before := AllKeyLiterals(cols, rows[..i]) + KeyLiterals(cols[..j], rows[i][..j]);
            var after := AllKeyLiterals(cols, rows[..i]) + KeyLiterals(cols[..j + 1], rows[i][..j + 1]);
            && after == before + (if IsKey(cols[j]) && !EmptySlot(rows[i][j]) then [rows[i][j].value.value] else [])
            && after <= AllKeyLiterals(cols, rows)
  {
    hide IsKey, AllKeyLiterals;
    var a, b := cols[..j + 1], rows[i][..j + 1];
    assert a[..j] == cols[..j] && b[..j] == rows[i][..j];
    var done, front := AllKeyLiterals(cols, rows[..i]), KeyLiterals(cols[..j], rows[i][..j]);
    var last := if IsKey(cols[j]) && !EmptySlot(rows[i][j]) then [rows[i][j].value.value] else [];
    assert KeyLiterals(a, b) == front + last;
    assert done + (front + last) == (done + front) + last;
    KeyLiteralsGrow(cols, rows[i], j + 1);
    AllKeyLiteralsGrow(cols, rows, i + 1);
    NextRowKeys(cols, rows, i);
  }

  lemma {:induction false} KeyLiteralsGrow(cols: seq<ColumnDef>, row: seq<Slot>, j: nat)
    requires |row| == |cols| && j <= |cols|
    ensures KeyLiterals(cols[..j], row[..j]) <= KeyLiterals(cols, row)
    decreases |cols|
  {
    hide IsKey, EmptySlot;
    var n := |cols| - 1;
    if j <= n {
      KeyLiteralsGrow(cols[..n], row[..n], j);
      assert cols[..n][..j] == cols[..j] && row[..n][..j] == row[..j];
    } else {
      assert cols[..j] == cols && row[..j] == row;
    }
  }

  lemma {:induction false} AllKeyLiteralsGrow(cols: seq<ColumnDef>, rows: seq<seq<Slot>>, i: nat)
    requires i <= |rows| && forall k :: 0 <= k < |rows| ==> |rows[k]| == |cols|
    ensures AllKeyLiterals(cols, rows[..i]) <= AllKeyLiterals(cols, rows)
    decreases |rows|
  {
    hide KeyLiterals;
    var n := |rows| - 1;
    if i <= n {
      AllKeyLiteralsGrow(cols, rows[..n], i);
      assert rows[..n][..i] == rows[..i];
    } else {
      assert rows[..i] == rows;
    }
  }

  lemma OneMoreKey(keys: seq<string>, key: string, taken: set<string>)
    requires FreshKeys(keys, taken)
    ensures FreshKeys(keys + [key], taken) <==> key !in keys && key !in taken
  {
    var more := keys + [key];
    if FreshKeys(more, taken) {
      forall i | 0 <= i < |keys| ensures keys[i] != key {
        assert more[i] != more[|keys|];
      }
      assert more[|keys|] == key;
    }
  }

  lemma StaleKeys(keys: seq<string>, all: seq<string>, taken: set<string>)
    requires keys <= all && !FreshKeys(keys, taken)
    ensures !FreshKeys(all, taken)
  {
    if FreshKeys(all, taken) {
      forall i | 0 <= i < |keys| ensures keys[i] == all[i] {}
    }
  }

  /** With one primary-key column, and names that differ, the literals checked are the keys of the rows. */
  lemma AcceptedIsValid(cols: seq<ColumnDef>, mask: seq<bool>, rows: seq<seq<Slot>>, taken: set<string>)
    requires ValidSchema(cols) && |mask| == |cols| && forall i :: 0 <= i < |rows| ==> |rows[i]| == |cols|
    ensures InsertAccepted(cols, mask, rows, taken) <==> InsertValid(cols, mask, rows, taken)
  {
    hide RowComplete, FreshKeys, KeyIndex, IsKey;
    if forall i :: 0 <= i < |rows| ==> RowComplete(cols, mask, rows[i]) {
      CompleteKeyLiterals(cols, mask, rows);
    }
  }

  lemma {:induction false} CompleteKeyLiterals(cols: seq<ColumnDef>, mask: seq<bool>, rows: seq<seq<Slot>>)
    requires ValidSchema(cols) && |mask| == |cols| && forall i :: 0 <= i < |rows| ==> |rows[i]| == |cols|
    requires forall i :: 0 <= i < |rows| ==> RowComplete(cols, mask, rows[i])
    ensures AllKeyLiterals(cols, rows) == RawKeys(cols, rows)
  {
    hide RowComplete, KeyIndex, IsKey, KeyLiterals;
    if rows != [] {
      var n := |rows| - 1;
      CompleteKeyLiterals(cols, mask, rows[..n]);
      ValidRowHasKey(cols, mask, rows[n]);
      OneKeyLiteral(cols, rows[n], |cols|);
      assert cols[..|cols|] == cols && rows[n][..|cols|] == rows[n];
      assert RawKeys(cols, rows) == RawKeys(cols, rows[..n]) + [RawKey(cols, rows[n])];
    }
  }

  lemma {:induction false} OneKeyLiteral(cols: seq<ColumnDef>, row: seq<Slot>, j: nat)
    requires ValidSchema(cols) && |row| == |cols| && j <= |cols| && !EmptySlot(row[KeyIndex(cols)])
    ensures KeyLiterals(cols[..j], row[..j]) == if j <= KeyIndex(cols) then [] else [RawKey(cols, row)]
  {
    hide KeyIndex, IsKey;
    if j > 0 {
      OneKeyLiteral(cols, row, j - 1);
      assert cols[..j][..j - 1] == cols[..j - 1] && row[..j][..j - 1] == row[..j - 1];
    }
  }

  /** A row that passes has a key literal that is neither missing nor empty. */
  lemma ValidRowHasKey(cols: seq<ColumnDef>, mask: seq<bool>, row: seq<Slot>)
    requires ValidSchema(cols) && |mask| == |row| == |cols| && RowComplete(cols, mask, row)
    ensures HasKey(cols, row) && !EmptySlot(row[KeyIndex(cols)])
  {
    assert IsKey(cols[KeyIndex(cols)]);
  }

  // ---- when the uniqueness check is right ----

  function StripAll(keys: seq<string>): (r: seq<string>)
    ensures |r| == |keys| && forall i :: 0 <= i < |r| ==> r[i] == Strip(keys[i])
  {
    seq(|keys|, i requires 0 <= i < |keys| => Strip(keys[i]))
  }

  lemma {:induction false} ShortestQuoted(keys: seq<string>, i: nat) returns (m: nat)
    requires i < |keys| && Quoted(keys[i])
    ensures m < |keys| && Quoted(keys[m])
    ensures forall j :: 0 <= j < |keys| && Quoted(keys[j]) ==> |keys[m]| <= |keys[j]|
    decreases |keys[i]|
  {
    m := i;
    if j :| 0 <= j < |keys| && Quoted(keys[j]) && |keys[j]| < |keys[i]| {
      m := ShortestQuoted(keys, j);
    }
  }

  /** INSERT checks the key literals as spelled but stores them without outer quotes. For literals that are
      spelled differently from each other, passing the check implies unique stored keys on every table exactly
      when no literal is quoted. */
  lemma UniquenessCheckExact(keys: seq<string>)
    requires forall i, j :: 0 <= i < j < |keys| ==> keys[i] != keys[j]
    ensures (forall taken :: FreshKeys(keys, taken) ==> FreshKeys(StripAll(keys), taken)) <==>
            (forall i :: 0 <= i < |keys| ==> !Quoted(keys[i]))
  {
    hide Strip, Quoted;
    if i :| 0 <= i < |keys| && Quoted(keys[i]) {
      var m := ShortestQuoted(keys, i);
      QuotedKeySlipsThrough(keys, m);
    } else {
      assert StripAll(keys) == keys;
    }
  }

  /** The table that the check lets the shortest quoted key collide with. */
  lemma QuotedKeySlipsThrough(keys: seq<string>, m: nat)
    requires forall i, j :: 0 <= i < j < |keys| ==> keys[i] != keys[j]
    requires m < |keys| && Quoted(keys[m])
    requires forall j :: 0 <= j < |keys| && Quoted(keys[j]) ==> |keys[m]| <= |keys[j]|
    ensures exists taken :: FreshKeys(keys, taken) && !FreshKeys(StripAll(keys), taken)
  {
    hide Quoted, Strip;
    var bare, stored := Strip(keys[m]), StripAll(keys);
    if j :| 0 <= j < |keys| && keys[j] == bare {
      // the unquoted spelling stands in the same statement
      assert !Quoted(bare);
      assert stored[j] == stored[m];
      assert FreshKeys(keys, {}) && !FreshKeys(stored, {});
    } else {
      // the unquoted spelling is in the table
      assert stored[m] in {bare};
      assert FreshKeys(keys, {bare}) && !FreshKeys(stored, {bare});
    }
  }

  /** The literal 'a', in quotes, passes the check on a table that holds the key a, and is stored as a. */
  lemma QuotedKeyExample()
    ensures FreshKeys(["'a'"], {"a"}) && !FreshKeys(StripAll(["'a'"]), {"a"})
  {
    assert "'a'" != "a" by { assert |"'a'"| == 3; }
    assert StripAll(["'a'"])[0] == "a";
  }

  // ---- WHERE ----

  /** validateWhereClauseSemantics on a resolved condition. */
  predicate WhereValid(where: Where) {
    where.Some? ==> !where.value.literal.kind.Empty? && LiteralFits(where.value.cmp, where.value.literal.kind)
  }

  /** The check of SELECT and DELETE for a condition `key = literal`: the literal, as it stands, is in the index. */
  predicate KeyLookupValid(where: Where, keyColumn: string, index: map<string, nat>) {
    UniqueEqualityLookup(where, keyColumn) ==> where.value.literal.value in index
  }
}
