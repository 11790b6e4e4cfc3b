/** Writing one record (src/DBEngine/filehandler/serialization/normalized-record.cpp). */
module Serializer {
  import opened Text
  import opened Frames
  import opened Conditions
  import opened Schemas
  import opened TableFiles

  /** One slot of a normalized record: no literal where the statement named no value for the column. */
  type Slot = Option<LiteralNode>

  predicate EmptySlot(slot: Slot) { slot.None? || slot.value.kind.Empty? }

  /** The text stored for a column other than the key: the default where no value was given. */
  function StoredValue(col: ColumnDef, slot: Slot, provided: bool): Option<string> {
    if !provided || EmptySlot(slot) then DefaultOf(col.modifiers) else Some(Strip(slot.value.value))
  }

  predicate Storable(cols: seq<ColumnDef>, slots: seq<Slot>, mask: seq<bool>)
    requires |slots| == |mask| == |cols|
  {
    forall i :: 0 <= i < |cols| && i != KeyIndex(cols) ==> StoredValue(cols[i], slots[i], mask[i]).Some?
  }

  predicate HasKey(cols: seq<ColumnDef>, slots: seq<Slot>) {
    KeyIndex(cols) < |cols| == |slots| && slots[KeyIndex(cols)].Some?
  }

  /** The stored row, in schema order. */
  function StoredRow(cols: seq<ColumnDef>, slots: seq<Slot>, mask: seq<bool>): (row: Row)
    requires |slots| == |mask| == |cols| && HasKey(cols, slots) && Storable(cols, slots, mask)
    ensures |row| == |cols|
  {
    seq(|cols|, i requires 0 <= i < |cols| =>
      if i == KeyIndex(cols) then Strip(slots[i].value.value) else StoredValue(cols[i], slots[i], mask[i]).value)
  }

  /** The order in which the values of a row stand in the file: the key first. */
  function FileOrder(l: Layout, row: Row): (r: Row)
    requires l.Valid() && |row| == l.n
    ensures |r| == l.n
  {
    [row[l.pk]] + row[..l.pk] + row[l.pk + 1..]
  }

  /** Layout.Place finds each schema column in the file order. */
  lemma FileOrderPlaces(l: Layout, row: Row, c: nat)
    requires l.Valid() && |row| == l.n && c < l.n
    ensures FileOrder(l, row)[l.Place(c)] == row[c]
  {
  }

  lemma KeyLeads(l: Layout, row: Row)
    requires l.Valid() && |row| == l.n
    ensures FileOrder(l, row)[0] == row[l.pk]
  {
  }

  /** The readers take the i-th value in the file for schema column i. They get every row of every table right
      exactly when the key is the first column of the schema. */
  lemma ReadersNeedKeyFirst(l: Layout)
    requires l.Valid()
    ensures (forall row: Row :: |row| == l.n ==> FileOrder(l, row) == row) <==> l.pk == 0
  {
    if l.pk != 0 {
      var row: Row := seq(l.n, i => if i == 0 then "a" else "b");
      assert FileOrder(l, row)[0] == "b";
    } else {
      forall row: Row | |row| == l.n ensures FileOrder(l, row) == row {
        assert row[..0] == [] && row == [row[0]] + row[1..];
      }
    }
  }

  /** With the key as second column, the row ("name", "7") is read back as ("7", "name"). */
  lemma SecondColumnKeyExample()
    ensures FileOrder(Layout(2, 1), ["name", "7"]) == ["7", "name"]
  {
  }

  lemma OffsetTableNext(ids: seq<nat>, vals: seq<string>, start: nat, j: nat)
    requires |ids| == |vals| && (forall i :: 0 <= i < |ids| ==> ids[i] < 256) && j < |ids|
    ensures OffsetTable(ids[..j + 1], vals[..j + 1], start) ==
            OffsetTable(ids[..j], vals[..j], start) + OffsetEntry(start + |Literals(vals[..j])|, ids[j])
    decreases j
  {
    hide OffsetEntry, Literal;
    var a, b := ids[..j + 1], vals[..j + 1];
    if j == 0 {
      assert a[1..] == [] && b[1..] == [] && vals[..0] == [];
    } else {
      assert a[1..] == ids[1..][..j] && b[1..] == vals[1..][..j];
      OffsetTableNext(ids[1..], vals[1..], start + 8 + |vals[0]|, j - 1);
      assert ids[..j][1..] == ids[1..][..j - 1] && vals[..j][1..] == vals[1..][..j - 1];
      assert vals[..j] == [vals[0]] + vals[1..][..j - 1];
      LiteralsConcat([vals[0]], vals[1..][..j - 1]);
      assert [vals[0]][1..] == [];
    }
  }

  /** The entries gathered for the first |payload| columns after the key. */
  ghost predicate Collected(l: Layout, cols: seq<ColumnDef>, slots: seq<Slot>, mask: seq<bool>,
                            offsets: seq<(nat, nat)>, payload: seq<string>)
    requires l.Valid() && |slots| == |mask| == |cols| == l.n
  {
    && |offsets| == |payload| <= l.n - 1
    && (forall j :: 0 <= j < |payload| ==>
          Some(payload[j]) == StoredValue(cols[l.Ids()[j]], slots[l.Ids()[j]], mask[l.Ids()[j]]))
    && (forall j :: 0 <= j < |offsets| ==> offsets[j] == (|Literals(payload[..j])|, l.Ids()[j]))
  }

  lemma CollectedNext(l: Layout, cols: seq<ColumnDef>, slots: seq<Slot>, mask: seq<bool>,
                      offsets: seq<(nat, nat)>, payload: seq<string>, i: nat, value: string)
    requires l.Valid() && |slots| == |mask| == |cols| == l.n
    requires Collected(l, cols, slots, mask, offsets, payload)
    requires i < l.n && i != l.pk && |payload| == (if i <= l.pk then i else i - 1)
    requires StoredValue(cols[i], slots[i], mask[i]) == Some(value)
    ensures Collected(l, cols, slots, mask, offsets + [(|Literals(payload)|, i)], payload + [value])
    ensures |Literals(payload + [value])| == |Literals(payload)| + 8 + |value|
  {
    hide Literals, Literal, StoredValue;
    var grown := payload + [value];
    LiteralsNext(grown, |payload|);
    assert grown[..|payload|] == payload && grown[..|grown|] == grown;
    assert l.Ids()[|payload|] == i;
    forall j | 0 <= j < |payload| ensures grown[..j] == payload[..j] {}
  }

  /** The first loop of the serializer: the offset entries and the payload, in schema order without the key. */
  method CollectColumns(cols: seq<ColumnDef>, codes: map<string, nat>, slots: seq<Slot>, mask: seq<bool>)
    returns (ok: bool, offsets: seq<(nat, nat)>, payload: seq<string>, runningOffset: nat)
    requires ValidSchema(cols) && |slots| == |mask| == |cols| && HasKey(cols, slots)
    requires forall i :: 0 <= i < |cols| ==> cols[i].name in codes && codes[cols[i].name] == i
    ensures ok <==> Storable(cols, slots, mask)
    ensures ok ==> payload == FileOrder(LayoutOf(cols), StoredRow(cols, slots, mask))[1..]
    ensures ok ==> runningOffset == |Literals(payload)| && |offsets| == |cols| - 1
    ensures ok ==> forall j :: 0 <= j < |offsets| ==> offsets[j] == (|Literals(payload[..j])|, LayoutOf(cols).Ids()[j])
  {
    hide Literals, Literal, DefaultOf, FlagsOf, Collected, Strip;
    var l := LayoutOf(cols);
    var pk := KeyIndex(cols);
    ok, offsets, payload, runningOffset := true, [], [], 0;
    NothingCollected(l, cols, slots, mask);
    var i := 0;
    while i < |cols|
      invariant i <= |cols| && |payload| == (if i <= pk then i else i - 1)
      invariant forall k :: 0 <= k < i && k != pk ==> StoredValue(cols[k], slots[k], mask[k]).Some?
      invariant Collected(l, cols, slots, mask, offsets, payload)
      invariant runningOffset == |Literals(payload)|
    {
      if i != pk {
        var lit := slots[i];
        var userProvided := mask[i];
        var isEmpty := lit.None? || lit.value.kind.Empty?;
        var final: string;
        if !userProvided || isEmpty {
          var default := GetDefaultValue(cols[i].modifiers);
          if default.None? {
            ok := false;
            return;
          }
          final := default.value;
        } else {
          final := Strip(lit.value.value);
        }
        CollectedNext(l, cols, slots, mask, offsets, payload, i, final);
        offsets := offsets + [(runningOffset, codes[cols[i].name])];
        payload := payload + [final];
        runningOffset := runningOffset + 8 + |final|;
      }
      i := i + 1;
    }
    AllCollected(l, cols, slots, mask, offsets, payload);
  }

  lemma NothingCollected(l: Layout, cols: seq<ColumnDef>, slots: seq<Slot>, mask: seq<bool>)
    requires l.Valid() && |slots| == |mask| == |cols| == l.n
    ensures Collected(l, cols, slots, mask, [], []) && Literals([]) == []
  {
  }

  lemma AllCollected(l: Layout, cols: seq<ColumnDef>, slots: seq<Slot>, mask: seq<bool>,
                     offsets: seq<(nat, nat)>, payload: seq<string>)
    requires ValidSchema(cols) && l == LayoutOf(cols) && |slots| == |mask| == |cols|
    requires HasKey(cols, slots) && Storable(cols, slots, mask)
    requires Collected(l, cols, slots, mask, offsets, payload) && |payload| == l.n - 1
    ensures payload == FileOrder(l, StoredRow(cols, slots, mask))[1..] && |offsets| == l.n - 1
    ensures forall j :: 0 <= j < |offsets| ==> offsets[j] == (|Literals(payload[..j])|, l.Ids()[j])
  {
    hide Literals, StoredValue, KeyIndex, FileOrder, IsKey, Strip;
    var row := StoredRow(cols, slots, mask);
    var tail := FileOrder(l, row)[1..];
    forall j | 0 <= j < l.n - 1 ensures tail[j] == payload[j] {
      var c := l.Ids()[j];
      assert c != l.pk && l.Place(c) == j + 1;
      FileOrderPlaces(l, row, c);
      assert Some(payload[j]) == StoredValue(cols[c], slots[c], mask[c]);
    }
  }

  lemma NoOffsets() ensures OffsetTable([], [], 0) == [] {}

  /** The first step of the serializer: the schema index of the key. */
  method FindKeyIndex(cols: seq<ColumnDef>) returns (pk: nat)
    requires KeyIndex(cols) < |cols|
    ensures pk == KeyIndex(cols)
  {
    hide FlagsOf, KeyIndex;
    pk := 0;
    while pk < |cols|
      invariant pk <= KeyIndex(cols)
    {
      var flags := GetModifiers(cols[pk].modifiers);
      if flags.primaryKey {
        break;
      }
      pk := pk + 1;
    }
  }

  /** serializeNormalizedRecord: appends the frame of the stored row and enters its key, with the position of
      the type byte, into the index. A default that cannot be read is an exception before anything is written. */
  method SerializeNormalizedRecord(cols: seq<ColumnDef>, codes: map<string, nat>, slots: seq<Slot>, mask: seq<bool>,
                                   f: TableFile, kind: Kind, index: map<string, nat>)
    returns (ok: bool, newIndex: map<string, nat>)
    requires ValidSchema(cols) && |slots| == |mask| == |cols| && HasKey(cols, slots)
    requires forall i :: 0 <= i < |cols| ==> cols[i].name in codes && codes[cols[i].name] == i
    requires kind.Inserted? || kind.Updated?
    modifies f`bytes
    ensures ok <==> Storable(cols, slots, mask)
    ensures !ok ==> f.bytes == old(f.bytes) && newIndex == index
    ensures ok ==>
      var row := StoredRow(cols, slots, mask);
      && f.bytes == old(f.bytes) + Frame(LayoutOf(cols), Rec(kind, FileOrder(LayoutOf(cols), row)))
      && newIndex == index[row[KeyIndex(cols)] := |old(f.bytes)| + 8]
  {
    hide Literals, Literal, IsKey, KeyIndex, U64, OffsetEntry, OffsetTable, Storable, StoredValue, Strip;
    newIndex := index;
    var pk := FindKeyIndex(cols);
    var key := Strip(slots[pk].value.value);
    var recordLength := 1;
    recordLength := recordLength + 8 + |key|;
    var offsets, payload, runningOffset;
    ok, offsets, payload, runningOffset := CollectColumns(cols, codes, slots, mask);
    if !ok {
      return;
    }
    recordLength := recordLength + runningOffset + (|cols| - 1) * 16;

    ghost var l := LayoutOf(cols);
    ghost var row := StoredRow(cols, slots, mask);
    TailParts(l, FileOrder(l, row), key, payload);
    f.Append(U64(recordLength));
    newIndex := UpsertPrimaryKeyIndex(index, key, |f.bytes|);
    f.Append([KindCode(kind)]);
    WriteOffsets(f, offsets, l.Ids(), payload);
    f.Append(Literal(key));
    WriteLiterals(f, payload);
  }

  lemma TailParts(l: Layout, row: Row, key: string, payload: seq<string>)
    requires l.Valid() && |row| == l.n && row[0] == key && row[1..] == payload
    ensures Tail(l, row) == OffsetTable(l.Ids(), payload, 0) + Literal(key) + Literals(payload)
    ensures |Tail(l, row)| == 16 * (l.n - 1) + 8 + |key| + |Literals(payload)|
  {
    hide Literal, OffsetTable;
    assert row == [key] + payload;
    LiteralsConcat([key], payload);
    OneLiteral(key);
  }

  /** The write loop over the offset region. */
  method WriteOffsets(f: TableFile, offsets: seq<(nat, nat)>, ghost ids: seq<nat>, ghost vals: seq<string>)
    requires |offsets| == |ids| == |vals| && forall j :: 0 <= j < |ids| ==> ids[j] < 256
    requires forall j :: 0 <= j < |offsets| ==> offsets[j] == (|Literals(vals[..j])|, ids[j])
    modifies f`bytes
    ensures f.bytes == old(f.bytes) + OffsetTable(ids, vals, 0)
  {
    hide Literals, Literal, U64, OffsetEntry, OffsetTable;
    assert vals[..0] == [] && ids[..0] == [];
    NoOffsets();
    var i := 0;
    while i < |offsets|
      invariant i <= |offsets| && f.bytes == old(f.bytes) + OffsetTable(ids[..i], vals[..i], 0)
    {
      OffsetTableNext(ids, vals, 0, i);
      f.Append(OffsetEntry(offsets[i].0, offsets[i].1));
      i := i + 1;
    }
    assert ids[..i] == ids && vals[..i] == vals;
  }

  /** The write loop over the values after the key. */
  method WriteLiterals(f: TableFile, vals: seq<string>)
    modifies f`bytes
    ensures f.bytes == old(f.bytes) + Literals(vals)
  {
    hide Literals, Literal;
    assert vals[..0] == [];
    NoLiterals();
    var i := 0;
    while i < |vals|
      invariant i <= |vals| && f.bytes == old(f.bytes) + Literals(vals[..i])
    {
      LiteralsNext(vals, i);
      f.Append(Literal(vals[i]));
      i := i + 1;
    }
    assert vals[..i] == vals;
  }

  lemma OneLiteral(s: string) ensures Literals([s]) == Literal(s) {
    assert [s][1..] == [];
  }

  /** upsertPrimaryKeyIndex: a key that is present is moved, another is added. */
  method UpsertPrimaryKeyIndex(index: map<string, nat>, key: string, offset: nat) returns (result: map<string, nat>)
    ensures result == index[key := offset]
  {
    if key in index {
      result := index[key := offset];
    } else {
      result := index + map[key := offset];
    }
  }
}
