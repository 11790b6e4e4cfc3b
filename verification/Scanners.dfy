/** The scanners of the record region (src/DBEngine/filehandler/deserialization,
    src/DBEngine/filehandler/handlers/delete.cpp). Each is called at a frame boundary, where either the next
    record or the end of the file stands, and each leaves the position on the next frame boundary. */
module Scanners {
  import opened Text
  import opened Frames
  import opened Conditions
  import opened TableFiles

  datatype Indicator = EndOfTable | IoError | Tombstone | Live | Skip

  /** What stands at position p: the frame of a record, or the end of the file. */
  ghost predicate Upcoming(l: Layout, bytes: string, p: nat, next: Option<Rec>) {
    l.Valid() && |bytes| < FILE_LIMIT &&
    match next
    case None => p == |bytes|
    case Some(r) => |r.row| == l.n && At(bytes, p, Frame(l, r))
  }

  /** Where a scanner lands. */
  ghost function Landing(l: Layout, p: nat, next: Option<Rec>): nat
    requires l.Valid() && (next.Some? ==> |next.value.row| == l.n)
  {
    if next.Some? then p + |Frame(l, next.value)| else p
  }

  /** The values of a row that the projection mask keeps. */
  function Project(mask: seq<bool>, row: Row): Row
    requires |mask| == |row|
  {
    if row == [] then []
    else Project(mask[..|row| - 1], row[..|row| - 1]) + if mask[|row| - 1] then [row[|row| - 1]] else []
  }

  function Kept(mask: seq<bool>): nat {
    if mask == [] then 0 else Kept(mask[..|mask| - 1]) + if mask[|mask| - 1] then 1 else 0
  }

  /** Projection keeps exactly the values whose mask bit is set, each once and in schema order. */
  lemma {:induction false} ProjectPlaces(mask: seq<bool>, row: Row, i: nat)
    requires |mask| == |row| && i < |row|
    ensures |Project(mask, row)| == Kept(mask)
    ensures mask[i] ==> Kept(mask[..i]) < Kept(mask) && Project(mask, row)[Kept(mask[..i])] == row[i]
    decreases |row|
  {
    var n := |row| - 1;
    if n > 0 {
      ProjectPlaces(mask[..n], row[..n], if i < n then i else 0);
      assert i < n ==> mask[..n][..i] == mask[..i];
    }
  }

  /** The opening that every scanner shares: the length field, then the type byte. */
  method ReadFrameStart(l: Layout, f: TableFile, ghost next: Option<Rec>)
    returns (result: Indicator, length: nat, code: char)
    requires Upcoming(l, f.bytes, f.pos, next)
    modifies f`pos
    ensures next.None? ==> result.EndOfTable? && f.pos == old(f.pos)
    ensures next.Some? ==>
      && f.pos == old(f.pos) + 9
      && length == |Frame(l, next.value)| - 8
      && code == KindCode(next.value.kind)
      && result == (if next.value.Live() then Live else Tombstone)
  {
    hide Frame, Tail, U64, FromLittleEndian;
    assert next.Some? ==> f.pos + 9 <= |f.bytes| by {
      if next.Some? { FrameParts(f.bytes, f.pos, l, next.value); }
    }
    ghost var p := f.pos;
    var ok;
    ok, length := f.ReadU64();
    if !ok {
      return EndOfTable, 0, KindCode(Unused);
    }
    var data;
    ok, data := f.Read(1);
    if !ok {
      return IoError, length, KindCode(Unused);
    }
    code := data[0];
    result := if TombstoneCode(code) then Tombstone else Live;
    assert next.Some? ==> length == |Frame(l, next.value)| - 8 by {
      if next.Some? {
        FrameParts(f.bytes, p, l, next.value);
        U64RoundTrip(1 + |Tail(l, next.value.row)|);
      }
    }
    assert next.Some? ==> code == KindCode(next.value.kind) by {
      if next.Some? { FrameParts(f.bytes, p, l, next.value); }
    }
  }

  /** A length field and as many bytes of text. */
  method ReadLiteral(f: TableFile, ghost s: string) returns (ok: bool, text: string)
    requires At(f.bytes, f.pos, Literal(s)) && |f.bytes| < FILE_LIMIT
    modifies f`pos
    ensures ok && text == s && f.pos == old(f.pos) + |Literal(s)|
  {
    hide U64;
    AtSplit(f.bytes, f.pos, U64(|s|), s);
    U64RoundTrip(|s|);
    var size;
    ok, size := f.ReadU64();
    ok, text := f.Read(size);
  }

  /** deserializeNextRecordType. */
  method DeserializeNextRecordType(l: Layout, f: TableFile, ghost next: Option<Rec>) returns (result: Indicator)
    requires Upcoming(l, f.bytes, f.pos, next)
    modifies f`pos
    ensures f.pos == Landing(l, old(f.pos), next)
    ensures result == if next.None? then EndOfTable else if next.value.Live() then Live else Tombstone
  {
    hide Frame;
    var length, code;
    result, length, code := ReadFrameStart(l, f, next);
    if result.EndOfTable? || result.IoError? {
      return;
    }
    if TombstoneCode(code) {
      f.SeekBy(length - 1);
      return Tombstone;
    }
    f.SeekBy(length - 1);
    return Live;
  }

  /** deserializeNextPrimaryKey: also reports the position of the type byte. */
  method DeserializeNextPrimaryKey(l: Layout, f: TableFile, ghost next: Option<Rec>)
    returns (result: Indicator, key: string, offset: nat)
    requires Upcoming(l, f.bytes, f.pos, next)
    modifies f`pos
    ensures f.pos == Landing(l, old(f.pos), next)
    ensures result == if next.None? then EndOfTable else if next.value.Live() then Live else Tombstone
    ensures result.Live? ==> key == next.value.row[0] && offset == old(f.pos) + 8
  {
    hide Frame, Tail, OffsetTable, U64;
    key, offset := "", 0;
    var length, code;
    result, length, code := ReadFrameStart(l, f, next);
    if result.EndOfTable? || result.IoError? {
      return;
    }
    offset := f.pos - 1;
    ghost var r := next.value;
    FrameParts(f.bytes, f.pos - 9, l, r);
    if TombstoneCode(code) {
      f.SeekBy(length - 1);
      return;
    }
    var colOffsetRegion := 16 * (l.n - 1);
    f.SeekBy(colOffsetRegion);
    LiteralAt(f.bytes, f.pos, r.row, 0);
    assert Literals(r.row[..0]) == [];
    var ok;
    ok, key := ReadLiteral(f, r.row[0]);
    if !ok {
      return IoError, "", offset;
    }
    var remaining: nat := length - (1 + colOffsetRegion + 8 + |key|);
    f.SeekBy(remaining);
  }

  /** The value loop of deserializeNextRecord. */
  method ReadProjectedRow(l: Layout, f: TableFile, nums: Numbers, mask: seq<bool>, where: Where, ghost row: Row)
    returns (ok: bool, out: Row, whereResult: bool)
    requires |row| == |mask| == l.n && At(f.bytes, f.pos, Literals(row)) && |f.bytes| < FILE_LIMIT
    modifies f`pos
    ensures ok && f.pos == old(f.pos) + |Literals(row)|
    ensures out == Project(mask, row) && whereResult == Holds(nums, where, row)
  {
    hide Literal, Literals, Evaluate;
    ok := true;
    out := [];
    whereResult := true;
    NoLiterals();
    assert row[..0] == [];
    var i := 0;
    while i < l.n
      invariant ok && i <= l.n && f.pos == old(f.pos) + |Literals(row[..i])|
      invariant out == Project(mask[..i], row[..i])
      invariant whereResult == HoldsSoFar(nums, where, row, i)
    {
      LiteralAt(f.bytes, old(f.pos), row, i);
      LiteralsNext(row, i);
      var value;
      ok, value := ReadLiteral(f, row[i]);
      if !ok {
        return;
      }
      if where.Some? && where.value.schemaIndex == i {
        whereResult := Evaluate(nums, value, where.value.cmp, where.value.literal.value);
      }
      if mask[i] {
        out := out + [value];
      }
      ProjectNext(mask, row, i);
      i := i + 1;
    }
    assert row[..l.n] == row && mask[..l.n] == mask;
  }

  lemma ProjectNext(mask: seq<bool>, row: Row, i: nat)
    requires |mask| == |row| && i < |row|
    ensures Project(mask[..i + 1], row[..i + 1]) ==
            Project(mask[..i], row[..i]) + if mask[i] then [row[i]] else []
  {
    assert row[..i + 1][..i] == row[..i] && mask[..i + 1][..i] == mask[..i];
  }

  /** deserializeNextRecord: the row, projected by the mask, and whether it meets the condition. */
  method DeserializeNextRecord(l: Layout, f: TableFile, nums: Numbers, mask: seq<bool>, where: Where,
                               ghost next: Option<Rec>)
    returns (result: Indicator, out: Row)
    requires Upcoming(l, f.bytes, f.pos, next) && |mask| == l.n
    modifies f`pos
    ensures f.pos == Landing(l, old(f.pos), next)
    ensures result == if next.None? then EndOfTable else if !next.value.Live() then Tombstone
                      else if Holds(nums, where, next.value.row) then Live else Skip
    ensures next.Some? && next.value.Live() ==> out == Project(mask, next.value.row)
  {
    hide Frame, Literal, Literals, Evaluate, Tail, OffsetTable, U64, Holds, Project, HoldsSoFar;
    out := [];
    var length, code;
    result, length, code := ReadFrameStart(l, f, next);
    if result.EndOfTable? || result.IoError? {
      return;
    }
    ghost var r := next.value;
    FrameParts(f.bytes, f.pos - 9, l, r);
    if TombstoneCode(code) {
      f.SeekBy(length - 1);
      return Tombstone, [];
    }
    f.SeekBy(16 * (l.n - 1));
    var ok, whereResult;
    ok, out, whereResult := ReadProjectedRow(l, f, nums, mask, where, r.row);
    if !ok {
      return IoError, [];
    }
    result := if whereResult then Live else Skip;
  }

  /** The value of `where_result` after the first i values. */
  ghost predicate HoldsSoFar(nums: Numbers, where: Where, row: Row, i: nat)
    requires i <= |row|
  {
    where.Some? && where.value.schemaIndex < i ==>
      Evaluate(nums, row[where.value.schemaIndex], where.value.cmp, where.value.literal.value)
  }

  /** The value loop of deserializeNextRecordAndMarkAsTombstone. */
  method ReadWholeRow(l: Layout, f: TableFile, nums: Numbers, where: Where, ghost row: Row)
    returns (ok: bool, out: Row, whereResult: bool)
    requires |row| == l.n && At(f.bytes, f.pos, Literals(row)) && |f.bytes| < FILE_LIMIT
    modifies f`pos
    ensures ok && f.pos == old(f.pos) + |Literals(row)|
    ensures out == row && whereResult == Holds(nums, where, row)
  {
    hide Literal, Literals, Evaluate;
    ok := true;
    out := [];
    whereResult := true;
    NoLiterals();
    assert row[..0] == [];
    var i := 0;
    while i < l.n
      invariant ok && i <= l.n && f.pos == old(f.pos) + |Literals(row[..i])|
      invariant out == row[..i]
      invariant whereResult == HoldsSoFar(nums, where, row, i)
    {
      LiteralAt(f.bytes, old(f.pos), row, i);
      LiteralsNext(row, i);
      var value;
      ok, value := ReadLiteral(f, row[i]);
      if !ok {
        return;
      }
      if where.Some? && where.value.schemaIndex == i {
        whereResult := Evaluate(nums, value, where.value.cmp, where.value.literal.value);
      }
      out := out + [value];
      i := i + 1;
    }
    assert row[..l.n] == row;
  }

  /** deserializeNextRecordAndMarkAsTombstone: a live record that meets the condition is handed back whole and
      its type byte, and nothing else, is overwritten. */
  method DeserializeNextRecordAndMarkAsTombstone(l: Layout, f: TableFile, nums: Numbers, where: Where,
                                                 ghost next: Option<Rec>)
    returns (result: Indicator, out: Row)
    requires Upcoming(l, f.bytes, f.pos, next)
    modifies f
    ensures f.pos == Landing(l, old(f.pos), next)
    ensures result == if next.None? then EndOfTable else if !next.value.Live() then Tombstone
                      else if Holds(nums, where, next.value.row) then Live else Skip
    ensures next.Some? && next.value.Live() ==> out == next.value.row
    ensures result.Live? ==> old(f.pos) + 8 < |old(f.bytes)| &&
                             f.bytes == old(f.bytes)[old(f.pos) + 8 := KindCode(Deleted)]
    ensures !result.Live? ==> f.bytes == old(f.bytes)
  {
    hide Frame, Literal, Literals, Evaluate, Tail, OffsetTable, U64, Holds, HoldsSoFar;
    out := [];
    var length, code;
    result, length, code := ReadFrameStart(l, f, next);
    if result.EndOfTable? || result.IoError? {
      return;
    }
    var startOfTypeRegion: nat := f.pos - 1;
    ghost var r := next.value;
    FrameParts(f.bytes, f.pos - 9, l, r);
    if TombstoneCode(code) {
      f.SeekBy(length - 1);
      return Tombstone, [];
    }
    f.SeekBy(16 * (l.n - 1));
    var ok, whereResult;
    ok, out, whereResult := ReadWholeRow(l, f, nums, where, r.row);
    if !ok {
      return IoError, [];
    }
    if !whereResult {
      return Skip, out;
    }
    f.SeekTo(startOfTypeRegion);
    f.PutByte(KindCode(Deleted));
    f.SeekTo(startOfTypeRegion + length);
    result := Live;
  }

  // ---- the sequential DELETE scan ----

  /** The condition read against the named column, wherever its value stands in the file order. */
  predicate HoldsInFile(nums: Numbers, l: Layout, column: nat, where: Where, row: Row)
    requires l.Valid() && |row| == l.n && column < l.n
  {
    where.Some? ==> Evaluate(nums, row[l.Place(column)], where.value.cmp, where.value.literal.value)
  }

  /** Finds the offset stored for a column code; the sentinel stands for "not found". */
  method FindColumnOffset(l: Layout, f: TableFile, code: nat, ghost r: Rec) returns (finalOffset: nat)
    requires l.Valid() && |r.row| == l.n && |f.bytes| < FILE_LIMIT
    requires At(f.bytes, f.pos, OffsetTable(l.Ids(), r.row[1..], 0))
    requires |Literals(r.row)| < FILE_LIMIT
    requires code < l.n && code != l.pk
    modifies f`pos
    ensures f.pos == old(f.pos) + 16 * (l.n - 1)
    ensures finalOffset == |Literals(r.row[1..][..l.Place(code) - 1])| < U64_LIMIT - 1
  {
    hide Literals, OffsetTable, U64, FromLittleEndian;
    var ids, vals := l.Ids(), r.row[1..];
    var base := f.pos;
    finalOffset := U64_LIMIT - 1;
    var i := 0;
    while i < l.n - 1
      invariant i <= l.n - 1 && f.pos == base + 16 * i
      invariant finalOffset == if l.Place(code) - 1 < i then |Literals(vals[..l.Place(code) - 1])| else U64_LIMIT - 1
      invariant l.Place(code) - 1 < i ==> finalOffset < U64_LIMIT - 1
    {
      OffsetEntryAt(f.bytes, base, ids, vals, 0, i);
      OffsetFits(r.row, i);
      OffsetEntryParts(f.bytes, base + 16 * i, |Literals(vals[..i])|, ids[i]);
      var ok, offset := f.ReadU64();
      var data;
      ok, data := f.Read(8);
      if data[0] as int == code {
        finalOffset := offset;
      }
      i := i + 1;
    }
  }

  /** From the start of the offset region to the value of a column other than the key: look up its offset, step
      over the key, jump. It is the value that a full decoding finds for the column, and the lookup never fails. */
  method ReadColumnThroughOffsets(l: Layout, f: TableFile, code: nat, ghost r: Rec) returns (found: bool, value: string)
    requires l.Valid() && |r.row| == l.n && |f.bytes| < FILE_LIMIT
    requires At(f.bytes, f.pos, OffsetTable(l.Ids(), r.row[1..], 0))
    requires At(f.bytes, f.pos + 16 * (l.n - 1), Literals(r.row))
    requires code < l.n && code != l.pk
    modifies f`pos
    ensures found && value == r.row[l.Place(code)]
  {
    hide Literals, OffsetTable, U64, FromLittleEndian;
    ghost var payload := f.pos + 16 * (l.n - 1);
    ghost var j: nat := l.Place(code);
    NoLiterals();
    assert r.row[..0] == [];
    LiteralAt(f.bytes, payload, r.row, 0);
    OffsetFits(r.row, j - 1);
    LiteralAt(f.bytes, payload, r.row, j);
    AtSplit(f.bytes, payload, U64(|r.row[0]|), r.row[0]);
    U64RoundTrip(|r.row[0]|);
    value := "";
    var finalOffset := FindColumnOffset(l, f, code, r);
    found := finalOffset != U64_LIMIT - 1;
    if !found {
      return;
    }
    var ok, keySize := f.ReadU64();
    f.SeekBy(keySize);
    f.SeekBy(finalOffset);
    ok, value := ReadLiteral(f, r.row[j]);
  }

  /** performSequentialDelete: reads only the compared value, through the column-offset region unless it is
      the key, and overwrites the type byte of a record that matches. */
  method PerformSequentialDelete(l: Layout, f: TableFile, nums: Numbers, keyColumn: string,
                                 codes: map<string, nat>, where: Where, ghost column: nat, ghost next: Option<Rec>)
    returns (result: Indicator)
    requires Upcoming(l, f.bytes, f.pos, next)
    requires column < l.n
    requires where.Some? ==> where.value.column in codes && codes[where.value.column] == column
    requires where.Some? ==> (where.value.column == keyColumn <==> column == l.pk)
    modifies f
    ensures f.pos == Landing(l, old(f.pos), next)
    ensures result == if next.None? then EndOfTable else if !next.value.Live() then Tombstone
                      else if HoldsInFile(nums, l, column, where, next.value.row) then Live else Skip
    ensures result.Live? ==> old(f.pos) + 8 < |old(f.bytes)| &&
                             f.bytes == old(f.bytes)[old(f.pos) + 8 := KindCode(Deleted)]
    ensures !result.Live? ==> f.bytes == old(f.bytes)
  {
    hide Frame, Literal, Literals, Evaluate, OffsetTable;
    var length, code;
    result, length, code := ReadFrameStart(l, f, next);
    if result.EndOfTable? || result.IoError? {
      return;
    }
    var startOfTypeRegion: nat := f.pos - 1;
    ghost var r := next.value;
    FrameParts(f.bytes, f.pos - 9, l, r);
    if TombstoneCode(code) {
      f.SeekBy(length - 1);
      return Tombstone;
    }
    if where.None? {
      f.SeekTo(startOfTypeRegion);
      f.PutByte(KindCode(Deleted));
      f.SeekTo(startOfTypeRegion + length);
      return Live;
    }
    var cond := where.value;
    if keyColumn == cond.column {
      f.SeekBy(16 * (l.n - 1));
      NoLiterals();
      assert r.row[..0] == [];
      LiteralAt(f.bytes, f.pos, r.row, 0);
      var ok, key := ReadLiteral(f, r.row[0]);
      if Evaluate(nums, key, cond.cmp, cond.literal.value) {
        f.SeekTo(startOfTypeRegion);
        f.PutByte(KindCode(Deleted));
        f.SeekTo(startOfTypeRegion + length);
        return Live;
      }
    } else {
      var found, value := ReadColumnThroughOffsets(l, f, codes[cond.column], r);
      if !found {
        return IoError;
      }
      f.SeekTo(startOfTypeRegion);
      f.SeekBy(length);
      if Evaluate(nums, value, cond.cmp, cond.literal.value) {
        f.SeekTo(startOfTypeRegion);
        f.PutByte(KindCode(Deleted));
        f.SeekTo(startOfTypeRegion + length);
        return Live;
      }
    }
    f.SeekTo(startOfTypeRegion + length);
    return Skip;
  }
}
