/** The file format in numbers: every field of a small file, byte by byte, and the byte that DELETE writes. Nothing here
    goes through the constants and encoders of Frames on the right-hand side. */
module FileFormat {
  import opened Text
  import opened Frames
  import opened Log
  import opened Conditions
  import opened Schemas
  import opened Serializer
  import opened Normalizer
  import opened Validator
  import opened Statements
  import opened CompactionGate
  import opened Runs
  import opened SmallTable
  import opened Examples

  type Code = n: nat | n < 256

  function Bytes(codes: seq<Code>): (b: string)
    ensures |b| == |codes| && forall i :: 0 <= i < |b| ==> b[i] == codes[i] as char
  {
    seq(|codes|, i requires 0 <= i < |codes| => codes[i] as char)
  }

  lemma BytesConcat(a: seq<Code>, b: seq<Code>)
    ensures Bytes(a + b) == Bytes(a) + Bytes(b)
  {
  }

  function TypeCode(k: Kind): Code {
    match k case Inserted => 0 case Deleted => 1 case Updated => 2 case Unused => 3
  }

  /** The type byte: 0 for INSERT, 1 for DELETE, 2 for UPDATE, 3 for UNUSED; 1 and 3 are what the scanners skip. */
  lemma KindCodes(k: Kind, c: char)
    ensures KindCode(k) as int == TypeCode(k)
    ensures TombstoneCode(c) <==> c as int == 1 || c as int == 3
    ensures TombstoneCode(KindCode(k)) <==> !Rec(k, []).Live()
  {
  }

  // ---- fields ----

  /** The number that bytes stand for, the first byte being the lowest. */
  function Value(codes: seq<Code>): nat {
    if codes == [] then 0 else codes[0] + 256 * Value(codes[1..])
  }

  lemma {:induction false} FieldIsValue(codes: seq<Code>)
    ensures LittleEndian(Value(codes), |codes|) == Bytes(codes)
  {
    var n, k := Value(codes), |codes|;
    if codes != [] {
      FieldIsValue(codes[1..]);
      assert n % 256 == codes[0] && n / 256 == Value(codes[1..]);
      forall i | 0 <= i < k ensures LittleEndian(n, k)[i] == Bytes(codes)[i] {
        if i > 0 {
          assert LittleEndian(n / 256, k - 1)[i - 1] == ByteAt(n / 256, i - 1);
        }
      }
    }
  }

  /** A 64-bit field is little-endian: eight bytes, the lowest first. */
  lemma FieldBytes(codes: seq<Code>)
    requires |codes| == 8
    ensures U64(Value(codes)) == Bytes(codes)
  {
    FieldIsValue(codes);
  }

  /** A number below 256 is its first byte. */
  lemma SmallField(n: Code)
    ensures U64(n) == Bytes([n, 0, 0, 0, 0, 0, 0, 0])
  {
    var zeros: seq<Code> := [0, 0, 0, 0, 0, 0, 0];
    Zeros(zeros);
    assert [n, 0, 0, 0, 0, 0, 0, 0][1..] == zeros;
    FieldBytes([n, 0, 0, 0, 0, 0, 0, 0]);
  }

  lemma {:induction false} Zeros(codes: seq<Code>)
    requires forall i :: 0 <= i < |codes| ==> codes[i] == 0
    ensures Value(codes) == 0
  {
    if codes != [] {
      Zeros(codes[1..]);
    }
  }

  const MAGIC: seq<Code> := [49, 118, 76, 81, 83, 83, 74, 0]

  lemma MagicField()
    ensures U64(DB_MAGIC) == Bytes(MAGIC)
  {
    assert MAGIC[7..][1..] == [] && MAGIC[7..][0] == 0 && Value(MAGIC[7..]) == 0x0;
    assert MAGIC[6..][1..] == MAGIC[7..] && MAGIC[6..][0] == 74 && Value(MAGIC[6..]) == 0x4A;
    assert MAGIC[5..][1..] == MAGIC[6..] && MAGIC[5..][0] == 83 && Value(MAGIC[5..]) == 0x4A53;
    assert MAGIC[4..][1..] == MAGIC[5..] && MAGIC[4..][0] == 83 && Value(MAGIC[4..]) == 0x4A5353;
    assert MAGIC[3..][1..] == MAGIC[4..] && MAGIC[3..][0] == 81 && Value(MAGIC[3..]) == 0x4A535351;
    assert MAGIC[2..][1..] == MAGIC[3..] && MAGIC[2..][0] == 76 && Value(MAGIC[2..]) == 0x4A5353514C;
    assert MAGIC[1..][1..] == MAGIC[2..] && MAGIC[1..][0] == 118 && Value(MAGIC[1..]) == 0x4A5353514C76;
    assert MAGIC[0..][1..] == MAGIC[1..] && MAGIC[0..][0] == 49 && Value(MAGIC[0..]) == 0x4A5353514C7631;
    assert MAGIC[0..] == MAGIC;
    FieldBytes(MAGIC);
  }

  const ZERO: seq<Code> := [0, 0, 0, 0, 0, 0, 0, 0]

  /** The 32 bytes of the header: the magic number, version 1, no flags, nothing reserved. */
  lemma HeaderBytes()
    ensures Header() == Bytes(MAGIC) + Bytes([1, 0, 0, 0, 0, 0, 0, 0]) + Bytes(ZERO) + Bytes(ZERO)
  {
    hide U64, Bytes;
    MagicField();
    SmallField(1);
    SmallField(0);
  }

  // ---- records ----

  /** A text behind its length. */
  function Prefixed(s: string): string
    requires |s| < 256
  {
    Bytes([|s|, 0, 0, 0, 0, 0, 0, 0]) + s
  }

  /** The frame of a row of three short values: length of what follows the length field, type byte, one 16-byte entry
      (offset, column code, padding) per column after the key, then key and values. The offsets count from the end of
      the key. */
  lemma FrameFields(l: Layout, kind: Kind, key: string, b: string, c: string)
    requires l == Layout(3, 0) && |key| + |b| + |c| < 100
    ensures Frame(l, Rec(kind, [key, b, c])) ==
            Bytes([57 + |key| + |b| + |c|, 0, 0, 0, 0, 0, 0, 0]) + Bytes([TypeCode(kind)]) +
            (Bytes([0, 0, 0, 0, 0, 0, 0, 0, 1, 0, 0, 0, 0, 0, 0, 0]) +
             Bytes([8 + |b|, 0, 0, 0, 0, 0, 0, 0, 2, 0, 0, 0, 0, 0, 0, 0]) +
             (Prefixed(key) + Prefixed(b) + Prefixed(c)))
  {
    hide U64;
    KindCodes(kind, 0 as char);
    assert Bytes([TypeCode(kind)]) == [KindCode(kind)];
    TailFields(l, key, b, c);
    SmallField(57 + |key| + |b| + |c|);
  }

  lemma TailFields(l: Layout, key: string, b: string, c: string)
    requires l == Layout(3, 0) && |key| + |b| + |c| < 100
    ensures Tail(l, [key, b, c]) ==
            Bytes([0, 0, 0, 0, 0, 0, 0, 0, 1, 0, 0, 0, 0, 0, 0, 0]) +
            Bytes([8 + |b|, 0, 0, 0, 0, 0, 0, 0, 2, 0, 0, 0, 0, 0, 0, 0]) +
            (Prefixed(key) + Prefixed(b) + Prefixed(c))
    ensures |Tail(l, [key, b, c])| == 56 + |key| + |b| + |c|
  {
    hide U64, OffsetEntry;
    var row := [key, b, c];
    var ids := l.Ids();
    assert row[1..] == [b, c] && row[1..][1..] == [c] && row[1..][1..][1..] == [] && ids == [1, 2];
    assert ids[1..] == [2] && ids[1..][1..] == [] && [b, c][1..] == [c] && [c][1..] == [];
    EntryBytes(0, 1);
    EntryBytes(8 + |b|, 2);
    SmallField(|key|);
    SmallField(|b|);
    SmallField(|c|);
    var e1, e2 := OffsetEntry(0, 1), OffsetEntry(8 + |b|, 2);
    assert OffsetTable([2], [c], 8 + |b|) == e2 + [];
    assert OffsetTable(ids, [b, c], 0) == e1 + OffsetTable([2], [c], 8 + |b|);
    assert e2 + [] == e2;
    assert Literals([c]) == Prefixed(c) + [] && Prefixed(c) + [] == Prefixed(c);
    assert Literals([b, c]) == Prefixed(b) + Prefixed(c);
    assert Literals(row) == Prefixed(key) + (Prefixed(b) + Prefixed(c));
    assert Prefixed(key) + (Prefixed(b) + Prefixed(c)) == Prefixed(key) + Prefixed(b) + Prefixed(c);
    assert Tail(l, row) == e1 + e2 + (Prefixed(key) + Prefixed(b) + Prefixed(c));
    assert |Tail(l, row)| == 56 + |key| + |b| + |c|;
  }

  lemma EntryBytes(offset: Code, id: Code)
    ensures OffsetEntry(offset, id) == Bytes([offset, 0, 0, 0, 0, 0, 0, 0, id, 0, 0, 0, 0, 0, 0, 0])
  {
    hide U64;
    SmallField(offset);
  }

  /** The bytes of a file with an inserted, a deleted and an updated record of three columns. */
  lemma SmallFile(l: Layout)
    requires l == Layout(3, 0)
    ensures FileBytes(l, [Rec(Inserted, ["1", "ab", "c"]), Rec(Deleted, ["2", "", ""]), Rec(Updated, ["3", "x", "yz"])]) ==
            Bytes(MAGIC) + Bytes([1, 0, 0, 0, 0, 0, 0, 0]) + Bytes(ZERO) + Bytes(ZERO) +
            InsertedBytes() + DeletedBytes() + UpdatedBytes()
  {
    hide Frame, Header, Bytes, InsertedBytes, DeletedBytes, UpdatedBytes;
    var a, b, c := Rec(Inserted, ["1", "ab", "c"]), Rec(Deleted, ["2", "", ""]), Rec(Updated, ["3", "x", "yz"]);
    assert [a, b, c][1..] == [b, c] && [b, c][1..] == [c];
    HeaderBytes();
    InsertedFrame(l);
    DeletedFrame(l);
    UpdatedFrame(l);
    OneFrame(l, c);
    assert FrameBytes(l, [b, c]) == Frame(l, b) + Frame(l, c);
    assert FrameBytes(l, [a, b, c]) == Frame(l, a) + (Frame(l, b) + Frame(l, c));
    assert Header() + (Frame(l, a) + (Frame(l, b) + Frame(l, c))) == Header() + Frame(l, a) + Frame(l, b) + Frame(l, c);
  }

  function InsertedBytes(): string {
    Bytes([61, 0, 0, 0, 0, 0, 0, 0]) + Bytes([0]) +
            (Bytes([0, 0, 0, 0, 0, 0, 0, 0, 1, 0, 0, 0, 0, 0, 0, 0]) +
             Bytes([10, 0, 0, 0, 0, 0, 0, 0, 2, 0, 0, 0, 0, 0, 0, 0]) +
             ((Bytes([1, 0, 0, 0, 0, 0, 0, 0]) + "1")+
              (Bytes([2, 0, 0, 0, 0, 0, 0, 0]) + "ab")+
              (Bytes([1, 0, 0, 0, 0, 0, 0, 0]) + "c")))
  }

  lemma InsertedFrame(l: Layout)
    requires l == Layout(3, 0)
    ensures Frame(l, Rec(Inserted, ["1", "ab", "c"])) == InsertedBytes()
  {
    hide Frame, Bytes;
    FrameFields(l, Inserted, "1", "ab", "c");
  }

  function DeletedBytes(): string {
    Bytes([58, 0, 0, 0, 0, 0, 0, 0]) + Bytes([1]) +
            (Bytes([0, 0, 0, 0, 0, 0, 0, 0, 1, 0, 0, 0, 0, 0, 0, 0]) +
             Bytes([8, 0, 0, 0, 0, 0, 0, 0, 2, 0, 0, 0, 0, 0, 0, 0]) +
             ((Bytes([1, 0, 0, 0, 0, 0, 0, 0]) + "2")+
              (Bytes([0, 0, 0, 0, 0, 0, 0, 0]) + "")+
              (Bytes([0, 0, 0, 0, 0, 0, 0, 0]) + "")))
  }

  lemma DeletedFrame(l: Layout)
    requires l == Layout(3, 0)
    ensures Frame(l, Rec(Deleted, ["2", "", ""])) == DeletedBytes()
  {
    hide Frame, Bytes;
    FrameFields(l, Deleted, "2", "", "");
  }

  function UpdatedBytes(): string {
    Bytes([61, 0, 0, 0, 0, 0, 0, 0]) + Bytes([2]) +
            (Bytes([0, 0, 0, 0, 0, 0, 0, 0, 1, 0, 0, 0, 0, 0, 0, 0]) +
             Bytes([9, 0, 0, 0, 0, 0, 0, 0, 2, 0, 0, 0, 0, 0, 0, 0]) +
             ((Bytes([1, 0, 0, 0, 0, 0, 0, 0]) + "3")+
              (Bytes([1, 0, 0, 0, 0, 0, 0, 0]) + "x")+
              (Bytes([2, 0, 0, 0, 0, 0, 0, 0]) + "yz")))
  }

  lemma UpdatedFrame(l: Layout)
    requires l == Layout(3, 0)
    ensures Frame(l, Rec(Updated, ["3", "x", "yz"])) == UpdatedBytes()
  {
    hide Frame, Bytes;
    FrameFields(l, Updated, "3", "x", "yz");
  }

  // ---- one byte changes ----

  /** The file of the one row 1 has the type byte 0 at position 40, and DELETE WHERE id = 1 turns it into 1 and changes
      nothing else (a compaction follows). */
  lemma DeleteWritesOne(nums: Numbers)
    ensures var t, del := OneColumn(nums), Delete(WhereKey(ONE));
            && t.KeyFirst() && Inv(t, START) && BeforeGate(t, START, del).Some?
            && var before, after := FileBytes(t.Layout(), START.recs), BeforeGate(t, START, del).value.recs;
            && Shaped(t.Layout(), after)
            && |before| == 50 && before[40] == 0 as char && FileBytes(t.Layout(), after) == before[40 := 1 as char]
  {
    hide FileBytes, KeyIndex, IsKey, Clean, BeforeGate, Step, Strip, FrameBytes, Frame;
    AtStart(nums);
    KnownLiterals();
    var t := OneColumn(nums);
    CleanIsInv(t, START);
    DeleteOnlyKey(t, START, ONE, 0);
    var l := t.Layout();
    TombstoneWriteIsLocal(l, START.recs, 0);
    assert START.recs[..0] == [];
    NoFrames(l);
    FrameAt(l, START.recs, 0);
    TypeByte(l, START.recs[0]);
  }

  lemma TypeByte(l: Layout, r: Rec)
    requires l.Valid() && |r.row| == l.n
    ensures |Frame(l, r)| > 8 && Frame(l, r)[8] == KindCode(r.kind)
  {
    hide Tail, U64;
  }

  /** At the position that the index stores for a record stands the code of its kind. */
  lemma TypeByteAt(l: Layout, recs: seq<Rec>, k: nat)
    requires Shaped(l, recs) && k < |recs|
    ensures TypePos(l, recs, k) < |FileBytes(l, recs)|
    ensures FileBytes(l, recs)[TypePos(l, recs, k)] == TypeCode(recs[k].kind) as char
  {
    hide FileBytes, Frame;
    FrameAt(l, recs, k);
    TypeByte(l, recs[k]);
    KindCodes(recs[k].kind, 0 as char);
  }

  /** INSERT writes the type byte 0. */
  lemma InsertWritesZero(t: Table, s: State, columns: Option<seq<string>>, given: seq<seq<LiteralNode>>, k: nat)
    requires Inv(t, s) && Fits(t, s, Insert(columns, given))
    requires |s.recs| <= k < |Step(t, s, Insert(columns, given)).0.recs|
    ensures var recs := Step(t, s, Insert(columns, given)).0.recs;
            && Shaped(t.Layout(), recs) && TypePos(t.Layout(), recs, k) < |FileBytes(t.Layout(), recs)|
            && FileBytes(t.Layout(), recs)[TypePos(t.Layout(), recs, k)] == 0 as char
  {
    hide FileBytes, FramePos, PlanInsert, UpsertAll, FileOrder, KeyIndex, IsKey;
    StepKeepsInv(t, s, Insert(columns, given));
    TypeByteAt(t.Layout(), Step(t, s, Insert(columns, given)).0.recs, k);
  }

  /** UPDATE writes the type byte 2 of the replacements and 1 over the records that it replaces; a compaction may
      follow. */
  lemma UpdateWritesTwo(t: Table, s: State, assignments: seq<Assignment>, where: Where, k: nat)
    requires Inv(t, s) && Fits(t, s, Update(assignments, where)) && BeforeGate(t, s, Update(assignments, where)).Some?
    requires k < |BeforeGate(t, s, Update(assignments, where)).value.recs|
    ensures var recs := BeforeGate(t, s, Update(assignments, where)).value.recs;
            var sel := Selects(t.nums, PlanUpdate(t, assignments, where).value.1);
            && Shaped(t.Layout(), recs) && TypePos(t.Layout(), recs, k) < |FileBytes(t.Layout(), recs)|
            && var code := FileBytes(t.Layout(), recs)[TypePos(t.Layout(), recs, k)];
            && (k >= |s.recs| ==> code == 2 as char)
            && (k < |s.recs| && s.recs[k].Live() && sel(s.recs[k].row) ==> code == 1 as char)
  {
    hide FileBytes, FramePos, PlanUpdate, LiveRows, Filter, Selects, UpdatedRow, FileOrder, KeyIndex, IsKey, Tombstones, Fits, Rebuild;
    StepPassesGate(t, s, Update(assignments, where));
    TypeByteAt(t.Layout(), BeforeGate(t, s, Update(assignments, where)).value.recs, k);
  }
}
