/** Whole-file passes that read a table from its first record to its last: index rebuild, tombstone ratio and
    compaction (src/DBEngine/filehandler/compactor, src/DBEngine/filehandler/deserialization/extract-pks.cpp). */
module Compactor {
  import opened Text
  import opened Frames
  import opened Log
  import opened TableFiles
  import opened Scanners
  import opened Serializer
  import opened Statements

  /** The record at which a pass has arrived. */
  ghost function NextAt(recs: seq<Rec>, k: nat): Option<Rec>
    requires k <= |recs|
  {
    if k < |recs| then Some(recs[k]) else None
  }

  /** Frame boundaries of a file are where the scanners may be called, and a scanner called at one lands on the
      next, at least 9 bytes further on. */
  lemma BoundaryAt(l: Layout, recs: seq<Rec>, k: nat)
    requires Sized(l, recs) && k <= |recs|
    ensures Upcoming(l, FileBytes(l, recs), FramePos(l, recs, k), NextAt(recs, k))
    ensures k < |recs| ==> Landing(l, FramePos(l, recs, k), NextAt(recs, k)) == FramePos(l, recs, k + 1)
    ensures k < |recs| ==> FramePos(l, recs, k) + 9 <= FramePos(l, recs, k + 1) <= |FileBytes(l, recs)|
    ensures FramePos(l, recs, 0) == 32
  {
    hide Frame, FileBytes;
    FrameAt(l, recs, k);
    if k < |recs| {
      FramePosNext(l, recs, k);
      FrameAt(l, recs, k + 1);
    }
  }

  /** The file holds these records. */
  ghost predicate Holding(l: Layout, f: TableFile, recs: seq<Rec>)
    reads f
  {
    Sized(l, recs) && f.bytes == FileBytes(l, recs)
  }

  /** extractPrimaryKeysIndex, from the end of the header on. */
  method ExtractPrimaryKeysIndex(l: Layout, f: TableFile, ghost recs: seq<Rec>) returns (index: map<string, nat>)
    requires Holding(l, f, recs) && f.pos == 32
    modifies f`pos
    ensures index == Rebuild(l, recs)
  {
    hide FileBytes, Frame, FrameBytes, FramePos, Upcoming;
    index := map[];
    ghost var k := 0;
    BoundaryAt(l, recs, 0);
    var result, key, offset := DeserializeNextPrimaryKey(l, f, NextAt(recs, 0));
    ghost var at := 32;
    while result != EndOfTable
      invariant k <= |recs| && at == FramePos(l, recs, k) && f.pos == Landing(l, at, NextAt(recs, k))
      invariant result == if k == |recs| then EndOfTable else if recs[k].Live() then Live else Tombstone
      invariant result.Live? ==> key == recs[k].row[0] && offset == at + 8
      invariant index == Rebuild(l, recs[..k])
      decreases |f.bytes| - at
    {
      BoundaryAt(l, recs, k);
      if result.Live? && key !in index {
        index := index[key := offset];
      }
      RebuildNext(l, recs, k);
      k := k + 1;
      BoundaryAt(l, recs, k);
      at := f.pos;
      result, key, offset := DeserializeNextPrimaryKey(l, f, NextAt(recs, k));
    }
    assert recs[..|recs|] == recs;
  }

  lemma RebuildNext(l: Layout, recs: seq<Rec>, k: nat)
    requires Shaped(l, recs) && k < |recs|
    ensures Rebuild(l, recs[..k + 1]) ==
            (if recs[k].Live() && recs[k].row[0] !in Rebuild(l, recs[..k])
             then Rebuild(l, recs[..k])[recs[k].row[0] := FramePos(l, recs, k) + 8] else Rebuild(l, recs[..k]))
  {
    assert recs[..k + 1][..k] == recs[..k];
    TypePosOfPrefix(l, recs, k + 1, k);
  }

  /** calculateTombstoneRatio. */
  method CalculateTombstoneRatio(l: Layout, f: TableFile, ghost recs: seq<Rec>) returns (ratio: Option<real>)
    requires Holding(l, f, recs)
    modifies f`pos
    ensures ratio == TombstoneRatio(recs)
  {
    hide FileBytes, Frame, FrameBytes, FramePos, Upcoming;
    OpensAtHeader(l, recs);
    var valid := f.Open();
    var tombstones: nat, total: nat := 0, 0;
    ghost var k := 0;
    BoundaryAt(l, recs, 0);
    var result := Skip;
    while result != EndOfTable
      invariant k <= |recs| && f.pos == FramePos(l, recs, k) && (result == EndOfTable ==> k == |recs|)
      invariant tombstones == Tombstones(recs[..k]) && total == k
      decreases |f.bytes| - f.pos, if result == EndOfTable then 0 else 1
    {
      BoundaryAt(l, recs, k);
      result := DeserializeNextRecordType(l, f, NextAt(recs, k));
      if result == Tombstone {
        tombstones := tombstones + 1;
      }
      if result != IoError && result != EndOfTable {
        total := total + 1;
      }
      if k < |recs| {
        LogNext(recs, k);
        k := k + 1;
      }
    }
    assert recs[..|recs|] == recs;
    ratio := if total == 0 then None else Some(tombstones as real / total as real);
  }

  lemma OpensAtHeader(l: Layout, recs: seq<Rec>)
    requires Shaped(l, recs)
    ensures Header() <= FileBytes(l, recs)
  {
  }

  /** The read loop of the compaction copier over the offset region. */
  method ReadOffsets(l: Layout, f: TableFile, ghost row: Row) returns (offsets: seq<(nat, nat)>)
    requires l.Valid() && |row| == l.n && At(f.bytes, f.pos, OffsetTable(l.Ids(), row[1..], 0))
    requires |Literals(row)| < FILE_LIMIT
    modifies f`pos
    ensures f.pos == old(f.pos) + 16 * (l.n - 1) && |offsets| == l.n - 1
    ensures forall j :: 0 <= j < |offsets| ==> offsets[j] == (|Literals(row[1..][..j])|, l.Ids()[j])
  {
    hide Literals, OffsetTable, U64, FromLittleEndian;
    offsets := [];
    var i := 0;
    while i < l.n - 1
      invariant i <= l.n - 1 && f.pos == old(f.pos) + 16 * i && |offsets| == i
      invariant forall j :: 0 <= j < |offsets| ==> offsets[j] == (|Literals(row[1..][..j])|, l.Ids()[j])
    {
      OffsetEntryAt(f.bytes, old(f.pos), l.Ids(), row[1..], 0, i);
      OffsetFits(row, i);
      OffsetEntryParts(f.bytes, old(f.pos) + 16 * i, |Literals(row[1..][..i])|, l.Ids()[i]);
      var ok, offset := f.ReadU64();
      var data;
      ok, data := f.Read(8);
      offsets := offsets + [(offset, data[0] as nat)];
      i := i + 1;
    }
  }

  /** The read loop of the compaction copier over the values after the key. */
  method ReadLiterals(f: TableFile, n: nat, ghost vals: seq<string>) returns (literals: seq<string>)
    requires |vals| == n && At(f.bytes, f.pos, Literals(vals)) && |f.bytes| < FILE_LIMIT
    modifies f`pos
    ensures literals == vals && f.pos == old(f.pos) + |Literals(vals)|
  {
    hide Literals, Literal;
    literals := [];
    NoLiterals();
    assert vals[..0] == [];
    var i := 0;
    while i < n
      invariant i <= n && literals == vals[..i] && f.pos == old(f.pos) + |Literals(vals[..i])|
    {
      LiteralAt(f.bytes, old(f.pos), vals, i);
      LiteralsNext(vals, i);
      var ok, literal := ReadLiteral(f, vals[i]);
      literals := literals + [literal];
      i := i + 1;
    }
    assert vals[..n] == vals;
  }

  /** copyNextLiveRecord: a live record reaches the new file byte for byte, a tombstone does not. */
  method CopyNextLiveRecord(l: Layout, f: TableFile, target: TableFile, ghost next: Option<Rec>)
    returns (result: Indicator)
    requires f != target && Upcoming(l, f.bytes, f.pos, next)
    modifies f`pos, target`bytes
    ensures f.pos == Landing(l, old(f.pos), next)
    ensures result == if next.None? then EndOfTable else if next.value.Live() then Live else Tombstone
    ensures target.bytes == old(target.bytes) + if result.Live? then Frame(l, next.value) else []
  {
    hide Frame, Literals, Literal, OffsetTable;
    var length, code;
    result, length, code := ReadFrameStart(l, f, next);
    if result.EndOfTable? || result.IoError? {
      return;
    }
    ghost var r := next.value;
    FrameParts(f.bytes, f.pos - 9, l, r);
    if TombstoneCode(code) {
      f.SeekBy(length - 1);
      return Tombstone;
    }
    SplitFirst(r.row);
    AtSplit(f.bytes, f.pos + 16 * (l.n - 1), Literal(r.row[0]), Literals(r.row[1..]));
    var offsets := ReadOffsets(l, f, r.row);
    var ok, key := ReadLiteral(f, r.row[0]);
    var literals := ReadLiterals(f, l.n - 1, r.row[1..]);
    PasteRecord(target, length, code, offsets, key, literals, l, r);
  }

  /** The write half of the compaction copier. */
  method PasteRecord(target: TableFile, length: nat, code: char, offsets: seq<(nat, nat)>, key: string,
                     literals: seq<string>, ghost l: Layout, ghost r: Rec)
    requires l.Valid() && |r.row| == l.n && key == r.row[0] && literals == r.row[1..]
    requires length == |Frame(l, r)| - 8 && code == KindCode(r.kind) && |offsets| == l.n - 1
    requires forall j :: 0 <= j < |offsets| ==> offsets[j] == (|Literals(literals[..j])|, l.Ids()[j])
    modifies target`bytes
    ensures target.bytes == old(target.bytes) + Frame(l, r)
  {
    hide Frame, Literals, Literal, OffsetTable, U64;
    target.Append(U64(length));
    target.Append([code]);
    WriteOffsets(target, offsets, l.Ids(), literals);
    target.Append(Literal(key));
    WriteLiterals(target, literals);
    FrameFromParts(l, r);
  }

  lemma SplitFirst(row: Row)
    requires row != []
    ensures Literals(row) == Literal(row[0]) + Literals(row[1..])
  {
  }

  lemma FrameFromParts(l: Layout, r: Rec)
    requires l.Valid() && |r.row| == l.n
    ensures Frame(l, r) == U64(|Frame(l, r)| - 8) + [KindCode(r.kind)] + OffsetTable(l.Ids(), r.row[1..], 0) +
                           Literal(r.row[0]) + Literals(r.row[1..])
  {
    hide U64, Literal, OffsetTable;
    TailParts(l, r.row, r.row[0], r.row[1..]);
  }

  /** compactTable: a new file receives the live records in order, and takes the place of the old one. */
  method CompactTable(l: Layout, f: TableFile, ghost recs: seq<Rec>)
    requires Holding(l, f, recs)
    modifies f
    ensures Holding(l, f, LiveRecs(recs))
  {
    hide FileBytes, Frame, FrameBytes, FramePos, Upcoming, Header;
    var compacted := new TableFile();
    EmptyFile(l);
    OpensAtHeader(l, recs);
    var valid := f.Open();
    ghost var k := 0;
    BoundaryAt(l, recs, 0);
    var result := Skip;
    while result != EndOfTable
      invariant fresh(compacted) && f.bytes == old(f.bytes)
      invariant k <= |recs| && f.pos == FramePos(l, recs, k) && (result == EndOfTable ==> k == |recs|)
      invariant Shaped(l, LiveRecs(recs[..k])) && compacted.bytes == FileBytes(l, LiveRecs(recs[..k]))
      decreases |f.bytes| - f.pos, if result == EndOfTable then 0 else 1
    {
      BoundaryAt(l, recs, k);
      result := CopyNextLiveRecord(l, f, compacted, NextAt(recs, k));
      if k < |recs| {
        CompactedNext(l, recs, k);
        k := k + 1;
      }
    }
    assert recs[..|recs|] == recs;
    CompactedSized(l, recs);
    f.bytes := compacted.bytes;
    f.pos := 0;
  }

  lemma EmptyFile(l: Layout)
    requires l.Valid()
    ensures FileBytes(l, LiveRecs([])) == Header()
  {
  }

  lemma CompactedSized(l: Layout, recs: seq<Rec>)
    requires Sized(l, recs)
    ensures Sized(l, LiveRecs(recs))
  {
    hide FrameBytes, Header;
    LiveRecsShrink(l, recs);
  }

  lemma CompactedNext(l: Layout, recs: seq<Rec>, k: nat)
    requires Shaped(l, recs) && k < |recs| && Shaped(l, LiveRecs(recs[..k]))
    ensures Shaped(l, LiveRecs(recs[..k + 1]))
    ensures FileBytes(l, LiveRecs(recs[..k + 1])) ==
            FileBytes(l, LiveRecs(recs[..k])) + if recs[k].Live() then Frame(l, recs[k]) else []
  {
    hide Frame, FileBytes;
    LogNext(recs, k);
    if recs[k].Live() {
      AppendFrame(l, LiveRecs(recs[..k]), recs[k]);
    } else {
      assert LiveRecs(recs[..k + 1]) == LiveRecs(recs[..k]);
    }
  }
}
