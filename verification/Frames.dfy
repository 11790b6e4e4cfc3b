/** The bytes of a table file: little-endian 64-bit fields, framed records, the file header
    (src/auxiliary/types/types.hpp, src/DBEngine/filehandler/public_api.hpp). */
module Frames {
  import opened Text

  // ---- 64-bit little-endian fields ----

  const U64_LIMIT: nat := 0x1_0000_0000_0000_0000
  const FILE_LIMIT: nat := 0x8000_0000_0000_0000

  function Power256(k: nat): (r: nat) ensures r > 0 { if k == 0 then 1 else 256 * Power256(k - 1) }

  /** Byte i of a number, the lowest first. */
  function ByteAt(n: nat, i: nat): char {
    if i == 0 then (n % 256) as char else ByteAt(n / 256, i - 1)
  }

  function LittleEndian(n: nat, k: nat): (r: string)
    ensures |r| == k
  {
    seq(k, i requires 0 <= i < k => ByteAt(n, i))
  }

  function FromLittleEndian(s: string): nat {
    if s == [] then 0 else s[0] as int + 256 * FromLittleEndian(s[1..])
  }

  function U64(n: nat): (r: string) ensures |r| == 8 { LittleEndian(n, 8) }

  lemma {:induction false} LittleEndianRoundTrip(n: nat, k: nat)
    requires n < Power256(k)
    ensures FromLittleEndian(LittleEndian(n, k)) == n
  {
    if k > 0 {
      LittleEndianRoundTrip(n / 256, k - 1);
      assert LittleEndian(n, k)[0] == (n % 256) as char;
      assert LittleEndian(n, k)[1..] == LittleEndian(n / 256, k - 1);
    }
  }

  lemma U64RoundTrip(n: nat)
    requires n < U64_LIMIT
    ensures FromLittleEndian(U64(n)) == n
  {
    assert Power256(2) == 0x1_0000;
    assert Power256(4) == 0x1_0000_0000;
    assert Power256(6) == 0x1_0000_0000_0000;
    assert Power256(8) == U64_LIMIT;
    LittleEndianRoundTrip(n, 8);
  }

  // ---- what stands where in a file ----

  /** The bytes `s` stand in `b` at position p. */
  predicate At(b: string, p: nat, s: string) {
    p + |s| <= |b| && b[p..p + |s|] == s
  }

  lemma AtSplit(b: string, p: nat, s: string, t: string)
    ensures At(b, p, s + t) <==> At(b, p, s) && At(b, p + |s|, t)
  {
    if At(b, p, s + t) {
      assert b[p..p + |s|] == (s + t)[..|s|];
      assert b[p + |s|..p + |s| + |t|] == (s + t)[|s|..];
    }
  }

  // ---- records ----

  datatype Kind = Inserted | Deleted | Updated | Unused

  /** The record type byte: INSERT 0, DELETE 1, UPDATE 2, UNUSED 3. */
  function KindCode(k: Kind): char {
    match k case Inserted => 0 as char case Deleted => 1 as char case Updated => 2 as char case Unused => 3 as char
  }

  /** The test every scanner makes on the type byte. */
  predicate TombstoneCode(c: char) { c == KindCode(Deleted) || c == KindCode(Unused) }

  type Row = seq<string>

  /** One framed record; `row` lists the values in the order in which they stand in the file. */
  datatype Rec = Rec(kind: Kind, row: Row) {
    predicate Live() { kind.Inserted? || kind.Updated? }
    function Kill(): Rec { this.(kind := Deleted) }
  }

  /** A table of n columns whose primary key is schema column pk. */
  datatype Layout = Layout(n: nat, pk: nat) {
    predicate Valid() { pk < n <= 255 }

    /** Schema indices of the columns after the key, in file order (the column codes). */
    function Ids(): (r: seq<nat>)
      requires Valid()
      ensures |r| == n - 1
      ensures forall j :: 0 <= j < |r| ==> r[j] == (if j < pk then j else j + 1)
    {
      seq(n - 1, j => if j < pk then j else j + 1)
    }

    /** The place in the file order at which the value of schema column c stands. */
    function Place(c: nat): (j: nat)
      requires Valid() && c < n
      ensures j < n
    {
      if c == pk then 0 else if c < pk then c + 1 else c
    }
  }

  function Literal(s: string): (r: string) ensures |r| == 8 + |s| { U64(|s|) + s }

  function Literals(vals: seq<string>): string {
    if vals == [] then [] else Literal(vals[0]) + Literals(vals[1..])
  }

  /** column_offset_t: 8 bytes of offset, the column code, 7 bytes of zero padding. */
  function OffsetEntry(offset: nat, id: nat): (r: string)
    requires id < 256
    ensures |r| == 16
  {
    U64(offset) + [id as char] + ZEROS
  }

  const ZEROS: string := [0 as char, 0 as char, 0 as char, 0 as char, 0 as char, 0 as char, 0 as char]

  function OffsetTable(ids: seq<nat>, vals: seq<string>, start: nat): (r: string)
    requires |ids| == |vals| && forall j :: 0 <= j < |ids| ==> ids[j] < 256
    ensures |r| == 16 * |ids|
  {
    if ids == [] then []
    else OffsetEntry(start, ids[0]) + OffsetTable(ids[1..], vals[1..], start + 8 + |vals[0]|)
  }

  /** Everything after the length field and the type byte. */
  function Tail(l: Layout, row: Row): string
    requires l.Valid() && |row| == l.n
  {
    OffsetTable(l.Ids(), row[1..], 0) + Literals(row)
  }

  function Frame(l: Layout, r: Rec): (f: string)
    requires l.Valid() && |r.row| == l.n
    ensures |f| == 9 + |Tail(l, r.row)|
  {
    U64(1 + |Tail(l, r.row)|) + [KindCode(r.kind)] + Tail(l, r.row)
  }

  predicate Shaped(l: Layout, recs: seq<Rec>) {
    l.Valid() && forall i :: 0 <= i < |recs| ==> |recs[i].row| == l.n
  }

  function FrameBytes(l: Layout, recs: seq<Rec>): string
    requires Shaped(l, recs)
  {
    if recs == [] then [] else Frame(l, recs[0]) + FrameBytes(l, recs[1..])
  }

  // ---- the file ----

  const DB_MAGIC: nat := 0x4A5353514C7631
  const DB_VERSION: nat := 1
  const DB_FLAGS: nat := 0
  const DB_RESERVED: nat := 0

  function Header(): (h: string) ensures |h| == 32 {
    U64(DB_MAGIC) + U64(DB_VERSION) + U64(DB_FLAGS) + U64(DB_RESERVED)
  }

  function FileBytes(l: Layout, recs: seq<Rec>): string
    requires Shaped(l, recs)
  {
    Header() + FrameBytes(l, recs)
  }

  /** The file that holds these records is small enough for its positions to be signed 64-bit numbers. */
  predicate Sized(l: Layout, recs: seq<Rec>) {
    Shaped(l, recs) && |FileBytes(l, recs)| < FILE_LIMIT
  }

  /** Position of the frame of record k, or of the end of the file. */
  function FramePos(l: Layout, recs: seq<Rec>, k: nat): (p: nat)
    requires Shaped(l, recs) && k <= |recs|
    ensures p >= 32
  {
    32 + |FrameBytes(l, recs[..k])|
  }

  /** Position of the type byte of record k: what the primary-key index stores. */
  function TypePos(l: Layout, recs: seq<Rec>, k: nat): nat
    requires Shaped(l, recs) && k < |recs|
  {
    FramePos(l, recs, k) + 8
  }

  lemma {:induction false} FrameBytesConcat(l: Layout, a: seq<Rec>, b: seq<Rec>)
    requires Shaped(l, a) && Shaped(l, b)
    ensures Shaped(l, a + b) && FrameBytes(l, a + b) == FrameBytes(l, a) + FrameBytes(l, b)
  {
    hide Frame, FrameBytes;
    if a == [] {
      NoFrames(l);
      assert a + b == b;
    } else {
      FrameBytesConcat(l, a[1..], b);
      assert (a + b)[1..] == a[1..] + b;
      FrontFrame(l, a);
      FrontFrame(l, a + b);
    }
  }

  lemma NoFrames(l: Layout) requires l.Valid() ensures FrameBytes(l, []) == [] {}

  /** Appending a frame appends a record. */
  lemma AppendFrame(l: Layout, recs: seq<Rec>, r: Rec)
    requires Shaped(l, recs) && |r.row| == l.n
    ensures Shaped(l, recs + [r]) && FileBytes(l, recs + [r]) == FileBytes(l, recs) + Frame(l, r)
    ensures FramePos(l, recs + [r], |recs|) == |FileBytes(l, recs)|
  {
    hide Frame, FrameBytes, Header;
    FrameBytesConcat(l, recs, [r]);
    OneFrame(l, r);
    assert (recs + [r])[..|recs|] == recs;
    assert Header() + (FrameBytes(l, recs) + Frame(l, r)) == (Header() + FrameBytes(l, recs)) + Frame(l, r);
  }

  lemma OneFrame(l: Layout, r: Rec)
    requires l.Valid() && |r.row| == l.n
    ensures FrameBytes(l, [r]) == Frame(l, r)
  {
    hide Frame;
    assert [r][1..] == [];
  }

  lemma FramePosNext(l: Layout, recs: seq<Rec>, k: nat)
    requires Shaped(l, recs) && k < |recs|
    ensures FramePos(l, recs, k + 1) == FramePos(l, recs, k) + |Frame(l, recs[k])|
  {
    assert recs[..k + 1] == recs[..k] + [recs[k]];
    FrameBytesConcat(l, recs[..k], [recs[k]]);
    assert [recs[k]][1..] == [];
  }

  /** The frame of record k stands at FramePos k, and the last frame ends the file. */
  lemma FrameAt(l: Layout, recs: seq<Rec>, k: nat)
    requires Shaped(l, recs) && k <= |recs|
    ensures k < |recs| ==> At(FileBytes(l, recs), FramePos(l, recs, k), Frame(l, recs[k]))
    ensures FramePos(l, recs, k) <= |FileBytes(l, recs)|
    ensures FramePos(l, recs, |recs|) == |FileBytes(l, recs)|
  {
    hide Frame, FrameBytes, Header;
    assert recs == recs[..k] + recs[k..] && recs[..|recs|] == recs;
    FrameBytesConcat(l, recs[..k], recs[k..]);
    var front := Header() + FrameBytes(l, recs[..k]);
    assert FileBytes(l, recs) == front + FrameBytes(l, recs[k..]);
    if k < |recs| {
      FrontFrame(l, recs[k..]);
      StandsAt(front, Frame(l, recs[k]), FrameBytes(l, recs[k..][1..]));
    }
  }

  lemma FrontFrame(l: Layout, recs: seq<Rec>)
    requires Shaped(l, recs) && recs != []
    ensures FrameBytes(l, recs) == Frame(l, recs[0]) + FrameBytes(l, recs[1..])
  {
    hide Frame;
  }

  lemma StandsAt(a: string, b: string, c: string)
    ensures At(a + (b + c), |a|, b)
  {
  }

  /** Positions up to k depend on the records before k only through the lengths of their rows' bytes. */
  lemma {:induction false} FramePosByRows(l: Layout, a: seq<Rec>, b: seq<Rec>, k: nat)
    requires Shaped(l, a) && Shaped(l, b) && k <= |a| && k <= |b|
    requires forall i :: 0 <= i < k ==> a[i].row == b[i].row
    ensures FramePos(l, a, k) == FramePos(l, b, k)
  {
    if k > 0 {
      FramePosByRows(l, a, b, k - 1);
      FramePosNext(l, a, k - 1);
      FramePosNext(l, b, k - 1);
    } else {
      assert a[..0] == b[..0];
    }
  }

  /** Overwriting the type byte of record k with DELETE turns exactly record k into a tombstone: the file
      keeps its length, and every other byte. */
  lemma TombstoneWriteIsLocal(l: Layout, recs: seq<Rec>, k: nat)
    requires Shaped(l, recs) && k < |recs|
    ensures TypePos(l, recs, k) < |FileBytes(l, recs)|
    ensures Shaped(l, recs[k := recs[k].Kill()])
    ensures FileBytes(l, recs[k := recs[k].Kill()]) == FileBytes(l, recs)[TypePos(l, recs, k) := KindCode(Deleted)]
  {
    hide Frame, FrameBytes, Header;
    var r := recs[k];
    var recs' := recs[k := r.Kill()];
    assert recs == recs[..k] + recs[k..] && recs' == recs[..k] + recs'[k..];
    assert recs[k..][1..] == recs'[k..][1..];
    FrameBytesConcat(l, recs[..k], recs[k..]);
    FrameBytesConcat(l, recs[..k], recs'[k..]);
    FrontFrame(l, recs[k..]);
    FrontFrame(l, recs'[k..]);
    KilledFrame(l, r);
    var rest := FrameBytes(l, recs[k..][1..]);
    UpdateInside(Header(), FrameBytes(l, recs[..k]), Frame(l, r), rest, 8, KindCode(Deleted));
  }

  lemma KilledFrame(l: Layout, r: Rec)
    requires l.Valid() && |r.row| == l.n
    ensures Frame(l, r.Kill()) == Frame(l, r)[8 := KindCode(Deleted)]
  {
    hide Tail, U64;
  }

  lemma UpdateInside(h: string, a: string, b: string, c: string, i: nat, x: char)
    requires i < |b|
    ensures (h + (a + (b + c)))[|h| + |a| + i := x] == h + (a + (b[i := x] + c))
  {
  }

  // ---- the parts of a frame ----

  lemma {:induction false} LiteralsConcat(a: seq<string>, b: seq<string>)
    ensures Literals(a + b) == Literals(a) + Literals(b)
  {
    hide Literal;
    if a == [] {
      assert a + b == b;
    } else {
      LiteralsConcat(a[1..], b);
      assert (a + b)[1..] == a[1..] + b && (a + b)[0] == a[0];
      var f, x, y := Literal(a[0]), Literals(a[1..]), Literals(b);
      assert f + (x + y) == (f + x) + y;
    }
  }

  lemma NoLiterals() ensures Literals([]) == [] {}

  lemma LiteralsNext(vals: seq<string>, j: nat)
    requires j < |vals|
    ensures Literals(vals[..j + 1]) == Literals(vals[..j]) + Literal(vals[j])
  {
    assert vals[..j + 1] == vals[..j] + [vals[j]];
    LiteralsConcat(vals[..j], [vals[j]]);
    assert [vals[j]][1..] == [];
  }

  /** Value j of a run of literals is found after the j literals before it. */
  lemma LiteralAt(b: string, p: nat, vals: seq<string>, j: nat)
    requires At(b, p, Literals(vals)) && j < |vals|
    ensures At(b, p + |Literals(vals[..j])|, Literal(vals[j]))
    ensures |Literals(vals[..j + 1])| == |Literals(vals[..j])| + 8 + |vals[j]| <= |Literals(vals)|
  {
    hide Literal;
    LiteralsNext(vals, j);
    assert vals == vals[..j + 1] + vals[j + 1..];
    LiteralsConcat(vals[..j + 1], vals[j + 1..]);
    AtSplit(b, p, Literals(vals[..j + 1]), Literals(vals[j + 1..]));
    AtSplit(b, p, Literals(vals[..j]), Literal(vals[j]));
  }

  /** Entry j of the offset region holds the code of the j-th column after the key and the distance of its
      value from the end of the key. */
  lemma {:induction false} OffsetEntryAt(b: string, p: nat, ids: seq<nat>, vals: seq<string>, start: nat, j: nat)
    requires |ids| == |vals| && forall i :: 0 <= i < |ids| ==> ids[i] < 256
    requires At(b, p, OffsetTable(ids, vals, start)) && j < |ids|
    ensures At(b, p + 16 * j, OffsetEntry(start + |Literals(vals[..j])|, ids[j]))
    decreases j
  {
    hide OffsetEntry, Literal;
    var rest := start + 8 + |vals[0]|;
    AtSplit(b, p, OffsetEntry(start, ids[0]), OffsetTable(ids[1..], vals[1..], rest));
    if j > 0 {
      OffsetEntryAt(b, p + 16, ids[1..], vals[1..], rest, j - 1);
      assert vals[..j] == [vals[0]] + vals[1..][..j - 1];
      LiteralsConcat([vals[0]], vals[1..][..j - 1]);
      assert [vals[0]][1..] == [];
    }
  }

  lemma OffsetEntryParts(b: string, p: nat, offset: nat, id: nat)
    requires id < 256 && offset < U64_LIMIT && At(b, p, OffsetEntry(offset, id))
    ensures p + 16 <= |b| && FromLittleEndian(b[p..p + 8]) == offset && b[p + 8] == id as char
  {
    hide U64, FromLittleEndian;
    AtSplit(b, p, U64(offset) + [id as char], ZEROS);
    AtSplit(b, p, U64(offset), [id as char]);
    U64RoundTrip(offset);
  }

  /** The value of the i-th column after the key stands inside the record: behind the key, at its offset. */
  lemma OffsetFits(row: Row, i: nat)
    requires i + 1 < |row|
    ensures |Literals(row[..i + 1])| == 8 + |row[0]| + |Literals(row[1..][..i])|
    ensures |Literals(row[1..][..i])| + 16 + |row[0]| + |row[i + 1]| <= |Literals(row)|
  {
    hide Literal;
    assert row[..i + 1] == [row[0]] + row[1..][..i];
    LiteralsConcat([row[0]], row[1..][..i]);
    assert [row[0]][1..] == [];
    LiteralsNext(row, i + 1);
    assert row == row[..i + 2] + row[i + 2..];
    LiteralsConcat(row[..i + 2], row[i + 2..]);
  }

  /** Where the regions of a frame stand. */
  lemma FrameParts(b: string, p: nat, l: Layout, r: Rec)
    requires l.Valid() && |r.row| == l.n && At(b, p, Frame(l, r))
    ensures At(b, p, U64(1 + |Tail(l, r.row)|)) && At(b, p + 8, [KindCode(r.kind)])
    ensures At(b, p + 9, OffsetTable(l.Ids(), r.row[1..], 0))
    ensures At(b, p + 9 + 16 * (l.n - 1), Literals(r.row))
    ensures |Tail(l, r.row)| == 16 * (l.n - 1) + |Literals(r.row)|
    ensures p + |Frame(l, r)| <= |b|
  {
    hide U64, OffsetTable, Literals;
    var t := Tail(l, r.row);
    AtSplit(b, p, U64(1 + |t|) + [KindCode(r.kind)], t);
    AtSplit(b, p, U64(1 + |t|), [KindCode(r.kind)]);
    AtSplit(b, p + 9, OffsetTable(l.Ids(), r.row[1..], 0), Literals(r.row));
  }

  // ---- the bytes determine the records ----

  lemma {:induction false} LiteralsReadable(b: string, p: nat, u: seq<string>, v: seq<string>)
    requires |u| == |v| && At(b, p, Literals(u)) && At(b, p, Literals(v)) && |b| < FILE_LIMIT
    ensures u == v
    decreases |u|
  {
    if u != [] {
      LiteralAt(b, p, u, 0);
      LiteralAt(b, p, v, 0);
      assert Literals(u[..0]) == Literals(v[..0]) == [];
      TextReadable(b, p, u[0], v[0]);
      AtSplit(b, p, Literal(u[0]), Literals(u[1..]));
      AtSplit(b, p, Literal(v[0]), Literals(v[1..]));
      LiteralsReadable(b, p + 8 + |u[0]|, u[1..], v[1..]);
      assert u == [u[0]] + u[1..] && v == [v[0]] + v[1..];
    }
  }

  lemma TextReadable(b: string, p: nat, s: string, t: string)
    requires At(b, p, Literal(s)) && At(b, p, Literal(t)) && |b| < FILE_LIMIT
    ensures s == t
  {
    hide U64;
    AtSplit(b, p, U64(|s|), s);
    AtSplit(b, p, U64(|t|), t);
    U64RoundTrip(|s|);
    U64RoundTrip(|t|);
  }

  lemma FrameReadable(b: string, p: nat, l: Layout, r: Rec, q: Rec)
    requires l.Valid() && |r.row| == |q.row| == l.n && |b| < FILE_LIMIT
    requires At(b, p, Frame(l, r)) && At(b, p, Frame(l, q))
    ensures r == q
  {
    hide U64, OffsetTable, Literals, Frame;
    FrameParts(b, p, l, r);
    FrameParts(b, p, l, q);
    LiteralsReadable(b, p + 9 + 16 * (l.n - 1), r.row, q.row);
    assert b[p + 8] == KindCode(r.kind) == KindCode(q.kind);
  }

  /** Two lists of records with the same file bytes are the same list: decoding is a function of the bytes. */
  lemma {:induction false} FileReadable(l: Layout, a: seq<Rec>, b: seq<Rec>)
    requires Sized(l, a) && Sized(l, b) && FileBytes(l, a) == FileBytes(l, b)
    ensures a == b
  {
    hide Frame, Header;
    assert FrameBytes(l, a) == FileBytes(l, a)[32..] == FrameBytes(l, b);
    FramesReadable(l, a, b);
  }

  lemma {:induction false} FramesReadable(l: Layout, a: seq<Rec>, b: seq<Rec>)
    requires Shaped(l, a) && Shaped(l, b) && FrameBytes(l, a) == FrameBytes(l, b)
    requires |FrameBytes(l, a)| < FILE_LIMIT
    ensures a == b
    decreases |a|
  {
    hide Frame;
    if a != [] && b != [] {
      var bytes := FrameBytes(l, a);
      assert bytes == Frame(l, a[0]) + FrameBytes(l, a[1..]) == Frame(l, b[0]) + FrameBytes(l, b[1..]);
      FrameReadable(bytes, 0, l, a[0], b[0]);
      assert FrameBytes(l, a[1..]) == bytes[|Frame(l, a[0])|..] == FrameBytes(l, b[1..]);
      FramesReadable(l, a[1..], b[1..]);
      assert a == [a[0]] + a[1..] && b == [b[0]] + b[1..];
    }
  }
}
