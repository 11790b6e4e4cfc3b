/** The records of a table file taken as a log: which rows are live, what marking and compaction do to them,
    and which index belongs to them. */
module Log {
  import opened Text
  import opened Frames

  // ---- live rows and tombstones ----

  function LiveRecs(recs: seq<Rec>): seq<Rec> {
    if recs == [] then [] else (if recs[0].Live() then [recs[0]] else []) + LiveRecs(recs[1..])
  }

  function Rows(recs: seq<Rec>): (rows: seq<Row>)
    ensures |rows| == |recs| && forall i :: 0 <= i < |rows| ==> rows[i] == recs[i].row
  {
    seq(|recs|, i requires 0 <= i < |recs| => recs[i].row)
  }

  /** The table that the log stands for: its live rows in file order. */
  function LiveRows(recs: seq<Rec>): seq<Row> { Rows(LiveRecs(recs)) }

  function Tombstones(recs: seq<Rec>): nat {
    if recs == [] then 0 else (if recs[0].Live() then 0 else 1) + Tombstones(recs[1..])
  }

  /** The rows on which the selector answers `want`. */
  function Filter(rows: seq<Row>, sel: Row -> bool, want: bool): seq<Row> {
    if rows == [] then [] else (if sel(rows[0]) == want then [rows[0]] else []) + Filter(rows[1..], sel, want)
  }

  lemma {:induction false} LiveRecsConcat(a: seq<Rec>, b: seq<Rec>)
    ensures LiveRecs(a + b) == LiveRecs(a) + LiveRecs(b)
  {
    if a == [] {
      assert a + b == b;
    } else {
      LiveRecsConcat(a[1..], b);
      assert (a + b)[1..] == a[1..] + b && (a + b)[0] == a[0];
      var head := if a[0].Live() then [a[0]] else [];
      assert head + (LiveRecs(a[1..]) + LiveRecs(b)) == (head + LiveRecs(a[1..])) + LiveRecs(b);
    }
  }

  lemma {:induction false} TombstonesConcat(a: seq<Rec>, b: seq<Rec>)
    ensures Tombstones(a + b) == Tombstones(a) + Tombstones(b)
  {
    if a == [] {
      assert a + b == b;
    } else {
      TombstonesConcat(a[1..], b);
      assert (a + b)[1..] == a[1..] + b && (a + b)[0] == a[0];
    }
  }

  lemma LogConcat(a: seq<Rec>, b: seq<Rec>)
    ensures LiveRecs(a + b) == LiveRecs(a) + LiveRecs(b)
    ensures LiveRows(a + b) == LiveRows(a) + LiveRows(b)
    ensures Tombstones(a + b) == Tombstones(a) + Tombstones(b)
  {
    LiveRecsConcat(a, b);
    TombstonesConcat(a, b);
  }

  lemma LogNext(recs: seq<Rec>, k: nat)
    requires k < |recs|
    ensures LiveRecs(recs[..k + 1]) == LiveRecs(recs[..k]) + if recs[k].Live() then [recs[k]] else []
    ensures LiveRows(recs[..k + 1]) == LiveRows(recs[..k]) + if recs[k].Live() then [recs[k].row] else []
    ensures Tombstones(recs[..k + 1]) == Tombstones(recs[..k]) + if recs[k].Live() then 0 else 1
  {
    assert recs[..k + 1] == recs[..k] + [recs[k]];
    LogConcat(recs[..k], [recs[k]]);
    assert [recs[k]][1..] == [];
    assert LiveRecs([]) == [];
  }

  lemma {:induction false} FilterConcat(a: seq<Row>, b: seq<Row>, sel: Row -> bool, want: bool)
    ensures Filter(a + b, sel, want) == Filter(a, sel, want) + Filter(b, sel, want)
  {
    if a == [] {
      assert a + b == b;
    } else {
      FilterConcat(a[1..], b, sel, want);
      assert (a + b)[1..] == a[1..] + b && (a + b)[0] == a[0];
      var head := if sel(a[0]) == want then [a[0]] else [];
      assert head + (Filter(a[1..], sel, want) + Filter(b, sel, want)) ==
             (head + Filter(a[1..], sel, want)) + Filter(b, sel, want);
    }
  }

  lemma {:induction false} FilterMembers(rows: seq<Row>, sel: Row -> bool, want: bool)
    ensures forall r :: r in Filter(rows, sel, want) <==> r in rows && sel(r) == want
    ensures |Filter(rows, sel, want)| + |Filter(rows, sel, !want)| == |rows|
  {
    if rows != [] {
      FilterMembers(rows[1..], sel, want);
      assert rows == [rows[0]] + rows[1..];
    }
  }

  /** A member of LiveRecs is a live member of the log, and the other way round. */
  lemma {:induction false} LiveRecsMembers(recs: seq<Rec>)
    ensures forall r :: r in LiveRecs(recs) <==> r in recs && r.Live()
    ensures |LiveRecs(recs)| + Tombstones(recs) == |recs|
  {
    if recs != [] {
      LiveRecsMembers(recs[1..]);
      assert recs == [recs[0]] + recs[1..];
    }
  }

  lemma LiveRowsMembers(recs: seq<Rec>)
    ensures forall row :: row in LiveRows(recs) <==> exists k :: 0 <= k < |recs| && recs[k].Live() && recs[k].row == row
  {
    LiveRecsMembers(recs);
    forall row ensures row in LiveRows(recs) <==> exists k :: 0 <= k < |recs| && recs[k].Live() && recs[k].row == row {
      if row in LiveRows(recs) {
        var i :| 0 <= i < |LiveRows(recs)| && LiveRows(recs)[i] == row;
        assert LiveRecs(recs)[i] in recs;
      }
      if k :| 0 <= k < |recs| && recs[k].Live() && recs[k].row == row {
        assert recs[k] in LiveRecs(recs);
        var i :| 0 <= i < |LiveRecs(recs)| && LiveRecs(recs)[i] == recs[k];
        assert LiveRows(recs)[i] == row;
      }
    }
  }

  // ---- marking ----

  function MarkOne(r: Rec, sel: Row -> bool): Rec {
    if r.Live() && sel(r.row) then r.Kill() else r
  }

  /** Every live record that the selector accepts becomes a tombstone. */
  function Mark(recs: seq<Rec>, sel: Row -> bool): (r: seq<Rec>)
    ensures |r| == |recs| && forall i :: 0 <= i < |r| ==> r[i] == MarkOne(recs[i], sel)
  {
    seq(|recs|, i requires 0 <= i < |recs| => MarkOne(recs[i], sel))
  }

  /** The log after a scan has marked its first k records. */
  function MarkedTo(recs: seq<Rec>, sel: Row -> bool, k: nat): (r: seq<Rec>)
    requires k <= |recs|
    ensures |r| == |recs| && r[k..] == recs[k..]
  {
    Mark(recs[..k], sel) + recs[k..]
  }

  lemma MarkedNext(recs: seq<Rec>, sel: Row -> bool, k: nat)
    requires k < |recs|
    ensures MarkedTo(recs, sel, k)[k] == recs[k]
    ensures MarkedTo(recs, sel, k + 1) == MarkedTo(recs, sel, k)[k := MarkOne(recs[k], sel)]
  {
  }

  /** The live rows after marking are those the selector rejects, in order; each one it accepts is now a
      tombstone. */
  lemma {:induction false} MarkSplits(recs: seq<Rec>, sel: Row -> bool)
    ensures LiveRows(Mark(recs, sel)) == Filter(LiveRows(recs), sel, false)
    ensures Tombstones(Mark(recs, sel)) == Tombstones(recs) + |Filter(LiveRows(recs), sel, true)|
  {
    if recs != [] {
      MarkSplits(recs[1..], sel);
      assert recs == [recs[0]] + recs[1..];
      assert Mark(recs, sel)[1..] == Mark(recs[1..], sel);
      var head := if recs[0].Live() then [recs[0].row] else [];
      assert LiveRows(recs) == head + LiveRows(recs[1..]);
      FilterConcat(head, LiveRows(recs[1..]), sel, true);
      FilterConcat(head, LiveRows(recs[1..]), sel, false);
      assert recs[0].Live() ==> head[1..] == [];
    }
  }

  lemma {:induction false} KillOne(recs: seq<Rec>, k: nat)
    requires k < |recs| && recs[k].Live()
    ensures Tombstones(recs[k := recs[k].Kill()]) == Tombstones(recs) + 1
  {
    var r := recs[k];
    assert recs == recs[..k] + ([r] + recs[k + 1..]);
    assert recs[k := r.Kill()] == recs[..k] + ([r.Kill()] + recs[k + 1..]);
    LogConcat(recs[..k], [r] + recs[k + 1..]);
    LogConcat(recs[..k], [r.Kill()] + recs[k + 1..]);
    LogConcat([r], recs[k + 1..]);
    LogConcat([r.Kill()], recs[k + 1..]);
  }

  // ---- compaction ----

  /** Compaction drops the tombstones and nothing else; what it leaves it would leave again. */
  lemma {:induction false} CompactionIsStable(recs: seq<Rec>)
    ensures LiveRecs(LiveRecs(recs)) == LiveRecs(recs)
    ensures Tombstones(LiveRecs(recs)) == 0
    ensures LiveRows(LiveRecs(recs)) == LiveRows(recs)
  {
    if recs != [] {
      CompactionIsStable(recs[1..]);
      if recs[0].Live() {
        LogConcat([recs[0]], LiveRecs(recs[1..]));
        assert [recs[0]][1..] == [];
        assert LiveRecs([]) == [];
      } else {
        assert LiveRecs(recs) == LiveRecs(recs[1..]);
      }
    }
  }

  lemma {:induction false} LiveRecsShrink(l: Layout, recs: seq<Rec>)
    requires Shaped(l, recs)
    ensures Shaped(l, LiveRecs(recs)) && |FrameBytes(l, LiveRecs(recs))| <= |FrameBytes(l, recs)|
  {
    hide Frame;
    LiveRecsMembers(recs);
    forall i | 0 <= i < |LiveRecs(recs)| ensures |LiveRecs(recs)[i].row| == l.n {
      assert LiveRecs(recs)[i] in recs;
    }
    if recs != [] {
      LiveRecsShrink(l, recs[1..]);
      if recs[0].Live() {
        assert LiveRecs(recs)[1..] == LiveRecs(recs[1..]);
      } else {
        assert LiveRecs(recs) == LiveRecs(recs[1..]);
      }
    }
  }

  // ---- keys and the index ----

  /** No two live records have the same key. */
  ghost predicate UniqueKeys(recs: seq<Rec>)
    requires forall i :: 0 <= i < |recs| ==> |recs[i].row| > 0
  {
    forall i, j :: 0 <= i < j < |recs| && recs[i].Live() && recs[j].Live() ==> recs[i].row[0] != recs[j].row[0]
  }

  /** Record k is live, has this key, and its type byte stands at this position. */
  ghost predicate IsAt(l: Layout, recs: seq<Rec>, key: string, offset: nat, k: int)
    requires Shaped(l, recs)
  {
    0 <= k < |recs| && recs[k].Live() && recs[k].row[0] == key && offset == TypePos(l, recs, k)
  }

  /** Every index entry leads to the type byte of a live record with that key. */
  ghost predicate IndexSound(l: Layout, recs: seq<Rec>, index: map<string, nat>)
    requires Shaped(l, recs)
  {
    forall key :: key in index ==> exists k :: IsAt(l, recs, key, index[key], k)
  }

  /** The key of every live record is in the index. */
  ghost predicate IndexComplete(l: Layout, recs: seq<Rec>, index: map<string, nat>)
    requires Shaped(l, recs)
  {
    forall k :: 0 <= k < |recs| && recs[k].Live() ==> recs[k].row[0] in index
  }

  /** extractPrimaryKeysIndex: the index built by scanning the file, in which the first record of a key wins. */
  function Rebuild(l: Layout, recs: seq<Rec>): map<string, nat>
    requires Shaped(l, recs)
  {
    if recs == [] then map[]
    else
      var k := |recs| - 1;
      var index := Rebuild(l, recs[..k]);
      if recs[k].Live() && recs[k].row[0] !in index then index[recs[k].row[0] := TypePos(l, recs, k)] else index
  }

  lemma TypePosOfPrefix(l: Layout, recs: seq<Rec>, n: nat, k: nat)
    requires Shaped(l, recs) && k < n <= |recs|
    ensures TypePos(l, recs[..n], k) == TypePos(l, recs, k)
  {
    assert recs[..n][..k] == recs[..k];
  }

  /** The rebuilt index is sound and complete, whatever the log. */
  lemma {:induction false} RebuildIsRight(l: Layout, recs: seq<Rec>)
    requires Shaped(l, recs)
    ensures IndexSound(l, recs, Rebuild(l, recs)) && IndexComplete(l, recs, Rebuild(l, recs))
  {
    hide TypePos;
    if recs != [] {
      var n := |recs| - 1;
      var front, index := recs[..n], Rebuild(l, recs);
      RebuildIsRight(l, front);
      forall key | key in index ensures exists k :: IsAt(l, recs, key, index[key], k) {
        if key in Rebuild(l, front) {
          var k :| IsAt(l, front, key, Rebuild(l, front)[key], k);
          TypePosOfPrefix(l, recs, n, k);
          assert IsAt(l, recs, key, index[key], k);
        } else {
          assert IsAt(l, recs, key, index[key], n);
        }
      }
      forall k | 0 <= k < |recs| && recs[k].Live() ensures recs[k].row[0] in index {
        assert k < n ==> front[k] == recs[k];
      }
    }
  }

  /** With unique live keys only one index is sound and complete: the one kept up to date and the one rebuilt
      from the file are equal. */
  lemma IndexIsDetermined(l: Layout, recs: seq<Rec>, a: map<string, nat>, b: map<string, nat>)
    requires Shaped(l, recs) && UniqueKeys(recs)
    requires IndexSound(l, recs, a) && IndexComplete(l, recs, a)
    requires IndexSound(l, recs, b) && IndexComplete(l, recs, b)
    ensures a == b
  {
    hide TypePos;
    forall key | key in a ensures key in b && a[key] == b[key] {
      var i :| IsAt(l, recs, key, a[key], i);
      var j :| IsAt(l, recs, key, b[key], j);
      assert i == j;
    }
    forall key | key in b ensures key in a {
      var j :| IsAt(l, recs, key, b[key], j);
    }
  }

  /** With unique live keys the index has one entry per live row. */
  lemma {:induction false} RebuildCounts(l: Layout, recs: seq<Rec>)
    requires Shaped(l, recs) && UniqueKeys(recs)
    ensures |Rebuild(l, recs)| == |LiveRows(recs)|
  {
    hide TypePos;
    if recs != [] {
      var n := |recs| - 1;
      RebuildCounts(l, recs[..n]);
      RebuildIsRight(l, recs[..n]);
      LogNext(recs, n);
      assert recs[..n + 1] == recs;
      if recs[n].Live() {
        var key := recs[n].row[0];
        if key in Rebuild(l, recs[..n]) {
          var k :| IsAt(l, recs[..n], key, Rebuild(l, recs[..n])[key], k);
          assert false;
        }
      }
    }
  }

  /** An upsert keeps the index sound; if the key was new, it also keeps it complete and equal to a rebuild. */
  lemma UpsertKeepsIndex(l: Layout, recs: seq<Rec>, index: map<string, nat>, r: Rec)
    requires Shaped(l, recs + [r]) && Shaped(l, recs) && r.Live() && |r.row| == l.n
    requires IndexSound(l, recs, index)
    ensures IndexSound(l, recs + [r], index[r.row[0] := TypePos(l, recs + [r], |recs|)])
    ensures IndexComplete(l, recs, index) ==>
            IndexComplete(l, recs + [r], index[r.row[0] := TypePos(l, recs + [r], |recs|)])
  {
    var all := recs + [r];
    var index' := index[r.row[0] := TypePos(l, all, |recs|)];
    forall key | key in index' ensures exists k :: IsAt(l, all, key, index'[key], k) {
      if key == r.row[0] {
        assert IsAt(l, all, key, index'[key], |recs|);
      } else {
        var k :| IsAt(l, recs, key, index[key], k);
        assert all[..|recs|] == recs;
        TypePosOfPrefix(l, all, |recs|, k);
        assert IsAt(l, all, key, index'[key], k);
      }
    }
  }

  /** Some live record other than number n has this key. */
  ghost predicate HasTwin(recs: seq<Rec>, key: string, n: nat)
    requires forall i :: 0 <= i < |recs| ==> |recs[i].row| > 0
  {
    exists j :: 0 <= j < |recs| && j != n && recs[j].Live() && recs[j].row[0] == key
  }

  /** Erasing the key of a tombstoned record keeps the index sound, and keeps it complete exactly when no other
      live record has that key. */
  lemma EraseKeepsIndex(l: Layout, recs: seq<Rec>, index: map<string, nat>, key: string, n: nat)
    requires Shaped(l, recs) && IndexSound(l, recs, index) && key in index && IsAt(l, recs, key, index[key], n)
    ensures Shaped(l, recs[n := recs[n].Kill()])
    ensures IndexSound(l, recs[n := recs[n].Kill()], index - {key})
    ensures IndexComplete(l, recs, index) ==>
            (IndexComplete(l, recs[n := recs[n].Kill()], index - {key}) <==> !HasTwin(recs, key, n))
  {
    hide TypePos;
    var recs' := recs[n := recs[n].Kill()];
    assert Shaped(l, recs');
    if j :| 0 <= j < |recs| && j != n && recs[j].Live() && recs[j].row[0] == key {
      assert recs'[j].row[0] !in index - {key};
    }
    var index' := index - {key};
    forall other | other in index' ensures exists k :: IsAt(l, recs', other, index'[other], k) {
      var k :| IsAt(l, recs, other, index[other], k);
      TypePosByRows(l, recs, recs', k);
      assert IsAt(l, recs', other, index'[other], k);
    }
  }

  lemma TypePosByRows(l: Layout, a: seq<Rec>, b: seq<Rec>, k: nat)
    requires Shaped(l, a) && Shaped(l, b) && k < |a| && k < |b|
    requires forall i :: 0 <= i < k ==> a[i].row == b[i].row
    ensures TypePos(l, a, k) == TypePos(l, b, k)
  {
    hide FramePos;
    FramePosByRows(l, a, b, k);
  }
}
