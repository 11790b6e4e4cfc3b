/** The two ways in which a condition `key = literal` is answered: through the index, and by the scan that every
    other condition takes (src/DBEngine/filehandler/handlers/delete.cpp, select.cpp). When they agree, in every state
    and for every position of the key. */
module AccessPaths {
  import opened Text
  import opened Frames
  import opened Log
  import opened Conditions
  import opened Schemas
  import opened Serializer
  import opened Normalizer
  import opened Validator
  import opened Statements
  import Scanners

  // ---- how many records a selector accepts ----

  /** Some live record other than number k is accepted too. */
  ghost predicate OthersMatch(recs: seq<Rec>, sel: Row -> bool, k: nat) {
    exists j :: 0 <= j < |recs| && j != k && recs[j].Live() && sel(recs[j].row)
  }

  lemma {:induction false} FilterNone(rows: seq<Row>, sel: Row -> bool)
    requires forall r :: r in rows ==> !sel(r)
    ensures Filter(rows, sel, true) == []
  {
    if rows != [] {
      assert rows[0] in rows;
      FilterNone(rows[1..], sel);
    }
  }

  lemma OneLiveRow(r: Rec)
    requires r.Live()
    ensures LiveRows([r]) == [r.row]
  {
    assert [r][1..] == [] && LiveRecs([]) == [];
    assert LiveRecs([r]) == [r];
  }

  lemma FilterOne(row: Row, sel: Row -> bool)
    ensures Filter([row], sel, true) == if sel(row) then [row] else []
  {
    assert [row][1..] == [];
  }

  /** A live record splits the accepted rows into those before it, its own if it is accepted, and those after it. */
  lemma MatchesAround(recs: seq<Rec>, sel: Row -> bool, k: nat)
    requires k < |recs| && recs[k].Live()
    ensures Filter(LiveRows(recs), sel, true) ==
            Filter(LiveRows(recs[..k]), sel, true) + (if sel(recs[k].row) then [recs[k].row] else []) +
            Filter(LiveRows(recs[k + 1..]), sel, true)
  {
    hide LiveRows, Filter;
    var a, b := recs[..k], recs[k + 1..];
    var mid := [recs[k]];
    assert recs == a + (mid + b);
    LogConcat(a, mid + b);
    LogConcat(mid, b);
    OneLiveRow(recs[k]);
    FilterConcat(LiveRows(a), LiveRows(mid) + LiveRows(b), sel, true);
    FilterConcat(LiveRows(mid), LiveRows(b), sel, true);
    FilterOne(recs[k].row, sel);
    var x, y, z := Filter(LiveRows(a), sel, true), Filter(LiveRows(mid), sel, true), Filter(LiveRows(b), sel, true);
    assert x + (y + z) == x + y + z;
  }

  lemma MatchIsListed(recs: seq<Rec>, sel: Row -> bool, j: nat)
    requires j < |recs| && recs[j].Live() && sel(recs[j].row)
    ensures Filter(LiveRows(recs), sel, true) != []
  {
    hide LiveRows, Filter;
    LiveRowsMembers(recs);
    FilterMembers(LiveRows(recs), sel, true);
    assert recs[j].row in Filter(LiveRows(recs), sel, true);
  }

  /** The accepted rows are that of record k alone, or none if it is not accepted, exactly when no other record is. */
  lemma CountMatches(recs: seq<Rec>, sel: Row -> bool, k: nat)
    requires k < |recs| && recs[k].Live()
    ensures OthersMatch(recs, sel, k) ==> |Filter(LiveRows(recs), sel, true)| > (if sel(recs[k].row) then 1 else 0)
    ensures !OthersMatch(recs, sel, k) ==>
              Filter(LiveRows(recs), sel, true) == if sel(recs[k].row) then [recs[k].row] else []
  {
    hide LiveRows, Filter;
    var a, b := recs[..k], recs[k + 1..];
    MatchesAround(recs, sel, k);
    if j :| 0 <= j < |recs| && j != k && recs[j].Live() && sel(recs[j].row) {
      if j < k {
        MatchIsListed(a, sel, j);
      } else {
        assert b[j - k - 1] == recs[j];
        MatchIsListed(b, sel, j - k - 1);
      }
    } else {
      NoMatches(a, sel);
      forall i | 0 <= i < |b| ensures b[i].Live() ==> !sel(b[i].row) {
        assert b[i] == recs[k + 1 + i];
      }
      NoMatches(b, sel);
    }
  }

  lemma NoMatches(recs: seq<Rec>, sel: Row -> bool)
    requires forall i :: 0 <= i < |recs| ==> recs[i].Live() ==> !sel(recs[i].row)
    ensures Filter(LiveRows(recs), sel, true) == []
  {
    hide LiveRows, Filter;
    LiveRowsMembers(recs);
    FilterNone(LiveRows(recs), sel);
  }

  /** Marking what the selector accepts kills record k alone exactly when it accepts that one and no other. */
  lemma MarkIsKill(recs: seq<Rec>, sel: Row -> bool, k: nat)
    requires k < |recs| && recs[k].Live() && sel(recs[k].row)
    ensures Mark(recs, sel) == recs[k := recs[k].Kill()] <==> !OthersMatch(recs, sel, k)
  {
    if j :| 0 <= j < |recs| && j != k && recs[j].Live() && sel(recs[j].row) {
      assert Mark(recs, sel)[j] == recs[j].Kill() && !recs[j].Kill().Live();
    }
  }

  // ---- a condition on the key ----

  /** DELETE's scan reads an accepted condition `key = literal` as a test of the key; the other statements read the
      value that stands at the schema index of the key, which is the key if that is the first column. */
  lemma KeyCondition(t: Table, where: Where, keys: set<string>, row: Row)
    requires t.Valid() && UniqueEqualityLookup(where, t.KeyName()) && AcceptWhere(t, where, keys).Some?
    requires |row| == |t.cols|
    ensures var key, w := Strip(where.value.literal.value), AcceptWhere(t, where, keys).value;
            && (Selects(t.nums, Placed(t.Layout(), w))(row) <==> row[0] == key)
            && (Selects(t.nums, w)(row) <==> row[t.Layout().pk] == key)
  {
    hide Strip, Find, IsKey, KeyIndex, Like.LikeMatches;
    var pk := t.Layout().pk;
    assert t.cols[pk].name == t.Names()[pk];
    FindIsUnique(t.cols, pk);
    assert AcceptWhere(t, where, keys).value.value.schemaIndex == pk;
  }

  /** DELETE through the index and by the scan leave the same log, hence the same bytes, and the same counter exactly
      when no other live record has the key. */
  lemma IndexedDeleteIsScan(t: Table, s: State, where: Where, keys: set<string>)
    requires Inv(t, s) && UniqueEqualityLookup(where, t.KeyName()) && AcceptWhere(t, where, keys).Some?
    requires Strip(where.value.literal.value) in s.index
    ensures var key, w := Strip(where.value.literal.value), AcceptWhere(t, where, keys).value;
            var k := RecordAt(t.Layout(), s.recs, key, s.index[key]);
            var one, all := DeleteIndexed(t.Layout(), s, key), DeleteScanned(t.Layout(), s, Selects(t.nums, Placed(t.Layout(), w)));
            && (one.recs == all.recs <==> !HasTwin(s.recs, key, k))
            && (one.deletes == all.deletes <==> !HasTwin(s.recs, key, k))
  {
    hide FramePos, FileBytes, LiveRows, Filter, Strip, Rebuild, AcceptWhere, Selects, Placed, Tombstones, KeyIndex, IsKey;
    var l, key, w := t.Layout(), Strip(where.value.literal.value), AcceptWhere(t, where, keys).value;
    var k, sel := RecordAt(l, s.recs, key, s.index[key]), Selects(t.nums, Placed(l, w));
    KeyTwins(t, s, where, keys, k);
    KeyCondition(t, where, keys, s.recs[k].row);
    MarkIsKill(s.recs, sel, k);
    CountMatches(s.recs, sel, k);
  }

  lemma KeyTwins(t: Table, s: State, where: Where, keys: set<string>, k: nat)
    requires Inv(t, s) && UniqueEqualityLookup(where, t.KeyName()) && AcceptWhere(t, where, keys).Some?
    ensures var key, w := Strip(where.value.literal.value), AcceptWhere(t, where, keys).value;
            && (OthersMatch(s.recs, Selects(t.nums, Placed(t.Layout(), w)), k) <==> HasTwin(s.recs, key, k))
            && (t.KeyFirst() ==> (OthersMatch(s.recs, Selects(t.nums, w), k) <==> HasTwin(s.recs, key, k)))
  {
    hide FramePos, FileBytes, Strip, AcceptWhere, Selects, Placed, Tombstones, KeyIndex, IsKey;
    forall j | 0 <= j < |s.recs|
      ensures var key, w := Strip(where.value.literal.value), AcceptWhere(t, where, keys).value;
              && (Selects(t.nums, Placed(t.Layout(), w))(s.recs[j].row) <==> s.recs[j].row[0] == key)
              && (Selects(t.nums, w)(s.recs[j].row) <==> s.recs[j].row[t.Layout().pk] == key)
    {
      KeyCondition(t, where, keys, s.recs[j].row);
    }
  }

  /** With unique live keys and a complete index, the whole state is the same: log, index and counter. */
  lemma UniqueDeleteIsScan(t: Table, s: State, where: Where, keys: set<string>)
    requires Inv(t, s) && UniqueEqualityLookup(where, t.KeyName()) && AcceptWhere(t, where, keys).Some?
    requires Strip(where.value.literal.value) in s.index
    requires UniqueKeys(s.recs) && IndexComplete(t.Layout(), s.recs, s.index)
    ensures DeleteIndexed(t.Layout(), s, Strip(where.value.literal.value)) ==
            DeleteScanned(t.Layout(), s, Selects(t.nums, Placed(t.Layout(), AcceptWhere(t, where, keys).value)))
  {
    hide FramePos, FileBytes, LiveRows, Filter, Mark, Strip, Rebuild, AcceptWhere, Selects, Placed, Tombstones, KeyIndex, IsKey;
    var l, key := t.Layout(), Strip(where.value.literal.value);
    var sel := Selects(t.nums, Placed(l, AcceptWhere(t, where, keys).value));
    var k := RecordAt(l, s.recs, key, s.index[key]);
    assert !HasTwin(s.recs, key, k);
    IndexedDeleteIsScan(t, s, where, keys);
    var marked := Mark(s.recs, sel);
    EraseKeepsIndex(l, s.recs, s.index, key, k);
    RebuildIsRight(l, marked);
    assert UniqueKeys(marked);
    IndexIsDetermined(l, marked, s.index - {key}, Rebuild(l, marked));
  }

  /** SELECT through the index answers what the scan would answer exactly when no other live record meets the
      condition; with the key first, that is when no other live record has the key. */
  lemma IndexedSelectIsScan(t: Table, s: State, mask: seq<bool>, where: Where)
    requires Inv(t, s) && |mask| == |t.cols|
    requires UniqueEqualityLookup(where, t.KeyName()) && AcceptWhere(t, where, s.index.Keys).Some?
    requires Strip(where.value.literal.value) in s.index
    ensures var key, w := Strip(where.value.literal.value), AcceptWhere(t, where, s.index.Keys).value;
            var k := RecordAt(t.Layout(), s.recs, key, s.index[key]);
            var row, matches := s.recs[k].row, Filter(LiveRows(s.recs), Selects(t.nums, w), true);
            && RowsShaped(t.Layout(), matches)
            && (Projections(mask, matches) == (if Holds(t.nums, w, row) then [Scanners.Project(mask, row)] else [])
                <==> !OthersMatch(s.recs, Selects(t.nums, w), k))
            && (t.KeyFirst() ==> (OthersMatch(s.recs, Selects(t.nums, w), k) <==> HasTwin(s.recs, key, k)))
  {
    hide LiveRows, Filter, FramePos, FileBytes, Tombstones, AcceptWhere, Strip, Scanners.Project, Evaluate, KeyIndex, IsKey, HasTwin, OthersMatch;
    var l, key, w := t.Layout(), Strip(where.value.literal.value), AcceptWhere(t, where, s.index.Keys).value;
    var k := RecordAt(l, s.recs, key, s.index[key]);
    MatchesShaped(l, s.recs, Selects(t.nums, w));
    CountMatches(s.recs, Selects(t.nums, w), k);
    KeyTwins(t, s, where, s.index.Keys, k);
  }
}
