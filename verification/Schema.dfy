/** Column definitions and what their modifiers mean (src/auxiliary/utils/insert_utils.cpp,
    src/auxiliary/utils/column_utils.cpp, column codes of src/DBEngine/execution_context/src/initializers.cpp). */
module Schemas {
  import opened Text
  import opened Frames

  datatype ColumnDef = ColumnDef(name: string, modifiers: seq<string>)

  datatype Flags = Flags(hasDefault: bool, primaryKey: bool, notNull: bool, unique: bool)

  predicate IsDefault(modifier: string) { Contains(Trim(modifier), "DEFAULT") }

  /** Some modifier, once trimmed, is the given keyword. */
  predicate Mentions(modifiers: seq<string>, keyword: string) {
    exists i :: 0 <= i < |modifiers| && Trim(modifiers[i]) == keyword
  }

  function FlagsOf(modifiers: seq<string>): Flags {
    Flags(exists i :: 0 <= i < |modifiers| && IsDefault(modifiers[i]),
          Mentions(modifiers, "PRIMARY KEY"), Mentions(modifiers, "NOT NULL"), Mentions(modifiers, "UNIQUE"))
  }

  /** The keywords do not contain DEFAULT, so testing for DEFAULT first hides none of them. */
  lemma KeywordsAreNotDefaults()
    ensures !Contains("PRIMARY KEY", "DEFAULT") && !Contains("NOT NULL", "DEFAULT") && !Contains("UNIQUE", "DEFAULT")
  {
    ContainsDefaultNeedsD("PRIMARY KEY");
    ContainsDefaultNeedsD("NOT NULL");
    ContainsDefaultNeedsD("UNIQUE");
  }

  lemma ContainsDefaultNeedsD(s: string)
    ensures Contains(s, "DEFAULT") ==> 'D' in s
  {
    if i :| 0 <= i <= |s| && "DEFAULT" <= s[i..] {
      assert s[i] == s[i..][0] == "DEFAULT"[0];
    }
  }

  method GetModifiers(modifiers: seq<string>) returns (answer: Flags)
    ensures answer == FlagsOf(modifiers)
  {
    hide Trim, Contains;
    KeywordsAreNotDefaults();
    answer := Flags(false, false, false, false);
    for k := 0 to |modifiers|
      invariant answer == FlagsOf(modifiers[..k])
    {
      var current := Trim(modifiers[k]);
      assert modifiers[..k + 1] == modifiers[..k] + [modifiers[k]];
      if Contains(current, "DEFAULT") {
        answer := answer.(hasDefault := true);
        continue;
      }
      if current == "PRIMARY KEY" {
        answer := answer.(primaryKey := true);
        continue;
      }
      if current == "NOT NULL" {
        answer := answer.(notNull := true);
        continue;
      }
      if current == "UNIQUE" {
        answer := answer.(unique := true);
        continue;
      }
    }
    assert modifiers[..|modifiers|] == modifiers;
  }

  /** The default of a column: what follows the first 8 characters of the first DEFAULT modifier, the empty
      string without one. None stands for the exception when that modifier has fewer than 8 characters. */
  function DefaultOf(modifiers: seq<string>): Option<string> {
    if modifiers == [] then Some("")
    else if IsDefault(modifiers[0]) then
      var m := Trim(modifiers[0]);
      if |m| < 8 then None else Some(Strip(m[8..]))
    else DefaultOf(modifiers[1..])
  }

  method GetDefaultValue(modifiers: seq<string>) returns (value: Option<string>)
    ensures value == DefaultOf(modifiers)
  {
    for k := 0 to |modifiers|
      invariant DefaultOf(modifiers) == DefaultOf(modifiers[k..])
    {
      var current := Trim(modifiers[k]);
      if Contains(current, "DEFAULT") {
        return if |current| < 8 then None else Some(Strip(current[8..]));
      }
      assert modifiers[k..][1..] == modifiers[k + 1..];
    }
    return Some("");
  }

  lemma {:induction false} NoDefaultIsEmpty(modifiers: seq<string>)
    requires forall i :: 0 <= i < |modifiers| ==> !IsDefault(modifiers[i])
    ensures DefaultOf(modifiers) == Some("")
  {
    hide IsDefault;
    if modifiers != [] {
      assert !IsDefault(modifiers[0]);
      NoDefaultIsEmpty(modifiers[1..]);
    }
  }

  // ---- the columns of a table ----

  predicate IsKey(col: ColumnDef) { FlagsOf(col.modifiers).primaryKey }

  function KeyFlags(cols: seq<ColumnDef>): (flags: seq<bool>)
    ensures |flags| == |cols| && forall i :: 0 <= i < |flags| ==> flags[i] == IsKey(cols[i])
  {
    seq(|cols|, i requires 0 <= i < |cols| => IsKey(cols[i]))
  }

  function FirstTrue(flags: seq<bool>): (i: nat)
    ensures i <= |flags| && (i < |flags| ==> flags[i])
    ensures forall j :: 0 <= j < i ==> !flags[j]
  {
    if flags == [] || flags[0] then 0 else 1 + FirstTrue(flags[1..])
  }

  /** The schema index of the first primary-key column, or the number of columns. */
  function KeyIndex(cols: seq<ColumnDef>): (i: nat)
    ensures i <= |cols|
    ensures i < |cols| ==> IsKey(cols[i])
    ensures forall j :: 0 <= j < i ==> !IsKey(cols[j])
  {
    hide FlagsOf;
    FirstTrue(KeyFlags(cols))
  }

  predicate DistinctNames(cols: seq<ColumnDef>) {
    forall i, j :: 0 <= i < j < |cols| ==> cols[i].name != cols[j].name
  }

  /** A table the engine can work with: distinct column names, exactly one primary key, at most 255 columns. */
  predicate ValidSchema(cols: seq<ColumnDef>) {
    && |cols| <= 255
    && DistinctNames(cols)
    && KeyIndex(cols) < |cols|
    && forall j :: 0 <= j < |cols| && IsKey(cols[j]) ==> j == KeyIndex(cols)
  }

  function LayoutOf(cols: seq<ColumnDef>): (l: Layout)
    requires ValidSchema(cols)
    ensures l.Valid()
  {
    Layout(|cols|, KeyIndex(cols))
  }

  function Names(cols: seq<ColumnDef>): (names: seq<string>)
    ensures |names| == |cols| && forall i :: 0 <= i < |names| ==> names[i] == cols[i].name
  {
    seq(|cols|, i requires 0 <= i < |cols| => cols[i].name)
  }

  /** The position of the first occurrence of a name (std::find on the column list). */
  function Find(names: seq<string>, name: string): (i: nat)
    ensures i <= |names|
    ensures i < |names| ==> names[i] == name
    ensures name !in names[..i]
    ensures i < |names| <==> name in names
  {
    if names == [] || names[0] == name then 0 else 1 + Find(names[1..], name)
  }

  /** No earlier column has the same name: the one that Find finds. */
  predicate FirstNamed(names: seq<string>, i: nat)
    requires i < |names|
  {
    names[i] !in names[..i]
  }

  lemma FindIsFirst(names: seq<string>, i: nat)
    requires i < |names|
    ensures FirstNamed(names, i) <==> Find(names, names[i]) == i
  {
    var k := Find(names, names[i]);
    if k < i {
      assert names[..i][k] == names[i];
    }
  }

  lemma AllFirstNamed(cols: seq<ColumnDef>)
    requires DistinctNames(cols)
    ensures forall i :: 0 <= i < |cols| ==> FirstNamed(Names(cols), i)
  {
  }

  lemma FindIsUnique(cols: seq<ColumnDef>, i: nat)
    requires DistinctNames(cols) && i < |cols|
    ensures Find(Names(cols), cols[i].name) == i
  {
    assert Names(cols)[i] == cols[i].name;
  }

  /** extractPrimaryKeyColumn, for a table that has a primary key. */
  method ExtractPrimaryKeyColumn(cols: seq<ColumnDef>) returns (name: string)
    requires KeyIndex(cols) < |cols|
    ensures name == cols[KeyIndex(cols)].name
  {
    hide FlagsOf, KeyIndex;
    for i := 0 to |cols|
      invariant i <= KeyIndex(cols)
    {
      var flags := GetModifiers(cols[i].modifiers);
      if flags.primaryKey {
        return cols[i].name;
      }
    }
    name := "";
  }

  /** initializeColumnEncodingMapForTable: the 8-bit code may not wrap around, so a table of more than 255
      columns is the fatal error; otherwise each column gets its schema index as its code. */
  method InitializeColumnEncodingMap(cols: seq<ColumnDef>) returns (fatal: bool, codes: map<string, nat>)
    ensures fatal <==> |cols| > 255
    ensures !fatal && DistinctNames(cols) ==> forall i :: 0 <= i < |cols| ==> cols[i].name in codes && codes[cols[i].name] == i
    ensures !fatal ==> forall name :: name in codes ==> name in Names(cols)
  {
    fatal := false;
    codes := map[];
    var code: nat := 0;
    for i := 0 to |cols|
      invariant i <= 255 && code == i
      invariant DistinctNames(cols) ==> forall j :: 0 <= j < i ==> cols[j].name in codes && codes[cols[j].name] == j
      invariant forall name :: name in codes ==> name in Names(cols)
    {
      assert Names(cols)[i] == cols[i].name;
      codes := codes[cols[i].name := code];
      code := (code + 1) % 256;
      if code == 0 {
        fatal := true;
        return;
      }
    }
  }
}
