/** The schema metadata file: the printer of CREATE (src/DBEngine/filehandler/handlers/create_untyped.cpp) and the
    reader of program start (src/DBEngine/execution_context/src/initializers.cpp). */
module Metadata {
  import opened Text
  import opened Schemas

  // ---- printer ----

  function Join(pieces: seq<string>): string {
    if |pieces| == 0 then "" else if |pieces| == 1 then pieces[0] else pieces[0] + "," + Join(pieces[1..])
  }

  /** The line of a column, without its line end. */
  function Line(col: ColumnDef): string {
    col.name + if col.modifiers == [] then "" else " " + Join(col.modifiers)
  }

  function Print(cols: seq<ColumnDef>): string {
    if cols == [] then "" else Line(cols[0]) + "\n" + Print(cols[1..])
  }

  /** The modifier loop of the printer. */
  method PrintModifiers(modifiers: seq<string>) returns (text: string)
    ensures text == Join(modifiers)
  {
    hide Join;
    JoinNothing();
    assert modifiers[0..] == modifiers && modifiers[|modifiers|..] == [];
    text := "";
    for i := 0 to |modifiers|
      invariant Join(modifiers) == text + Join(modifiers[i..])
    {
      JoinFront(modifiers, i);
      text := text + modifiers[i];
      if i + 1 < |modifiers| {
        text := text + ",";
      }
    }
  }

  lemma JoinNothing() ensures Join([]) == "" {}

  lemma JoinFront(pieces: seq<string>, i: nat)
    requires i < |pieces|
    ensures Join(pieces[i..]) == (if i + 1 < |pieces| then pieces[i] + "," else pieces[i]) + Join(pieces[i + 1..])
  {
    assert pieces[i..][1..] == pieces[i + 1..];
  }

  method PrintMetadata(cols: seq<ColumnDef>) returns (text: string)
    ensures text == Print(cols)
  {
    hide Join;
    text := "";
    for c := 0 to |cols|
      invariant Print(cols) == text + Print(cols[c..])
    {
      assert cols[c..][1..] == cols[c + 1..];
      ghost var before := text;
      text := text + cols[c].name;
      if cols[c].modifiers != [] {
        text := text + " ";
      }
      var modifiers := PrintModifiers(cols[c].modifiers);
      text := text + modifiers;
      text := text + "\n";
      LineOf(cols[c]);
      assert text == before + (Line(cols[c]) + "\n");
    }
  }

  lemma LineOf(col: ColumnDef)
    ensures Line(col) == (if col.modifiers == [] then col.name else col.name + " ") + Join(col.modifiers)
  {
    assert col.name + "" == col.name && Join([]) == "";
  }

  // ---- reader ----

  /** The part of s before the first c, or all of s. */
  function Until(s: string, c: char): (r: string)
    ensures |r| <= |s| && r == s[..|r|] && c !in r
    ensures |r| < |s| ==> s[|r|] == c
  {
    if s == [] || s[0] == c then [] else [s[0]] + Until(s[1..], c)
  }

  /** What std::getline leaves in the stream. */
  function After(s: string, c: char): (r: string)
    ensures s != [] ==> |r| < |s|
    ensures s == [] ==> r == []
  {
    var n := |Until(s, c)|;
    if n < |s| then s[n + 1..] else []
  }

  /** The pieces that std::getline with delimiter c reads until the stream is exhausted. */
  function Tokens(s: string, c: char): seq<string>
    decreases |s|
  {
    if s == [] then [] else [Until(s, c)] + Tokens(After(s, c), c)
  }

  /** The first word of a line, as operator>> reads it. */
  function Word(s: string): (r: string)
    ensures |r| <= |s| && r == s[..|r|]
  {
    if s == [] || IsSpace(s[0]) then [] else [s[0]] + Word(s[1..])
  }

  function NonEmpty(pieces: seq<string>): seq<string> {
    if pieces == [] then []
    else NonEmpty(pieces[..|pieces| - 1]) + if pieces[|pieces| - 1] == "" then [] else [pieces[|pieces| - 1]]
  }

  function ReadLine(line: string): ColumnDef {
    var s := TrimLeft(line);
    var name := Word(s);
    ColumnDef(name, NonEmpty(Tokens(s[|name|..], ',')))
  }

  function Read(text: string): seq<ColumnDef> {
    ReadLines(Tokens(text, '\n'))
  }

  function ReadLines(lines: seq<string>): (cols: seq<ColumnDef>)
    ensures |cols| == |lines| && forall i :: 0 <= i < |cols| ==> cols[i] == ReadLine(lines[i])
  {
    seq(|lines|, i requires 0 <= i < |lines| => ReadLine(lines[i]))
  }

  /** The modifier loop of the reader. */
  method SplitModifiers(text: string) returns (modifiers: seq<string>)
    ensures modifiers == NonEmpty(Tokens(text, ','))
  {
    hide Until, NonEmpty, Tokens;
    var part := text;
    modifiers := [];
    NoTokens();
    ghost var taken: seq<string> := [];
    while part != ""
      invariant Tokens(text, ',') == taken + Tokens(part, ',') && modifiers == NonEmpty(taken)
      decreases |part|
    {
      TokensFront(part, ',');
      var modifier := Until(part, ',');
      part := After(part, ',');
      if modifier != "" {
        modifiers := modifiers + [modifier];
      }
      NonEmptyNext(taken, modifier);
      taken := taken + [modifier];
    }
    assert taken == Tokens(text, ',');
  }

  lemma NoTokens() ensures Tokens("", ',') == [] && NonEmpty([]) == [] {}

  lemma TokensFront(s: string, c: char)
    requires s != ""
    ensures Tokens(s, c) == [Until(s, c)] + Tokens(After(s, c), c)
  {
  }

  lemma NonEmptyNext(pieces: seq<string>, piece: string)
    ensures NonEmpty(pieces + [piece]) == NonEmpty(pieces) + if piece == "" then [] else [piece]
  {
    assert (pieces + [piece])[..|pieces|] == pieces;
  }

  method ReadMetadata(text: string) returns (cols: seq<ColumnDef>)
    ensures cols == Read(text)
  {
    hide Until, Read;
    cols := [];
    var stream := text;
    ReadNothing();
    while stream != ""
      invariant Read(text) == cols + Read(stream)
      decreases |stream|
    {
      ReadFront(stream);
      var line := Until(stream, '\n');
      stream := After(stream, '\n');
      var rest := TrimLeft(line);
      var name := Word(rest);
      var modifiers := SplitModifiers(rest[|name|..]);
      cols := cols + [ColumnDef(name, modifiers)];
    }
  }

  lemma ReadNothing() ensures Read("") == [] {}

  lemma ReadFront(text: string)
    requires text != ""
    ensures Read(text) == [ReadLine(Until(text, '\n'))] + Read(After(text, '\n'))
  {
    hide ReadLine, Until;
  }

  // ---- what a printed schema means after it is read back ----

  /** Same column names, and per column the same flags and the same default. */
  predicate SameMeaning(a: seq<ColumnDef>, b: seq<ColumnDef>) {
    && |a| == |b|
    && forall i :: 0 <= i < |a| ==>
         && a[i].name == b[i].name
         && FlagsOf(a[i].modifiers) == FlagsOf(b[i].modifiers)
         && DefaultOf(a[i].modifiers) == DefaultOf(b[i].modifiers)
  }

  predicate Keyword(m: string) { m == "PRIMARY KEY" || m == "NOT NULL" || m == "UNIQUE" }

  /** A column name is a word, and the grammar produces four kinds of modifiers. */
  predicate Grammatical(col: ColumnDef) {
    && col.name != "" && (forall i :: 0 <= i < |col.name| ==> !IsSpace(col.name[i]))
    && GrammaticalModifiers(col.modifiers)
  }

  predicate GrammaticalModifiers(modifiers: seq<string>) {
    forall m :: 0 <= m < |modifiers| ==> GrammaticalModifier(modifiers[m])
  }

  predicate GrammaticalModifier(m: string) {
    Keyword(m) || "DEFAULT " <= m
  }

  /** No modifier holds one of the two separators of the file. */
  predicate Separable(cols: seq<ColumnDef>) {
    forall c :: 0 <= c < |cols| ==> NoneContains(cols[c].modifiers, ',') && NoneContains(cols[c].modifiers, '\n')
  }

  predicate NoneContains(modifiers: seq<string>, c: char) {
    forall m :: 0 <= m < |modifiers| ==> c !in modifiers[m]
  }

  lemma {:induction false} UntilPiece(a: string, c: char, rest: string)
    requires c !in a
    ensures Until(a + [c] + rest, c) == a && Until(a, c) == a
  {
    if a != [] {
      UntilPiece(a[1..], c, rest);
      assert (a + [c] + rest)[1..] == a[1..] + [c] + rest;
    }
  }

  lemma TokensPiece(a: string, c: char, rest: string)
    requires c !in a
    ensures Tokens(a + [c] + rest, c) == [a] + Tokens(rest, c)
    ensures a != [] ==> Tokens(a, c) == [a]
  {
    UntilPiece(a, c, rest);
    assert (a + [c] + rest)[|a| + 1..] == rest;
    assert Tokens([], c) == [];
  }

  // ---- the pieces into which the modifiers of a line fall ----

  /** The non-empty pieces between the commas of each modifier. */
  function Pieces(modifiers: seq<string>): seq<string> {
    if modifiers == [] then [] else NonEmpty(Tokens(modifiers[0], ',')) + Pieces(modifiers[1..])
  }

  /** The modifiers as they stand in the line: the first one keeps the blank that follows the name. */
  function Shifted(modifiers: seq<string>): (r: seq<string>)
    ensures |r| == |modifiers|
    ensures forall i :: 0 <= i < |r| ==> r[i] == if i == 0 then " " + modifiers[0] else modifiers[i]
  {
    if modifiers == [] then [] else [" " + modifiers[0]] + modifiers[1..]
  }

  lemma {:induction false} NonEmptyConcat(a: seq<string>, b: seq<string>)
    ensures NonEmpty(a + b) == NonEmpty(a) + NonEmpty(b)
  {
    if b == [] {
      assert a + b == a;
    } else {
      NonEmptyConcat(a, b[..|b| - 1]);
      assert (a + b)[..|a + b| - 1] == a + b[..|b| - 1];
    }
  }

  lemma {:induction false} NonEmptyMembers(pieces: seq<string>)
    ensures forall p :: p in NonEmpty(pieces) <==> p in pieces && p != ""
  {
    if pieces != [] {
      NonEmptyMembers(pieces[..|pieces| - 1]);
      assert pieces == pieces[..|pieces| - 1] + [pieces[|pieces| - 1]];
    }
  }

  lemma NonEmptyFront(p: string, rest: seq<string>)
    ensures NonEmpty([p] + rest) == (if p == "" then [] else [p]) + NonEmpty(rest)
  {
    hide NonEmpty;
    NonEmptyConcat([p], rest);
    NonEmptyOne(p);
  }

  lemma NonEmptyOne(p: string)
    ensures NonEmpty([p]) == if p == "" then [] else [p]
  {
    assert [p][..0] == [];
    assert NonEmpty([]) == [];
  }

  /** A comma between two texts separates their pieces. */
  lemma {:induction false} PiecesAtComma(a: string, rest: string)
    ensures NonEmpty(Tokens(a + [','] + rest, ',')) == NonEmpty(Tokens(a, ',')) + NonEmpty(Tokens(rest, ','))
    decreases |a|
  {
    hide NonEmpty, Tokens, Until;
    if ',' !in a {
      TokensPiece(a, ',', rest);
      NonEmptyFront(a, Tokens(rest, ','));
      NonEmptyFront(a, []);
      NoTokens();
      assert [a] + [] == [a] && [] + NonEmpty(Tokens(rest, ',')) == NonEmpty(Tokens(rest, ','));
    } else {
      var u := Until(a, ',');
      UntilIsShort(a, ',');
      var b := a[|u| + 1..];
      assert a == u + [','] + b;
      PiecesAtComma(b, rest);
      TokensPiece(u, ',', b);
      assert a + [','] + rest == u + [','] + (b + [','] + rest);
      TokensPiece(u, ',', b + [','] + rest);
      NonEmptyFront(u, Tokens(b, ','));
      NonEmptyFront(u, Tokens(b + [','] + rest, ','));
    }
  }

  lemma UntilIsShort(s: string, c: char)
    requires c in s
    ensures |Until(s, c)| < |s|
  {
  }

  lemma {:induction false} JoinPieces(modifiers: seq<string>)
    ensures NonEmpty(Tokens(Join(modifiers), ',')) == Pieces(modifiers)
  {
    hide NonEmpty, Tokens;
    if modifiers == [] {
      NoTokens();
    } else {
      JoinPieces(modifiers[1..]);
      if |modifiers| == 1 {
        assert Pieces(modifiers[1..]) == [];
      } else {
        assert Join(modifiers) == modifiers[0] + [','] + Join(modifiers[1..]);
        PiecesAtComma(modifiers[0], Join(modifiers[1..]));
      }
    }
  }

  lemma {:induction false} PiecesMembers(modifiers: seq<string>)
    ensures forall p :: p in Pieces(modifiers) <==> p != "" && exists m :: 0 <= m < |modifiers| && p in Tokens(modifiers[m], ',')
  {
    hide NonEmpty, Tokens;
    if modifiers != [] {
      NonEmptyMembers(Tokens(modifiers[0], ','));
      PiecesMembers(modifiers[1..]);
      forall p ensures p in Pieces(modifiers) <==> p != "" && exists m :: 0 <= m < |modifiers| && p in Tokens(modifiers[m], ',') {
        if m :| 0 <= m < |modifiers| && p in Tokens(modifiers[m], ',') {
          assert m > 0 ==> modifiers[m] == modifiers[1..][m - 1];
        }
        if m :| 0 <= m < |modifiers[1..]| && p in Tokens(modifiers[1..][m], ',') {
          assert modifiers[1..][m] == modifiers[m + 1];
        }
      }
    }
  }

  /** Modifiers without commas are pieces; of the first one with a comma, the part before it is the next piece. */
  lemma {:induction false} PiecesUpTo(modifiers: seq<string>, k: nat)
    requires k < |modifiers| && Until(modifiers[k], ',') != ""
    requires forall i :: 0 <= i < k ==> ',' !in modifiers[i] && modifiers[i] != ""
    ensures |Pieces(modifiers)| > k && Pieces(modifiers)[k] == Until(modifiers[k], ',')
    ensures forall i :: 0 <= i < k ==> Pieces(modifiers)[i] == modifiers[i]
  {
    hide Until, NonEmpty, Tokens;
    var first := modifiers[0];
    TokensFront(first, ',');
    NonEmptyFront(Until(first, ','), Tokens(After(first, ','), ','));
    if k > 0 {
      PiecesUpTo(modifiers[1..], k - 1);
      UntilPiece(first, ',', "");
      UntilAll(first, ',');
      NoTokens();
      assert Pieces(modifiers) == [first] + Pieces(modifiers[1..]);
    }
  }

  lemma UntilAll(s: string, c: char)
    requires c !in s
    ensures Until(s, c) == s && After(s, c) == []
  {
    UntilPiece(s, c, []);
  }

  lemma {:induction false} WordOf(name: string, rest: string)
    requires (forall i :: 0 <= i < |name| ==> !IsSpace(name[i])) && (rest == [] || IsSpace(rest[0]))
    ensures Word(name + rest) == name
  {
    if name != [] {
      WordOf(name[1..], rest);
      assert (name + rest)[1..] == name[1..] + rest;
    }
  }

  /** A line is read back as the name and the pieces of its modifiers. */
  lemma ReadPrintedLine(col: ColumnDef)
    requires Grammatical(col)
    ensures ReadLine(Line(col)) == ColumnDef(col.name, Pieces(Shifted(col.modifiers)))
  {
    hide Join, Tokens, NonEmpty;
    var rest := if col.modifiers == [] then "" else " " + Join(col.modifiers);
    WordOf(col.name, rest);
    assert TrimLeft(Line(col)) == Line(col);
    assert Line(col)[|col.name|..] == rest;
    JoinShifted(col.modifiers);
    JoinPieces(Shifted(col.modifiers));
  }

  lemma JoinShifted(modifiers: seq<string>)
    ensures Join(Shifted(modifiers)) == if modifiers == [] then "" else " " + Join(modifiers)
  {
    if modifiers != [] {
      assert Shifted(modifiers)[1..] == modifiers[1..];
    }
  }

  // ---- lines ----

  predicate AllGrammatical(cols: seq<ColumnDef>) {
    forall i :: 0 <= i < |cols| ==> Grammatical(cols[i])
  }

  lemma {:induction false} JoinWithout(pieces: seq<string>, c: char)
    requires NoneContains(pieces, c) && c != ','
    ensures c !in Join(pieces)
  {
    if |pieces| > 1 {
      JoinWithout(pieces[1..], c);
    }
  }

  lemma LineWithoutEnd(col: ColumnDef)
    requires Grammatical(col) && NoneContains(col.modifiers, '\n')
    ensures '\n' !in Line(col)
  {
    hide Join;
    JoinWithout(col.modifiers, '\n');
  }

  /** If no modifier holds a line end, every column is read from the line printed for it. */
  lemma {:induction false} ReadPrinted(cols: seq<ColumnDef>)
    requires AllGrammatical(cols) && forall i :: 0 <= i < |cols| ==> NoneContains(cols[i].modifiers, '\n')
    ensures |Read(Print(cols))| == |cols|
    ensures forall i :: 0 <= i < |cols| ==> Read(Print(cols))[i] == ReadLine(Line(cols[i]))
  {
    hide Line, ReadLine, Tokens, NoneContains, Grammatical;
    if cols == [] {
      ReadNothing();
    } else {
      ReadPrinted(cols[1..]);
      LineWithoutEnd(cols[0]);
      TokensPiece(Line(cols[0]), '\n', Print(cols[1..]));
    }
  }

  // ---- a line end in a modifier ----

  function Count(s: string, c: char): nat {
    if s == [] then 0 else (if s[0] == c then 1 else 0) + Count(s[1..], c)
  }

  lemma {:induction false} CountConcat(a: string, b: string, c: char)
    ensures Count(a + b, c) == Count(a, c) + Count(b, c)
  {
    if a == [] {
      assert a + b == b;
    } else {
      CountConcat(a[1..], b, c);
      assert (a + b)[1..] == a[1..] + b;
    }
  }

  lemma {:induction false} CountIn(s: string, c: char)
    ensures c in s <==> Count(s, c) > 0
  {
    if s != [] {
      CountIn(s[1..], c);
      assert s == [s[0]] + s[1..];
    }
  }

  lemma CountPiece(a: string, c: char, rest: string)
    requires c !in a
    ensures Count(a + [c] + rest, c) == 1 + Count(rest, c)
  {
    CountConcat(a + [c], rest, c);
    CountConcat(a, [c], c);
    CountIn(a, c);
    assert [c][1..] == [];
  }

  /** A text that ends with the delimiter has as many pieces as delimiters. */
  lemma {:induction false} TokensCount(s: string, c: char)
    requires s == [] || s[|s| - 1] == c
    ensures |Tokens(s, c)| == Count(s, c)
    decreases |s|
  {
    hide Until, Tokens, Count;
    if s == [] {
      NothingToCount(c);
    } else {
      var u := Until(s, c);
      assert |u| < |s|;
      var rest := s[|u| + 1..];
      assert s == u + [c] + rest;
      CountPiece(u, c, rest);
      TokensPiece(u, c, rest);
      TokensCount(rest, c);
    }
  }

  lemma NothingToCount(c: char) ensures Tokens([], c) == [] && Count([], c) == 0 {}

  lemma {:induction false} JoinHolds(pieces: seq<string>, c: char, m: nat)
    requires m < |pieces| && c in pieces[m]
    ensures c in Join(pieces)
  {
    if m > 0 {
      JoinHolds(pieces[1..], c, m - 1);
    }
  }

  /** The text ends with a line end and has at least one per column; one more per line end in a modifier. */
  lemma {:induction false} PrintedLineEnds(cols: seq<ColumnDef>)
    ensures Print(cols) == [] || Print(cols)[|Print(cols)| - 1] == '\n'
    ensures Count(Print(cols), '\n') >= |cols|
    ensures (exists i :: 0 <= i < |cols| && !NoneContains(cols[i].modifiers, '\n')) ==> Count(Print(cols), '\n') > |cols|
  {
    hide Join, NoneContains;
    if cols != [] {
      var rest := Print(cols[1..]);
      PrintedLineEnds(cols[1..]);
      assert Print(cols) == Line(cols[0]) + ("\n" + rest);
      CountConcat(Line(cols[0]), "\n" + rest, '\n');
      CountConcat("\n", rest, '\n');
      assert Count("\n", '\n') == 1 by { assert "\n"[1..] == ""; }
      if i :| 0 <= i < |cols| && !NoneContains(cols[i].modifiers, '\n') {
        if i == 0 {
          LineHolds(cols[0]);
          CountIn(Line(cols[0]), '\n');
        } else {
          assert cols[1..][i - 1] == cols[i];
        }
      }
    }
  }

  lemma LineHolds(col: ColumnDef)
    requires !NoneContains(col.modifiers, '\n')
    ensures '\n' in Line(col)
  {
    var m :| 0 <= m < |col.modifiers| && '\n' in col.modifiers[m];
    JoinHolds(col.modifiers, '\n', m);
  }

  // ---- DEFAULT modifiers and the comma ----

  lemma TrimBlank(m: string)
    ensures Trim(" " + m) == Trim(m)
  {
    assert (" " + m)[1..] == m;
  }

  lemma KeywordIsNoDefault(m: string)
    requires Keyword(m)
    ensures !IsDefault(m) && !IsDefault(" " + m) && Trim(m) == m && ',' !in m && m != ""
  {
    hide Trim, Contains;
    TrimOfWord(m);
    TrimBlank(m);
    KeywordsAreNotDefaults();
  }

  /** Of a list whose first modifier with DEFAULT is number k, the default is read from that one. */
  lemma {:induction false} DefaultAt(modifiers: seq<string>, k: nat)
    requires k < |modifiers| && IsDefault(modifiers[k]) && forall i :: 0 <= i < k ==> !IsDefault(modifiers[i])
    ensures DefaultOf(modifiers) ==
            if |Trim(modifiers[k])| < 8 then None else Some(Strip(Trim(modifiers[k])[8..]))
  {
    hide IsDefault, Strip, Trim;
    if k > 0 {
      DefaultAt(modifiers[1..], k - 1);
    }
  }

  /** The text of a DEFAULT modifier loses no comma to trimming or to the removal of quotes. */
  lemma DefaultKeepsComma(m: string)
    requires "DEFAULT " <= m && ',' in m
    ensures IsDefault(m) && |Trim(m)| >= 8 && ',' in Strip(Trim(m)[8..])
  {
    hide Trim, Strip, IsDefault, Quoted;
    StartsWithDefault(m);
    TrimKeepsComma(m);
    StripKeepsComma(Trim(m)[8..]);
  }

  lemma TrimKeepsComma(m: string)
    requires "DEFAULT " <= m && ',' in m
    ensures |Trim(m)| >= 8 && ',' in Trim(m)[8..]
  {
    var j :| 0 <= j < |m| && m[j] == ',';
    hide TrimRight;
    assert m[0] == 'D' && TrimLeft(m) == m;
    TrimRightMeans(m);
    assert !IsSpace(m[j]);
    assert j >= 8;
    assert j < |Trim(m)| && Trim(m)[8..][j - 8] == ',';
  }

  lemma StripKeepsComma(value: string)
    requires ',' in value
    ensures ',' in Strip(value)
  {
    var j :| 0 <= j < |value| && value[j] == ',';
    if Quoted(value) {
      assert Strip(value)[j - 1] == ',';
    }
  }

  lemma TrimSubset(s: string, c: char)
    requires c !in s
    ensures c !in Trim(s) && (|Trim(s)| >= 8 ==> c !in Strip(Trim(s)[8..]))
  {
    hide TrimLeft, TrimRight;
  }

  /** What is left of a DEFAULT modifier before its first comma is still one. */
  lemma DefaultBeforeComma(m: string)
    requires "DEFAULT " <= m || " DEFAULT " <= m
    ensures "DEFAULT " <= Until(m, ',') || " DEFAULT " <= Until(m, ',')
    ensures IsDefault(Until(m, ','))
  {
    var n := if "DEFAULT " <= m then 8 else 9;
    var u := Until(m, ',');
    assert |u| >= n;
    assert u[..n] == m[..n];
    StartsWithDefault(u);
  }

  lemma StartsWithDefault(u: string)
    requires "DEFAULT " <= u || " DEFAULT " <= u
    ensures IsDefault(u)
  {
    hide TrimRight, Contains;
    if "DEFAULT " <= u {
      assert u[0] == 'D';
      assert TrimLeft(u) == u;
    } else {
      assert u[0] == ' ' && u[1] == 'D';
      assert u[1..9] == "DEFAULT ";
      assert TrimLeft(u) == u[1..];
    }
    TrimRightKeepsDefault(TrimLeft(u));
  }

  lemma TrimRightKeepsDefault(s: string)
    requires "DEFAULT " <= s
    ensures Contains(TrimRight(s), "DEFAULT")
  {
    var t := TrimRight(s);
    TrimRightMeans(s);
    assert s[6] == 'T' && !IsSpace(s[6]);
    assert |t| >= 7;
    assert t[0..] == t && t[..7] == s[..8][..7];
    assert "DEFAULT" <= t[0..];
  }

  predicate IsFirstDefault(modifiers: seq<string>, k: nat)
    requires k < |modifiers|
  {
    "DEFAULT " <= modifiers[k] && forall i :: 0 <= i < k ==> !("DEFAULT " <= modifiers[i])
  }

  /** Up to the first DEFAULT modifier the pieces are the modifiers; of that one, the part before its first comma. */
  lemma PiecesUpToDefault(col: ColumnDef, k: nat)
    requires Grammatical(col) && k < |col.modifiers| && IsFirstDefault(col.modifiers, k)
    ensures var pieces, head := Pieces(Shifted(col.modifiers)), Until(Shifted(col.modifiers)[k], ',');
            && |pieces| > k && pieces[k] == head && IsDefault(head)
            && forall i :: 0 <= i < k ==> !IsDefault(pieces[i])
    ensures forall i :: 0 <= i < k ==> !IsDefault(col.modifiers[i])
  {
    hide IsDefault, Until;
    var m := col.modifiers[k];
    assert (" " + m)[1..] == m;
    assert " DEFAULT " == " " + "DEFAULT ";
    DefaultBeforeComma(Shifted(col.modifiers)[k]);
    forall i | 0 <= i < k
      ensures !IsDefault(col.modifiers[i]) && !IsDefault(Shifted(col.modifiers)[i])
      ensures ',' !in Shifted(col.modifiers)[i]
    {
      assert GrammaticalModifier(col.modifiers[i]);
      KeywordIsNoDefault(col.modifiers[i]);
    }
    PiecesUpTo(Shifted(col.modifiers), k);
  }

  /** A comma in the first DEFAULT modifier changes the default of the column that is read back; without one the
      default survives. */
  lemma CommaLosesDefault(col: ColumnDef, k: nat)
    requires Grammatical(col) && k < |col.modifiers| && IsFirstDefault(col.modifiers, k)
    ensures DefaultOf(ReadLine(Line(col)).modifiers) == DefaultOf(col.modifiers) <==> ',' !in col.modifiers[k]
  {
    hide IsDefault, Trim, Strip, Until, ReadLine, Line, Grammatical, Pieces;
    var m, shifted := col.modifiers[k], Shifted(col.modifiers)[k];
    ReadPrintedLine(col);
    PiecesUpToDefault(col, k);
    DefaultAt(Pieces(Shifted(col.modifiers)), k);
    StartsWithDefault(m);
    DefaultAt(col.modifiers, k);
    if ',' in m {
      DefaultKeepsComma(m);
      TrimSubset(Until(shifted, ','), ',');
    } else {
      UntilAll(shifted, ',');
      TrimBlank(m);
    }
  }

  lemma NoDefaultModifier(col: ColumnDef)
    requires Grammatical(col) && forall i :: 0 <= i < |col.modifiers| ==> !("DEFAULT " <= col.modifiers[i])
    ensures DefaultOf(Pieces(Shifted(col.modifiers))) == DefaultOf(col.modifiers) == Some("")
  {
    hide IsDefault, Tokens, Pieces;
    var pieces := Pieces(Shifted(col.modifiers));
    PiecesMembers(Shifted(col.modifiers));
    forall i | 0 <= i < |pieces| ensures !IsDefault(pieces[i]) {
      assert pieces[i] in pieces;
      var m :| 0 <= m < |col.modifiers| && pieces[i] in Tokens(Shifted(col.modifiers)[m], ',');
      assert GrammaticalModifier(col.modifiers[m]);
      KeywordPieces(col.modifiers[m]);
    }
    NoDefaultIsEmpty(pieces);
    forall i | 0 <= i < |col.modifiers| ensures !IsDefault(col.modifiers[i]) {
      assert GrammaticalModifier(col.modifiers[i]);
      KeywordIsNoDefault(col.modifiers[i]);
    }
    NoDefaultIsEmpty(col.modifiers);
  }

  lemma KeywordPieces(m: string)
    requires Keyword(m)
    ensures Tokens(m, ',') == [m] && Tokens(" " + m, ',') == [" " + m]
    ensures !IsDefault(m) && !IsDefault(" " + m)
  {
    hide IsDefault, Tokens;
    KeywordIsNoDefault(m);
    TokensPiece(m, ',', "");
    TokensPiece(" " + m, ',', "");
  }

  lemma FirstDefault(modifiers: seq<string>, i: nat) returns (k: nat)
    requires i < |modifiers| && "DEFAULT " <= modifiers[i]
    ensures k < |modifiers| && IsFirstDefault(modifiers, k)
  {
    k := i;
    if j :| 0 <= j < i && "DEFAULT " <= modifiers[j] {
      k := FirstDefault(modifiers, j);
    }
  }

  // ---- keywords among the pieces ----

  /** A piece of the modifier reads as the keyword. */
  predicate HasPiece(m: string, keyword: string) {
    exists p :: p in Tokens(m, ',') && Trim(p) == keyword
  }

  lemma BlankPiece(m: string, keyword: string)
    requires m != "" && keyword != ""
    ensures HasPiece(" " + m, keyword) <==> HasPiece(m, keyword)
  {
    hide Trim, Until, Tokens;
    var u, rest := Until(m, ','), Tokens(After(m, ','), ',');
    TokensFront(m, ',');
    TokensFront(" " + m, ',');
    BlankUntil(m);
    TrimBlank(u);
    forall p ensures p in [u] + rest <==> p == u || p in rest {}
    forall p ensures p in [" " + u] + rest <==> p == " " + u || p in rest {}
    if HasPiece(" " + m, keyword) {
      var p :| p in Tokens(" " + m, ',') && Trim(p) == keyword;
      assert (if p in rest then p else u) in Tokens(m, ',');
    }
    if HasPiece(m, keyword) {
      var p :| p in Tokens(m, ',') && Trim(p) == keyword;
      assert (if p in rest then p else " " + u) in Tokens(" " + m, ',');
    }
  }

  lemma BlankUntil(m: string)
    ensures Until(" " + m, ',') == " " + Until(m, ',') && After(" " + m, ',') == After(m, ',')
  {
    assert (" " + m)[1..] == m;
  }

  /** The column that is read back mentions a keyword exactly when some piece of some modifier reads as it. */
  lemma KeywordsRead(col: ColumnDef, keyword: string)
    requires Grammatical(col) && Keyword(keyword)
    ensures Mentions(Pieces(Shifted(col.modifiers)), keyword) <==>
            exists m :: 0 <= m < |col.modifiers| && HasPiece(col.modifiers[m], keyword)
  {
    hide Trim, Tokens, Pieces;
    var shifted, pieces := Shifted(col.modifiers), Pieces(Shifted(col.modifiers));
    PiecesMembers(shifted);
    TrimNothing();
    forall m | 0 <= m < |shifted| ensures HasPiece(shifted[m], keyword) <==> HasPiece(col.modifiers[m], keyword) {
      assert GrammaticalModifier(col.modifiers[m]);
      BlankPiece(col.modifiers[m], keyword);
    }
    if i :| 0 <= i < |pieces| && Trim(pieces[i]) == keyword {
      assert pieces[i] in pieces;
      var m :| 0 <= m < |shifted| && pieces[i] in Tokens(shifted[m], ',');
      assert HasPiece(shifted[m], keyword);
    }
    if m :| 0 <= m < |shifted| && HasPiece(shifted[m], keyword) {
      var p :| p in Tokens(shifted[m], ',') && Trim(p) == keyword;
      assert p in pieces;
      var i :| 0 <= i < |pieces| && pieces[i] == p;
    }
  }

  lemma TrimNothing() ensures Trim("") == "" {}

  /** A column as the grammar produces it mentions the keywords that are among its modifiers. */
  lemma KeywordsGiven(modifiers: seq<string>, keyword: string)
    requires GrammaticalModifiers(modifiers) && Keyword(keyword)
    ensures Mentions(modifiers, keyword) <==> keyword in modifiers
    ensures keyword in modifiers ==> exists m :: 0 <= m < |modifiers| && HasPiece(modifiers[m], keyword)
  {
    hide Trim, Tokens, IsDefault, Contains;
    KeywordPieces(keyword);
    KeywordIsNoDefault(keyword);
    if i :| 0 <= i < |modifiers| && Trim(modifiers[i]) == keyword {
      assert GrammaticalModifier(modifiers[i]);
      if "DEFAULT " <= modifiers[i] {
        StartsWithDefault(modifiers[i]);
        DefaultIsNoKeyword(modifiers[i]);
      } else {
        KeywordIsNoDefault(modifiers[i]);
      }
    }
    if keyword in modifiers {
      var i :| 0 <= i < |modifiers| && modifiers[i] == keyword;
      assert keyword in Tokens(modifiers[i], ',');
      assert HasPiece(modifiers[i], keyword);
    }
  }

  lemma DefaultIsNoKeyword(m: string)
    requires IsDefault(m)
    ensures !Keyword(Trim(m))
  {
    hide Trim, Contains;
    KeywordsAreNotDefaults();
  }

  // ---- which columns survive ----

  /** No piece of a modifier reads as a keyword that the column does not have. */
  ghost predicate NoStrayKeyword(modifiers: seq<string>) {
    forall keyword, m :: Keyword(keyword) && 0 <= m < |modifiers| && HasPiece(modifiers[m], keyword) ==> keyword in modifiers
  }

  /** No modifier holds a line end, the first DEFAULT modifier no comma, and no later one a stray keyword. */
  ghost predicate Survives(modifiers: seq<string>) {
    && NoneContains(modifiers, '\n')
    && (forall k :: 0 <= k < |modifiers| && IsFirstDefault(modifiers, k) ==> ',' !in modifiers[k])
    && NoStrayKeyword(modifiers)
  }

  lemma HasDefaultSurvives(col: ColumnDef)
    requires Grammatical(col)
    ensures FlagsOf(Pieces(Shifted(col.modifiers))).hasDefault == FlagsOf(col.modifiers).hasDefault
  {
    hide IsDefault, Pieces, Tokens, Until;
    var shifted, pieces := Shifted(col.modifiers), Pieces(Shifted(col.modifiers));
    if i :| 0 <= i < |col.modifiers| && "DEFAULT " <= col.modifiers[i] {
      var k := FirstDefault(col.modifiers, i);
      PiecesUpToDefault(col, k);
      StartsWithDefault(col.modifiers[i]);
      assert IsDefault(pieces[k]);
    } else {
      PiecesMembers(shifted);
      forall i | 0 <= i < |pieces| ensures !IsDefault(pieces[i]) {
        assert pieces[i] in pieces;
        var m :| 0 <= m < |shifted| && pieces[i] in Tokens(shifted[m], ',');
        assert GrammaticalModifier(col.modifiers[m]);
        KeywordPieces(col.modifiers[m]);
      }
      forall i | 0 <= i < |col.modifiers| ensures !IsDefault(col.modifiers[i]) {
        assert GrammaticalModifier(col.modifiers[i]);
        KeywordIsNoDefault(col.modifiers[i]);
      }
    }
  }

  lemma FlagsSurvive(col: ColumnDef)
    requires Grammatical(col)
    ensures FlagsOf(Pieces(Shifted(col.modifiers))) == FlagsOf(col.modifiers) <==> NoStrayKeyword(col.modifiers)
  {
    hide Pieces, Shifted, HasPiece, Mentions, IsDefault, GrammaticalModifiers;
    HasDefaultSurvives(col);
    forall keyword | Keyword(keyword)
      ensures (Mentions(Pieces(Shifted(col.modifiers)), keyword) == Mentions(col.modifiers, keyword)) <==>
              (forall m :: 0 <= m < |col.modifiers| && HasPiece(col.modifiers[m], keyword) ==> keyword in col.modifiers)
    {
      KeywordsRead(col, keyword);
      KeywordsGiven(col.modifiers, keyword);
    }
    assert Keyword("PRIMARY KEY") && Keyword("NOT NULL") && Keyword("UNIQUE");
  }

  /** A column that is read from its own line has its flags and its default back exactly when it survives. */
  lemma ColumnRoundTrip(col: ColumnDef)
    requires Grammatical(col) && NoneContains(col.modifiers, '\n')
    ensures ReadLine(Line(col)).name == col.name
    ensures (FlagsOf(ReadLine(Line(col)).modifiers) == FlagsOf(col.modifiers) &&
             DefaultOf(ReadLine(Line(col)).modifiers) == DefaultOf(col.modifiers)) <==> Survives(col.modifiers)
  {
    hide Pieces, Shifted, HasPiece, FlagsOf, DefaultOf, ReadLine, Line, Grammatical, NoStrayKeyword;
    ReadPrintedLine(col);
    FlagsSurvive(col);
    if i :| 0 <= i < |col.modifiers| && "DEFAULT " <= col.modifiers[i] {
      var k := FirstDefault(col.modifiers, i);
      CommaLosesDefault(col, k);
    } else {
      NoDefaultModifier(col);
    }
  }

  ghost predicate AllSurvive(cols: seq<ColumnDef>) {
    forall i :: 0 <= i < |cols| ==> Survives(cols[i].modifiers)
  }

  /** The schema that a restart reads gives every column the name, flags and default it had when the table was
      created exactly when every column survives. */
  lemma MetadataRoundTrip(cols: seq<ColumnDef>)
    requires AllGrammatical(cols)
    ensures SameMeaning(Read(Print(cols)), cols) <==> AllSurvive(cols)
  {
    hide Grammatical, FlagsOf, DefaultOf, ReadLine, Line, NoneContains, Read, Print, Tokens, NoStrayKeyword, IsFirstDefault;
    if i :| 0 <= i < |cols| && !NoneContains(cols[i].modifiers, '\n') {
      PrintedLineEnds(cols);
      ReadCount(cols);
    } else {
      ReadPrinted(cols);
      forall i | 0 <= i < |cols|
        ensures Read(Print(cols))[i].name == cols[i].name
        ensures (FlagsOf(Read(Print(cols))[i].modifiers) == FlagsOf(cols[i].modifiers) &&
                 DefaultOf(Read(Print(cols))[i].modifiers) == DefaultOf(cols[i].modifiers)) <==> Survives(cols[i].modifiers)
      {
        ColumnRoundTrip(cols[i]);
      }
    }
  }

  lemma ReadCount(cols: seq<ColumnDef>)
    ensures |Read(Print(cols))| == Count(Print(cols), '\n')
  {
    PrintedLineEnds(cols);
    TokensCount(Print(cols), '\n');
  }

  /** Without separators in its modifiers, every column survives. */
  lemma SeparableSurvives(cols: seq<ColumnDef>)
    requires AllGrammatical(cols) && Separable(cols)
    ensures AllSurvive(cols)
  {
    hide Tokens, Trim, IsDefault, Contains;
    forall i, keyword, m | 0 <= i < |cols| && Keyword(keyword) && 0 <= m < |cols[i].modifiers| && HasPiece(cols[i].modifiers[m], keyword)
      ensures keyword in cols[i].modifiers
    {
      var modifier := cols[i].modifiers[m];
      assert GrammaticalModifier(modifier);
      TokensPiece(modifier, ',', "");
      assert Trim(modifier) == keyword;
      KeywordsGiven(cols[i].modifiers, keyword);
    }
  }

  /** A default with a comma does not survive a restart. */
  lemma CommaDefaultExample()
    ensures var cols := [ColumnDef("c", ["DEFAULT 'a,b'"])];
            AllGrammatical(cols) && !SameMeaning(Read(Print(cols)), cols)
  {
    hide Read, Print, HasPiece, NoStrayKeyword, NoneContains;
    var m := "DEFAULT 'a,b'";
    var cols := [ColumnDef("c", [m])];
    assert m[10] == ',';
    assert m[..8] == "DEFAULT ";
    assert IsFirstDefault(cols[0].modifiers, 0);
    MetadataRoundTrip(cols);
  }

  /** Nor does a column whose second, idle DEFAULT modifier holds a keyword between commas: it becomes a flag. */
  lemma StrayKeywordExample()
    ensures var cols := [ColumnDef("c", ["DEFAULT 1", "DEFAULT ',UNIQUE,'"])];
            AllGrammatical(cols) && !SameMeaning(Read(Print(cols)), cols)
  {
    hide Read, Print, NoneContains, Trim, Tokens;
    var a, b := "DEFAULT 1", "DEFAULT ',UNIQUE,'";
    var cols := [ColumnDef("c", [a, b])];
    assert a[..8] == "DEFAULT " && b[..8] == "DEFAULT ";
    var u, rest := "DEFAULT '", "UNIQUE,'";
    assert b == u + [','] + rest;
    TokensPiece(u, ',', rest);
    var k, last := "UNIQUE", "'";
    assert rest == k + [','] + last;
    TokensPiece(k, ',', last);
    TrimOfWord(k);
    assert k in Tokens(b, ',');
    assert HasPiece(cols[0].modifiers[1], k);
    assert k[0] == 'U' && a[0] == 'D' && b[0] == 'D';
    assert k !in cols[0].modifiers;
    MetadataRoundTrip(cols);
  }

  /** How a column is written: its name, a blank, and its modifiers with commas between them; and one line each. */
  lemma PrintedFormat(name: string, a: string, b: string, c: ColumnDef, d: ColumnDef)
    ensures Line(ColumnDef(name, [])) == name
    ensures Line(ColumnDef(name, [a])) == name + " " + a
    ensures Line(ColumnDef(name, [a, b])) == name + " " + a + "," + b
    ensures Print([c, d]) == Line(c) + "\n" + Line(d) + "\n"
  {
    hide Line;
    LineWords(name, a, b);
    assert [c, d][1..] == [d] && [d][1..] == [];
    assert Print([d]) == Line(d) + "\n" + "";
  }

  lemma LineWords(name: string, a: string, b: string)
    ensures Line(ColumnDef(name, [])) == name
    ensures Line(ColumnDef(name, [a])) == name + " " + a
    ensures Line(ColumnDef(name, [a, b])) == name + " " + a + "," + b
  {
    assert [a, b][1..] == [b];
    assert Join([a]) == a && Join([a, b]) == a + "," + b;
    assert name + "" == name;
  }
}
