/** The LIKE operator: a translation of the pattern to a regular expression, and what that expression means
    (src/DBEngine/services/condition-evaluator/src/like-match.cpp). */
module Like {
  import opened Text

  // ---- LIKE itself, by recursion on pattern and text ----

  /** `%` stands for any run of characters, `_` for any one, every other character for itself. */
  predicate Like(pattern: string, text: string)
    decreases |pattern| + |text|
  {
    if pattern == [] then text == []
    else if pattern[0] == '%' then Like(pattern[1..], text) || (text != [] && Like(pattern, text[1..]))
    else text != [] && (pattern[0] == '_' || pattern[0] == text[0]) && Like(pattern[1..], text[1..])
  }

  // ---- the translation ----

  /** The characters that the translation escapes. */
  predicate Special(c: char) { c in ".^$|()[]{}*+?\\" }

  function Emit(c: char): string {
    if c == '%' then ".*" else if c == '_' then "." else if Special(c) then ['\\', c] else [c]
  }

  function EmitAll(pattern: string): string {
    if pattern == [] then [] else EmitAll(pattern[..|pattern| - 1]) + Emit(pattern[|pattern| - 1])
  }

  function Translate(pattern: string): string { "^" + EmitAll(pattern) + "$" }

  // ---- the emitted dialect: its syntax and its meaning ----

  datatype Atom = Exactly(c: char) | AnyOne | AnyRun

  /** The characters that stand for themselves in the dialect: all but those of the ECMAScript syntax. The others must
      come after a backslash. */
  predicate Ordinary(c: char) {
    c != '^' && c != '$' && c != '\\' && c != '.' && c != '*' && c != '+' && c != '?' && c != '(' && c != ')' &&
    c != '[' && c != ']' && c != '{' && c != '}' && c != '|'
  }

  /** Reads the text between the anchors; None stands for std::regex_error. */
  function ParseBody(s: string): Option<seq<Atom>> {
    if s == [] then Some([])
    else if s[0] == '\\' then
      if |s| >= 2 && !Ordinary(s[1]) then Prepend(Exactly(s[1]), ParseBody(s[2..])) else None
    else if s[0] == '.' then
      if |s| >= 2 && s[1] == '*' then Prepend(AnyRun, ParseBody(s[2..])) else Prepend(AnyOne, ParseBody(s[1..]))
    else if !Ordinary(s[0]) then None
    else Prepend(Exactly(s[0]), ParseBody(s[1..]))
  }

  function Prepend(a: Atom, rest: Option<seq<Atom>>): Option<seq<Atom>> {
    if rest.Some? then Some([a] + rest.value) else None
  }

  function Parse(s: string): Option<seq<Atom>> {
    if |s| >= 2 && s[0] == '^' && s[|s| - 1] == '$' then ParseBody(s[1..|s| - 1]) else None
  }

  /** What `.` does not match. */
  predicate LineTerminator(c: char) { c == '\n' || c == '\r' }

  /** Line feed and carriage return: one of them alone is matched neither by `.` nor by a run. */
  lemma LineEnds(c: char)
    ensures LineTerminator(c) <==> c as int == 10 || c as int == 13
    ensures LineTerminator(c) ==> !LikeMatches([c], "_") && !LikeMatches([c], "%")
  {
    if LineTerminator(c) {
      TranslationParses("_");
      TranslationParses("%");
      assert AtomsOf("%")[1..] == [] && AtomsOf("_")[1..] == [];
      assert forall k :: 0 <= k <= 1 && [c][k..] == [] ==> [c][..k] == [c];
    }
  }

  predicate OneLine(text: string) { forall i :: 0 <= i < |text| ==> !LineTerminator(text[i]) }

  /** The whole text matches the atoms (std::regex_match). */
  predicate Matches(atoms: seq<Atom>, text: string)
    decreases |atoms|
  {
    if atoms == [] then text == []
    else match atoms[0]
      case Exactly(c) => text != [] && text[0] == c && Matches(atoms[1..], text[1..])
      case AnyOne => text != [] && !LineTerminator(text[0]) && Matches(atoms[1..], text[1..])
      case AnyRun => exists k :: 0 <= k <= |text| && OneLine(text[..k]) && Matches(atoms[1..], text[k..])
  }

  /** The answer of likeMatch: the emitted expression is parsed and matched, and a syntax error means false. */
  predicate LikeMatches(text: string, pattern: string) {
    var re := Parse(Translate(pattern));
    re.Some? && Matches(re.value, text)
  }

  method LikeMatch(text: string, pattern: string) returns (matched: bool)
    ensures matched == LikeMatches(text, pattern)
  {
    var regex := "";
    for i := 0 to |pattern|
      invariant regex == EmitAll(pattern[..i])
    {
      var c := pattern[i];
      if c == '%' {
        regex := regex + ".*";
      } else if c == '_' {
        regex := regex + ".";
      } else if Special(c) {
        regex := regex + ['\\'];
        regex := regex + [c];
      } else {
        regex := regex + [c];
      }
      assert pattern[..i + 1][..i] == pattern[..i];
    }
    assert pattern[..|pattern|] == pattern;
    regex := "^" + regex + "$";
    var re := Parse(regex);
    matched := re.Some? && Matches(re.value, text);
  }

  // ---- the translation preserves meaning ----

  function AtomOf(c: char): Atom {
    if c == '%' then AnyRun else if c == '_' then AnyOne else Exactly(c)
  }

  function AtomsOf(pattern: string): (r: seq<Atom>)
    ensures |r| == |pattern| && forall i :: 0 <= i < |r| ==> r[i] == AtomOf(pattern[i])
  {
    seq(|pattern|, i requires 0 <= i < |pattern| => AtomOf(pattern[i]))
  }

  lemma EmitAllBack(pattern: string, c: char)
    ensures EmitAll(pattern + [c]) == EmitAll(pattern) + Emit(c)
  {
    hide Emit;
    assert (pattern + [c])[..|pattern|] == pattern;
  }

  lemma {:induction false} EmitAllFront(pattern: string)
    requires pattern != []
    ensures EmitAll(pattern) == Emit(pattern[0]) + EmitAll(pattern[1..])
  {
    hide Emit, EmitAll;
    var n := |pattern| - 1;
    var first, last := pattern[0], pattern[n];
    if n == 0 {
      EmitAllBack([], first);
      EmitNothing();
      assert pattern == [] + [first] && pattern[1..] == [];
    } else {
      var front, mid := pattern[..n], pattern[1..n];
      EmitAllFront(front);
      assert front[1..] == mid && front[0] == first;
      EmitAllBack(front, last);
      assert pattern == front + [last];
      EmitAllBack(mid, last);
      assert pattern[1..] == mid + [last];
      assert (Emit(first) + EmitAll(mid)) + Emit(last) == Emit(first) + (EmitAll(mid) + Emit(last));
    }
  }

  lemma EmitNothing() ensures EmitAll([]) == [] {}

  /** What is emitted for one character is read back as its atom, whatever follows it but a bare `*`. */
  lemma EmitParses(c: char, rest: string)
    requires rest == [] || rest[0] != '*'
    ensures ParseBody(Emit(c) + rest) == Prepend(AtomOf(c), ParseBody(rest))
  {
    var s := Emit(c) + rest;
    assert s[|Emit(c)|..] == rest;
  }

  lemma {:induction false} EmitAllParses(pattern: string)
    ensures ParseBody(EmitAll(pattern)) == Some(AtomsOf(pattern))
    ensures EmitAll(pattern) == [] || EmitAll(pattern)[0] != '*'
  {
    hide Emit, ParseBody;
    if pattern == [] {
      ParseNothing();
    } else {
      EmitAllFront(pattern);
      EmitAllParses(pattern[1..]);
      EmitParses(pattern[0], EmitAll(pattern[1..]));
      EmitStart(pattern[0]);
      assert AtomsOf(pattern) == [AtomOf(pattern[0])] + AtomsOf(pattern[1..]);
    }
  }

  lemma ParseNothing() ensures ParseBody([]) == Some([]) {}

  lemma EmitStart(c: char) ensures Emit(c) != [] && Emit(c)[0] != '*' {}

  /** Every pattern is translated to a well-formed expression with one atom per pattern character. */
  lemma TranslationParses(pattern: string)
    ensures Parse(Translate(pattern)) == Some(AtomsOf(pattern))
  {
    EmitAllParses(pattern);
    assert Translate(pattern)[1..|Translate(pattern)| - 1] == EmitAll(pattern);
  }

  lemma {:induction false} AtomsMeanLike(pattern: string, text: string)
    requires OneLine(text)
    ensures Matches(AtomsOf(pattern), text) <==> Like(pattern, text)
    decreases |pattern| + |text|
  {
    var atoms := AtomsOf(pattern);
    if pattern != [] {
      assert atoms[1..] == AtomsOf(pattern[1..]);
      if pattern[0] == '%' {
        AtomsMeanLike(pattern[1..], text);
        assert text[0..] == text && text[..0] == [];
        if text != [] {
          AtomsMeanLike(pattern, text[1..]);
          RunStep(atoms, text);
        } else {
          assert forall k :: 0 <= k <= |text| ==> text[k..] == text;
        }
      } else if text != [] {
        AtomsMeanLike(pattern[1..], text[1..]);
      }
    }
  }

  /** A run either is empty or takes the first character. */
  lemma RunStep(atoms: seq<Atom>, text: string)
    requires atoms != [] && atoms[0] == AnyRun && text != [] && OneLine(text)
    ensures Matches(atoms, text) <==> Matches(atoms[1..], text) || Matches(atoms, text[1..])
  {
    assert text[0..] == text;
    if Matches(atoms, text) {
      var k :| 0 <= k <= |text| && OneLine(text[..k]) && Matches(atoms[1..], text[k..]);
      if k > 0 {
        assert text[1..][k - 1..] == text[k..] && OneLine(text[1..][..k - 1]);
      }
    }
    if Matches(atoms, text[1..]) {
      var k :| 0 <= k <= |text[1..]| && OneLine(text[1..][..k]) && Matches(atoms[1..], text[1..][k..]);
      assert text[k + 1..] == text[1..][k..] && OneLine(text[..k + 1]);
    }
  }

  lemma {:induction false} PercentMatchesAll(text: string)
    ensures Like("%", text)
  {
    if text != [] {
      PercentMatchesAll(text[1..]);
    } else {
      assert "%"[1..] == "";
    }
  }

  /** On a text without line terminators the translated pattern matches exactly when LIKE holds; on a text
      with one, some pattern (`%`) is answered wrongly. */
  lemma LikeTranslationExact(text: string)
    ensures (forall pattern :: LikeMatches(text, pattern) <==> Like(pattern, text)) <==> OneLine(text)
  {
    if OneLine(text) {
      forall pattern ensures LikeMatches(text, pattern) <==> Like(pattern, text) {
        TranslationParses(pattern);
        AtomsMeanLike(pattern, text);
      }
    } else {
      TranslationParses("%");
      PercentMatchesAll(text);
      assert AtomsOf("%")[1..] == [];
      assert forall k :: 0 <= k <= |text| && text[k..] == [] ==> text[..k] == text;
      assert !LikeMatches(text, "%");
    }
  }

  /** `%` should match a text of two lines, and does not. */
  lemma TwoLinesExample()
    ensures Like("%", "a\nb") && !LikeMatches("a\nb", "%")
  {
    var text := "a\nb";
    PercentMatchesAll(text);
    TranslationParses("%");
    assert AtomsOf("%")[1..] == [];
    assert forall k :: 0 <= k <= |text| && text[k..] == [] ==> text[..k] == text;
    assert LineTerminator(text[1]);
  }
}
