/** String helpers shared by every component (src/auxiliary/utils/string_utils.cpp). A C++ `char` is one
    byte; the model's `char` plays that role, in strings and in the table file alike. */
module Text {

  datatype Option<+T> = None | Some(value: T)

  /** A string that the engine sees as wrapped in a matching pair of outer quotes. */
  predicate Quoted(s: string) {
    |s| >= 2 && (s[0] == s[|s| - 1] == '"' || s[0] == s[|s| - 1] == '\'')
  }

  /** removeOuterQuotes: takes off one pair of outer quotes, if there is one. */
  function Strip(s: string): (r: string)
    ensures r == s <==> !Quoted(s)
    ensures Quoted(s) ==> s == [s[0]] + r + [s[0]]
  {
    if Quoted(s) then s[1..|s| - 1] else s
  }

  /** Outer quotes are a pair of single or of double quotes around any text, and nothing else is taken off. */
  lemma StripMeans(text: string)
    ensures Strip(['\''] + text + ['\'']) == text && Strip(['"'] + text + ['"']) == text
    ensures (forall x: string :: text != ['\''] + x + ['\''] && text != ['"'] + x + ['"']) ==> Strip(text) == text
  {
    if Quoted(text) {
      assert text == [text[0]] + Strip(text) + [text[0]];
    }
  }

  predicate IsSpace(c: char) {
    c == ' ' || c == '\t' || c == '\n' || c == '\r' || c == 12 as char || c == 11 as char
  }

  /** The characters of s from the first that is not white space. */
  function TrimLeft(s: string): (r: string)
    ensures |r| <= |s| && r == s[|s| - |r|..]
  {
    if s == [] || !IsSpace(s[0]) then s else TrimLeft(s[1..])
  }

  /** The characters of s up to the last that is not white space. */
  function TrimRight(s: string): (r: string)
    ensures |r| <= |s| && r == s[..|r|]
  {
    if s == [] || !IsSpace(s[|s| - 1]) then s else TrimRight(s[..|s| - 1])
  }

  /** trim: strips white space from both ends. */
  function Trim(s: string): string {
    TrimRight(TrimLeft(s))
  }

  /** Occurrence of `part` at some position of `s` (std::string::find != npos). */
  predicate Contains(s: string, part: string) {
    exists i {:trigger s[i..]} :: 0 <= i <= |s| && part <= s[i..]
  }

  /** Trimming takes white space, all of it at both ends, and nothing else. */
  lemma {:induction false} TrimLeftMeans(s: string)
    ensures TrimLeft(s) != [] ==> !IsSpace(TrimLeft(s)[0])
    ensures forall i :: 0 <= i < |s| - |TrimLeft(s)| ==> IsSpace(s[i])
  {
    hide IsSpace;
    if s != [] && IsSpace(s[0]) {
      TrimLeftMeans(s[1..]);
      forall i | 0 < i < |s| - |TrimLeft(s)| ensures IsSpace(s[i]) {
        assert s[i] == s[1..][i - 1];
      }
    }
  }

  lemma {:induction false} TrimRightMeans(s: string)
    ensures TrimRight(s) != [] ==> !IsSpace(TrimRight(s)[|TrimRight(s)| - 1])
    ensures forall i :: |TrimRight(s)| <= i < |s| ==> IsSpace(s[i])
  {
    hide IsSpace;
    if s != [] && IsSpace(s[|s| - 1]) {
      TrimRightMeans(s[..|s| - 1]);
    }
  }

  lemma TrimOfWord(s: string)
    requires s != [] && !IsSpace(s[0]) && !IsSpace(s[|s| - 1])
    ensures Trim(s) == s
  {
  }

  /** The white space of the C locale: the characters 9 to 13, and the blank. */
  lemma SpaceCodes(c: char)
    ensures IsSpace(c) <==> 9 <= c as int <= 13 || c as int == 32
  {
  }
}
