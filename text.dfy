/** The few Python `str` operations the package relies on, over `seq<char>`. */
module Text {

  /** Python's `str.isspace()` for one code point. */
  predicate IsSpace(c: char) {
    || c == ' ' || c == '\t' || c == '\n' || c == '\r'
    || c == '\U{000B}' || c == '\U{000C}'
    || ('\U{001C}' <= c <= '\U{001F}')
    || c == '\U{0085}' || c == '\U{00A0}' || c == '\U{1680}'
    || ('\U{2000}' <= c <= '\U{200A}')
    || c == '\U{2028}' || c == '\U{2029}' || c == '\U{202F}' || c == '\U{205F}' || c == '\U{3000}'
  }

  predicate AllSpace(s: string) {
    forall i :: 0 <= i < |s| ==> IsSpace(s[i])
  }

  /** `s.rstrip()`: the longest prefix of s that does not end in whitespace. */
  function RStrip(s: string): (r: string)
    ensures |r| <= |s| && r == s[..|r|]
    ensures r == [] || !IsSpace(r[|r| - 1])
    ensures AllSpace(s[|r|..])
    ensures AllSpace(s) ==> r == []
    decreases |s|
  {
    if s != [] && IsSpace(s[|s| - 1]) then
      var r := RStrip(s[..|s| - 1]);
      assert s[|r|..] == s[..|s| - 1][|r|..] + [s[|s| - 1]];
      r
    else s
  }

  /** `s.lstrip()`: the longest suffix of s that does not start with whitespace. */
  function LStrip(s: string): (r: string)
    ensures |r| <= |s| && r == s[|s| - |r|..]
    ensures r == [] || !IsSpace(r[0])
    ensures AllSpace(s[..|s| - |r|])
    decreases |s|
  {
    if s != [] && IsSpace(s[0]) then LStrip(s[1..]) else s
  }

  /** `s.strip()`. */
  function Strip(s: string): (r: string)
    ensures r == [] || (!IsSpace(r[0]) && !IsSpace(r[|r| - 1]))
    ensures AllSpace(s) ==> r == []
  {
    LStrip(RStrip(s))
  }

  /** What `strip` keeps is a piece of s with only whitespace around it. */
  lemma StripIsTrim(s: string)
    ensures exists i, j :: 0 <= i <= j <= |s| && Strip(s) == s[i..j] && AllSpace(s[..i]) && AllSpace(s[j..])
  {
    var t := RStrip(s);
    var r := LStrip(t);
    var i := |t| - |r|;
    assert s[..i] == t[..i];
    assert r == s[i..|t|];
  }

  /** Python's `str.lower()` on one code point, for the letters of the
      package's alphabets: ASCII, Latin-1, basic Cyrillic (U+0400 to U+042F)
      and Ґ. */
  function LowerChar(c: char): char {
    if 'A' <= c <= 'Z' || ('\U{00C0}' <= c <= '\U{00DE}' && c != '\U{00D7}') || ('\U{0410}' <= c <= '\U{042F}') then
      (c as int + 32) as char
    else if '\U{0400}' <= c <= '\U{040F}' then
      (c as int + 80) as char
    else if c == '\U{0490}' then '\U{0491}'
    else c
  }

  /** The inverse mapping, used by `str.capitalize()`. */
  function UpperChar(c: char): char {
    if 'a' <= c <= 'z' || ('\U{00E0}' <= c <= '\U{00FE}' && c != '\U{00F7}') || ('\U{0430}' <= c <= '\U{044F}') then
      (c as int - 32) as char
    else if '\U{0450}' <= c <= '\U{045F}' then
      (c as int - 80) as char
    else if c == '\U{0491}' then '\U{0490}'
    else c
  }

  function Lower(s: string): (r: string)
    ensures |r| == |s|
    ensures forall i :: 0 <= i < |s| ==> r[i] == LowerChar(s[i])
  {
    seq(|s|, i requires 0 <= i < |s| => LowerChar(s[i]))
  }

  /** `s.capitalize()`: first character upper case, the rest lower case. */
  function Capitalize(s: string): string {
    if s == [] then [] else [UpperChar(s[0])] + Lower(s[1..])
  }

  /** `s.replace(c, t)` for a one-character pattern: every occurrence of c is
      replaced by t, left to right, in one pass. */
  function Replace(s: string, c: char, t: string): (r: string)
    ensures |t| == 1 ==> |r| == |s|
    ensures |t| == 1 ==> forall i :: 0 <= i < |s| ==> r[i] == if s[i] == c then t[0] else s[i]
    ensures c !in t ==> c !in r
  {
    if s == [] then []
    else (if s[0] == c then t else [s[0]]) + Replace(s[1..], c, t)
  }

  /** `s * n`. */
  function Repeat(s: string, n: nat): (r: string)
    ensures |r| == n * |s|
    ensures |s| == 1 ==> forall i :: 0 <= i < |r| ==> r[i] == s[0]
  {
    if n == 0 then [] else Repeat(s, n - 1) + s
  }

  /** The format `f'{s:<width}'`: s padded on the right with spaces. */
  function LJust(s: string, width: nat): (r: string)
    ensures |s| <= |r| && r[..|s|] == s
    ensures |r| == if |s| < width then width else |s|
    ensures forall i :: |s| <= i < |r| ==> r[i] == ' '
  {
    if |s| < width then s + Repeat(" ", width - |s|) else s
  }

  /** Python's `s == c` for a string s and a one-character string c, written
      without comparing sequences: it holds exactly when s == [c]. */
  predicate IsChar(s: string, c: char) {
    |s| == 1 && s[0] == c
  }

  /** Python's `a in b` on strings: a occurs in b as a contiguous piece. */
  predicate IsInfix(a: string, b: string) {
    exists i | 0 <= i <= |b| - |a| :: OccursAt(a, b, i)
  }

  predicate OccursAt(a: string, b: string, i: int) {
    0 <= i <= |b| - |a| && b[i..i + |a|] == a
  }

  /** The pieces of a two-character string are exactly its four infixes. */
  lemma {:induction false} InfixOfPair(a: string, x: char, y: char)
    ensures IsInfix(a, [x, y]) <==> a in {[], [x], [y], [x, y]}
  {
    var b := [x, y];
    if IsInfix(a, b) {
      var i :| OccursAt(a, b, i);
      assert a == [] || a == [x] || a == [y] || a == b;
    }
    if a in {[], [x], [y], [x, y]} {
      var i := if a == [y] then 1 else 0;
      assert OccursAt(a, b, i);
    }
  }
}
