/** The tokenizer of `MorseCodePy/utilities.py`: `separate_words`, which cuts a
    Morse string into letter, separator and (in sound mode) space tokens, and
    `separate_letters`, which flattens tokens back into characters. */
module Utilities {
  import opened Text

  /** The check every operation makes before it does anything: dot, dash and
      separator are each exactly one character. */
  predicate ValidGlyphs(dot: string, dash: string, separator: string) {
    |dot| == 1 && |dash| == 1 && |separator| == 1
  }

  // ---------------------------------------------------------------------------
  // separate_words, as the loop computes it

  /** The loop's state between two characters: the `letters` list and the
      `current` accumulator. */
  datatype Scan = Scan(letters: seq<string>, current: string)

  /** The letters with the pending letter appended, if there is one. */
  function Flush(st: Scan): seq<string> {
    st.letters + (if st.current != "" then [st.current] else [])
  }

  /** One iteration of the loop, for character c. */
  function Step(st: Scan, c: char, dot: string, dash: string, separator: string, soundMode: bool): Scan {
    if IsChar(dot, c) || IsChar(dash, c) then Scan(st.letters, st.current + [c])
    else if IsChar(separator, c) then Scan(Flush(st) + [separator], "")
    else if c == ' ' then Scan(Flush(st) + (if soundMode then [" "] else []), "")
    else Scan(st.letters, st.current + [c])
  }

  /** The loop run from state st over the characters of w. */
  function Run(st: Scan, w: string, dot: string, dash: string, separator: string, soundMode: bool): Scan
    decreases |w|
  {
    if w == [] then st
    else Run(Step(st, w[0], dot, dash, separator, soundMode), w[1..], dot, dash, separator, soundMode)
  }

  /** What `separate_words(words, dot, dash, separator, sound_mode=soundMode)` returns. */
  function Tokens(words: string, dot: string, dash: string, separator: string, soundMode: bool): seq<string> {
    Flush(Run(Scan([], ""), words, dot, dash, separator, soundMode))
  }

  /** `separate_words`: one pass over the input, growing and flushing `current`. */
  method SeparateWords(words: string, dot: string, dash: string, separator: string, soundMode: bool)
    returns (letters: seq<string>)
    ensures letters == Tokens(words, dot, dash, separator, soundMode)
  {
    letters := [];
    var current := "";
    for i := 0 to |words|
      invariant Run(Scan(letters, current), words[i..], dot, dash, separator, soundMode)
             == Run(Scan([], ""), words, dot, dash, separator, soundMode)
    {
      var character := words[i];
      assert words[i..] == [character] + words[i + 1..];
      ghost var next := Step(Scan(letters, current), character, dot, dash, separator, soundMode);
      if IsChar(dot, character) || IsChar(dash, character) {
        current := current + [character];
      } else if IsChar(separator, character) {
        if current != "" {
          letters := letters + [current];
          current := "";
        }
        letters := letters + [separator];
      } else if character == ' ' {
        if current != "" {
          letters := letters + [current];
          current := "";
        }
        if soundMode {
          letters := letters + [" "];
        }
      } else {
        current := current + [character];
      }
      assert Scan(letters, current) == next;
    }
    if current != "" {
      letters := letters + [current];
    }
  }

  // ---------------------------------------------------------------------------
  // separate_letters

  /** The sum of the token lengths. */
  function TotalLength(letters: seq<string>): nat {
    if letters == [] then 0 else TotalLength(letters[..|letters| - 1]) + |letters[|letters| - 1]|
  }

  /** `separate_letters`: the characters of every token, token after token. */
  function SeparateLetters(letters: seq<string>): (r: string)
    ensures |r| == TotalLength(letters)
  {
    if letters == [] then []
    else SeparateLetters(letters[..|letters| - 1]) + letters[|letters| - 1]
  }

  /** Flattening distributes over concatenation of token lists. */
  lemma {:induction false} SeparateLettersAppend(a: seq<string>, b: seq<string>)
    ensures SeparateLetters(a + b) == SeparateLetters(a) + SeparateLetters(b)
    decreases |b|
  {
    if b != [] {
      var b' := b[..|b| - 1];
      assert (a + b)[..|a + b| - 1] == a + b';
      SeparateLettersAppend(a, b');
    } else {
      assert a + b == a;
    }
  }

  // ---------------------------------------------------------------------------
  // An independent description: letters are the maximal runs between boundaries

  /** A character that ends the pending letter: the separator or a space,
      unless it is the dot or the dash (the dot/dash test comes first). */
  predicate IsBoundary(c: char, dot: string, dash: string, separator: string) {
    !IsChar(dot, c) && !IsChar(dash, c) && (IsChar(separator, c) || c == ' ')
  }

  /** The tokens a boundary character emits after the pending letter. */
  function Marker(c: char, separator: string, soundMode: bool): seq<string> {
    if IsChar(separator, c) then [separator] else if soundMode then [" "] else []
  }

  /** A run of characters becomes a letter token only if it is not empty. */
  function LetterOf(run: string): seq<string> {
    if run != "" then [run] else []
  }

  /** The position of the first boundary character of w, or |w|. */
  function FirstBoundary(w: string, dot: string, dash: string, separator: string): (k: nat)
    ensures k <= |w|
    ensures k < |w| ==> IsBoundary(w[k], dot, dash, separator)
  {
    if w == [] || IsBoundary(w[0], dot, dash, separator) then 0
    else 1 + FirstBoundary(w[1..], dot, dash, separator)
  }

  /** No character before the first boundary is a boundary. */
  lemma {:induction false} BeforeFirstBoundary(w: string, dot: string, dash: string, separator: string)
    ensures forall i :: 0 <= i < FirstBoundary(w, dot, dash, separator) ==> !IsBoundary(w[i], dot, dash, separator)
  {
    if w != [] && !IsBoundary(w[0], dot, dash, separator) {
      BeforeFirstBoundary(w[1..], dot, dash, separator);
    }
  }

  /** The input cut at its boundary characters: each run before a boundary is
      one letter (if not empty), followed by what the boundary emits. */
  function Segments(w: string, dot: string, dash: string, separator: string, soundMode: bool): seq<string>
    decreases |w|, 1
  {
    var k := FirstBoundary(w, dot, dash, separator);
    LetterOf(w[..k]) + After(w, k, dot, dash, separator, soundMode)
  }

  /** What follows the run w[..k] that ends at the first boundary k: nothing at
      the end of the input, else the boundary's marker and the segments of the rest. */
  function After(w: string, k: nat, dot: string, dash: string, separator: string, soundMode: bool): seq<string>
    requires k <= |w|
    decreases |w| - k, 0
  {
    if k == |w| then []
    else Marker(w[k], separator, soundMode) + Segments(w[k + 1..], dot, dash, separator, soundMode)
  }

  /** Where a scan with letters L and pending letter cur ends up on input w,
      according to the segment description. */
  function Resume(L: seq<string>, cur: string, w: string, dot: string, dash: string, separator: string, soundMode: bool): seq<string> {
    var k := FirstBoundary(w, dot, dash, separator);
    L + LetterOf(cur + w[..k]) + After(w, k, dot, dash, separator, soundMode)
  }

  /** A boundary character flushes and emits its marker; any other character
      joins the pending letter. */
  lemma StepCases(st: Scan, c: char, dot: string, dash: string, separator: string, soundMode: bool)
    ensures IsBoundary(c, dot, dash, separator) ==>
              Step(st, c, dot, dash, separator, soundMode) == Scan(Flush(st) + Marker(c, separator, soundMode), "")
    ensures !IsBoundary(c, dot, dash, separator) ==>
              Step(st, c, dot, dash, separator, soundMode) == Scan(st.letters, st.current + [c])
  {
  }

  /** With nothing pending, the segment description is the segments themselves. */
  lemma ResumeFresh(L: seq<string>, w: string, dot: string, dash: string, separator: string, soundMode: bool)
    ensures Resume(L, "", w, dot, dash, separator, soundMode) == L + Segments(w, dot, dash, separator, soundMode)
  {
    var k := FirstBoundary(w, dot, dash, separator);
    assert "" + w[..k] == w[..k];
  }

  /** A string is the part before position k, the character at k, and the rest. */
  lemma SplitAt(w: string, k: nat)
    requires k < |w|
    ensures w == w[..k] + ([w[k]] + w[k + 1..])
  {
  }

  lemma ResumeBoundary(L: seq<string>, cur: string, c: char, w: string, dot: string, dash: string, separator: string, soundMode: bool)
    requires IsBoundary(c, dot, dash, separator)
    ensures Resume(L, cur, [c] + w, dot, dash, separator, soundMode)
         == Resume(Flush(Scan(L, cur)) + Marker(c, separator, soundMode), "", w, dot, dash, separator, soundMode)
  {
    var w0 := [c] + w;
    var f := Flush(Scan(L, cur));
    var m := Marker(c, separator, soundMode);
    assert FirstBoundary(w0, dot, dash, separator) == 0;
    assert w0[..0] == [] && w0[0] == c && w0[1..] == w;
    assert cur + w0[..0] == cur;
    assert After(w0, 0, dot, dash, separator, soundMode) == m + Segments(w, dot, dash, separator, soundMode);
    ResumeFresh(f + m, w, dot, dash, separator, soundMode);
  }

  lemma ResumeLetter(L: seq<string>, cur: string, c: char, w: string, dot: string, dash: string, separator: string, soundMode: bool)
    requires !IsBoundary(c, dot, dash, separator)
    ensures Resume(L, cur, [c] + w, dot, dash, separator, soundMode)
         == Resume(L, cur + [c], w, dot, dash, separator, soundMode)
  {
    var w0 := [c] + w;
    assert w0[1..] == w;
    var k := FirstBoundary(w, dot, dash, separator);
    assert FirstBoundary(w0, dot, dash, separator) == k + 1;
    assert cur + [c] + w[..k] == cur + w0[..k + 1];
    if k < |w| {
      assert w0[k + 1] == w[k];
      assert w0[k + 2..] == w[k + 1..];
    }
    assert After(w0, k + 1, dot, dash, separator, soundMode) == After(w, k, dot, dash, separator, soundMode);
  }

  /** Running the loop from any state continues the pending letter up to the
      first boundary, then proceeds segment by segment. */
  lemma {:induction false} RunIsSegments(st: Scan, w: string, dot: string, dash: string, separator: string, soundMode: bool)
    ensures Flush(Run(st, w, dot, dash, separator, soundMode)) == Resume(st.letters, st.current, w, dot, dash, separator, soundMode)
    decreases |w|
  {
    if w == [] {
      assert st.current + w == st.current;
    } else {
      var c := w[0];
      assert w == [c] + w[1..];
      StepCases(st, c, dot, dash, separator, soundMode);
      RunIsSegments(Step(st, c, dot, dash, separator, soundMode), w[1..], dot, dash, separator, soundMode);
      if IsBoundary(c, dot, dash, separator) {
        ResumeBoundary(st.letters, st.current, c, w[1..], dot, dash, separator, soundMode);
      } else {
        ResumeLetter(st.letters, st.current, c, w[1..], dot, dash, separator, soundMode);
      }
    }
  }

  /** `separate_words` returns exactly the segments of its input. */
  lemma TokensAreSegments(words: string, dot: string, dash: string, separator: string, soundMode: bool)
    ensures Tokens(words, dot, dash, separator, soundMode) == Segments(words, dot, dash, separator, soundMode)
  {
    RunIsSegments(Scan([], ""), words, dot, dash, separator, soundMode);
    ResumeFresh([], words, dot, dash, separator, soundMode);
    assert [] + Segments(words, dot, dash, separator, soundMode) == Segments(words, dot, dash, separator, soundMode);
  }

  // ---------------------------------------------------------------------------
  // Properties of the token list

  /** No token is ever the empty string. */
  lemma {:induction false} SegmentsNonEmpty(w: string, dot: string, dash: string, separator: string, soundMode: bool)
    ensures forall t :: t in Segments(w, dot, dash, separator, soundMode) ==> t != ""
    decreases |w|
  {
    var k := FirstBoundary(w, dot, dash, separator);
    if k < |w| {
      SegmentsNonEmpty(w[k + 1..], dot, dash, separator, soundMode);
      assert After(w, k, dot, dash, separator, soundMode)
          == Marker(w[k], separator, soundMode) + Segments(w[k + 1..], dot, dash, separator, soundMode);
    }
  }

  lemma TokensNonEmpty(words: string, dot: string, dash: string, separator: string, soundMode: bool)
    ensures forall t :: t in Tokens(words, dot, dash, separator, soundMode) ==> t != ""
  {
    TokensAreSegments(words, dot, dash, separator, soundMode);
    SegmentsNonEmpty(words, dot, dash, separator, soundMode);
  }

  /** A token is the separator, a space token, or a letter holding no
      boundary character. */
  lemma {:induction false} SegmentsShape(w: string, dot: string, dash: string, separator: string, soundMode: bool)
    ensures forall t :: t in Segments(w, dot, dash, separator, soundMode) ==>
              t == separator || t == " " || forall j :: 0 <= j < |t| ==> !IsBoundary(t[j], dot, dash, separator)
    decreases |w|
  {
    var k := FirstBoundary(w, dot, dash, separator);
    BeforeFirstBoundary(w, dot, dash, separator);
    if k < |w| {
      SegmentsShape(w[k + 1..], dot, dash, separator, soundMode);
      assert After(w, k, dot, dash, separator, soundMode)
          == Marker(w[k], separator, soundMode) + Segments(w[k + 1..], dot, dash, separator, soundMode);
    }
  }

  /** Letter tokens never contain the separator or a space, when neither is
      also the dot or the dash. */
  lemma LettersAvoidBoundaries(words: string, dot: string, dash: string, separator: string, soundMode: bool)
    requires |separator| == 1 && separator != dot && separator != dash
    requires " " != dot && " " != dash
    ensures forall t :: t in Tokens(words, dot, dash, separator, soundMode) && t != separator && t != " " ==>
              separator[0] !in t && ' ' !in t
  {
    TokensAreSegments(words, dot, dash, separator, soundMode);
    SegmentsShape(words, dot, dash, separator, soundMode);
    assert [separator[0]] == separator;
    assert IsBoundary(separator[0], dot, dash, separator) && IsBoundary(' ', dot, dash, separator);
  }

  /** The characters that end up in no token: a space in text mode, when it
      is none of the glyphs. */
  predicate Dropped(c: char, dot: string, dash: string, separator: string, soundMode: bool) {
    IsBoundary(c, dot, dash, separator) && !IsChar(separator, c) && !soundMode
  }

  /** The input with the dropped characters removed. */
  function Kept(w: string, dot: string, dash: string, separator: string, soundMode: bool): string {
    if w == [] then []
    else (if Dropped(w[0], dot, dash, separator, soundMode) then [] else [w[0]])
         + Kept(w[1..], dot, dash, separator, soundMode)
  }

  /** Flushing a pending letter adds its characters. */
  lemma SeparateLettersLetterOf(L: seq<string>, run: string)
    ensures SeparateLetters(L + LetterOf(run)) == SeparateLetters(L) + run
  {
    if run == "" {
      assert L + LetterOf(run) == L;
    } else {
      assert (L + [run])[..|L|] == L;
    }
  }

  /** The marker of a boundary character flattens to that character, unless
      the character is dropped. */
  lemma MarkerLetters(c: char, dot: string, dash: string, separator: string, soundMode: bool)
    requires IsBoundary(c, dot, dash, separator)
    ensures SeparateLetters(Marker(c, separator, soundMode)) ==
            if Dropped(c, dot, dash, separator, soundMode) then [] else [c]
  {
    var m := Marker(c, separator, soundMode);
    if m != [] {
      assert m[..0] == [];
    }
  }

  /** One iteration adds exactly the kept character to the flattened tokens. */
  lemma StepKeeps(st: Scan, c: char, dot: string, dash: string, separator: string, soundMode: bool)
    ensures SeparateLetters(Flush(Step(st, c, dot, dash, separator, soundMode))) ==
            SeparateLetters(Flush(st)) + (if Dropped(c, dot, dash, separator, soundMode) then [] else [c])
  {
    var f := Flush(st);
    StepCases(st, c, dot, dash, separator, soundMode);
    SeparateLettersLetterOf(st.letters, st.current);
    if IsBoundary(c, dot, dash, separator) {
      var m := Marker(c, separator, soundMode);
      assert Flush(Scan(f + m, "")) == f + m;
      SeparateLettersAppend(f, m);
      MarkerLetters(c, dot, dash, separator, soundMode);
    } else {
      SeparateLettersLetterOf(st.letters, st.current + [c]);
      assert SeparateLetters(st.letters) + (st.current + [c]) == SeparateLetters(st.letters) + st.current + [c];
    }
  }

  lemma {:induction false} RunKeeps(st: Scan, w: string, dot: string, dash: string, separator: string, soundMode: bool)
    ensures SeparateLetters(Flush(Run(st, w, dot, dash, separator, soundMode))) ==
            SeparateLetters(Flush(st)) + Kept(w, dot, dash, separator, soundMode)
    decreases |w|
  {
    if w != [] {
      var st' := Step(st, w[0], dot, dash, separator, soundMode);
      var x := if Dropped(w[0], dot, dash, separator, soundMode) then [] else [w[0]];
      assert Run(st, w, dot, dash, separator, soundMode) == Run(st', w[1..], dot, dash, separator, soundMode);
      assert Kept(w, dot, dash, separator, soundMode) == x + Kept(w[1..], dot, dash, separator, soundMode);
      StepKeeps(st, w[0], dot, dash, separator, soundMode);
      RunKeeps(st', w[1..], dot, dash, separator, soundMode);
    }
  }

  /** The tokens hold, in order, every character of the input but the dropped ones. */
  lemma TokensKeep(words: string, dot: string, dash: string, separator: string, soundMode: bool)
    ensures SeparateLetters(Tokens(words, dot, dash, separator, soundMode)) == Kept(words, dot, dash, separator, soundMode)
  {
    RunKeeps(Scan([], ""), words, dot, dash, separator, soundMode);
  }

  /** In sound mode nothing is dropped. */
  lemma {:induction false} KeptAllInSoundMode(w: string, dot: string, dash: string, separator: string)
    ensures Kept(w, dot, dash, separator, true) == w
  {
    if w != [] {
      KeptAllInSoundMode(w[1..], dot, dash, separator);
    }
  }

  /** `separate_letters(separate_words(s, ..., sound_mode=True))` is s itself. */
  lemma SoundModeStream(words: string, dot: string, dash: string, separator: string)
    ensures SeparateLetters(Tokens(words, dot, dash, separator, true)) == words
  {
    TokensKeep(words, dot, dash, separator, true);
    KeptAllInSoundMode(words, dot, dash, separator);
  }

  /** The input without its spaces. */
  function WithoutSpaces(w: string): string {
    if w == [] then [] else (if w[0] == ' ' then [] else [w[0]]) + WithoutSpaces(w[1..])
  }

  lemma {:induction false} KeptInTextMode(w: string, dot: string, dash: string, separator: string)
    requires separator != " " && dot != " " && dash != " "
    ensures Kept(w, dot, dash, separator, false) == WithoutSpaces(w)
  {
    if w != [] {
      KeptInTextMode(w[1..], dot, dash, separator);
    }
  }

  /** In text mode, with no glyph a space, the tokens spell the input minus its spaces. */
  lemma TextModeStream(words: string, dot: string, dash: string, separator: string)
    requires separator != " " && dot != " " && dash != " "
    ensures SeparateLetters(Tokens(words, dot, dash, separator, false)) == WithoutSpaces(words)
  {
    TokensKeep(words, dot, dash, separator, false);
    KeptInTextMode(words, dot, dash, separator);
  }

  // ---------------------------------------------------------------------------
  // Separator and space tokens, one per occurrence, in input order

  /** The tokens that are the separator or a space token, in order. */
  function MarkerTokens(ts: seq<string>, separator: string): seq<string> {
    if ts == [] then []
    else (if ts[0] == separator || ts[0] == " " then [ts[0]] else []) + MarkerTokens(ts[1..], separator)
  }

  /** What each character of the input should contribute to that list. */
  function MarkerStream(w: string, separator: string, soundMode: bool): seq<string> {
    if w == [] then []
    else (if IsChar(separator, w[0]) then [separator] else if w[0] == ' ' && soundMode then [" "] else [])
         + MarkerStream(w[1..], separator, soundMode)
  }

  lemma {:induction false} MarkerTokensAppend(a: seq<string>, b: seq<string>, separator: string)
    ensures MarkerTokens(a + b, separator) == MarkerTokens(a, separator) + MarkerTokens(b, separator)
    decreases |a|
  {
    if a != [] {
      assert (a + b)[1..] == a[1..] + b;
      MarkerTokensAppend(a[1..], b, separator);
    } else {
      assert a + b == b;
    }
  }

  lemma {:induction false} MarkerStreamAppend(a: string, b: string, separator: string, soundMode: bool)
    ensures MarkerStream(a + b, separator, soundMode) == MarkerStream(a, separator, soundMode) + MarkerStream(b, separator, soundMode)
    decreases |a|
  {
    if a != [] {
      assert (a + b)[1..] == a[1..] + b;
      MarkerStreamAppend(a[1..], b, separator, soundMode);
    } else {
      assert a + b == b;
    }
  }

  /** A run without boundary characters contributes no marker. */
  lemma {:induction false} RunHasNoMarkers(run: string, dot: string, dash: string, separator: string, soundMode: bool)
    requires |separator| == 1 && separator != dot && separator != dash
    requires " " != dot && " " != dash
    requires forall i :: 0 <= i < |run| ==> !IsBoundary(run[i], dot, dash, separator)
    ensures MarkerStream(run, separator, soundMode) == []
    ensures MarkerTokens(LetterOf(run), separator) == []
  {
    if run != [] {
      RunHasNoMarkers(run[1..], dot, dash, separator, soundMode);
      assert !IsBoundary(run[0], dot, dash, separator);
      assert separator == [separator[0]];
      assert run != separator && run != " ";
      assert [run][1..] == [];
    }
  }

  /** A boundary character's marker tokens are what the stream expects of it. */
  lemma MarkerMatchesStream(c: char, dot: string, dash: string, separator: string, soundMode: bool)
    requires IsBoundary(c, dot, dash, separator)
    ensures MarkerTokens(Marker(c, separator, soundMode), separator) == MarkerStream([c], separator, soundMode)
  {
    assert [c][1..] == [];
    var m := Marker(c, separator, soundMode);
    if m != [] {
      assert m[1..] == [];
    }
  }

  lemma {:induction false} SegmentsMarkers(w: string, dot: string, dash: string, separator: string, soundMode: bool)
    requires |separator| == 1 && separator != dot && separator != dash
    requires " " != dot && " " != dash
    ensures MarkerTokens(Segments(w, dot, dash, separator, soundMode), separator) == MarkerStream(w, separator, soundMode)
    decreases |w|
  {
    var k := FirstBoundary(w, dot, dash, separator);
    if k < |w| {
      SegmentsMarkers(w[k + 1..], dot, dash, separator, soundMode);
    }
    FirstSegmentMarkers(w, dot, dash, separator, soundMode);
  }

  /** The step of the induction: the first letter contributes no marker, and
      the first boundary contributes what the stream expects of it. */
  lemma FirstSegmentMarkers(w: string, dot: string, dash: string, separator: string, soundMode: bool)
    requires |separator| == 1 && separator != dot && separator != dash
    requires " " != dot && " " != dash
    requires FirstBoundary(w, dot, dash, separator) < |w| ==>
             var rest := w[FirstBoundary(w, dot, dash, separator) + 1..];
             MarkerTokens(Segments(rest, dot, dash, separator, soundMode), separator) == MarkerStream(rest, separator, soundMode)
    ensures MarkerTokens(Segments(w, dot, dash, separator, soundMode), separator) == MarkerStream(w, separator, soundMode)
  {
    var k := FirstBoundary(w, dot, dash, separator);
    BeforeFirstBoundary(w, dot, dash, separator);
    RunHasNoMarkers(w[..k], dot, dash, separator, soundMode);
    var letter := LetterOf(w[..k]);
    if k == |w| {
      assert w[..k] == w;
      assert Segments(w, dot, dash, separator, soundMode) == letter + [];
    } else {
      var c := w[k];
      var rest := w[k + 1..];
      var m := Marker(c, separator, soundMode);
      var tail := Segments(rest, dot, dash, separator, soundMode);
      assert Segments(w, dot, dash, separator, soundMode) == letter + (m + tail);
      MarkerMatchesStream(c, dot, dash, separator, soundMode);
      SplitAt(w, k);
      MarkersOfPieces(letter, m, tail, w[..k], c, rest, separator, soundMode);
    }
  }

  /** The marker lists of a letter, a marker and the remaining tokens line up
      with the streams of the run, the boundary and the remaining input. */
  lemma MarkersOfPieces(letter: seq<string>, m: seq<string>, tail: seq<string>, run: string, c: char, rest: string,
                        separator: string, soundMode: bool)
    requires MarkerTokens(letter, separator) == [] && MarkerStream(run, separator, soundMode) == []
    requires MarkerTokens(m, separator) == MarkerStream([c], separator, soundMode)
    requires MarkerTokens(tail, separator) == MarkerStream(rest, separator, soundMode)
    ensures MarkerTokens(letter + (m + tail), separator) == MarkerStream(run + ([c] + rest), separator, soundMode)
  {
    MarkerTokensAppend(letter, m + tail, separator);
    MarkerTokensAppend(m, tail, separator);
    MarkerStreamAppend(run, [c] + rest, separator, soundMode);
    MarkerStreamAppend([c], rest, separator, soundMode);
  }

  /** Each separator in the input yields exactly one separator token, and in
      sound mode each space exactly one space token, in input order. */
  lemma TokensMarkers(words: string, dot: string, dash: string, separator: string, soundMode: bool)
    requires |separator| == 1 && separator != dot && separator != dash
    requires " " != dot && " " != dash
    ensures MarkerTokens(Tokens(words, dot, dash, separator, soundMode), separator) == MarkerStream(words, separator, soundMode)
  {
    TokensAreSegments(words, dot, dash, separator, soundMode);
    SegmentsMarkers(words, dot, dash, separator, soundMode);
  }
}
