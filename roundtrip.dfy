/** Decoding what was encoded gives back the lowercased, stripped text, when
    the decode tables undo the encode lookup chain and the glyphs cannot be
    confused with one another. The encoder is the one that draws table codes
    with the caller's glyphs; with the default glyphs that is the encoder as
    written. */
module RoundTrip {
  import opened Wrappers
  import opened Text
  import opened Tables
  import opened Utilities
  import opened Encoder
  import opened Decoder

  // ---------------------------------------------------------------------------
  // Hypotheses

  /** A table code: one or more of '.' and '-'. */
  predicate IsCode(u: string) {
    u != [] && forall i :: 0 <= i < |u| ==> u[i] == '.' || u[i] == '-'
  }

  /** Glyphs that survive the trip: one character each, none of them
      whitespace, the separator neither a glyph nor a table symbol, and the
      substitutions of the encoder and of the decoder not feeding into each
      other. */
  predicate Distinguishable(dot: string, dash: string, separator: string) {
    && ValidGlyphs(dot, dash, separator)
    && dot[0] != dash[0] && dot[0] != '-' && dash[0] != '.'
    && separator[0] != dot[0] && separator[0] != dash[0] && separator[0] != '.' && separator[0] != '-'
    && !IsSpace(dot[0]) && !IsSpace(dash[0]) && !IsSpace(separator[0])
  }

  /** The encode chain finds a code for c. */
  predicate Found(c: char, encodes: Store, table: Table) {
    CharCode(encodes, table, c).Ok? && CharCode(encodes, table, c).value.Some?
    && IsCode(CharCode(encodes, table, c).value.value)
  }

  /** ... and the decode chain maps that code back to c. */
  predicate Recovers(c: char, encodes: Store, table: Table, lang: string, separator: string, error: string,
                     codes: Table, numbers: Table, special: Table) {
    Found(c, encodes, table)
    && TranslateToken(CharCode(encodes, table, c).value.value, lang, separator, error, codes, numbers, special) == [c]
  }

  /** Characters of s whose code the encoder writes: all but the spaces. */
  predicate AllFound(s: string, encodes: Store, table: Table) {
    forall i :: 0 <= i < |s| ==> s[i] == ' ' || Found(s[i], encodes, table)
  }

  predicate AllRecover(s: string, encodes: Store, table: Table, lang: string, separator: string, error: string,
                       codes: Table, numbers: Table, special: Table) {
    forall i :: 0 <= i < |s| ==> s[i] == ' ' || Recovers(s[i], encodes, table, lang, separator, error, codes, numbers, special)
  }

  /** A "ch" in s is decoded back only by a language with the digraph rule. */
  predicate DigraphsDecode(s: string, lang: string) {
    forall i :: 0 <= i < |s| - 1 ==> s[i] == 'c' && s[i + 1] == 'h' ==> lang in DigraphLanguages
  }

  /** s starts with the digraph the encoder writes as four dashes. */
  predicate StartsDigraph(s: string) {
    |s| > 1 && s[0] == 'c' && s[1] == 'h'
  }

  /** The input does not end in the 'c' that reads past the end. */
  predicate NoTrailingC(s: string) {
    s == [] || s[|s| - 1] != 'c'
  }

  // ---------------------------------------------------------------------------
  // The emissions

  /** Emissions in the default glyphs: codes and the separator. */
  predicate Plain(ps: seq<string>, separator: string) {
    forall i :: 0 <= i < |ps| ==> ps[i] == separator || IsCode(ps[i])
  }

  /** The emissions drawn with the caller's glyphs. */
  function RenderAll(ps: seq<string>, dot: string, dash: string): seq<string> {
    seq(|ps|, i requires 0 <= i < |ps| => Render(ps[i], dot, dash))
  }

  /** The emissions in the default glyphs, as the encoder writes them. */
  function PlainUnits(s: string, encodes: Store, table: Table, separator: string, error: string): Result<seq<string>> {
    Units(s, encodes, table, ".", "-", separator, error, false)
  }

  lemma {:induction false} ReplaceAbsent(s: string, c: char, t: string)
    requires c !in s
    ensures Replace(s, c, t) == s
    decreases |s|
  {
    if s != [] {
      ReplaceAbsent(s[1..], c, t);
      assert s == [s[0]] + s[1..];
    }
  }

  /** Four dashes drawn with the caller's glyphs are four dash glyphs. */
  lemma RenderDashes(dot: string, dash: string)
    requires |dot| == 1 && |dash| == 1
    ensures Render(Repeat("-", 4), dot, dash) == Repeat(dash, 4)
  {
    var d := Repeat("-", 4);
    var once := Replace(d, '.', dot);
    assert |once| == 4;
    assert forall i :: 0 <= i < 4 ==> once[i] == '-';
  }

  /** One step of `Units` on a character that neither starts "ch" nor is a
      final 'c'. */
  lemma UnitsSingle(s: string, encodes: Store, table: Table, dot: string, dash: string, separator: string,
                    error: string, renderCodes: bool)
    requires s != [] && !StartsDigraph(s) && NoTrailingC(s)
    requires Unit(encodes, table, s[0], dot, dash, separator, error, renderCodes).Ok?
    ensures Units(s, encodes, table, dot, dash, separator, error, renderCodes) ==
            Prepend([Unit(encodes, table, s[0], dot, dash, separator, error, renderCodes).value],
                    Units(s[1..], encodes, table, dot, dash, separator, error, renderCodes))
  {
  }

  /** The emission of one character, plain and drawn. */
  lemma UnitRendered(c: char, encodes: Store, table: Table, dot: string, dash: string, separator: string, error: string)
    requires Distinguishable(dot, dash, separator)
    requires c == ' ' || Found(c, encodes, table)
    ensures Unit(encodes, table, c, ".", "-", separator, error, false).Ok?
    ensures var u := Unit(encodes, table, c, ".", "-", separator, error, false).value;
            (u == separator || IsCode(u)) &&
            Unit(encodes, table, c, dot, dash, separator, error, true) == Ok(Render(u, dot, dash))
  {
    if c == ' ' {
      ReplaceAbsent(separator, '.', dot);
      ReplaceAbsent(separator, '-', dash);
    }
  }

  lemma RenderAllCons(u: string, ps: seq<string>, dot: string, dash: string)
    ensures RenderAll([u] + ps, dot, dash) == [Render(u, dot, dash)] + RenderAll(ps, dot, dash)
  {
  }

  /** Units for the caller's glyphs are the plain units drawn with them. */
  lemma {:induction false} UnitsRendered(s: string, encodes: Store, table: Table, dot: string, dash: string,
                                         separator: string, error: string)
    requires Distinguishable(dot, dash, separator)
    requires AllFound(s, encodes, table) && NoTrailingC(s)
    ensures PlainUnits(s, encodes, table, separator, error).Ok?
    ensures Plain(PlainUnits(s, encodes, table, separator, error).value, separator)
    ensures Units(s, encodes, table, dot, dash, separator, error, true) ==
            Ok(RenderAll(PlainUnits(s, encodes, table, separator, error).value, dot, dash))
    decreases |s|
  {
    if s != [] {
      var n := if StartsDigraph(s) then 2 else 1;
      var rest := s[n..];
      assert forall i :: 0 <= i < |rest| ==> rest[i] == s[i + n];
      UnitsRendered(rest, encodes, table, dot, dash, separator, error);
      var ps := PlainUnits(rest, encodes, table, separator, error).value;
      var u: string;
      if StartsDigraph(s) {
        u := Repeat("-", 4);
        RenderDashes(dot, dash);
      } else {
        UnitRendered(s[0], encodes, table, dot, dash, separator, error);
        u := Unit(encodes, table, s[0], ".", "-", separator, error, false).value;
        UnitsSingle(s, encodes, table, ".", "-", separator, error, false);
        UnitsSingle(s, encodes, table, dot, dash, separator, error, true);
      }
      assert PlainUnits(s, encodes, table, separator, error) == Ok([u] + ps);
      RenderAllCons(u, ps, dot, dash);
    } else {
      assert RenderAll([], dot, dash) == [];
    }
  }

  // ---------------------------------------------------------------------------
  // Decoding the plain units

  lemma TranslatedCons(u: string, rest: seq<string>, lang: string, separator: string, error: string,
                       codes: Table, numbers: Table, special: Table)
    ensures Translated([u] + rest, lang, separator, error, codes, numbers, special) ==
            TranslateToken(u, lang, separator, error, codes, numbers, special)
            + Translated(rest, lang, separator, error, codes, numbers, special)
  {
    TranslatedAppend([u], rest, lang, separator, error, codes, numbers, special);
    assert [u][..0] == [];
  }

  /** The step for "ch": four dashes, read back as the digraph. */
  lemma TranslatedDigraph(s: string, encodes: Store, table: Table, lang: string, separator: string,
                          error: string, codes: Table, numbers: Table, special: Table)
    requires |separator| == 1 && StartsDigraph(s) && lang in DigraphLanguages
    requires PlainUnits(s, encodes, table, separator, error).Ok?
    requires Translated(PlainUnits(s[2..], encodes, table, separator, error).value, lang, separator, error,
                        codes, numbers, special) == s[2..]
    ensures Translated(PlainUnits(s, encodes, table, separator, error).value, lang, separator, error,
                       codes, numbers, special) == s
  {
    var ps := PlainUnits(s[2..], encodes, table, separator, error).value;
    TranslatedCons(Repeat("-", 4), ps, lang, separator, error, codes, numbers, special);
    assert Repeat("-", 4) == "----";
    assert s == "ch" + s[2..];
  }

  /** The step for any other character: its unit, read back as it. */
  lemma TranslatedSingle(s: string, encodes: Store, table: Table, lang: string, separator: string,
                         error: string, codes: Table, numbers: Table, special: Table)
    requires |separator| == 1 && s != [] && !StartsDigraph(s) && NoTrailingC(s)
    requires s[0] == ' ' || Recovers(s[0], encodes, table, lang, separator, error, codes, numbers, special)
    requires PlainUnits(s, encodes, table, separator, error).Ok?
    requires Translated(PlainUnits(s[1..], encodes, table, separator, error).value, lang, separator, error,
                        codes, numbers, special) == s[1..]
    ensures Translated(PlainUnits(s, encodes, table, separator, error).value, lang, separator, error,
                       codes, numbers, special) == s
  {
    UnitsSingle(s, encodes, table, ".", "-", separator, error, false);
    var u := Unit(encodes, table, s[0], ".", "-", separator, error, false).value;
    var ps := PlainUnits(s[1..], encodes, table, separator, error).value;
    TranslatedCons(u, ps, lang, separator, error, codes, numbers, special);
    assert s == [s[0]] + s[1..];
  }

  /** The hypotheses of the round trip hold for what follows the first unit. */
  lemma TranslatedTail(s: string, n: nat, encodes: Store, table: Table, lang: string, separator: string,
                       error: string, codes: Table, numbers: Table, special: Table)
    requires s != [] && n == (if StartsDigraph(s) then 2 else 1)
    requires AllRecover(s, encodes, table, lang, separator, error, codes, numbers, special)
    requires DigraphsDecode(s, lang) && NoTrailingC(s)
    requires PlainUnits(s, encodes, table, separator, error).Ok?
    ensures n <= |s|
    ensures AllRecover(s[n..], encodes, table, lang, separator, error, codes, numbers, special)
    ensures DigraphsDecode(s[n..], lang) && NoTrailingC(s[n..])
    ensures PlainUnits(s[n..], encodes, table, separator, error).Ok?
  {
    var rest := s[n..];
    assert forall i :: 0 <= i < |rest| ==> rest[i] == s[i + n];
  }

  /** Each plain unit translates back to the characters it was made from. */
  lemma {:induction false} TranslatedUnits(s: string, encodes: Store, table: Table, lang: string, separator: string,
                                           error: string, codes: Table, numbers: Table, special: Table)
    requires |separator| == 1
    requires AllRecover(s, encodes, table, lang, separator, error, codes, numbers, special)
    requires DigraphsDecode(s, lang) && NoTrailingC(s)
    requires PlainUnits(s, encodes, table, separator, error).Ok?
    ensures Translated(PlainUnits(s, encodes, table, separator, error).value, lang, separator, error,
                       codes, numbers, special) == s
    decreases |s|
  {
    if s != [] {
      var n := if StartsDigraph(s) then 2 else 1;
      TranslatedTail(s, n, encodes, table, lang, separator, error, codes, numbers, special);
      TranslatedUnits(s[n..], encodes, table, lang, separator, error, codes, numbers, special);
      if StartsDigraph(s) {
        TranslatedDigraph(s, encodes, table, lang, separator, error, codes, numbers, special);
      } else {
        TranslatedSingle(s, encodes, table, lang, separator, error, codes, numbers, special);
      }
    }
  }

  // ---------------------------------------------------------------------------
  // Tokenising the joined units

  /** Join([u] + rest), from the left. */
  lemma {:induction false} JoinCons(u: string, rest: seq<string>)
    requires rest != []
    ensures Join([u] + rest) == u + " " + Join(rest)
    decreases |rest|
  {
    var ps := [u] + rest;
    if |rest| > 1 {
      var init := rest[..|rest| - 1];
      JoinCons(u, init);
      assert ps[..|ps| - 1] == [u] + init;
    } else {
      assert ps[..|ps| - 1] == [u];
    }
  }

  /** The characters of the plain text: '.', '-', the separator and spaces. */
  predicate PlainChar(c: char, separator: string) {
    c == '.' || c == '-' || IsChar(separator, c) || c == ' '
  }

  lemma UnitChars(u: string, separator: string)
    requires |separator| == 1 && (u == separator || IsCode(u))
    ensures forall i :: 0 <= i < |u| ==> PlainChar(u[i], separator)
  {
  }

  /** Every character of the joined units is a plain character. */
  lemma {:induction false} JoinChars(ps: seq<string>, separator: string)
    requires |separator| == 1 && Plain(ps, separator)
    ensures forall i :: 0 <= i < |Join(ps)| ==> PlainChar(Join(ps)[i], separator)
    decreases |ps|
  {
    if |ps| == 1 {
      UnitChars(ps[0], separator);
    } else if |ps| > 1 {
      var init := ps[..|ps| - 1];
      var last := ps[|ps| - 1];
      JoinChars(init, separator);
      UnitChars(last, separator);
      var a := Join(init);
      assert Join(ps) == a + " " + last;
      forall i | 0 <= i < |Join(ps)|
        ensures PlainChar(Join(ps)[i], separator)
      {
        if i < |a| {
          assert Join(ps)[i] == a[i];
        } else if |a| < i {
          assert Join(ps)[i] == last[i - |a| - 1];
        }
      }
    }
  }

  lemma {:induction false} JoinFirst(us: seq<string>)
    requires us != [] && us[0] != []
    ensures Join(us) != [] && Join(us)[0] == us[0][0]
    decreases |us|
  {
    if |us| > 1 {
      var init := us[..|us| - 1];
      JoinFirst(init);
    }
  }

  /** The joined units neither start nor end with whitespace. */
  lemma JoinEnds(ps: seq<string>, separator: string)
    requires |separator| == 1 && !IsSpace(separator[0]) && Plain(ps, separator) && ps != []
    ensures Join(ps) != [] && !IsSpace(Join(ps)[0]) && !IsSpace(Join(ps)[|Join(ps)| - 1])
  {
    var last := ps[|ps| - 1];
    assert last == separator || IsCode(last);
    assert ps[0] == separator || IsCode(ps[0]);
    JoinFirst(ps);
    JoinLast(ps);
  }

  /** A run of non-boundary characters does not move the first boundary. */
  lemma {:induction false} FirstBoundaryAfter(run: string, t: string, dot: string, dash: string, separator: string)
    requires forall i :: 0 <= i < |run| ==> !IsBoundary(run[i], dot, dash, separator)
    ensures FirstBoundary(run + t, dot, dash, separator) == |run| + FirstBoundary(t, dot, dash, separator)
    decreases |run|
  {
    if run != [] {
      FirstBoundaryAfter(run[1..], t, dot, dash, separator);
      assert (run + t)[1..] == run[1..] + t;
    } else {
      assert run + t == t;
    }
  }

  lemma SegmentsStep(run: string, c: char, rest: string, dot: string, dash: string, separator: string)
    requires forall i :: 0 <= i < |run| ==> !IsBoundary(run[i], dot, dash, separator)
    requires IsBoundary(c, dot, dash, separator)
    ensures Segments(run + ([c] + rest), dot, dash, separator, false) ==
            LetterOf(run) + Marker(c, separator, false) + Segments(rest, dot, dash, separator, false)
  {
    var w := run + ([c] + rest);
    FirstBoundaryAfter(run, [c] + rest, dot, dash, separator);
    assert FirstBoundary([c] + rest, dot, dash, separator) == 0;
    assert w[..|run|] == run && w[|run|] == c && w[|run| + 1..] == rest;
  }

  lemma SegmentsRun(run: string, dot: string, dash: string, separator: string)
    requires forall i :: 0 <= i < |run| ==> !IsBoundary(run[i], dot, dash, separator)
    ensures Segments(run, dot, dash, separator, false) == LetterOf(run)
  {
    FirstBoundaryAfter(run, [], dot, dash, separator);
    assert run + [] == run;
    assert run[..|run|] == run;
  }

  lemma SegmentsEmpty(dot: string, dash: string, separator: string)
    ensures Segments([], dot, dash, separator, false) == []
  {
  }

  /** In text mode one plain unit is one token. */
  lemma SegmentsUnit(u: string, dot: string, dash: string, separator: string)
    requires Distinguishable(dot, dash, separator) && (u == separator || IsCode(u))
    ensures Segments(u, dot, dash, separator, false) == [u]
  {
    if IsCode(u) {
      SegmentsRun(u, dot, dash, separator);
    } else {
      SegmentsStep([], separator[0], [], dot, dash, separator);
      assert [] + ([separator[0]] + []) == u;
      SegmentsEmpty(dot, dash, separator);
    }
  }

  /** A boundary at the front emits its marker before the rest. */
  lemma SegmentsLead(c: char, rest: string, dot: string, dash: string, separator: string)
    requires IsBoundary(c, dot, dash, separator)
    ensures Segments([c] + rest, dot, dash, separator, false) ==
            Marker(c, separator, false) + Segments(rest, dot, dash, separator, false)
  {
    var w := [c] + rest;
    assert w[1..] == rest && w[..0] == [];
  }

  /** A code followed by a space and more text is that token followed by the
      tokens of the rest ... */
  lemma SegmentsCodeThen(u: string, j: string, dot: string, dash: string, separator: string)
    requires Distinguishable(dot, dash, separator) && IsCode(u)
    ensures Segments(u + " " + j, dot, dash, separator, false) == [u] + Segments(j, dot, dash, separator, false)
  {
    assert IsBoundary(' ', dot, dash, separator) && Marker(' ', separator, false) == [];
    SegmentsStep(u, ' ', j, dot, dash, separator);
    assert u + " " + j == u + ([' '] + j);
  }

  /** In text mode a leading space emits nothing ... */
  lemma SegmentsSpace(j: string, dot: string, dash: string, separator: string)
    requires IsBoundary(' ', dot, dash, separator) && !IsChar(separator, ' ')
    ensures Segments([' '] + j, dot, dash, separator, false) == Segments(j, dot, dash, separator, false)
  {
    SegmentsLead(' ', j, dot, dash, separator);
  }

  /** ... and a leading separator emits itself. */
  lemma SegmentsSeparator(w: string, dot: string, dash: string, separator: string)
    requires |separator| == 1 && IsBoundary(separator[0], dot, dash, separator)
    ensures Segments(separator + w, dot, dash, separator, false) == [separator] + Segments(w, dot, dash, separator, false)
  {
    assert separator + w == [separator[0]] + w;
    SegmentsLead(separator[0], w, dot, dash, separator);
  }

  /** ... and so is the separator. */
  lemma SegmentsSeparatorThen(j: string, dot: string, dash: string, separator: string)
    requires Distinguishable(dot, dash, separator)
    ensures Segments(separator + " " + j, dot, dash, separator, false) ==
            [separator] + Segments(j, dot, dash, separator, false)
  {
    var w := [' '] + j;
    assert separator + " " + j == separator + w;
    SegmentsSpace(j, dot, dash, separator);
    SegmentsSeparator(w, dot, dash, separator);
  }

  /** In text mode the joined plain units split back into the units. */
  lemma {:induction false} SegmentsOfJoin(ps: seq<string>, dot: string, dash: string, separator: string)
    requires Distinguishable(dot, dash, separator) && Plain(ps, separator)
    ensures Segments(Join(ps), dot, dash, separator, false) == ps
    decreases |ps|
  {
    if ps == [] {
      SegmentsEmpty(dot, dash, separator);
    } else if |ps| == 1 {
      SegmentsUnit(ps[0], dot, dash, separator);
    } else {
      var u := ps[0];
      var rest := ps[1..];
      assert ps == [u] + rest;
      JoinCons(u, rest);
      SegmentsOfJoin(rest, dot, dash, separator);
      if IsCode(u) {
        SegmentsCodeThen(u, Join(rest), dot, dash, separator);
      } else {
        SegmentsSeparatorThen(Join(rest), dot, dash, separator);
      }
    }
  }

  // ---------------------------------------------------------------------------
  // Normalising the drawn text

  lemma {:induction false} ReplaceAppend(a: string, b: string, c: char, t: string)
    ensures Replace(a + b, c, t) == Replace(a, c, t) + Replace(b, c, t)
    decreases |a|
  {
    if a == [] {
      assert a + b == b;
    } else {
      ReplaceAppend(a[1..], b, c, t);
      assert (a + b)[1..] == a[1..] + b;
    }
  }

  lemma RenderAppend(a: string, b: string, dot: string, dash: string)
    ensures Render(a + b, dot, dash) == Render(a, dot, dash) + Render(b, dot, dash)
  {
    ReplaceAppend(a, b, '.', dot);
    ReplaceAppend(Replace(a, '.', dot), Replace(b, '.', dot), '-', dash);
  }

  /** Drawing the units and then joining them is drawing the joined text. */
  lemma {:induction false} RenderJoin(ps: seq<string>, dot: string, dash: string)
    ensures Join(RenderAll(ps, dot, dash)) == Render(Join(ps), dot, dash)
    decreases |ps|
  {
    var rs := RenderAll(ps, dot, dash);
    if |ps| == 1 {
      assert Join(rs) == rs[0];
    } else if |ps| > 1 {
      var init := ps[..|ps| - 1];
      RenderJoin(init, dot, dash);
      assert rs[..|rs| - 1] == RenderAll(init, dot, dash);
      RenderAppend(Join(init), " ", dot, dash);
      RenderAppend(Join(init) + " ", ps[|ps| - 1], dot, dash);
      ReplaceAbsent(" ", '.', dot);
      ReplaceAbsent(" ", '-', dash);
    }
  }

  /** The drawn form of one plain character. */
  function DrawChar(c: char, dot: string, dash: string): char
    requires |dot| == 1 && |dash| == 1
  {
    if c == '.' then dot[0] else if c == '-' then dash[0] else c
  }

  lemma RenderChars(j: string, dot: string, dash: string)
    requires |dot| == 1 && |dash| == 1 && dot[0] != '-'
    ensures |Render(j, dot, dash)| == |j|
    ensures forall i :: 0 <= i < |j| ==> Render(j, dot, dash)[i] == DrawChar(j[i], dot, dash)
  {
  }

  /** Normalising undoes the drawing, and the drawn text passes the decoder's
      character check. */
  lemma NormalizeRendered(j: string, dot: string, dash: string, separator: string)
    requires Distinguishable(dot, dash, separator)
    requires forall i :: 0 <= i < |j| ==> PlainChar(j[i], separator)
    requires j == [] || (!IsSpace(j[0]) && !IsSpace(j[|j| - 1]))
    ensures Normalize(Render(j, dot, dash), dot, dash) == j
    ensures AllAllowed(Render(j, dot, dash), dot, dash, separator)
  {
    var r := Render(j, dot, dash);
    RenderChars(j, dot, dash);
    assert r == [] || (!IsSpace(r[0]) && !IsSpace(r[|r| - 1]));
    RStripClean(r);
    assert Strip(r) == r;
    NormalizeSubstitutes(r, dot, dash);
    assert forall i :: 0 <= i < |j| ==> Allowed(r[i], dot, dash, separator);
  }

  // ---------------------------------------------------------------------------
  // The round trip

  /** The drawn, joined plain units end in a glyph, which right-stripping keeps. */
  lemma RenderClean(ps: seq<string>, dot: string, dash: string, separator: string)
    requires Distinguishable(dot, dash, separator) && Plain(ps, separator)
    ensures RStrip(Render(Join(ps), dot, dash)) == Render(Join(ps), dot, dash)
  {
    var j := Join(ps);
    if ps != [] {
      JoinEnds(ps, separator);
      RenderChars(j, dot, dash);
    }
    RStripClean(Render(j, dot, dash));
  }

  /** The intended encoder writes the plain units, drawn and joined. */
  lemma EncodeSide(text: string, language: string, dot: string, dash: string, separator: string, error: string,
                   encodes: Store)
    requires Distinguishable(dot, dash, separator)
    requires Find(encodes, Strip(Lower(language))).Some?
    requires AllFound(Strip(Lower(text)), encodes, Find(encodes, Strip(Lower(language))).value)
    requires NoTrailingC(Strip(Lower(text)))
    ensures PlainUnits(Strip(Lower(text)), encodes, Find(encodes, Strip(Lower(language))).value, separator, error).Ok?
    ensures var ps := PlainUnits(Strip(Lower(text)), encodes, Find(encodes, Strip(Lower(language))).value,
                                 separator, error).value;
            Plain(ps, separator) &&
            IntendedEncoding(text, language, dot, dash, separator, error, encodes) == Return(Render(Join(ps), dot, dash))
  {
    var s := Strip(Lower(text));
    var table := Find(encodes, Strip(Lower(language))).value;
    UnitsRendered(s, encodes, table, dot, dash, separator, error);
    var ps := PlainUnits(s, encodes, table, separator, error).value;
    var us := Units(s, encodes, table, dot, dash, separator, error, true).value;
    assert us == RenderAll(ps, dot, dash);
    EncodingIsJoin(text, language, dot, dash, separator, error, encodes, true);
    RenderJoin(ps, dot, dash);
    assert Join(us) == Render(Join(ps), dot, dash);
    RenderClean(ps, dot, dash, separator);
  }

  /** The decoder reads the drawn, joined plain units back as their
      translations. */
  lemma DecodeSide(ps: seq<string>, language: string, dot: string, dash: string, separator: string, error: string,
                   decodes: Store)
    requires Distinguishable(dot, dash, separator) && Plain(ps, separator)
    requires Find(decodes, Strip(Lower(language))).Some? && HasFallbacks(decodes)
    ensures Decoding(Render(Join(ps), dot, dash), language, dot, dash, separator, error, decodes) ==
            Return(Translated(ps, Strip(Lower(language)), separator, error, Find(decodes, Strip(Lower(language))).value,
                              Find(decodes, "numbers").value, Find(decodes, "special").value))
  {
    var j := Join(ps);
    JoinChars(ps, separator);
    if ps != [] {
      JoinEnds(ps, separator);
    }
    NormalizeRendered(j, dot, dash, separator);
    TokensAreSegments(j, dot, dash, separator, false);
    SegmentsOfJoin(ps, dot, dash, separator);
  }

  lemma RecoverFound(s: string, encodes: Store, table: Table, lang: string, separator: string, error: string,
                     codes: Table, numbers: Table, special: Table)
    requires AllRecover(s, encodes, table, lang, separator, error, codes, numbers, special)
    ensures AllFound(s, encodes, table)
  {
  }

  /** Decoding the text the encoder writes for the caller's glyphs gives back
      the lowercased, stripped input. */
  lemma DecodeEncode(text: string, language: string, dot: string, dash: string, separator: string, error: string,
                     encodes: Store, decodes: Store)
    requires Distinguishable(dot, dash, separator)
    requires Find(encodes, Strip(Lower(language))).Some?
    requires Find(decodes, Strip(Lower(language))).Some? && HasFallbacks(decodes)
    requires AllRecover(Strip(Lower(text)), encodes, Find(encodes, Strip(Lower(language))).value,
                        Strip(Lower(language)), separator, error,
                        Find(decodes, Strip(Lower(language))).value,
                        Find(decodes, "numbers").value, Find(decodes, "special").value)
    requires DigraphsDecode(Strip(Lower(text)), Strip(Lower(language))) && NoTrailingC(Strip(Lower(text)))
    ensures IntendedEncoding(text, language, dot, dash, separator, error, encodes).Return?
    ensures Decoding(IntendedEncoding(text, language, dot, dash, separator, error, encodes).value,
                     language, dot, dash, separator, error, decodes) == Return(Strip(Lower(text)))
  {
    var s := Strip(Lower(text));
    var lang := Strip(Lower(language));
    var table := Find(encodes, lang).value;
    var codes, numbers, special := Find(decodes, lang).value, Find(decodes, "numbers").value, Find(decodes, "special").value;
    RecoverFound(s, encodes, table, lang, separator, error, codes, numbers, special);
    EncodeSide(text, language, dot, dash, separator, error, encodes);
    var ps := PlainUnits(s, encodes, table, separator, error).value;
    DecodeSide(ps, language, dot, dash, separator, error, decodes);
    TranslatedUnits(s, encodes, table, lang, separator, error, codes, numbers, special);
  }

  /** With the default glyphs the encoder as written round-trips. */
  lemma DecodeEncodeDefaults(text: string, language: string, separator: string, error: string,
                             encodes: Store, decodes: Store)
    requires Distinguishable(".", "-", separator)
    requires Find(encodes, Strip(Lower(language))).Some?
    requires Find(decodes, Strip(Lower(language))).Some? && HasFallbacks(decodes)
    requires AllRecover(Strip(Lower(text)), encodes, Find(encodes, Strip(Lower(language))).value,
                        Strip(Lower(language)), separator, error,
                        Find(decodes, Strip(Lower(language))).value,
                        Find(decodes, "numbers").value, Find(decodes, "special").value)
    requires DigraphsDecode(Strip(Lower(text)), Strip(Lower(language))) && NoTrailingC(Strip(Lower(text)))
    ensures Encoding(text, language, ".", "-", separator, error, encodes).Return?
    ensures Decoding(Encoding(text, language, ".", "-", separator, error, encodes).value,
                     language, ".", "-", separator, error, decodes) == Return(Strip(Lower(text)))
  {
    DecodeEncode(text, language, ".", "-", separator, error, encodes, decodes);
    IntendedWithDefaults(text, language, separator, error, encodes);
  }
}
