/** The decoder of `MorseCodePy/decode.py`: three validation gates, glyph
    normalisation, tokenising, and a per-token fallback chain. The variant of
    `MorseCodePy/main.py`, which first transforms each table it reads, is the
    same code with a table view other than the identity. */
module Decoder {
  import opened Wrappers
  import opened Text
  import opened Tables
  import opened Utilities

  // ---------------------------------------------------------------------------
  // Specification

  /** The languages in which the token "----" is the digraph "ch". */
  const DigraphLanguages: set<string> := {"english", "spanish", "french"}

  /** One character of the raw code is a glyph, a space or a newline. */
  predicate Allowed(c: char, dot: string, dash: string, separator: string) {
    IsChar(dot, c) || IsChar(dash, c) || IsChar(separator, c) || c == ' ' || c == '\n'
  }

  predicate AllAllowed(code: string, dot: string, dash: string, separator: string) {
    forall i :: 0 <= i < |code| ==> Allowed(code[i], dot, dash, separator)
  }

  /** `code.strip().replace(dot, '.').replace(dash, '-')`: two replacements
      in sequence, the second also seeing what the first wrote. */
  function Normalize(code: string, dot: string, dash: string): string
    requires |dot| == 1 && |dash| == 1
  {
    Replace(Replace(Strip(code), dot[0], "."), dash[0], "-")
  }

  /** What one token writes, in the order of the `if`/`elif` chain. */
  function TranslateToken(letter: string, lang: string, separator: string, error: string,
                          codes: Table, numbers: Table, special: Table): string {
    if letter == "----" && lang in DigraphLanguages then "ch"
    else if letter == separator then " "
    else if letter == "\n" then letter
    else if Find(codes, letter).Some? then Find(codes, letter).value
    else if Find(numbers, letter).Some? && lang != "special" then Find(numbers, letter).value
    else if Find(special, letter).Some? && lang != "numbers" then Find(special, letter).value
    else error
  }

  /** The buffer after the loop over the tokens. */
  function Translated(letters: seq<string>, lang: string, separator: string, error: string,
                      codes: Table, numbers: Table, special: Table): string {
    if letters == [] then ""
    else Translated(letters[..|letters| - 1], lang, separator, error, codes, numbers, special)
         + TranslateToken(letters[|letters| - 1], lang, separator, error, codes, numbers, special)
  }

  /** `decode(code, language, dot=…, dash=…, separator=…, error=…)` against the
      decode tables; each table is read through `view` (the identity for
      `decode.py`). A missing `numbers` or `special` table raises KeyError
      after validation, whatever the code. */
  function DecodingWith(code: string, language: string, dot: string, dash: string, separator: string,
                        error: string, decodes: Store, view: Table -> Table): Outcome<string> {
    var lang := Strip(Lower(language));
    match Find(decodes, lang)
    case None => ReturnNone
    case Some(table) =>
      if !ValidGlyphs(dot, dash, separator) then ReturnNone
      else if !AllAllowed(code, dot, dash, separator) then ReturnNone
      else match (Find(decodes, "numbers"), Find(decodes, "special"))
        case (Some(numbers), Some(special)) =>
          var letters := Tokens(Normalize(code, dot, dash), dot, dash, separator, false);
          Return(Translated(letters, lang, separator, error, view(table), view(numbers), view(special)))
        case _ => Raise(KeyError)
  }

  /** `decode.py`'s decode: the tables as the data file holds them. */
  function Decoding(code: string, language: string, dot: string, dash: string, separator: string,
                    error: string, decodes: Store): Outcome<string> {
    DecodingWith(code, language, dot, dash, separator, error, decodes, t => t)
  }

  // ---------------------------------------------------------------------------
  // The loops

  /** The loop over the tokens, writing one emission per token. */
  method TranslateTokens(letters: seq<string>, lang: string, separator: string, error: string,
                         codes: Table, numbers: Table, special: Table) returns (out: string)
    ensures out == Translated(letters, lang, separator, error, codes, numbers, special)
  {
    out := "";
    for i := 0 to |letters|
      invariant out == Translated(letters[..i], lang, separator, error, codes, numbers, special)
    {
      var letter := letters[i];
      assert letters[..i + 1][..i] == letters[..i];
      out := out + TranslateToken(letter, lang, separator, error, codes, numbers, special);
    }
    assert letters[..|letters|] == letters;
  }

  /** `decode`, reading every table through `view`. */
  method Decode(code: string, language: string, dot: string, dash: string, separator: string,
                error: string, decodes: Store, view: Table -> Table) returns (r: Outcome<string>)
    ensures r == DecodingWith(code, language, dot, dash, separator, error, decodes, view)
  {
    var lang := Strip(Lower(language));
    var found := Find(decodes, lang);
    if found.None? {
      return ReturnNone;
    }
    if !ValidGlyphs(dot, dash, separator) {
      return ReturnNone;
    }
    if !AllAllowed(code, dot, dash, separator) {
      return ReturnNone;
    }
    var normalized := Normalize(code, dot, dash);
    var letters := SeparateWords(normalized, dot, dash, separator, false);
    var numbers := Find(decodes, "numbers");
    if numbers.None? {
      return Raise(KeyError);
    }
    var special := Find(decodes, "special");
    if special.None? {
      return Raise(KeyError);
    }
    var out := TranslateTokens(letters, lang, separator, error, view(found.value), view(numbers.value), view(special.value));
    return Return(out);
  }

  // ---------------------------------------------------------------------------
  // Properties

  /** `decode` returns None exactly when the language is unknown, a glyph is
      not one character, or the raw code holds a character that is neither a
      glyph, a space nor a newline. */
  lemma DecodeRejects(code: string, language: string, dot: string, dash: string, separator: string,
                      error: string, decodes: Store, view: Table -> Table)
    ensures DecodingWith(code, language, dot, dash, separator, error, decodes, view) == ReturnNone
            <==> Find(decodes, Strip(Lower(language))).None? || !ValidGlyphs(dot, dash, separator)
                 || !AllAllowed(code, dot, dash, separator)
  {
  }

  /** It raises exactly when the checks pass and a fallback table is missing. */
  lemma DecodeRaises(code: string, language: string, dot: string, dash: string, separator: string,
                     error: string, decodes: Store, view: Table -> Table)
    ensures DecodingWith(code, language, dot, dash, separator, error, decodes, view).Raise?
            <==> Find(decodes, Strip(Lower(language))).Some? && ValidGlyphs(dot, dash, separator)
                 && AllAllowed(code, dot, dash, separator) && !HasFallbacks(decodes)
  {
  }

  /** Every token contributes its own emission, in order: translating a
      concatenation concatenates the translations. */
  lemma {:induction false} TranslatedAppend(a: seq<string>, b: seq<string>, lang: string, separator: string,
                                            error: string, codes: Table, numbers: Table, special: Table)
    ensures Translated(a + b, lang, separator, error, codes, numbers, special) ==
            Translated(a, lang, separator, error, codes, numbers, special)
            + Translated(b, lang, separator, error, codes, numbers, special)
    decreases |b|
  {
    if b == [] {
      assert a + b == a;
    } else {
      var init := b[..|b| - 1];
      TranslatedAppend(a, init, lang, separator, error, codes, numbers, special);
      assert (a + b)[..|a + b| - 1] == a + init;
      assert (a + b)[|a + b| - 1] == b[|b| - 1];
    }
  }

  /** The tables a lookup probes: the language's, then `numbers` unless the
      language is `special`, then `special` unless it is `numbers`. */
  function Chain(lang: string, codes: Table, numbers: Table, special: Table): seq<Table> {
    [codes] + (if lang != "special" then [numbers] else []) + (if lang != "numbers" then [special] else [])
  }

  lemma FirstHitCons(t: Table, rest: seq<Table>, key: string)
    ensures FirstHit([t] + rest, key) == if Find(t, key).Some? then Find(t, key) else FirstHit(rest, key)
  {
    assert ([t] + rest)[1..] == rest;
  }

  lemma FirstHitSingle(t: Table, key: string)
    ensures FirstHit([t], key) == Find(t, key)
  {
    assert [t][1..] == [];
  }

  /** Apart from the "ch" digraph, the separator and the newline, a token
      writes the value of the first table of its chain that holds it, or the
      error glyph when none does. */
  lemma TranslateTokenIsFirstHit(letter: string, lang: string, separator: string, error: string,
                                 codes: Table, numbers: Table, special: Table)
    requires !(letter == "----" && lang in DigraphLanguages) && letter != separator && letter != "\n"
    ensures TranslateToken(letter, lang, separator, error, codes, numbers, special) ==
            match FirstHit(Chain(lang, codes, numbers, special), letter)
            case Some(v) => v
            case None => error
  {
    var tail := (if lang != "special" then [numbers] else []) + (if lang != "numbers" then [special] else []);
    assert Chain(lang, codes, numbers, special) == [codes] + tail;
    FirstHitCons(codes, tail, letter);
    FirstHitSingle(special, letter);
    FirstHitSingle(numbers, letter);
    if lang != "special" && lang != "numbers" {
      assert tail == [numbers] + [special];
      FirstHitCons(numbers, [special], letter);
    } else if lang != "special" {
      assert tail == [numbers];
    } else {
      assert tail == [special];
    }
  }

  /** "----" is "ch" in the digraph languages, whatever the tables say; in
      the others it goes through the lookup chain like any other code. */
  lemma DigraphToken(lang: string, separator: string, error: string, codes: Table, numbers: Table, special: Table)
    requires |separator| == 1
    ensures lang in DigraphLanguages ==> TranslateToken("----", lang, separator, error, codes, numbers, special) == "ch"
    ensures lang !in DigraphLanguages ==>
            TranslateToken("----", lang, separator, error, codes, numbers, special) ==
            match FirstHit(Chain(lang, codes, numbers, special), "----")
            case Some(v) => v
            case None => error
  {
    if lang !in DigraphLanguages {
      TranslateTokenIsFirstHit("----", lang, separator, error, codes, numbers, special);
    }
  }

  /** With distinct glyphs and a dash glyph other than '.', normalisation is a
      simultaneous substitution: the dot glyph becomes '.', the dash glyph '-',
      and every other character of the stripped code stays. */
  lemma NormalizeSubstitutes(code: string, dot: string, dash: string)
    requires |dot| == 1 && |dash| == 1 && dot != dash && dash != "."
    ensures |Normalize(code, dot, dash)| == |Strip(code)|
    ensures forall i :: 0 <= i < |Strip(code)| ==>
              Normalize(code, dot, dash)[i] ==
              if Strip(code)[i] == dot[0] then '.' else if Strip(code)[i] == dash[0] then '-' else Strip(code)[i]
  {
    var s := Strip(code);
    var once := Replace(s, dot[0], ".");
    forall i | 0 <= i < |s|
      ensures Normalize(code, dot, dash)[i] ==
              if s[i] == dot[0] then '.' else if s[i] == dash[0] then '-' else s[i]
    {
      assert once[i] == if s[i] == dot[0] then '.' else s[i];
      assert dot != [dash[0]] && "." != [dash[0]];
    }
  }
}
