/** The encoder of `MorseCodePy/encode.py` (and its textual copy in
    `MorseCodePy/main.py`): text to Morse code, one character at a time, with
    one character of lookahead for the digraph "ch". */
module Encoder {
  import opened Wrappers
  import opened Text
  import opened Tables
  import opened Utilities

  // ---------------------------------------------------------------------------
  // Specification

  /** The fallback chain for one character: the language's table, then
      `numbers`, then `special`. Ok(None) when no table holds it; a fallback
      table the store lacks raises KeyError when the chain reaches it. */
  function CharCode(store: Store, table: Table, c: char): Result<Option<string>> {
    if Find(table, [c]).Some? then Ok(Find(table, [c]))
    else match Find(store, "numbers")
      case None => Err(KeyError)
      case Some(numbers) =>
        if Find(numbers, [c]).Some? then Ok(Find(numbers, [c]))
        else match Find(store, "special")
          case None => Err(KeyError)
          case Some(special) => Ok(Find(special, [c]))
  }

  /** The emission for a character that does not start "ch": a space writes
      the separator, anything else its code, or the error glyph when no table
      holds it. renderCodes = false is the code as written (codes verbatim);
      true draws the codes with the caller's glyphs. */
  function Unit(store: Store, table: Table, c: char, dot: string, dash: string, separator: string,
                error: string, renderCodes: bool): Result<string> {
    if c == ' ' then Ok(separator)
    else match CharCode(store, table, c)
      case Err(e) => Err(e)
      case Ok(None) => Ok(error)
      case Ok(Some(code)) => Ok(if renderCodes then Render(code, dot, dash) else code)
  }

  /** Emissions e in front of whatever the rest produces. */
  function Prepend(e: seq<string>, rest: Result<seq<string>>): Result<seq<string>> {
    match rest
    case Ok(us) => Ok(e + us)
    case Err(x) => Err(x)
  }

  /** The emissions for the (lowercased, stripped) input s, left to right: a
      "ch" is one emission of four dashes; a 'c' with nothing after it reads
      past the end of the string and raises IndexError. */
  function Units(s: string, store: Store, table: Table, dot: string, dash: string, separator: string,
                 error: string, renderCodes: bool): Result<seq<string>>
    decreases |s|
  {
    if s == [] then Ok([])
    else if s[0] == 'c' && |s| == 1 then Err(IndexError)
    else if s[0] == 'c' && s[1] == 'h' then
      Prepend([Repeat(dash, 4)], Units(s[2..], store, table, dot, dash, separator, error, renderCodes))
    else match Unit(store, table, s[0], dot, dash, separator, error, renderCodes)
      case Err(e) => Err(e)
      case Ok(u) => Prepend([u], Units(s[1..], store, table, dot, dash, separator, error, renderCodes))
  }

  /** What the StringIO buffer holds: every emission followed by one space. */
  function Written(us: seq<string>): string {
    if us == [] then "" else Written(us[..|us| - 1]) + us[|us| - 1] + " "
  }

  /** `encode(text, language, dot=…, dash=…, separator=…, error=…)` against the
      tables of the data file; renderCodes chooses between the code as written
      (false) and the evidently intended glyph substitution (true). */
  function EncodingWith(text: string, language: string, dot: string, dash: string, separator: string,
                        error: string, store: Store, renderCodes: bool): Outcome<string> {
    var s := Strip(Lower(text));
    var lang := Strip(Lower(language));
    match Find(store, lang)
    case None => ReturnNone
    case Some(table) =>
      if !ValidGlyphs(dot, dash, separator) then ReturnNone
      else match Units(s, store, table, dot, dash, separator, error, renderCodes)
        case Err(e) => Raise(e)
        case Ok(us) => Return(RStrip(Written(us)))
  }

  /** What `encode` does as written: table codes are copied verbatim. */
  function Encoding(text: string, language: string, dot: string, dash: string, separator: string,
                    error: string, store: Store): Outcome<string> {
    EncodingWith(text, language, dot, dash, separator, error, store, false)
  }

  /** The evidently intended encoder: table codes drawn with dot and dash. */
  function IntendedEncoding(text: string, language: string, dot: string, dash: string, separator: string,
                            error: string, store: Store): Outcome<string> {
    EncodingWith(text, language, dot, dash, separator, error, store, true)
  }

  // ---------------------------------------------------------------------------
  // The loop

  lemma PrependPrepend(a: seq<string>, b: seq<string>, rest: Result<seq<string>>)
    ensures Prepend(a, Prepend(b, rest)) == Prepend(a + b, rest)
  {
    if rest.Ok? {
      assert a + (b + rest.value) == (a + b) + rest.value;
    }
  }

  lemma WrittenSnoc(us: seq<string>, u: string)
    ensures Written(us + [u]) == Written(us) + u + " "
  {
    assert (us + [u])[..|us|] == us;
  }

  /** The `if`/`elif` chain for one character that does not start "ch". */
  method LookUp(store: Store, table: Table, character: char, separator: string, error: string)
    returns (u: Result<string>)
    ensures u == Unit(store, table, character, ".", "-", separator, error, false)
  {
    if character == ' ' {
      return Ok(separator);
    }
    if Find(table, [character]).Some? {
      return Ok(Find(table, [character]).value);
    }
    var numbers := Find(store, "numbers");
    if numbers.None? {
      return Err(KeyError);
    }
    if Find(numbers.value, [character]).Some? {
      return Ok(Find(numbers.value, [character]).value);
    }
    var special := Find(store, "special");
    if special.None? {
      return Err(KeyError);
    }
    if Find(special.value, [character]).Some? {
      return Ok(Find(special.value, [character]).value);
    }
    return Ok(error);
  }

  /** Codes as written do not depend on the glyph arguments. */
  lemma UnitVerbatim(store: Store, table: Table, c: char, dot: string, dash: string, separator: string, error: string)
    ensures Unit(store, table, c, dot, dash, separator, error, false) == Unit(store, table, c, ".", "-", separator, error, false)
  {
  }

  /** The buffer after the loop over the stripped text s. */
  function Buffered(us: Result<seq<string>>): Result<string> {
    match us
    case Ok(us) => Ok(Written(us))
    case Err(e) => Err(e)
  }

  /** The loop of `encode` over the stripped text: one lookahead flag for
      "ch", a write of code and space per character. */
  method Translate(s: string, store: Store, table: Table, dash: string, separator: string, error: string)
    returns (r: Result<string>)
    ensures r == Buffered(Units(s, store, table, ".", dash, separator, error, false))
  {
    ghost var all := Units(s, store, table, ".", dash, separator, error, false);
    var out := "";
    ghost var emitted: seq<string> := [];
    var chHandler := false;
    assert s[0..] == s;
    if all.Ok? {
      assert [] + all.value == all.value;
    }
    for index := 0 to |s|
      invariant out == Written(emitted)
      invariant !chHandler ==> all == Prepend(emitted, Units(s[index..], store, table, ".", dash, separator, error, false))
      invariant chHandler ==> 0 < index < |s|
      invariant chHandler ==>
        all == Prepend(emitted + [Repeat(dash, 4)], Units(s[index..][1..], store, table, ".", dash, separator, error, false))
    {
      var character := s[index];
      if chHandler {
        WrittenSnoc(emitted, Repeat(dash, 4));
        assert s[index..][1..] == s[index + 1..];
        out := out + Repeat(dash, 4) + " ";
        emitted := emitted + [Repeat(dash, 4)];
        chHandler := false;
      } else if s[index] == 'c' && index + 1 == |s| {
        // string[index + 1] is one past the end
        return Err(IndexError);
      } else if s[index] == 'c' && s[index + 1] == 'h' {
        ghost var rest := s[index..];
        assert rest[2..] == s[index + 1..][1..];
        PrependPrepend(emitted, [Repeat(dash, 4)], Units(rest[2..], store, table, ".", dash, separator, error, false));
        chHandler := true;
      } else {
        var u := LookUp(store, table, character, separator, error);
        UnitVerbatim(store, table, character, ".", dash, separator, error);
        if u.Err? {
          return Err(u.exception);
        }
        ghost var rest := s[index..];
        assert rest[1..] == s[index + 1..];
        PrependPrepend(emitted, [u.value], Units(rest[1..], store, table, ".", dash, separator, error, false));
        WrittenSnoc(emitted, u.value);
        out := out + u.value + " ";
        emitted := emitted + [u.value];
      }
    }
    assert s[|s|..] == [];
    assert emitted + [] == emitted;
    return Ok(out);
  }

  /** Units as written do not depend on the dot glyph. */
  lemma {:induction false} UnitsVerbatim(s: string, store: Store, table: Table, dot: string, dash: string,
                                         separator: string, error: string)
    ensures Units(s, store, table, dot, dash, separator, error, false) == Units(s, store, table, ".", dash, separator, error, false)
    decreases |s|
  {
    if s != [] && !(s[0] == 'c' && |s| == 1) {
      if s[0] == 'c' && s[1] == 'h' {
        UnitsVerbatim(s[2..], store, table, dot, dash, separator, error);
      } else {
        UnitVerbatim(store, table, s[0], dot, dash, separator, error);
        UnitVerbatim(store, table, s[0], ".", dash, separator, error);
        UnitsVerbatim(s[1..], store, table, dot, dash, separator, error);
      }
    }
  }

  /** `encode`: validation, then the loop, then `rstrip`. */
  method Encode(text: string, language: string, dot: string, dash: string, separator: string,
                error: string, store: Store) returns (r: Outcome<string>)
    ensures r == Encoding(text, language, dot, dash, separator, error, store)
  {
    var s := Strip(Lower(text));
    var lang := Strip(Lower(language));
    var found := Find(store, lang);
    if found.None? {
      return ReturnNone;
    }
    if !ValidGlyphs(dot, dash, separator) {
      return ReturnNone;
    }
    var buffer := Translate(s, store, found.value, dash, separator, error);
    UnitsVerbatim(s, store, found.value, dot, dash, separator, error);
    match buffer
    case Err(e) => return Raise(e);
    case Ok(out) => return Return(RStrip(out));
  }

  // ---------------------------------------------------------------------------
  // Properties

  /** `encode` returns None exactly when the language is unknown or a glyph
      is not a single character; it never raises for those. */
  lemma EncodeRejects(text: string, language: string, dot: string, dash: string, separator: string,
                      error: string, store: Store, renderCodes: bool)
    ensures EncodingWith(text, language, dot, dash, separator, error, store, renderCodes) == ReturnNone
            <==> Find(store, Strip(Lower(language))).None? || !ValidGlyphs(dot, dash, separator)
  {
  }

  /** With the fallback tables present, the lookup chain is the first of the
      language, `numbers` and `special` tables that holds the character. */
  lemma CharCodeIsFirstHit(store: Store, table: Table, c: char)
    requires HasFallbacks(store)
    ensures CharCode(store, table, c) ==
            Ok(FirstHit([table, Find(store, "numbers").value, Find(store, "special").value], [c]))
  {
    var numbers, special := Find(store, "numbers").value, Find(store, "special").value;
    var tables := [table, numbers, special];
    assert tables[1..] == [numbers, special];
    assert [numbers, special][1..] == [special];
    assert [special][1..] == [];
    assert FirstHit([special], [c]) == Find(special, [c]);
    assert FirstHit([numbers, special], [c]) ==
           if Find(numbers, [c]).Some? then Find(numbers, [c]) else Find(special, [c]);
  }

  /** Without the `numbers` table, any character outside the language's
      table raises KeyError. */
  lemma MissingNumbersRaises(store: Store, table: Table, c: char)
    requires Find(store, "numbers").None?
    ensures CharCode(store, table, c).Err? <==> Find(table, [c]).None?
  {
  }

  /** With the fallback tables present, the loop fails exactly when the text
      ends in a 'c' (it reads one past the end), and then with IndexError. */
  lemma {:induction false} UnitsFail(s: string, store: Store, table: Table, dot: string, dash: string,
                                     separator: string, error: string, renderCodes: bool)
    requires HasFallbacks(store)
    ensures Units(s, store, table, dot, dash, separator, error, renderCodes).Err?
            <==> s != [] && s[|s| - 1] == 'c'
    ensures Units(s, store, table, dot, dash, separator, error, renderCodes).Err? ==>
            Units(s, store, table, dot, dash, separator, error, renderCodes).exception == IndexError
    decreases |s|
  {
    if s == [] || (s[0] == 'c' && |s| == 1) {
    } else if s[0] == 'c' && s[1] == 'h' {
      UnitsFail(s[2..], store, table, dot, dash, separator, error, renderCodes);
      assert s[2..] == [] || s[2..][|s[2..]| - 1] == s[|s| - 1];
    } else {
      CharCodeIsFirstHit(store, table, s[0]);
      UnitsFail(s[1..], store, table, dot, dash, separator, error, renderCodes);
      assert s[1..] == [] || s[1..][|s[1..]| - 1] == s[|s| - 1];
    }
  }

  /** Text that is only whitespace encodes to the empty string. */
  lemma BlankEncodesEmpty(text: string, language: string, dot: string, dash: string, separator: string,
                          error: string, store: Store, renderCodes: bool)
    requires AllSpace(Lower(text))
    requires Find(store, Strip(Lower(language))).Some? && ValidGlyphs(dot, dash, separator)
    ensures EncodingWith(text, language, dot, dash, separator, error, store, renderCodes) == Return("")
  {
  }

  /** The emissions, separated by single spaces. */
  function Join(us: seq<string>): string {
    if |us| == 0 then ""
    else if |us| == 1 then us[0]
    else Join(us[..|us| - 1]) + " " + us[|us| - 1]
  }

  /** The buffer is the emissions joined by spaces plus one trailing space. */
  lemma {:induction false} WrittenIsJoin(us: seq<string>)
    requires us != []
    ensures Written(us) == Join(us) + " "
    decreases |us|
  {
    var init := us[..|us| - 1];
    if |us| > 1 {
      WrittenIsJoin(init);
      assert Written(init) == Join(init) + " ";
      assert us[..|us| - 1][..|init| - 1] == init[..|init| - 1];
    } else {
      assert init == [];
    }
  }

  lemma RStripTrailingSpace(x: string)
    ensures RStrip(x + " ") == RStrip(x)
  {
    assert (x + " ")[..|x|] == x;
  }

  lemma RStripClean(x: string)
    requires x == [] || !IsSpace(x[|x| - 1])
    ensures RStrip(x) == x
  {
  }

  lemma JoinLast(us: seq<string>)
    requires us != [] && us[|us| - 1] != []
    ensures Join(us) != [] && Join(us)[|Join(us)| - 1] == us[|us| - 1][|us[|us| - 1]| - 1]
  {
  }

  /** The buffer, right-stripped, is the emissions separated by single
      spaces with trailing whitespace removed; nothing is removed when the
      last emission ends in a character other than whitespace. */
  lemma StrippedBuffer(us: seq<string>)
    ensures RStrip(Written(us)) == RStrip(Join(us))
    ensures us != [] && us[|us| - 1] != [] && !IsSpace(us[|us| - 1][|us[|us| - 1]| - 1]) ==>
            RStrip(Written(us)) == Join(us)
  {
    if us != [] {
      WrittenIsJoin(us);
      RStripTrailingSpace(Join(us));
      if us[|us| - 1] != [] && !IsSpace(us[|us| - 1][|us[|us| - 1]| - 1]) {
        JoinLast(us);
        RStripClean(Join(us));
      }
    }
  }

  /** What `encode` returns when no lookup raises. */
  lemma EncodingIsJoin(text: string, language: string, dot: string, dash: string, separator: string,
                       error: string, store: Store, renderCodes: bool)
    requires Find(store, Strip(Lower(language))).Some? && ValidGlyphs(dot, dash, separator)
    requires Units(Strip(Lower(text)), store, Find(store, Strip(Lower(language))).value,
                   dot, dash, separator, error, renderCodes).Ok?
    ensures EncodingWith(text, language, dot, dash, separator, error, store, renderCodes) ==
            Return(RStrip(Join(Units(Strip(Lower(text)), store, Find(store, Strip(Lower(language))).value,
                                     dot, dash, separator, error, renderCodes).value)))
  {
    StrippedBuffer(Units(Strip(Lower(text)), store, Find(store, Strip(Lower(language))).value,
                         dot, dash, separator, error, renderCodes).value);
  }

  /** As written, the dot glyph never reaches the output: two valid dot
      glyphs give the same encoding. */
  lemma EncodeIgnoresDot(text: string, language: string, dot1: string, dot2: string, dash: string,
                         separator: string, error: string, store: Store)
    requires |dot1| == 1 && |dot2| == 1
    ensures Encoding(text, language, dot1, dash, separator, error, store) ==
            Encoding(text, language, dot2, dash, separator, error, store)
  {
    var s := Strip(Lower(text));
    var found := Find(store, Strip(Lower(language)));
    if found.Some? {
      UnitsVerbatim(s, store, found.value, dot1, dash, separator, error);
      UnitsVerbatim(s, store, found.value, dot2, dash, separator, error);
    }
  }

  lemma {:induction false} ReplaceSelf(s: string, c: char)
    ensures Replace(s, c, [c]) == s
    decreases |s|
  {
    if s != [] {
      ReplaceSelf(s[1..], c);
      assert s == [s[0]] + s[1..];
    }
  }

  /** With the default glyphs the intended encoder is the one as written. */
  lemma {:induction false} UnitsDefaultGlyphs(s: string, store: Store, table: Table, separator: string, error: string)
    ensures Units(s, store, table, ".", "-", separator, error, true) ==
            Units(s, store, table, ".", "-", separator, error, false)
    decreases |s|
  {
    if s != [] && !(s[0] == 'c' && |s| == 1) {
      if s[0] == 'c' && s[1] == 'h' {
        UnitsDefaultGlyphs(s[2..], store, table, separator, error);
      } else {
        var cc := CharCode(store, table, s[0]);
        if s[0] != ' ' && cc.Ok? && cc.value.Some? {
          ReplaceSelf(cc.value.value, '.');
          ReplaceSelf(cc.value.value, '-');
        }
        UnitsDefaultGlyphs(s[1..], store, table, separator, error);
      }
    }
  }

  lemma IntendedWithDefaults(text: string, language: string, separator: string, error: string, store: Store)
    ensures IntendedEncoding(text, language, ".", "-", separator, error, store) ==
            Encoding(text, language, ".", "-", separator, error, store)
  {
    var found := Find(store, Strip(Lower(language)));
    if found.Some? {
      UnitsDefaultGlyphs(Strip(Lower(text)), store, found.value, separator, error);
    }
  }
}
