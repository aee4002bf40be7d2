/** The functions `MorseCodePy/main.py` exports: an encoder textually
    identical to `encode.py`'s, a decoder that reads its tables through the
    helper `reverse_dictionary`, a chart that skips the glyph check and prints
    line by line, and the playback loop of `play.py`. */
module MainApi {
  import opened Wrappers
  import opened Text
  import opened Tables
  import Enc = Encoder
  import Dec = Decoder
  import CR = ChartRenderer
  import PB = Playback

  /** The default dot glyph of `main.chart`, as the file spells it: the two
      characters 'Â' and '·' (a UTF-8 middle dot read as Latin-1). */
  const ChartDefaultDot: string := "\U{00C2}\U{00B7}"

  // ---------------------------------------------------------------------------
  // encode

  /** `encode`: the same validation, loop and trim as `encode.py`. */
  method Encode(text: string, language: string, dot: string, dash: string, separator: string,
                error: string, encodes: Store) returns (r: Outcome<string>)
    ensures r == Enc.Encoding(text, language, dot, dash, separator, error, encodes)
  {
    r := Enc.Encode(text, language, dot, dash, separator, error, encodes);
  }

  // ---------------------------------------------------------------------------
  // decode

  /** `decode`: the loop of `decode.py`, reading the language, `numbers` and
      `special` tables through `invert`, which stands for `reverse_dictionary`
      (a helper this model does not see). */
  method Decode(code: string, language: string, dot: string, dash: string, separator: string,
                error: string, decodes: Store, invert: Table -> Table) returns (r: Outcome<string>)
    ensures r == Dec.Decoding(code, language, dot, dash, separator, error, MapTables(decodes, invert))
  {
    r := Dec.Decode(code, language, dot, dash, separator, error, decodes, invert);
    DecodeInverted(code, language, dot, dash, separator, error, decodes, invert);
  }

  /** Reading every table through invert is decoding against the inverted
      data file: same validation, same errors, same tokens. */
  lemma DecodeInverted(code: string, language: string, dot: string, dash: string, separator: string,
                       error: string, decodes: Store, invert: Table -> Table)
    ensures Dec.DecodingWith(code, language, dot, dash, separator, error, decodes, invert) ==
            Dec.Decoding(code, language, dot, dash, separator, error, MapTables(decodes, invert))
  {
    FindMapTables(decodes, invert, Strip(Lower(language)));
    FindMapTables(decodes, invert, "numbers");
    FindMapTables(decodes, invert, "special");
  }

  // ---------------------------------------------------------------------------
  // chart

  /** The inner loop of `chart`: one printed line per entry whose code is
      neither "\n" nor " ". */
  method PrintEntries(codes: Table, dot: string, dash: string) returns (lines: string)
    ensures lines == CR.Entries(codes, dot, dash, true)
  {
    ghost var line := e => CR.Line(e, dot, dash, true);
    lines := "";
    assert codes[..0] == [];
    for j := 0 to |codes|
      invariant lines == CR.Concat(codes[..j], line)
    {
      var (character, code) := codes[j];
      CR.ConcatSnoc(codes, j, line);
      if code != "\n" && code != " " {
        lines := lines + LJust(character, 5) + " " + Render(code, dot, dash) + "\n";
      }
    }
    assert codes[..|codes|] == codes;
  }

  /** `chart`: the text its prints write, each print adding a newline. No
      glyph is checked. */
  method Chart(encodes: Store, dot: string, dash: string) returns (printed: string)
    ensures printed == CR.Buffer(encodes, dot, dash, true)
  {
    ghost var section := (s: (string, Table)) => CR.Section(s.0, s.1, dot, dash, true);
    CR.HeaderAndFooter();
    // print('Morse Code Chart\n'), then print('-' * 15)
    printed := "Morse Code Chart\n\n";
    printed := printed + CR.Rule + "\n";
    assert encodes[..0] == [];
    for i := 0 to |encodes|
      invariant printed == CR.Header + CR.Concat(encodes[..i], section)
    {
      var (language, codes) := encodes[i];
      var lines := PrintEntries(codes, dot, dash);
      CR.ConcatSnoc(encodes, i, section);
      CR.Reassoc(CR.Header, CR.Concat(encodes[..i], section), CR.Heading(language), lines, CR.Footer);
      // print('\n' + language.capitalize()), the lines, then print('\n' + '-' * 15)
      printed := printed + CR.Heading(language) + lines + CR.Footer;
    }
    assert encodes[..|encodes|] == encodes;
  }

  /** With one-character glyphs and no table holding an empty code or the
      code "\n ", this chart prints what `chart.py`'s intended chart prints. */
  lemma ChartsAgree(encodes: Store, dot: string, dash: string)
    requires |dot| == 1 && |dash| == 1
    requires forall i :: 0 <= i < |encodes| ==> CR.NoOddCodes(encodes[i].1)
    ensures CR.Charting(encodes, dot, dash) == Return(CR.Buffer(encodes, dot, dash, true))
  {
    CR.ChartPrintsBuffer(encodes, dot, dash);
    CR.BuffersAgree(encodes, dot, dash);
  }

  /** A dot glyph `chart.py` would reject: the default of this chart is two
      characters long, and every table dot is drawn as both. */
  lemma ChartDefaultDotIsTwoCharacters(encodes: Store)
    ensures |ChartDefaultDot| == 2
    ensures CR.Charting(encodes, ChartDefaultDot, "-") == ReturnNone
    ensures Render(".", ChartDefaultDot, "-") == ChartDefaultDot
  {
  }

  // ---------------------------------------------------------------------------
  // play

  /** `play`: line for line the function of `play.py`. */
  method Play(code: string, delay: real, volume: real, dot: string, dash: string, separator: string)
    returns (s: PB.Session)
    ensures s == PB.Playing(code, delay, volume, dot, dash, separator)
  {
    s := PB.Play(code, delay, volume, dot, dash, separator);
  }
}
