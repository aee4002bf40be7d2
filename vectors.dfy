/** The test vectors of `tests/test_encoding.py` and `tests/test_decoding.py`,
    worked out. Each vector takes the data file as a parameter and requires
    only the entries its lookups read: the codes of the encode tables listed
    in `tests/test_chart.py`, and for decoding the same codes inverted. The
    general lemmas at the top evaluate one step each, so that no proof has
    to unfold a function on a long literal. */
module Vectors {
  import opened Wrappers
  import opened Text
  import opened Tables
  import opened Utilities
  import opened Encoder
  import opened Decoder
  import opened RoundTrip

  // ---------------------------------------------------------------------------
  // Evaluation steps

  lemma LowerIs(t: string, u: string)
    requires |t| == |u|
    requires forall i :: 0 <= i < |t| ==> LowerChar(t[i]) == u[i]
    ensures Lower(t) == u
  {
  }

  lemma {:induction false} RStripSpaces(x: string, post: string)
    requires AllSpace(post) && (x == [] || !IsSpace(x[|x| - 1]))
    ensures RStrip(x + post) == x
    decreases |post|
  {
    if post == [] {
      assert x + post == x;
      RStripClean(x);
    } else {
      var w := x + post;
      assert w[..|w| - 1] == x + post[..|post| - 1];
      RStripSpaces(x, post[..|post| - 1]);
    }
  }

  lemma {:induction false} LStripSpaces(pre: string, y: string)
    requires AllSpace(pre) && (y == [] || !IsSpace(y[0]))
    ensures LStrip(pre + y) == y
    decreases |pre|
  {
    if pre == [] {
      assert pre + y == y;
    } else {
      assert (pre + y)[1..] == pre[1..] + y;
      LStripSpaces(pre[1..], y);
    }
  }

  /** Stripping removes exactly the whitespace around a text that neither
      starts nor ends with whitespace. */
  lemma StripPadded(pre: string, core: string, post: string)
    requires AllSpace(pre) && AllSpace(post)
    requires core != [] && !IsSpace(core[0]) && !IsSpace(core[|core| - 1])
    ensures Strip(pre + core + post) == core
  {
    RStripSpaces(pre + core, post);
    LStripSpaces(pre, core);
  }

  /** A language name already in lower case, with nothing to strip. */
  lemma Bare(s: string)
    requires s != [] && !IsSpace(s[0]) && !IsSpace(s[|s| - 1])
    requires forall i :: 0 <= i < |s| ==> LowerChar(s[i]) == s[i]
    ensures Strip(Lower(s)) == s
  {
    LowerIs(s, s);
    StripPadded([], s, []);
    assert [] + s + [] == s;
  }

  /** The language names of the vectors need no lowering or stripping. */
  lemma EnglishName(language: string)
    requires language == "english"
    ensures Strip(Lower(language)) == language
  {
    Bare(language);
  }

  lemma FrenchName(language: string)
    requires language == "french"
    ensures Strip(Lower(language)) == language
  {
    Bare(language);
  }

  lemma SpanishName(language: string)
    requires language == "spanish"
    ensures Strip(Lower(language)) == language
  {
    Bare(language);
  }

  lemma NumbersName(language: string)
    requires language == "numbers"
    ensures Strip(Lower(language)) == language
  {
    Bare(language);
  }

  lemma SpecialName(language: string)
    requires language == "special"
    ensures Strip(Lower(language)) == language
  {
    Bare(language);
  }

  /** One step of the encoder's emissions for a character other than 'c':
      its unit, in front of the rest. */
  lemma UnitsPlain(c: char, rest: string, store: Store, table: Table, dot: string, dash: string, separator: string,
                   error: string, renderCodes: bool, u: string, us: seq<string>)
    requires c != 'c'
    requires Unit(store, table, c, dot, dash, separator, error, renderCodes) == Ok(u)
    requires Units(rest, store, table, dot, dash, separator, error, renderCodes) == Ok(us)
    ensures Units([c] + rest, store, table, dot, dash, separator, error, renderCodes) == Ok([u] + us)
  {
    assert ([c] + rest)[1..] == rest;
  }

  /** A character of the language's table writes its code. */
  lemma UnitsFound(c: char, rest: string, store: Store, table: Table, separator: string, error: string,
                   code: string, us: seq<string>)
    requires c != 'c' && c != ' ' && Find(table, [c]) == Some(code)
    requires Units(rest, store, table, ".", "-", separator, error, false) == Ok(us)
    ensures Units([c] + rest, store, table, ".", "-", separator, error, false) == Ok([code] + us)
  {
    UnitsPlain(c, rest, store, table, ".", "-", separator, error, false, code, us);
  }

  /** A character only the `numbers` table holds writes that code. */
  lemma UnitsNumbers(c: char, rest: string, store: Store, table: Table, numbers: Table, separator: string,
                     error: string, code: string, us: seq<string>)
    requires c != 'c' && c != ' ' && Find(table, [c]) == None
    requires Find(store, "numbers") == Some(numbers) && Find(numbers, [c]) == Some(code)
    requires Units(rest, store, table, ".", "-", separator, error, false) == Ok(us)
    ensures Units([c] + rest, store, table, ".", "-", separator, error, false) == Ok([code] + us)
  {
    UnitsPlain(c, rest, store, table, ".", "-", separator, error, false, code, us);
  }

  /** A character found only in `special` writes that code. */
  lemma UnitsSpecial(c: char, rest: string, store: Store, table: Table, numbers: Table, special: Table,
                     separator: string, error: string, code: string, us: seq<string>)
    requires c != 'c' && c != ' ' && Find(table, [c]) == None
    requires Find(store, "numbers") == Some(numbers) && Find(numbers, [c]) == None
    requires Find(store, "special") == Some(special) && Find(special, [c]) == Some(code)
    requires Units(rest, store, table, ".", "-", separator, error, false) == Ok(us)
    ensures Units([c] + rest, store, table, ".", "-", separator, error, false) == Ok([code] + us)
  {
    UnitsPlain(c, rest, store, table, ".", "-", separator, error, false, code, us);
  }

  /** A character in none of the three tables writes the error glyph. */
  lemma UnitsUnknown(c: char, rest: string, store: Store, table: Table, numbers: Table, special: Table,
                     separator: string, error: string, us: seq<string>)
    requires c != 'c' && c != ' ' && Find(table, [c]) == None
    requires Find(store, "numbers") == Some(numbers) && Find(numbers, [c]) == None
    requires Find(store, "special") == Some(special) && Find(special, [c]) == None
    requires Units(rest, store, table, ".", "-", separator, error, false) == Ok(us)
    ensures Units([c] + rest, store, table, ".", "-", separator, error, false) == Ok([error] + us)
  {
    UnitsPlain(c, rest, store, table, ".", "-", separator, error, false, error, us);
  }

  /** A space writes the separator. */
  lemma UnitsSpace(rest: string, store: Store, table: Table, separator: string, error: string, us: seq<string>)
    requires Units(rest, store, table, ".", "-", separator, error, false) == Ok(us)
    ensures Units([' '] + rest, store, table, ".", "-", separator, error, false) == Ok([separator] + us)
  {
    UnitsPlain(' ', rest, store, table, ".", "-", separator, error, false, separator, us);
  }

  /** "ch" writes four dashes. */
  lemma UnitsDigraph(rest: string, store: Store, table: Table, separator: string, error: string, us: seq<string>)
    requires Units(rest, store, table, ".", "-", separator, error, false) == Ok(us)
    ensures Units("ch" + rest, store, table, ".", "-", separator, error, false) == Ok(["----"] + us)
  {
    assert ("ch" + rest)[2..] == rest;
    assert Repeat("-", 4) == "----";
  }

  lemma JoinStep(u: string, rest: seq<string>, j: string)
    requires rest != [] && Join(rest) == j
    ensures Join([u] + rest) == u + " " + j
  {
    JoinCons(u, rest);
  }

  /** Joining two non-empty runs of tokens puts one space between them. */
  lemma {:induction false} JoinAppend(a: seq<string>, b: seq<string>)
    requires a != [] && b != []
    ensures Join(a + b) == Join(a) + " " + Join(b)
    decreases |b|
  {
    var ab := a + b;
    assert ab[..|ab| - 1] == a + b[..|b| - 1];
    assert ab[|ab| - 1] == b[|b| - 1];
    if |b| > 1 {
      JoinAppend(a, b[..|b| - 1]);
    } else {
      assert ab[..|ab| - 1] == a;
    }
  }

  lemma TranslatedFound(u: string, rest: seq<string>, lang: string, separator: string, error: string,
                        codes: Table, numbers: Table, special: Table, o: string, out: string)
    requires u != "----" && u != separator && u != "\n" && Find(codes, u) == Some(o)
    requires Translated(rest, lang, separator, error, codes, numbers, special) == out
    ensures Translated([u] + rest, lang, separator, error, codes, numbers, special) == o + out
  {
    TranslatedCons(u, rest, lang, separator, error, codes, numbers, special);
  }

  /** A token only `special` holds reads as its value, unless the language is `numbers`. */
  lemma TranslatedSpecial(u: string, rest: seq<string>, lang: string, separator: string, error: string,
                          codes: Table, numbers: Table, special: Table, o: string, out: string)
    requires u != "----" && u != separator && u != "\n" && Find(codes, u) == None && Find(numbers, u) == None
    requires lang != "numbers" && Find(special, u) == Some(o)
    requires Translated(rest, lang, separator, error, codes, numbers, special) == out
    ensures Translated([u] + rest, lang, separator, error, codes, numbers, special) == o + out
  {
    TranslatedCons(u, rest, lang, separator, error, codes, numbers, special);
  }

  /** The separator token reads as a space. */
  lemma TranslatedSeparator(rest: seq<string>, lang: string, separator: string, error: string,
                            codes: Table, numbers: Table, special: Table, out: string)
    requires separator != "----"
    requires Translated(rest, lang, separator, error, codes, numbers, special) == out
    ensures Translated([separator] + rest, lang, separator, error, codes, numbers, special) == " " + out
  {
    TranslatedCons(separator, rest, lang, separator, error, codes, numbers, special);
  }

  /** Four dashes read as "ch" in a digraph language. */
  lemma TranslatedCh(rest: seq<string>, lang: string, separator: string, error: string,
                     codes: Table, numbers: Table, special: Table, out: string)
    requires lang in DigraphLanguages
    requires Translated(rest, lang, separator, error, codes, numbers, special) == out
    ensures Translated(["----"] + rest, lang, separator, error, codes, numbers, special) == "ch" + out
  {
    TranslatedCons("----", rest, lang, separator, error, codes, numbers, special);
  }

  /** `encode` once the units are known: they are joined by single spaces. */
  lemma EncodingOf(text: string, language: string, dot: string, dash: string, separator: string, error: string,
                   store: Store, renderCodes: bool, s: string, us: seq<string>)
    requires Find(store, Strip(Lower(language))).Some? && ValidGlyphs(dot, dash, separator)
    requires Strip(Lower(text)) == s
    requires Units(s, store, Find(store, Strip(Lower(language))).value, dot, dash, separator, error, renderCodes) == Ok(us)
    requires us != [] && us[|us| - 1] != [] && !IsSpace(us[|us| - 1][|us[|us| - 1]| - 1])
    ensures EncodingWith(text, language, dot, dash, separator, error, store, renderCodes) == Return(Join(us))
  {
    StrippedBuffer(us);
  }

  lemma PlainCons(u: string, ps: seq<string>, separator: string)
    requires u == separator || IsCode(u)
    requires Plain(ps, separator)
    ensures Plain([u] + ps, separator)
  {
  }

  /** `decode` with the default glyphs of a text of codes and separators
      joined by single spaces: the translation of those tokens. */
  lemma DecodingOf(ps: seq<string>, language: string, separator: string, error: string, decodes: Store)
    requires Distinguishable(".", "-", separator) && Plain(ps, separator)
    requires Find(decodes, Strip(Lower(language))).Some? && HasFallbacks(decodes)
    ensures Decoding(Join(ps), language, ".", "-", separator, error, decodes) ==
            Return(Translated(ps, Strip(Lower(language)), separator, error, Find(decodes, Strip(Lower(language))).value,
                              Find(decodes, "numbers").value, Find(decodes, "special").value))
  {
    DecodeSide(ps, language, ".", "-", separator, error, decodes);
    ReplaceSelf(Join(ps), '.');
    ReplaceSelf(Replace(Join(ps), '.', "."), '-');
  }

  // ---------------------------------------------------------------------------
  // The vectors


  lemma HelloText(text: string, s: string)
    requires text == "  Hello!  " && s == "hello!"
    ensures Strip(Lower(text)) == s
  {
    var lowered, pre, post := "  hello!  ", "  ", "  ";
    LowerIs(text, lowered);
    assert pre + s + post == lowered;
    StripPadded(pre, s, post);
  }

  lemma HelloUnits(s: string, us: seq<string>, store: Store, english: Table, numbers: Table, special: Table)
    requires s == "hello!" && us == ["....", ".", ".-..", ".-..", "---", "-.-.--"]
    requires Find(store, "numbers") == Some(numbers) && Find(store, "special") == Some(special)
    requires Find(english, "h") == Some("....") && Find(english, "e") == Some(".") && Find(english, "l") == Some(".-..")
    requires Find(english, "o") == Some("---") && Find(english, "!") == None && Find(numbers, "!") == None
    requires Find(special, "!") == Some("-.-.--")
    ensures Units(s, store, english, ".", "-", "/", "*", false) == Ok(us)
  {
    var t: string, ps: seq<string> := [], [];
    UnitsSpecial('!', t, store, english, numbers, special, "/", "*", "-.-.--", ps);
    t, ps := ['!'] + t, ["-.-.--"] + ps;
    UnitsFound('o', t, store, english, "/", "*", "---", ps);
    t, ps := ['o'] + t, ["---"] + ps;
    UnitsFound('l', t, store, english, "/", "*", ".-..", ps);
    t, ps := ['l'] + t, [".-.."] + ps;
    UnitsFound('l', t, store, english, "/", "*", ".-..", ps);
    t, ps := ['l'] + t, [".-.."] + ps;
    UnitsFound('e', t, store, english, "/", "*", ".", ps);
    t, ps := ['e'] + t, ["."] + ps;
    UnitsFound('h', t, store, english, "/", "*", "....", ps);
    t, ps := ['h'] + t, ["...."] + ps;
    HelloEmitted(t, s, ps, us);
  }

  lemma HelloEmitted(t: string, s: string, ps: seq<string>, us: seq<string>)
    requires t == ['h'] + (['e'] + (['l'] + (['l'] + (['o'] + (['!'] + []))))) && s == "hello!"
    requires ps == ["...."] + (["."] + ([".-.."] + ([".-.."] + (["---"] + (["-.-.--"] + []))))) && us == ["....", ".", ".-..", ".-..", "---", "-.-.--"]
    ensures t == s && ps == us
  {
  }

  /** The tokens of Hello, joined by single spaces. */
  lemma HelloJoin(ps: seq<string>, j: string)
    requires ps == ["....", ".", ".-..", ".-..", "---", "-.-.--"]
    requires j == ".... . .-.. .-.. --- -.-.--"
    ensures Join(ps) == j
  {
    var qs: seq<string>, x: string := ["-.-.--"], "-.-.--";
    JoinStep("---", qs, x);
    qs, x := ["---"] + qs, "---" + " " + x;
    JoinStep(".-..", qs, x);
    qs, x := [".-.."] + qs, ".-.." + " " + x;
    JoinStep(".-..", qs, x);
    qs, x := [".-.."] + qs, ".-.." + " " + x;
    JoinStep(".", qs, x);
    qs, x := ["."] + qs, "." + " " + x;
    JoinStep("....", qs, x);
    qs, x := ["...."] + qs, "...." + " " + x;
    HelloListed(qs, ps);
    HelloSpaced(x, j);
  }

  lemma HelloListed(qs: seq<string>, ps: seq<string>)
    requires qs == ["...."] + (["."] + ([".-.."] + ([".-.."] + (["---"] + (["-.-.--"])))))
    requires ps == ["....", ".", ".-..", ".-..", "---", "-.-.--"]
    ensures qs == ps
  {
  }

  lemma HelloSpaced(x: string, j: string)
    requires x == "...." + " " + ("." + " " + (".-.." + " " + (".-.." + " " + ("---" + " " + ("-.-.--")))))
    requires j == ".... . .-.. .-.. --- -.-.--"
    ensures x == j
  {
  }

  /** `encode('  Hello!  ', 'english')`: lowercased and stripped; '!' falls through to the `special` table. */
  lemma EncodeHello(text: string, language: string, expected: string,
                    store: Store, english: Table, numbers: Table, special: Table)
    requires text == "  Hello!  " && language == "english"
    requires expected == ".... . .-.. .-.. --- -.-.--"
    requires Find(store, "english") == Some(english)
    requires Find(store, "numbers") == Some(numbers) && Find(store, "special") == Some(special)
    requires Find(english, "h") == Some("....") && Find(english, "e") == Some(".") && Find(english, "l") == Some(".-..")
    requires Find(english, "o") == Some("---") && Find(english, "!") == None && Find(numbers, "!") == None
    requires Find(special, "!") == Some("-.-.--")
    ensures Encoding(text, language, ".", "-", "/", "*", store) == Return(expected)
  {
    EnglishName(language);
    var s: string, us: seq<string> := "hello!", ["....", ".", ".-..", ".-..", "---", "-.-.--"];
    HelloText(text, s);
    HelloUnits(s, us, store, english, numbers, special);
    HelloJoin(us, expected);
    EncodingOf(text, language, ".", "-", "/", "*", store, false, s, us);
  }

  lemma GoodChairText(text: string, s: string)
    requires text == "Good chair." && s == "good chair."
    ensures Strip(Lower(text)) == s
  {
    var lowered, pre, post := "good chair.", "", "";
    LowerIs(text, lowered);
    assert pre + s + post == lowered;
    StripPadded(pre, s, post);
  }

  lemma GoodChairUnits(s: string, us: seq<string>, store: Store, english: Table, numbers: Table, special: Table)
    requires s == "good chair." && us == ["--.", "---", "---", "-..", "/", "----", ".-", "..", ".-.", ".-.-.-"]
    requires Find(store, "numbers") == Some(numbers) && Find(store, "special") == Some(special)
    requires Find(english, "g") == Some("--.") && Find(english, "o") == Some("---") && Find(english, "d") == Some("-..")
    requires Find(english, "a") == Some(".-") && Find(english, "i") == Some("..") && Find(english, "r") == Some(".-.")
    requires Find(english, ".") == None && Find(numbers, ".") == None && Find(special, ".") == Some(".-.-.-")
    ensures Units(s, store, english, ".", "-", "/", "*", false) == Ok(us)
  {
    var t: string, ps: seq<string> := [], [];
    UnitsSpecial('.', t, store, english, numbers, special, "/", "*", ".-.-.-", ps);
    t, ps := ['.'] + t, [".-.-.-"] + ps;
    UnitsFound('r', t, store, english, "/", "*", ".-.", ps);
    t, ps := ['r'] + t, [".-."] + ps;
    UnitsFound('i', t, store, english, "/", "*", "..", ps);
    t, ps := ['i'] + t, [".."] + ps;
    UnitsFound('a', t, store, english, "/", "*", ".-", ps);
    t, ps := ['a'] + t, [".-"] + ps;
    UnitsDigraph(t, store, english, "/", "*", ps);
    t, ps := "ch" + t, ["----"] + ps;
    UnitsSpace(t, store, english, "/", "*", ps);
    t, ps := [' '] + t, ["/"] + ps;
    UnitsFound('d', t, store, english, "/", "*", "-..", ps);
    t, ps := ['d'] + t, ["-.."] + ps;
    UnitsFound('o', t, store, english, "/", "*", "---", ps);
    t, ps := ['o'] + t, ["---"] + ps;
    UnitsFound('o', t, store, english, "/", "*", "---", ps);
    t, ps := ['o'] + t, ["---"] + ps;
    UnitsFound('g', t, store, english, "/", "*", "--.", ps);
    t, ps := ['g'] + t, ["--."] + ps;
    GoodChairEmitted(t, s, ps, us);
  }

  lemma GoodChairEmitted(t: string, s: string, ps: seq<string>, us: seq<string>)
    requires t == ['g'] + (['o'] + (['o'] + (['d'] + ([' '] + ("ch" + (['a'] + (['i'] + (['r'] + (['.'] + []))))))))) && s == "good chair."
    requires ps == ["--."] + (["---"] + (["---"] + (["-.."] + (["/"] + (["----"] + ([".-"] + ([".."] + ([".-."] + ([".-.-.-"] + []))))))))) && us == ["--.", "---", "---", "-..", "/", "----", ".-", "..", ".-.", ".-.-.-"]
    ensures t == s && ps == us
  {
  }

  /** The tokens of GoodChair, joined by single spaces. */
  lemma GoodChairJoin(ps: seq<string>, j: string)
    requires ps == ["--.", "---", "---", "-..", "/", "----", ".-", "..", ".-.", ".-.-.-"]
    requires j == "--. --- --- -.. / ---- .- .. .-. .-.-.-"
    ensures Join(ps) == j
  {
    var qs: seq<string>, x: string := [".-.-.-"], ".-.-.-";
    JoinStep(".-.", qs, x);
    qs, x := [".-."] + qs, ".-." + " " + x;
    JoinStep("..", qs, x);
    qs, x := [".."] + qs, ".." + " " + x;
    JoinStep(".-", qs, x);
    qs, x := [".-"] + qs, ".-" + " " + x;
    JoinStep("----", qs, x);
    qs, x := ["----"] + qs, "----" + " " + x;
    JoinStep("/", qs, x);
    qs, x := ["/"] + qs, "/" + " " + x;
    JoinStep("-..", qs, x);
    qs, x := ["-.."] + qs, "-.." + " " + x;
    JoinStep("---", qs, x);
    qs, x := ["---"] + qs, "---" + " " + x;
    JoinStep("---", qs, x);
    qs, x := ["---"] + qs, "---" + " " + x;
    JoinStep("--.", qs, x);
    qs, x := ["--."] + qs, "--." + " " + x;
    GoodChairListed(qs, ps);
    GoodChairSpaced(x, j);
  }

  lemma GoodChairListed(qs: seq<string>, ps: seq<string>)
    requires qs == ["--."] + (["---"] + (["---"] + (["-.."] + (["/"] + (["----"] + ([".-"] + ([".."] + ([".-."] + ([".-.-.-"])))))))))
    requires ps == ["--.", "---", "---", "-..", "/", "----", ".-", "..", ".-.", ".-.-.-"]
    ensures qs == ps
  {
  }

  lemma GoodChairSpaced(x: string, j: string)
    requires x == "--." + " " + ("---" + " " + ("---" + " " + ("-.." + " " + ("/" + " " + ("----" + " " + (".-" + " " + (".." + " " + (".-." + " " + (".-.-.-")))))))))
    requires j == "--. --- --- -.. / ---- .- .. .-. .-.-.-"
    ensures x == j
  {
  }

  /** `encode('Good chair.', 'english')`: the space writes the separator and "ch" writes four dashes. */
  lemma EncodeGoodChair(text: string, language: string, expected: string,
                    store: Store, english: Table, numbers: Table, special: Table)
    requires text == "Good chair." && language == "english"
    requires expected == "--. --- --- -.. / ---- .- .. .-. .-.-.-"
    requires Find(store, "english") == Some(english)
    requires Find(store, "numbers") == Some(numbers) && Find(store, "special") == Some(special)
    requires Find(english, "g") == Some("--.") && Find(english, "o") == Some("---") && Find(english, "d") == Some("-..")
    requires Find(english, "a") == Some(".-") && Find(english, "i") == Some("..") && Find(english, "r") == Some(".-.")
    requires Find(english, ".") == None && Find(numbers, ".") == None && Find(special, ".") == Some(".-.-.-")
    ensures Encoding(text, language, ".", "-", "/", "*", store) == Return(expected)
  {
    EnglishName(language);
    var s: string, us: seq<string> := "good chair.", ["--.", "---", "---", "-..", "/", "----", ".-", "..", ".-.", ".-.-.-"];
    GoodChairText(text, s);
    GoodChairUnits(s, us, store, english, numbers, special);
    GoodChairJoin(us, expected);
    EncodingOf(text, language, ".", "-", "/", "*", store, false, s, us);
  }

  lemma PowerText(text: string, s: string)
    requires text == "Power = ^" && s == "power = ^"
    ensures Strip(Lower(text)) == s
  {
    var lowered, pre, post := "power = ^", "", "";
    LowerIs(text, lowered);
    assert pre + s + post == lowered;
    StripPadded(pre, s, post);
  }

  lemma PowerUnits(s: string, us: seq<string>, store: Store, english: Table, numbers: Table, special: Table)
    requires s == "power = ^" && us == [".--.", "---", ".--", ".", ".-.", "/", "-...-", "/", "*"]
    requires Find(store, "numbers") == Some(numbers) && Find(store, "special") == Some(special)
    requires Find(english, "p") == Some(".--.") && Find(english, "o") == Some("---") && Find(english, "w") == Some(".--")
    requires Find(english, "e") == Some(".") && Find(english, "r") == Some(".-.") && Find(english, "=") == None
    requires Find(numbers, "=") == None && Find(special, "=") == Some("-...-") && Find(english, "^") == None
    requires Find(numbers, "^") == None && Find(special, "^") == None
    ensures Units(s, store, english, ".", "-", "/", "*", false) == Ok(us)
  {
    var t: string, ps: seq<string> := [], [];
    UnitsUnknown('^', t, store, english, numbers, special, "/", "*", ps);
    t, ps := ['^'] + t, ["*"] + ps;
    UnitsSpace(t, store, english, "/", "*", ps);
    t, ps := [' '] + t, ["/"] + ps;
    UnitsSpecial('=', t, store, english, numbers, special, "/", "*", "-...-", ps);
    t, ps := ['='] + t, ["-...-"] + ps;
    UnitsSpace(t, store, english, "/", "*", ps);
    t, ps := [' '] + t, ["/"] + ps;
    UnitsFound('r', t, store, english, "/", "*", ".-.", ps);
    t, ps := ['r'] + t, [".-."] + ps;
    UnitsFound('e', t, store, english, "/", "*", ".", ps);
    t, ps := ['e'] + t, ["."] + ps;
    UnitsFound('w', t, store, english, "/", "*", ".--", ps);
    t, ps := ['w'] + t, [".--"] + ps;
    UnitsFound('o', t, store, english, "/", "*", "---", ps);
    t, ps := ['o'] + t, ["---"] + ps;
    UnitsFound('p', t, store, english, "/", "*", ".--.", ps);
    t, ps := ['p'] + t, [".--."] + ps;
    PowerEmitted(t, s, ps, us);
  }

  lemma PowerEmitted(t: string, s: string, ps: seq<string>, us: seq<string>)
    requires t == ['p'] + (['o'] + (['w'] + (['e'] + (['r'] + ([' '] + (['='] + ([' '] + (['^'] + [])))))))) && s == "power = ^"
    requires ps == [".--."] + (["---"] + ([".--"] + (["."] + ([".-."] + (["/"] + (["-...-"] + (["/"] + (["*"] + [])))))))) && us == [".--.", "---", ".--", ".", ".-.", "/", "-...-", "/", "*"]
    ensures t == s && ps == us
  {
  }

  /** The tokens of Power, joined by single spaces. */
  lemma PowerJoin(ps: seq<string>, j: string)
    requires ps == [".--.", "---", ".--", ".", ".-.", "/", "-...-", "/", "*"]
    requires j == ".--. --- .-- . .-. / -...- / *"
    ensures Join(ps) == j
  {
    var qs: seq<string>, x: string := ["*"], "*";
    JoinStep("/", qs, x);
    qs, x := ["/"] + qs, "/" + " " + x;
    JoinStep("-...-", qs, x);
    qs, x := ["-...-"] + qs, "-...-" + " " + x;
    JoinStep("/", qs, x);
    qs, x := ["/"] + qs, "/" + " " + x;
    JoinStep(".-.", qs, x);
    qs, x := [".-."] + qs, ".-." + " " + x;
    JoinStep(".", qs, x);
    qs, x := ["."] + qs, "." + " " + x;
    JoinStep(".--", qs, x);
    qs, x := [".--"] + qs, ".--" + " " + x;
    JoinStep("---", qs, x);
    qs, x := ["---"] + qs, "---" + " " + x;
    JoinStep(".--.", qs, x);
    qs, x := [".--."] + qs, ".--." + " " + x;
    PowerListed(qs, ps);
    PowerSpaced(x, j);
  }

  lemma PowerListed(qs: seq<string>, ps: seq<string>)
    requires qs == [".--."] + (["---"] + ([".--"] + (["."] + ([".-."] + (["/"] + (["-...-"] + (["/"] + (["*"]))))))))
    requires ps == [".--.", "---", ".--", ".", ".-.", "/", "-...-", "/", "*"]
    ensures qs == ps
  {
  }

  lemma PowerSpaced(x: string, j: string)
    requires x == ".--." + " " + ("---" + " " + (".--" + " " + ("." + " " + (".-." + " " + ("/" + " " + ("-...-" + " " + ("/" + " " + ("*"))))))))
    requires j == ".--. --- .-- . .-. / -...- / *"
    ensures x == j
  {
  }

  /** `encode('Power = ^', 'english')`: '^' is in no table and writes the error glyph. */
  lemma EncodePower(text: string, language: string, expected: string,
                    store: Store, english: Table, numbers: Table, special: Table)
    requires text == "Power = ^" && language == "english"
    requires expected == ".--. --- .-- . .-. / -...- / *"
    requires Find(store, "english") == Some(english)
    requires Find(store, "numbers") == Some(numbers) && Find(store, "special") == Some(special)
    requires Find(english, "p") == Some(".--.") && Find(english, "o") == Some("---") && Find(english, "w") == Some(".--")
    requires Find(english, "e") == Some(".") && Find(english, "r") == Some(".-.") && Find(english, "=") == None
    requires Find(numbers, "=") == None && Find(special, "=") == Some("-...-") && Find(english, "^") == None
    requires Find(numbers, "^") == None && Find(special, "^") == None
    ensures Encoding(text, language, ".", "-", "/", "*", store) == Return(expected)
  {
    EnglishName(language);
    var s: string, us: seq<string> := "power = ^", [".--.", "---", ".--", ".", ".-.", "/", "-...-", "/", "*"];
    PowerText(text, s);
    PowerUnits(s, us, store, english, numbers, special);
    PowerJoin(us, expected);
    EncodingOf(text, language, ".", "-", "/", "*", store, false, s, us);
  }

  lemma ArrowText(text: string, s: string)
    requires text == "One -> 1" && s == "one -> 1"
    ensures Strip(Lower(text)) == s
  {
    var lowered, pre, post := "one -> 1", "", "";
    LowerIs(text, lowered);
    assert pre + s + post == lowered;
    StripPadded(pre, s, post);
  }

  lemma ArrowUnits(s: string, us: seq<string>, store: Store, numbers: Table, special: Table)
    requires s == "one -> 1" && us == ["*", "*", "*", "/", "-....-", "*", "/", ".----"]
    requires Find(store, "numbers") == Some(numbers) && Find(store, "special") == Some(special)
    requires Find(numbers, "o") == None && Find(special, "o") == None && Find(numbers, "n") == None
    requires Find(special, "n") == None && Find(numbers, "e") == None && Find(special, "e") == None
    requires Find(numbers, "-") == None && Find(special, "-") == Some("-....-") && Find(numbers, ">") == None
    requires Find(special, ">") == None && Find(numbers, "1") == Some(".----")
    ensures Units(s, store, numbers, ".", "-", "/", "*", false) == Ok(us)
  {
    var t: string, ps: seq<string> := [], [];
    UnitsFound('1', t, store, numbers, "/", "*", ".----", ps);
    t, ps := ['1'] + t, [".----"] + ps;
    UnitsSpace(t, store, numbers, "/", "*", ps);
    t, ps := [' '] + t, ["/"] + ps;
    UnitsUnknown('>', t, store, numbers, numbers, special, "/", "*", ps);
    t, ps := ['>'] + t, ["*"] + ps;
    UnitsSpecial('-', t, store, numbers, numbers, special, "/", "*", "-....-", ps);
    t, ps := ['-'] + t, ["-....-"] + ps;
    UnitsSpace(t, store, numbers, "/", "*", ps);
    t, ps := [' '] + t, ["/"] + ps;
    UnitsUnknown('e', t, store, numbers, numbers, special, "/", "*", ps);
    t, ps := ['e'] + t, ["*"] + ps;
    UnitsUnknown('n', t, store, numbers, numbers, special, "/", "*", ps);
    t, ps := ['n'] + t, ["*"] + ps;
    UnitsUnknown('o', t, store, numbers, numbers, special, "/", "*", ps);
    t, ps := ['o'] + t, ["*"] + ps;
    ArrowEmitted(t, s, ps, us);
  }

  lemma ArrowEmitted(t: string, s: string, ps: seq<string>, us: seq<string>)
    requires t == ['o'] + (['n'] + (['e'] + ([' '] + (['-'] + (['>'] + ([' '] + (['1'] + []))))))) && s == "one -> 1"
    requires ps == ["*"] + (["*"] + (["*"] + (["/"] + (["-....-"] + (["*"] + (["/"] + ([".----"] + []))))))) && us == ["*", "*", "*", "/", "-....-", "*", "/", ".----"]
    ensures t == s && ps == us
  {
  }

  /** The tokens of Arrow, joined by single spaces. */
  lemma ArrowJoin(ps: seq<string>, j: string)
    requires ps == ["*", "*", "*", "/", "-....-", "*", "/", ".----"]
    requires j == "* * * / -....- * / .----"
    ensures Join(ps) == j
  {
    var qs: seq<string>, x: string := [".----"], ".----";
    JoinStep("/", qs, x);
    qs, x := ["/"] + qs, "/" + " " + x;
    JoinStep("*", qs, x);
    qs, x := ["*"] + qs, "*" + " " + x;
    JoinStep("-....-", qs, x);
    qs, x := ["-....-"] + qs, "-....-" + " " + x;
    JoinStep("/", qs, x);
    qs, x := ["/"] + qs, "/" + " " + x;
    JoinStep("*", qs, x);
    qs, x := ["*"] + qs, "*" + " " + x;
    JoinStep("*", qs, x);
    qs, x := ["*"] + qs, "*" + " " + x;
    JoinStep("*", qs, x);
    qs, x := ["*"] + qs, "*" + " " + x;
    ArrowListed(qs, ps);
    ArrowSpaced(x, j);
  }

  lemma ArrowListed(qs: seq<string>, ps: seq<string>)
    requires qs == ["*"] + (["*"] + (["*"] + (["/"] + (["-....-"] + (["*"] + (["/"] + ([".----"])))))))
    requires ps == ["*", "*", "*", "/", "-....-", "*", "/", ".----"]
    ensures qs == ps
  {
  }

  lemma ArrowSpaced(x: string, j: string)
    requires x == "*" + " " + ("*" + " " + ("*" + " " + ("/" + " " + ("-....-" + " " + ("*" + " " + ("/" + " " + (".----")))))))
    requires j == "* * * / -....- * / .----"
    ensures x == j
  {
  }

  /** `encode('One -> 1', 'numbers')`: letters are in none of the three tables the chain probes. */
  lemma EncodeNumbers(text: string, language: string, expected: string,
                    store: Store, numbers: Table, special: Table)
    requires text == "One -> 1" && language == "numbers"
    requires expected == "* * * / -....- * / .----"
    requires Find(store, "numbers") == Some(numbers)
    requires Find(store, "numbers") == Some(numbers) && Find(store, "special") == Some(special)
    requires Find(numbers, "o") == None && Find(special, "o") == None && Find(numbers, "n") == None
    requires Find(special, "n") == None && Find(numbers, "e") == None && Find(special, "e") == None
    requires Find(numbers, "-") == None && Find(special, "-") == Some("-....-") && Find(numbers, ">") == None
    requires Find(special, ">") == None && Find(numbers, "1") == Some(".----")
    ensures Encoding(text, language, ".", "-", "/", "*", store) == Return(expected)
  {
    NumbersName(language);
    var s: string, us: seq<string> := "one -> 1", ["*", "*", "*", "/", "-....-", "*", "/", ".----"];
    ArrowText(text, s);
    ArrowUnits(s, us, store, numbers, special);
    ArrowJoin(us, expected);
    EncodingOf(text, language, ".", "-", "/", "*", store, false, s, us);
  }

  lemma HelloTranslated(ps: seq<string>, lang: string, out: string, english: Table, numbers: Table, special: Table)
    requires ps == ["....", ".", ".-..", ".-..", "---", "-.-.--"] && lang == "english" && out == "hello!"
    requires Find(english, "....") == Some("h") && Find(english, ".") == Some("e") && Find(english, ".-..") == Some("l")
    requires Find(english, "---") == Some("o") && Find(english, "-.-.--") == None && Find(numbers, "-.-.--") == None
    requires Find(special, "-.-.--") == Some("!")
    ensures Translated(ps, lang, "/", "*", english, numbers, special) == out
  {
    var qs: seq<string>, y: string := [], "";
    TranslatedSpecial("-.-.--", qs, lang, "/", "*", english, numbers, special, "!", y);
    qs, y := ["-.-.--"] + qs, "!" + y;
    TranslatedFound("---", qs, lang, "/", "*", english, numbers, special, "o", y);
    qs, y := ["---"] + qs, "o" + y;
    TranslatedFound(".-..", qs, lang, "/", "*", english, numbers, special, "l", y);
    qs, y := [".-.."] + qs, "l" + y;
    TranslatedFound(".-..", qs, lang, "/", "*", english, numbers, special, "l", y);
    qs, y := [".-.."] + qs, "l" + y;
    TranslatedFound(".", qs, lang, "/", "*", english, numbers, special, "e", y);
    qs, y := ["."] + qs, "e" + y;
    TranslatedFound("....", qs, lang, "/", "*", english, numbers, special, "h", y);
    qs, y := ["...."] + qs, "h" + y;
    HelloRead(qs, ps, y, out);
  }

  lemma HelloRead(qs: seq<string>, ps: seq<string>, y: string, out: string)
    requires qs == ["...."] + (["."] + ([".-.."] + ([".-.."] + (["---"] + (["-.-.--"] + []))))) && ps == ["....", ".", ".-..", ".-..", "---", "-.-.--"]
    requires y == "h" + ("e" + ("l" + ("l" + ("o" + ("!" + ""))))) && out == "hello!"
    ensures qs == ps && y == out
  {
  }

  /** `decode('.... . .-.. .-.. --- -.-.--', 'english')`. */
  lemma DecodeHello(code: string, language: string, expected: string,
                    decodes: Store, english: Table, numbers: Table, special: Table)
    requires code == ".... . .-.. .-.. --- -.-.--" && language == "english"
    requires expected == "hello!"
    requires Find(decodes, "english") == Some(english)
    requires Find(decodes, "numbers") == Some(numbers) && Find(decodes, "special") == Some(special)
    requires Find(english, "....") == Some("h") && Find(english, ".") == Some("e") && Find(english, ".-..") == Some("l")
    requires Find(english, "---") == Some("o") && Find(english, "-.-.--") == None && Find(numbers, "-.-.--") == None
    requires Find(special, "-.-.--") == Some("!")
    ensures Decoding(code, language, ".", "-", "/", "*", decodes) == Return(expected)
  {
    EnglishName(language);
    var ps: seq<string> := ["....", ".", ".-..", ".-..", "---", "-.-.--"];
    HelloJoin(ps, code);
    HelloPlain(ps);
    HelloTranslated(ps, language, expected, english, numbers, special);
    DecodingOf(ps, language, "/", "*", decodes);
  }

  lemma HelloPlain(ps: seq<string>)
    requires ps == ["....", ".", ".-..", ".-..", "---", "-.-.--"]
    ensures Plain(ps, "/")
  {
  }

  lemma GoodChairTranslated(ps: seq<string>, lang: string, out: string, english: Table, numbers: Table, special: Table)
    requires ps == ["--.", "---", "---", "-..", "/", "----", ".-", "..", ".-.", ".-.-.-"] && lang == "english" && out == "good chair."
    requires Find(english, "--.") == Some("g") && Find(english, "---") == Some("o") && Find(english, "-..") == Some("d")
    requires Find(english, ".-") == Some("a") && Find(english, "..") == Some("i") && Find(english, ".-.") == Some("r")
    requires Find(english, ".-.-.-") == None && Find(numbers, ".-.-.-") == None && Find(special, ".-.-.-") == Some(".")
    ensures Translated(ps, lang, "/", "*", english, numbers, special) == out
  {
    var qs: seq<string>, y: string := [], "";
    TranslatedSpecial(".-.-.-", qs, lang, "/", "*", english, numbers, special, ".", y);
    qs, y := [".-.-.-"] + qs, "." + y;
    TranslatedFound(".-.", qs, lang, "/", "*", english, numbers, special, "r", y);
    qs, y := [".-."] + qs, "r" + y;
    TranslatedFound("..", qs, lang, "/", "*", english, numbers, special, "i", y);
    qs, y := [".."] + qs, "i" + y;
    TranslatedFound(".-", qs, lang, "/", "*", english, numbers, special, "a", y);
    qs, y := [".-"] + qs, "a" + y;
    TranslatedCh(qs, lang, "/", "*", english, numbers, special, y);
    qs, y := ["----"] + qs, "ch" + y;
    TranslatedSeparator(qs, lang, "/", "*", english, numbers, special, y);
    qs, y := ["/"] + qs, " " + y;
    TranslatedFound("-..", qs, lang, "/", "*", english, numbers, special, "d", y);
    qs, y := ["-.."] + qs, "d" + y;
    TranslatedFound("---", qs, lang, "/", "*", english, numbers, special, "o", y);
    qs, y := ["---"] + qs, "o" + y;
    TranslatedFound("---", qs, lang, "/", "*", english, numbers, special, "o", y);
    qs, y := ["---"] + qs, "o" + y;
    TranslatedFound("--.", qs, lang, "/", "*", english, numbers, special, "g", y);
    qs, y := ["--."] + qs, "g" + y;
    GoodChairRead(qs, ps, y, out);
  }

  lemma GoodChairRead(qs: seq<string>, ps: seq<string>, y: string, out: string)
    requires qs == ["--."] + (["---"] + (["---"] + (["-.."] + (["/"] + (["----"] + ([".-"] + ([".."] + ([".-."] + ([".-.-.-"] + []))))))))) && ps == ["--.", "---", "---", "-..", "/", "----", ".-", "..", ".-.", ".-.-.-"]
    requires y == "g" + ("o" + ("o" + ("d" + (" " + ("ch" + ("a" + ("i" + ("r" + ("." + ""))))))))) && out == "good chair."
    ensures qs == ps && y == out
  {
  }

  /** `decode('--. --- --- -.. / ---- .- .. .-. .-.-.-', 'english')`: "----" is "ch" in English. */
  lemma DecodeGoodChair(code: string, language: string, expected: string,
                    decodes: Store, english: Table, numbers: Table, special: Table)
    requires code == "--. --- --- -.. / ---- .- .. .-. .-.-.-" && language == "english"
    requires expected == "good chair."
    requires Find(decodes, "english") == Some(english)
    requires Find(decodes, "numbers") == Some(numbers) && Find(decodes, "special") == Some(special)
    requires Find(english, "--.") == Some("g") && Find(english, "---") == Some("o") && Find(english, "-..") == Some("d")
    requires Find(english, ".-") == Some("a") && Find(english, "..") == Some("i") && Find(english, ".-.") == Some("r")
    requires Find(english, ".-.-.-") == None && Find(numbers, ".-.-.-") == None && Find(special, ".-.-.-") == Some(".")
    ensures Decoding(code, language, ".", "-", "/", "*", decodes) == Return(expected)
  {
    EnglishName(language);
    var ps: seq<string> := ["--.", "---", "---", "-..", "/", "----", ".-", "..", ".-.", ".-.-.-"];
    GoodChairJoin(ps, code);
    GoodChairPlain(ps);
    GoodChairTranslated(ps, language, expected, english, numbers, special);
    DecodingOf(ps, language, "/", "*", decodes);
  }

  lemma GoodChairPlain(ps: seq<string>)
    requires ps == ["--.", "---", "---", "-..", "/", "----", ".-", "..", ".-.", ".-.-.-"]
    ensures Plain(ps, "/")
  {
  }

  lemma MarksTranslated(ps: seq<string>, lang: string, out: string, numbers: Table, special: Table)
    requires ps == [".-.-.-", "/", ".--.-.", "/", "-.-.--", "..--.."] && lang == "special" && out == ". @ !?"
    requires Find(special, ".-.-.-") == Some(".") && Find(special, ".--.-.") == Some("@") && Find(special, "-.-.--") == Some("!")
    requires Find(special, "..--..") == Some("?")
    ensures Translated(ps, lang, "/", "*", special, numbers, special) == out
  {
    var qs: seq<string>, y: string := [], "";
    TranslatedFound("..--..", qs, lang, "/", "*", special, numbers, special, "?", y);
    qs, y := ["..--.."] + qs, "?" + y;
    TranslatedFound("-.-.--", qs, lang, "/", "*", special, numbers, special, "!", y);
    qs, y := ["-.-.--"] + qs, "!" + y;
    TranslatedSeparator(qs, lang, "/", "*", special, numbers, special, y);
    qs, y := ["/"] + qs, " " + y;
    TranslatedFound(".--.-.", qs, lang, "/", "*", special, numbers, special, "@", y);
    qs, y := [".--.-."] + qs, "@" + y;
    TranslatedSeparator(qs, lang, "/", "*", special, numbers, special, y);
    qs, y := ["/"] + qs, " " + y;
    TranslatedFound(".-.-.-", qs, lang, "/", "*", special, numbers, special, ".", y);
    qs, y := [".-.-.-"] + qs, "." + y;
    MarksRead(qs, ps, y, out);
  }

  lemma MarksRead(qs: seq<string>, ps: seq<string>, y: string, out: string)
    requires qs == [".-.-.-"] + (["/"] + ([".--.-."] + (["/"] + (["-.-.--"] + (["..--.."] + []))))) && ps == [".-.-.-", "/", ".--.-.", "/", "-.-.--", "..--.."]
    requires y == "." + (" " + ("@" + (" " + ("!" + ("?" + ""))))) && out == ". @ !?"
    ensures qs == ps && y == out
  {
  }

  /** The tokens of Marks, joined by single spaces. */
  lemma MarksJoin(ps: seq<string>, j: string)
    requires ps == [".-.-.-", "/", ".--.-.", "/", "-.-.--", "..--.."]
    requires j == ".-.-.- / .--.-. / -.-.-- ..--.."
    ensures Join(ps) == j
  {
    var qs: seq<string>, x: string := ["..--.."], "..--..";
    JoinStep("-.-.--", qs, x);
    qs, x := ["-.-.--"] + qs, "-.-.--" + " " + x;
    JoinStep("/", qs, x);
    qs, x := ["/"] + qs, "/" + " " + x;
    JoinStep(".--.-.", qs, x);
    qs, x := [".--.-."] + qs, ".--.-." + " " + x;
    JoinStep("/", qs, x);
    qs, x := ["/"] + qs, "/" + " " + x;
    JoinStep(".-.-.-", qs, x);
    qs, x := [".-.-.-"] + qs, ".-.-.-" + " " + x;
    MarksListed(qs, ps);
    MarksSpaced(x, j);
  }

  lemma MarksListed(qs: seq<string>, ps: seq<string>)
    requires qs == [".-.-.-"] + (["/"] + ([".--.-."] + (["/"] + (["-.-.--"] + (["..--.."])))))
    requires ps == [".-.-.-", "/", ".--.-.", "/", "-.-.--", "..--.."]
    ensures qs == ps
  {
  }

  lemma MarksSpaced(x: string, j: string)
    requires x == ".-.-.-" + " " + ("/" + " " + (".--.-." + " " + ("/" + " " + ("-.-.--" + " " + ("..--..")))))
    requires j == ".-.-.- / .--.-. / -.-.-- ..--.."
    ensures x == j
  {
  }

  /** `decode('.-.-.- / .--.-. / -.-.-- ..--..', 'special')`. */
  lemma DecodeSpecial(code: string, language: string, expected: string,
                    decodes: Store, numbers: Table, special: Table)
    requires code == ".-.-.- / .--.-. / -.-.-- ..--.." && language == "special"
    requires expected == ". @ !?"
    requires Find(decodes, "special") == Some(special)
    requires Find(decodes, "numbers") == Some(numbers) && Find(decodes, "special") == Some(special)
    requires Find(special, ".-.-.-") == Some(".") && Find(special, ".--.-.") == Some("@") && Find(special, "-.-.--") == Some("!")
    requires Find(special, "..--..") == Some("?")
    ensures Decoding(code, language, ".", "-", "/", "*", decodes) == Return(expected)
  {
    SpecialName(language);
    var ps: seq<string> := [".-.-.-", "/", ".--.-.", "/", "-.-.--", "..--.."];
    MarksJoin(ps, code);
    MarksPlain(ps);
    MarksTranslated(ps, language, expected, numbers, special);
    DecodingOf(ps, language, "/", "*", decodes);
  }

  lemma MarksPlain(ps: seq<string>)
    requires ps == [".-.-.-", "/", ".--.-.", "/", "-.-.--", "..--.."]
    ensures Plain(ps, "/")
  {
  }

  lemma EqualsTranslated(ps: seq<string>, lang: string, out: string, numbers: Table, special: Table)
    requires ps == ["-...-", "-...-", "/", "...-..-"] && lang == "special" && out == "== $"
    requires Find(special, "-...-") == Some("=") && Find(special, "...-..-") == Some("$")
    ensures Translated(ps, lang, "/", "*", special, numbers, special) == out
  {
    var qs: seq<string>, y: string := [], "";
    TranslatedFound("...-..-", qs, lang, "/", "*", special, numbers, special, "$", y);
    qs, y := ["...-..-"] + qs, "$" + y;
    TranslatedSeparator(qs, lang, "/", "*", special, numbers, special, y);
    qs, y := ["/"] + qs, " " + y;
    TranslatedFound("-...-", qs, lang, "/", "*", special, numbers, special, "=", y);
    qs, y := ["-...-"] + qs, "=" + y;
    TranslatedFound("-...-", qs, lang, "/", "*", special, numbers, special, "=", y);
    qs, y := ["-...-"] + qs, "=" + y;
    EqualsRead(qs, ps, y, out);
  }

  lemma EqualsRead(qs: seq<string>, ps: seq<string>, y: string, out: string)
    requires qs == ["-...-"] + (["-...-"] + (["/"] + (["...-..-"] + []))) && ps == ["-...-", "-...-", "/", "...-..-"]
    requires y == "=" + ("=" + (" " + ("$" + ""))) && out == "== $"
    ensures qs == ps && y == out
  {
  }

  /** The tokens of Equals, joined by single spaces. */
  lemma EqualsJoin(ps: seq<string>, j: string)
    requires ps == ["-...-", "-...-", "/", "...-..-"]
    requires j == "-...- -...- / ...-..-"
    ensures Join(ps) == j
  {
    var qs: seq<string>, x: string := ["...-..-"], "...-..-";
    JoinStep("/", qs, x);
    qs, x := ["/"] + qs, "/" + " " + x;
    JoinStep("-...-", qs, x);
    qs, x := ["-...-"] + qs, "-...-" + " " + x;
    JoinStep("-...-", qs, x);
    qs, x := ["-...-"] + qs, "-...-" + " " + x;
    EqualsListed(qs, ps);
    EqualsSpaced(x, j);
  }

  lemma EqualsListed(qs: seq<string>, ps: seq<string>)
    requires qs == ["-...-"] + (["-...-"] + (["/"] + (["...-..-"])))
    requires ps == ["-...-", "-...-", "/", "...-..-"]
    ensures qs == ps
  {
  }

  lemma EqualsSpaced(x: string, j: string)
    requires x == "-...-" + " " + ("-...-" + " " + ("/" + " " + ("...-..-")))
    requires j == "-...- -...- / ...-..-"
    ensures x == j
  {
  }

  /** `decode('-...- -...- / ...-..-', 'special')`. */
  lemma DecodeEquals(code: string, language: string, expected: string,
                    decodes: Store, numbers: Table, special: Table)
    requires code == "-...- -...- / ...-..-" && language == "special"
    requires expected == "== $"
    requires Find(decodes, "special") == Some(special)
    requires Find(decodes, "numbers") == Some(numbers) && Find(decodes, "special") == Some(special)
    requires Find(special, "-...-") == Some("=") && Find(special, "...-..-") == Some("$")
    ensures Decoding(code, language, ".", "-", "/", "*", decodes) == Return(expected)
  {
    SpecialName(language);
    var ps: seq<string> := ["-...-", "-...-", "/", "...-..-"];
    EqualsJoin(ps, code);
    EqualsPlain(ps);
    EqualsTranslated(ps, language, expected, numbers, special);
    DecodingOf(ps, language, "/", "*", decodes);
  }

  lemma EqualsPlain(ps: seq<string>)
    requires ps == ["-...-", "-...-", "/", "...-..-"]
    ensures Plain(ps, "/")
  {
  }

  lemma PowerWordTranslated(ps: seq<string>, lang: string, out: string, english: Table, numbers: Table, special: Table)
    requires ps == [".--.", "---", ".--", ".", ".-."] && lang == "english" && out == "power"
    requires Find(english, ".--.") == Some("p") && Find(english, "---") == Some("o") && Find(english, ".--") == Some("w")
    requires Find(english, ".") == Some("e") && Find(english, ".-.") == Some("r")
    ensures Translated(ps, lang, "/", "*", english, numbers, special) == out
  {
    var qs: seq<string>, y: string := [], "";
    TranslatedFound(".-.", qs, lang, "/", "*", english, numbers, special, "r", y);
    qs, y := [".-."] + qs, "r" + y;
    TranslatedFound(".", qs, lang, "/", "*", english, numbers, special, "e", y);
    qs, y := ["."] + qs, "e" + y;
    TranslatedFound(".--", qs, lang, "/", "*", english, numbers, special, "w", y);
    qs, y := [".--"] + qs, "w" + y;
    TranslatedFound("---", qs, lang, "/", "*", english, numbers, special, "o", y);
    qs, y := ["---"] + qs, "o" + y;
    TranslatedFound(".--.", qs, lang, "/", "*", english, numbers, special, "p", y);
    qs, y := [".--."] + qs, "p" + y;
    PowerWordRead(qs, ps, y, out);
  }

  lemma PowerWordRead(qs: seq<string>, ps: seq<string>, y: string, out: string)
    requires qs == [".--."] + (["---"] + ([".--"] + (["."] + ([".-."] + [])))) && ps == [".--.", "---", ".--", ".", ".-."]
    requires y == "p" + ("o" + ("w" + ("e" + ("r" + "")))) && out == "power"
    ensures qs == ps && y == out
  {
  }

  /** The tokens of PowerWord, joined by single spaces. */
  lemma PowerWordJoin(ps: seq<string>, j: string)
    requires ps == [".--.", "---", ".--", ".", ".-."]
    requires j == ".--. --- .-- . .-."
    ensures Join(ps) == j
  {
    var qs: seq<string>, x: string := [".-."], ".-.";
    JoinStep(".", qs, x);
    qs, x := ["."] + qs, "." + " " + x;
    JoinStep(".--", qs, x);
    qs, x := [".--"] + qs, ".--" + " " + x;
    JoinStep("---", qs, x);
    qs, x := ["---"] + qs, "---" + " " + x;
    JoinStep(".--.", qs, x);
    qs, x := [".--."] + qs, ".--." + " " + x;
    PowerWordListed(qs, ps);
    PowerWordSpaced(x, j);
  }

  lemma PowerWordListed(qs: seq<string>, ps: seq<string>)
    requires qs == [".--."] + (["---"] + ([".--"] + (["."] + ([".-."]))))
    requires ps == [".--.", "---", ".--", ".", ".-."]
    ensures qs == ps
  {
  }

  lemma PowerWordSpaced(x: string, j: string)
    requires x == ".--." + " " + ("---" + " " + (".--" + " " + ("." + " " + (".-."))))
    requires j == ".--. --- .-- . .-."
    ensures x == j
  {
  }

  /** `decode('.--. --- .-- . .-.', 'english')`. */
  lemma DecodePower(code: string, language: string, expected: string,
                    decodes: Store, english: Table, numbers: Table, special: Table)
    requires code == ".--. --- .-- . .-." && language == "english"
    requires expected == "power"
    requires Find(decodes, "english") == Some(english)
    requires Find(decodes, "numbers") == Some(numbers) && Find(decodes, "special") == Some(special)
    requires Find(english, ".--.") == Some("p") && Find(english, "---") == Some("o") && Find(english, ".--") == Some("w")
    requires Find(english, ".") == Some("e") && Find(english, ".-.") == Some("r")
    ensures Decoding(code, language, ".", "-", "/", "*", decodes) == Return(expected)
  {
    EnglishName(language);
    var ps: seq<string> := [".--.", "---", ".--", ".", ".-."];
    PowerWordJoin(ps, code);
    PowerWordPlain(ps);
    PowerWordTranslated(ps, language, expected, english, numbers, special);
    DecodingOf(ps, language, "/", "*", decodes);
  }

  lemma PowerWordPlain(ps: seq<string>)
    requires ps == [".--.", "---", ".--", ".", ".-."]
    ensures Plain(ps, "/")
  {
  }

  lemma BonjourText(text: string, s: string)
    requires text == "Bonjour!" && s == "bonjour!"
    ensures Strip(Lower(text)) == s
  {
    var lowered, pre, post := "bonjour!", "", "";
    LowerIs(text, lowered);
    assert pre + s + post == lowered;
    StripPadded(pre, s, post);
  }

  lemma BonjourUnits(s: string, us: seq<string>, store: Store, french: Table, numbers: Table, special: Table)
    requires s == "bonjour!" && us == ["-...", "---", "-.", ".---", "---", "..-", ".-.", "-.-.--"]
    requires Find(store, "numbers") == Some(numbers) && Find(store, "special") == Some(special)
    requires Find(french, "b") == Some("-...") && Find(french, "o") == Some("---") && Find(french, "n") == Some("-.")
    requires Find(french, "j") == Some(".---") && Find(french, "u") == Some("..-") && Find(french, "r") == Some(".-.")
    requires Find(french, "!") == None && Find(numbers, "!") == None && Find(special, "!") == Some("-.-.--")
    ensures Units(s, store, french, ".", "-", "/", "*", false) == Ok(us)
  {
    var t: string, ps: seq<string> := [], [];
    UnitsSpecial('!', t, store, french, numbers, special, "/", "*", "-.-.--", ps);
    t, ps := ['!'] + t, ["-.-.--"] + ps;
    UnitsFound('r', t, store, french, "/", "*", ".-.", ps);
    t, ps := ['r'] + t, [".-."] + ps;
    UnitsFound('u', t, store, french, "/", "*", "..-", ps);
    t, ps := ['u'] + t, ["..-"] + ps;
    UnitsFound('o', t, store, french, "/", "*", "---", ps);
    t, ps := ['o'] + t, ["---"] + ps;
    UnitsFound('j', t, store, french, "/", "*", ".---", ps);
    t, ps := ['j'] + t, [".---"] + ps;
    UnitsFound('n', t, store, french, "/", "*", "-.", ps);
    t, ps := ['n'] + t, ["-."] + ps;
    UnitsFound('o', t, store, french, "/", "*", "---", ps);
    t, ps := ['o'] + t, ["---"] + ps;
    UnitsFound('b', t, store, french, "/", "*", "-...", ps);
    t, ps := ['b'] + t, ["-..."] + ps;
    BonjourEmitted(t, s, ps, us);
  }

  lemma BonjourEmitted(t: string, s: string, ps: seq<string>, us: seq<string>)
    requires t == ['b'] + (['o'] + (['n'] + (['j'] + (['o'] + (['u'] + (['r'] + (['!'] + []))))))) && s == "bonjour!"
    requires ps == ["-..."] + (["---"] + (["-."] + ([".---"] + (["---"] + (["..-"] + ([".-."] + (["-.-.--"] + []))))))) && us == ["-...", "---", "-.", ".---", "---", "..-", ".-.", "-.-.--"]
    ensures t == s && ps == us
  {
  }

  /** The tokens of Bonjour, joined by single spaces. */
  lemma BonjourJoin(ps: seq<string>, j: string)
    requires ps == ["-...", "---", "-.", ".---", "---", "..-", ".-.", "-.-.--"]
    requires j == "-... --- -. .--- --- ..- .-. -.-.--"
    ensures Join(ps) == j
  {
    var qs: seq<string>, x: string := ["-.-.--"], "-.-.--";
    JoinStep(".-.", qs, x);
    qs, x := [".-."] + qs, ".-." + " " + x;
    JoinStep("..-", qs, x);
    qs, x := ["..-"] + qs, "..-" + " " + x;
    JoinStep("---", qs, x);
    qs, x := ["---"] + qs, "---" + " " + x;
    JoinStep(".---", qs, x);
    qs, x := [".---"] + qs, ".---" + " " + x;
    JoinStep("-.", qs, x);
    qs, x := ["-."] + qs, "-." + " " + x;
    JoinStep("---", qs, x);
    qs, x := ["---"] + qs, "---" + " " + x;
    JoinStep("-...", qs, x);
    qs, x := ["-..."] + qs, "-..." + " " + x;
    BonjourListed(qs, ps);
    BonjourSpaced(x, j);
  }

  lemma BonjourListed(qs: seq<string>, ps: seq<string>)
    requires qs == ["-..."] + (["---"] + (["-."] + ([".---"] + (["---"] + (["..-"] + ([".-."] + (["-.-.--"])))))))
    requires ps == ["-...", "---", "-.", ".---", "---", "..-", ".-.", "-.-.--"]
    ensures qs == ps
  {
  }

  lemma BonjourSpaced(x: string, j: string)
    requires x == "-..." + " " + ("---" + " " + ("-." + " " + (".---" + " " + ("---" + " " + ("..-" + " " + (".-." + " " + ("-.-.--")))))))
    requires j == "-... --- -. .--- --- ..- .-. -.-.--"
    ensures x == j
  {
  }

  /** `encode('Bonjour!', 'french')`: every letter is in the French table. */
  lemma EncodeBonjour(text: string, language: string, expected: string,
                    store: Store, french: Table, numbers: Table, special: Table)
    requires text == "Bonjour!" && language == "french"
    requires expected == "-... --- -. .--- --- ..- .-. -.-.--"
    requires Find(store, "french") == Some(french)
    requires Find(store, "numbers") == Some(numbers) && Find(store, "special") == Some(special)
    requires Find(french, "b") == Some("-...") && Find(french, "o") == Some("---") && Find(french, "n") == Some("-.")
    requires Find(french, "j") == Some(".---") && Find(french, "u") == Some("..-") && Find(french, "r") == Some(".-.")
    requires Find(french, "!") == None && Find(numbers, "!") == None && Find(special, "!") == Some("-.-.--")
    ensures Encoding(text, language, ".", "-", "/", "*", store) == Return(expected)
  {
    FrenchName(language);
    var s: string, us: seq<string> := "bonjour!", ["-...", "---", "-.", ".---", "---", "..-", ".-.", "-.-.--"];
    BonjourText(text, s);
    BonjourUnits(s, us, store, french, numbers, special);
    BonjourJoin(us, expected);
    EncodingOf(text, language, ".", "-", "/", "*", store, false, s, us);
  }

  lemma BonjourTranslated(ps: seq<string>, lang: string, out: string, french: Table, numbers: Table, special: Table)
    requires ps == ["-...", "---", "-.", ".---", "---", "..-", ".-.", "-.-.--"] && lang == "french" && out == "bonjour!"
    requires Find(french, "-...") == Some("b") && Find(french, "---") == Some("o") && Find(french, "-.") == Some("n")
    requires Find(french, ".---") == Some("j") && Find(french, "..-") == Some("u") && Find(french, ".-.") == Some("r")
    requires Find(french, "-.-.--") == None && Find(numbers, "-.-.--") == None && Find(special, "-.-.--") == Some("!")
    ensures Translated(ps, lang, "/", "*", french, numbers, special) == out
  {
    var qs: seq<string>, y: string := [], "";
    TranslatedSpecial("-.-.--", qs, lang, "/", "*", french, numbers, special, "!", y);
    qs, y := ["-.-.--"] + qs, "!" + y;
    TranslatedFound(".-.", qs, lang, "/", "*", french, numbers, special, "r", y);
    qs, y := [".-."] + qs, "r" + y;
    TranslatedFound("..-", qs, lang, "/", "*", french, numbers, special, "u", y);
    qs, y := ["..-"] + qs, "u" + y;
    TranslatedFound("---", qs, lang, "/", "*", french, numbers, special, "o", y);
    qs, y := ["---"] + qs, "o" + y;
    TranslatedFound(".---", qs, lang, "/", "*", french, numbers, special, "j", y);
    qs, y := [".---"] + qs, "j" + y;
    TranslatedFound("-.", qs, lang, "/", "*", french, numbers, special, "n", y);
    qs, y := ["-."] + qs, "n" + y;
    TranslatedFound("---", qs, lang, "/", "*", french, numbers, special, "o", y);
    qs, y := ["---"] + qs, "o" + y;
    TranslatedFound("-...", qs, lang, "/", "*", french, numbers, special, "b", y);
    qs, y := ["-..."] + qs, "b" + y;
    BonjourRead(qs, ps, y, out);
  }

  lemma BonjourRead(qs: seq<string>, ps: seq<string>, y: string, out: string)
    requires qs == ["-..."] + (["---"] + (["-."] + ([".---"] + (["---"] + (["..-"] + ([".-."] + (["-.-.--"] + []))))))) && ps == ["-...", "---", "-.", ".---", "---", "..-", ".-.", "-.-.--"]
    requires y == "b" + ("o" + ("n" + ("j" + ("o" + ("u" + ("r" + ("!" + ""))))))) && out == "bonjour!"
    ensures qs == ps && y == out
  {
  }

  /** `decode('-... --- -. .--- --- ..- .-. -.-.--', 'french')`. */
  lemma DecodeBonjour(code: string, language: string, expected: string,
                    decodes: Store, french: Table, numbers: Table, special: Table)
    requires code == "-... --- -. .--- --- ..- .-. -.-.--" && language == "french"
    requires expected == "bonjour!"
    requires Find(decodes, "french") == Some(french)
    requires Find(decodes, "numbers") == Some(numbers) && Find(decodes, "special") == Some(special)
    requires Find(french, "-...") == Some("b") && Find(french, "---") == Some("o") && Find(french, "-.") == Some("n")
    requires Find(french, ".---") == Some("j") && Find(french, "..-") == Some("u") && Find(french, ".-.") == Some("r")
    requires Find(french, "-.-.--") == None && Find(numbers, "-.-.--") == None && Find(special, "-.-.--") == Some("!")
    ensures Decoding(code, language, ".", "-", "/", "*", decodes) == Return(expected)
  {
    FrenchName(language);
    var ps: seq<string> := ["-...", "---", "-.", ".---", "---", "..-", ".-.", "-.-.--"];
    BonjourJoin(ps, code);
    BonjourPlain(ps);
    BonjourTranslated(ps, language, expected, french, numbers, special);
    DecodingOf(ps, language, "/", "*", decodes);
  }

  lemma BonjourPlain(ps: seq<string>)
    requires ps == ["-...", "---", "-.", ".---", "---", "..-", ".-.", "-.-.--"]
    ensures Plain(ps, "/")
  {
  }

  lemma HolaText(text: string, s: string)
    requires text == "\U{00A1}Hola!" && s == "\U{00A1}hola!"
    ensures Strip(Lower(text)) == s
  {
    var lowered, pre, post := "\U{00A1}hola!", "", "";
    LowerIs(text, lowered);
    assert pre + s + post == lowered;
    StripPadded(pre, s, post);
  }

  lemma HolaUnits(s: string, us: seq<string>, store: Store, spanish: Table, numbers: Table, special: Table)
    requires s == "\U{00A1}hola!" && us == ["--...-", "....", "---", ".-..", ".-", "-.-.--"]
    requires Find(store, "numbers") == Some(numbers) && Find(store, "special") == Some(special)
    requires Find(spanish, "\U{00A1}") == Some("--...-") && Find(spanish, "h") == Some("....") && Find(spanish, "o") == Some("---")
    requires Find(spanish, "l") == Some(".-..") && Find(spanish, "a") == Some(".-") && Find(spanish, "!") == None
    requires Find(numbers, "!") == None && Find(special, "!") == Some("-.-.--")
    ensures Units(s, store, spanish, ".", "-", "/", "*", false) == Ok(us)
  {
    var t: string, ps: seq<string> := [], [];
    UnitsSpecial('!', t, store, spanish, numbers, special, "/", "*", "-.-.--", ps);
    t, ps := ['!'] + t, ["-.-.--"] + ps;
    UnitsFound('a', t, store, spanish, "/", "*", ".-", ps);
    t, ps := ['a'] + t, [".-"] + ps;
    UnitsFound('l', t, store, spanish, "/", "*", ".-..", ps);
    t, ps := ['l'] + t, [".-.."] + ps;
    UnitsFound('o', t, store, spanish, "/", "*", "---", ps);
    t, ps := ['o'] + t, ["---"] + ps;
    UnitsFound('h', t, store, spanish, "/", "*", "....", ps);
    t, ps := ['h'] + t, ["...."] + ps;
    UnitsFound('\U{00A1}', t, store, spanish, "/", "*", "--...-", ps);
    t, ps := ['\U{00A1}'] + t, ["--...-"] + ps;
    HolaEmitted(t, s, ps, us);
  }

  lemma HolaEmitted(t: string, s: string, ps: seq<string>, us: seq<string>)
    requires t == ['\U{00A1}'] + (['h'] + (['o'] + (['l'] + (['a'] + (['!'] + []))))) && s == "\U{00A1}hola!"
    requires ps == ["--...-"] + (["...."] + (["---"] + ([".-.."] + ([".-"] + (["-.-.--"] + []))))) && us == ["--...-", "....", "---", ".-..", ".-", "-.-.--"]
    ensures t == s && ps == us
  {
  }

  /** The tokens of Hola, joined by single spaces. */
  lemma HolaJoin(ps: seq<string>, j: string)
    requires ps == ["--...-", "....", "---", ".-..", ".-", "-.-.--"]
    requires j == "--...- .... --- .-.. .- -.-.--"
    ensures Join(ps) == j
  {
    var qs: seq<string>, x: string := ["-.-.--"], "-.-.--";
    JoinStep(".-", qs, x);
    qs, x := [".-"] + qs, ".-" + " " + x;
    JoinStep(".-..", qs, x);
    qs, x := [".-.."] + qs, ".-.." + " " + x;
    JoinStep("---", qs, x);
    qs, x := ["---"] + qs, "---" + " " + x;
    JoinStep("....", qs, x);
    qs, x := ["...."] + qs, "...." + " " + x;
    JoinStep("--...-", qs, x);
    qs, x := ["--...-"] + qs, "--...-" + " " + x;
    HolaListed(qs, ps);
    HolaSpaced(x, j);
  }

  lemma HolaListed(qs: seq<string>, ps: seq<string>)
    requires qs == ["--...-"] + (["...."] + (["---"] + ([".-.."] + ([".-"] + (["-.-.--"])))))
    requires ps == ["--...-", "....", "---", ".-..", ".-", "-.-.--"]
    ensures qs == ps
  {
  }

  lemma HolaSpaced(x: string, j: string)
    requires x == "--...-" + " " + ("...." + " " + ("---" + " " + (".-.." + " " + (".-" + " " + ("-.-.--")))))
    requires j == "--...- .... --- .-.. .- -.-.--"
    ensures x == j
  {
  }

  /** `encode('¡Hola!', 'spanish')`: the Spanish table holds the inverted exclamation mark. */
  lemma EncodeHola(text: string, language: string, expected: string,
                    store: Store, spanish: Table, numbers: Table, special: Table)
    requires text == "\U{00A1}Hola!" && language == "spanish"
    requires expected == "--...- .... --- .-.. .- -.-.--"
    requires Find(store, "spanish") == Some(spanish)
    requires Find(store, "numbers") == Some(numbers) && Find(store, "special") == Some(special)
    requires Find(spanish, "\U{00A1}") == Some("--...-") && Find(spanish, "h") == Some("....") && Find(spanish, "o") == Some("---")
    requires Find(spanish, "l") == Some(".-..") && Find(spanish, "a") == Some(".-") && Find(spanish, "!") == None
    requires Find(numbers, "!") == None && Find(special, "!") == Some("-.-.--")
    ensures Encoding(text, language, ".", "-", "/", "*", store) == Return(expected)
  {
    SpanishName(language);
    var s: string, us: seq<string> := "\U{00A1}hola!", ["--...-", "....", "---", ".-..", ".-", "-.-.--"];
    HolaText(text, s);
    HolaUnits(s, us, store, spanish, numbers, special);
    HolaJoin(us, expected);
    EncodingOf(text, language, ".", "-", "/", "*", store, false, s, us);
  }

  lemma HolaTranslated(ps: seq<string>, lang: string, out: string, spanish: Table, numbers: Table, special: Table)
    requires ps == ["--...-", "....", "---", ".-..", ".-", "-.-.--"] && lang == "spanish" && out == "\U{00A1}hola!"
    requires Find(spanish, "--...-") == Some("\U{00A1}") && Find(spanish, "....") == Some("h") && Find(spanish, "---") == Some("o")
    requires Find(spanish, ".-..") == Some("l") && Find(spanish, ".-") == Some("a") && Find(spanish, "-.-.--") == None
    requires Find(numbers, "-.-.--") == None && Find(special, "-.-.--") == Some("!")
    ensures Translated(ps, lang, "/", "*", spanish, numbers, special) == out
  {
    var qs: seq<string>, y: string := [], "";
    TranslatedSpecial("-.-.--", qs, lang, "/", "*", spanish, numbers, special, "!", y);
    qs, y := ["-.-.--"] + qs, "!" + y;
    TranslatedFound(".-", qs, lang, "/", "*", spanish, numbers, special, "a", y);
    qs, y := [".-"] + qs, "a" + y;
    TranslatedFound(".-..", qs, lang, "/", "*", spanish, numbers, special, "l", y);
    qs, y := [".-.."] + qs, "l" + y;
    TranslatedFound("---", qs, lang, "/", "*", spanish, numbers, special, "o", y);
    qs, y := ["---"] + qs, "o" + y;
    TranslatedFound("....", qs, lang, "/", "*", spanish, numbers, special, "h", y);
    qs, y := ["...."] + qs, "h" + y;
    TranslatedFound("--...-", qs, lang, "/", "*", spanish, numbers, special, "\U{00A1}", y);
    qs, y := ["--...-"] + qs, "\U{00A1}" + y;
    HolaRead(qs, ps, y, out);
  }

  lemma HolaRead(qs: seq<string>, ps: seq<string>, y: string, out: string)
    requires qs == ["--...-"] + (["...."] + (["---"] + ([".-.."] + ([".-"] + (["-.-.--"] + []))))) && ps == ["--...-", "....", "---", ".-..", ".-", "-.-.--"]
    requires y == "\U{00A1}" + ("h" + ("o" + ("l" + ("a" + ("!" + ""))))) && out == "\U{00A1}hola!"
    ensures qs == ps && y == out
  {
  }

  /** `decode('--...- .... --- .-.. .- -.-.--', 'spanish')`. */
  lemma DecodeHola(code: string, language: string, expected: string,
                    decodes: Store, spanish: Table, numbers: Table, special: Table)
    requires code == "--...- .... --- .-.. .- -.-.--" && language == "spanish"
    requires expected == "\U{00A1}hola!"
    requires Find(decodes, "spanish") == Some(spanish)
    requires Find(decodes, "numbers") == Some(numbers) && Find(decodes, "special") == Some(special)
    requires Find(spanish, "--...-") == Some("\U{00A1}") && Find(spanish, "....") == Some("h") && Find(spanish, "---") == Some("o")
    requires Find(spanish, ".-..") == Some("l") && Find(spanish, ".-") == Some("a") && Find(spanish, "-.-.--") == None
    requires Find(numbers, "-.-.--") == None && Find(special, "-.-.--") == Some("!")
    ensures Decoding(code, language, ".", "-", "/", "*", decodes) == Return(expected)
  {
    SpanishName(language);
    var ps: seq<string> := ["--...-", "....", "---", ".-..", ".-", "-.-.--"];
    HolaJoin(ps, code);
    HolaPlain(ps);
    HolaTranslated(ps, language, expected, spanish, numbers, special);
    DecodingOf(ps, language, "/", "*", decodes);
  }

  lemma HolaPlain(ps: seq<string>)
    requires ps == ["--...-", "....", "---", ".-..", ".-", "-.-.--"]
    ensures Plain(ps, "/")
  {
  }

  lemma DigitsText(text: string, s: string)
    requires text == "1234567890" && s == "1234567890"
    ensures Strip(Lower(text)) == s
  {
    var lowered, pre, post := "1234567890", "", "";
    LowerIs(text, lowered);
    assert pre + s + post == lowered;
    StripPadded(pre, s, post);
  }

  lemma DigitsUnits(s: string, us: seq<string>, store: Store, numbers: Table, special: Table)
    requires s == "1234567890" && us == [".----", "..---", "...--", "....-", ".....", "-....", "--...", "---..", "----.", "-----"]
    requires Find(store, "numbers") == Some(numbers) && Find(store, "special") == Some(special)
    requires Find(numbers, "1") == Some(".----") && Find(numbers, "2") == Some("..---") && Find(numbers, "3") == Some("...--")
    requires Find(numbers, "4") == Some("....-") && Find(numbers, "5") == Some(".....") && Find(numbers, "6") == Some("-....")
    requires Find(numbers, "7") == Some("--...") && Find(numbers, "8") == Some("---..") && Find(numbers, "9") == Some("----.")
    requires Find(numbers, "0") == Some("-----")
    ensures Units(s, store, numbers, ".", "-", "/", "*", false) == Ok(us)
  {
    var t: string, ps: seq<string> := [], [];
    UnitsFound('0', t, store, numbers, "/", "*", "-----", ps);
    t, ps := ['0'] + t, ["-----"] + ps;
    UnitsFound('9', t, store, numbers, "/", "*", "----.", ps);
    t, ps := ['9'] + t, ["----."] + ps;
    UnitsFound('8', t, store, numbers, "/", "*", "---..", ps);
    t, ps := ['8'] + t, ["---.."] + ps;
    UnitsFound('7', t, store, numbers, "/", "*", "--...", ps);
    t, ps := ['7'] + t, ["--..."] + ps;
    UnitsFound('6', t, store, numbers, "/", "*", "-....", ps);
    t, ps := ['6'] + t, ["-...."] + ps;
    UnitsFound('5', t, store, numbers, "/", "*", ".....", ps);
    t, ps := ['5'] + t, ["....."] + ps;
    UnitsFound('4', t, store, numbers, "/", "*", "....-", ps);
    t, ps := ['4'] + t, ["....-"] + ps;
    UnitsFound('3', t, store, numbers, "/", "*", "...--", ps);
    t, ps := ['3'] + t, ["...--"] + ps;
    UnitsFound('2', t, store, numbers, "/", "*", "..---", ps);
    t, ps := ['2'] + t, ["..---"] + ps;
    UnitsFound('1', t, store, numbers, "/", "*", ".----", ps);
    t, ps := ['1'] + t, [".----"] + ps;
    DigitsEmitted(t, s, ps, us);
  }

  lemma DigitsEmitted(t: string, s: string, ps: seq<string>, us: seq<string>)
    requires t == ['1'] + (['2'] + (['3'] + (['4'] + (['5'] + (['6'] + (['7'] + (['8'] + (['9'] + (['0'] + []))))))))) && s == "1234567890"
    requires ps == [".----"] + (["..---"] + (["...--"] + (["....-"] + (["....."] + (["-...."] + (["--..."] + (["---.."] + (["----."] + (["-----"] + []))))))))) && us == [".----", "..---", "...--", "....-", ".....", "-....", "--...", "---..", "----.", "-----"]
    ensures t == s && ps == us
  {
  }

  /** The tokens of DigitsFront, joined by single spaces. */
  lemma DigitsFrontJoin(ps: seq<string>, j: string)
    requires ps == [".----", "..---", "...--", "....-", "....."]
    requires j == ".---- ..--- ...-- ....- ....."
    ensures Join(ps) == j
  {
    var qs: seq<string>, x: string := ["....."], ".....";
    JoinStep("....-", qs, x);
    qs, x := ["....-"] + qs, "....-" + " " + x;
    JoinStep("...--", qs, x);
    qs, x := ["...--"] + qs, "...--" + " " + x;
    JoinStep("..---", qs, x);
    qs, x := ["..---"] + qs, "..---" + " " + x;
    JoinStep(".----", qs, x);
    qs, x := [".----"] + qs, ".----" + " " + x;
    DigitsFrontListed(qs, ps);
    DigitsFrontSpaced(x, j);
  }

  lemma DigitsFrontListed(qs: seq<string>, ps: seq<string>)
    requires qs == [".----"] + (["..---"] + (["...--"] + (["....-"] + (["....."]))))
    requires ps == [".----", "..---", "...--", "....-", "....."]
    ensures qs == ps
  {
  }

  lemma DigitsFrontSpaced(x: string, j: string)
    requires x == ".----" + " " + ("..---" + " " + ("...--" + " " + ("....-" + " " + ("....."))))
    requires j == ".---- ..--- ...-- ....- ....."
    ensures x == j
  {
  }

  /** The tokens of DigitsBack, joined by single spaces. */
  lemma DigitsBackJoin(ps: seq<string>, j: string)
    requires ps == ["-....", "--...", "---..", "----.", "-----"]
    requires j == "-.... --... ---.. ----. -----"
    ensures Join(ps) == j
  {
    var qs: seq<string>, x: string := ["-----"], "-----";
    JoinStep("----.", qs, x);
    qs, x := ["----."] + qs, "----." + " " + x;
    JoinStep("---..", qs, x);
    qs, x := ["---.."] + qs, "---.." + " " + x;
    JoinStep("--...", qs, x);
    qs, x := ["--..."] + qs, "--..." + " " + x;
    JoinStep("-....", qs, x);
    qs, x := ["-...."] + qs, "-...." + " " + x;
    DigitsBackListed(qs, ps);
    DigitsBackSpaced(x, j);
  }

  lemma DigitsBackListed(qs: seq<string>, ps: seq<string>)
    requires qs == ["-...."] + (["--..."] + (["---.."] + (["----."] + (["-----"]))))
    requires ps == ["-....", "--...", "---..", "----.", "-----"]
    ensures qs == ps
  {
  }

  lemma DigitsBackSpaced(x: string, j: string)
    requires x == "-...." + " " + ("--..." + " " + ("---.." + " " + ("----." + " " + ("-----"))))
    requires j == "-.... --... ---.. ----. -----"
    ensures x == j
  {
  }

  /** The tokens of Digits, joined by single spaces. */
  lemma DigitsJoin(ps: seq<string>, j: string)
    requires ps == [".----", "..---", "...--", "....-", ".....", "-....", "--...", "---..", "----.", "-----"]
    requires j == ".---- ..--- ...-- ....- ..... -.... --... ---.. ----. -----"
    ensures Join(ps) == j
  {
    var a: seq<string>, b: seq<string>, ja: string, jb: string := [".----", "..---", "...--", "....-", "....."], ["-....", "--...", "---..", "----.", "-----"], ".---- ..--- ...-- ....- .....", "-.... --... ---.. ----. -----";
    DigitsFrontJoin(a, ja);
    DigitsBackJoin(b, jb);
    JoinAppend(a, b);
    DigitsHalves(a, b, ps, ja, jb, j);
  }

  lemma DigitsHalves(a: seq<string>, b: seq<string>, ps: seq<string>, ja: string, jb: string, j: string)
    requires a == [".----", "..---", "...--", "....-", "....."] && b == ["-....", "--...", "---..", "----.", "-----"] && ps == [".----", "..---", "...--", "....-", ".....", "-....", "--...", "---..", "----.", "-----"]
    requires ja == ".---- ..--- ...-- ....- ....." && jb == "-.... --... ---.. ----. -----" && j == ".---- ..--- ...-- ....- ..... -.... --... ---.. ----. -----"
    ensures a + b == ps && ja + " " + jb == j
  {
  }

  /** `encode('1234567890', 'numbers')`. */
  lemma EncodeDigits(text: string, language: string, expected: string,
                    store: Store, numbers: Table, special: Table)
    requires text == "1234567890" && language == "numbers"
    requires expected == ".---- ..--- ...-- ....- ..... -.... --... ---.. ----. -----"
    requires Find(store, "numbers") == Some(numbers)
    requires Find(store, "numbers") == Some(numbers) && Find(store, "special") == Some(special)
    requires Find(numbers, "1") == Some(".----") && Find(numbers, "2") == Some("..---") && Find(numbers, "3") == Some("...--")
    requires Find(numbers, "4") == Some("....-") && Find(numbers, "5") == Some(".....") && Find(numbers, "6") == Some("-....")
    requires Find(numbers, "7") == Some("--...") && Find(numbers, "8") == Some("---..") && Find(numbers, "9") == Some("----.")
    requires Find(numbers, "0") == Some("-----")
    ensures Encoding(text, language, ".", "-", "/", "*", store) == Return(expected)
  {
    NumbersName(language);
    var s: string, us: seq<string> := "1234567890", [".----", "..---", "...--", "....-", ".....", "-....", "--...", "---..", "----.", "-----"];
    DigitsText(text, s);
    DigitsUnits(s, us, store, numbers, special);
    DigitsJoin(us, expected);
    EncodingOf(text, language, ".", "-", "/", "*", store, false, s, us);
  }

  lemma DigitsTranslated(ps: seq<string>, lang: string, out: string, numbers: Table, special: Table)
    requires ps == [".----", "..---", "...--", "....-", ".....", "-....", "--...", "---..", "----.", "-----"] && lang == "numbers" && out == "1234567890"
    requires Find(numbers, ".----") == Some("1") && Find(numbers, "..---") == Some("2") && Find(numbers, "...--") == Some("3")
    requires Find(numbers, "....-") == Some("4") && Find(numbers, ".....") == Some("5") && Find(numbers, "-....") == Some("6")
    requires Find(numbers, "--...") == Some("7") && Find(numbers, "---..") == Some("8") && Find(numbers, "----.") == Some("9")
    requires Find(numbers, "-----") == Some("0")
    ensures Translated(ps, lang, "/", "*", numbers, numbers, special) == out
  {
    var qs: seq<string>, y: string := [], "";
    TranslatedFound("-----", qs, lang, "/", "*", numbers, numbers, special, "0", y);
    qs, y := ["-----"] + qs, "0" + y;
    TranslatedFound("----.", qs, lang, "/", "*", numbers, numbers, special, "9", y);
    qs, y := ["----."] + qs, "9" + y;
    TranslatedFound("---..", qs, lang, "/", "*", numbers, numbers, special, "8", y);
    qs, y := ["---.."] + qs, "8" + y;
    TranslatedFound("--...", qs, lang, "/", "*", numbers, numbers, special, "7", y);
    qs, y := ["--..."] + qs, "7" + y;
    TranslatedFound("-....", qs, lang, "/", "*", numbers, numbers, special, "6", y);
    qs, y := ["-...."] + qs, "6" + y;
    TranslatedFound(".....", qs, lang, "/", "*", numbers, numbers, special, "5", y);
    qs, y := ["....."] + qs, "5" + y;
    TranslatedFound("....-", qs, lang, "/", "*", numbers, numbers, special, "4", y);
    qs, y := ["....-"] + qs, "4" + y;
    TranslatedFound("...--", qs, lang, "/", "*", numbers, numbers, special, "3", y);
    qs, y := ["...--"] + qs, "3" + y;
    TranslatedFound("..---", qs, lang, "/", "*", numbers, numbers, special, "2", y);
    qs, y := ["..---"] + qs, "2" + y;
    TranslatedFound(".----", qs, lang, "/", "*", numbers, numbers, special, "1", y);
    qs, y := [".----"] + qs, "1" + y;
    DigitsRead(qs, ps, y, out);
  }

  lemma DigitsRead(qs: seq<string>, ps: seq<string>, y: string, out: string)
    requires qs == [".----"] + (["..---"] + (["...--"] + (["....-"] + (["....."] + (["-...."] + (["--..."] + (["---.."] + (["----."] + (["-----"] + []))))))))) && ps == [".----", "..---", "...--", "....-", ".....", "-....", "--...", "---..", "----.", "-----"]
    requires y == "1" + ("2" + ("3" + ("4" + ("5" + ("6" + ("7" + ("8" + ("9" + ("0" + ""))))))))) && out == "1234567890"
    ensures qs == ps && y == out
  {
  }

  /** `decode('.---- ..--- ...-- ....- ..... -.... --... ---.. ----. -----', 'numbers')`. */
  lemma DecodeDigits(code: string, language: string, expected: string,
                    decodes: Store, numbers: Table, special: Table)
    requires code == ".---- ..--- ...-- ....- ..... -.... --... ---.. ----. -----" && language == "numbers"
    requires expected == "1234567890"
    requires Find(decodes, "numbers") == Some(numbers)
    requires Find(decodes, "numbers") == Some(numbers) && Find(decodes, "special") == Some(special)
    requires Find(numbers, ".----") == Some("1") && Find(numbers, "..---") == Some("2") && Find(numbers, "...--") == Some("3")
    requires Find(numbers, "....-") == Some("4") && Find(numbers, ".....") == Some("5") && Find(numbers, "-....") == Some("6")
    requires Find(numbers, "--...") == Some("7") && Find(numbers, "---..") == Some("8") && Find(numbers, "----.") == Some("9")
    requires Find(numbers, "-----") == Some("0")
    ensures Decoding(code, language, ".", "-", "/", "*", decodes) == Return(expected)
  {
    NumbersName(language);
    var ps: seq<string> := [".----", "..---", "...--", "....-", ".....", "-....", "--...", "---..", "----.", "-----"];
    DigitsJoin(ps, code);
    DigitsPlain(ps);
    DigitsTranslated(ps, language, expected, numbers, special);
    DecodingOf(ps, language, "/", "*", decodes);
  }

  lemma DigitsPlain(ps: seq<string>)
    requires ps == [".----", "..---", "...--", "....-", ".....", "-....", "--...", "---..", "----.", "-----"]
    ensures Plain(ps, "/")
  {
  }

  lemma PunctText(text: string, s: string)
    requires text == ". ^@ !?" && s == ". ^@ !?"
    ensures Strip(Lower(text)) == s
  {
    var lowered, pre, post := ". ^@ !?", "", "";
    LowerIs(text, lowered);
    assert pre + s + post == lowered;
    StripPadded(pre, s, post);
  }

  lemma PunctUnits(s: string, us: seq<string>, store: Store, numbers: Table, special: Table)
    requires s == ". ^@ !?" && us == [".-.-.-", "/", "*", ".--.-.", "/", "-.-.--", "..--.."]
    requires Find(store, "numbers") == Some(numbers) && Find(store, "special") == Some(special)
    requires Find(special, ".") == Some(".-.-.-") && Find(special, "^") == None && Find(numbers, "^") == None
    requires Find(special, "@") == Some(".--.-.") && Find(special, "!") == Some("-.-.--") && Find(special, "?") == Some("..--..")
    ensures Units(s, store, special, ".", "-", "/", "*", false) == Ok(us)
  {
    var t: string, ps: seq<string> := [], [];
    UnitsFound('?', t, store, special, "/", "*", "..--..", ps);
    t, ps := ['?'] + t, ["..--.."] + ps;
    UnitsFound('!', t, store, special, "/", "*", "-.-.--", ps);
    t, ps := ['!'] + t, ["-.-.--"] + ps;
    UnitsSpace(t, store, special, "/", "*", ps);
    t, ps := [' '] + t, ["/"] + ps;
    UnitsFound('@', t, store, special, "/", "*", ".--.-.", ps);
    t, ps := ['@'] + t, [".--.-."] + ps;
    UnitsUnknown('^', t, store, special, numbers, special, "/", "*", ps);
    t, ps := ['^'] + t, ["*"] + ps;
    UnitsSpace(t, store, special, "/", "*", ps);
    t, ps := [' '] + t, ["/"] + ps;
    UnitsFound('.', t, store, special, "/", "*", ".-.-.-", ps);
    t, ps := ['.'] + t, [".-.-.-"] + ps;
    PunctEmitted(t, s, ps, us);
  }

  lemma PunctEmitted(t: string, s: string, ps: seq<string>, us: seq<string>)
    requires t == ['.'] + ([' '] + (['^'] + (['@'] + ([' '] + (['!'] + (['?'] + [])))))) && s == ". ^@ !?"
    requires ps == [".-.-.-"] + (["/"] + (["*"] + ([".--.-."] + (["/"] + (["-.-.--"] + (["..--.."] + [])))))) && us == [".-.-.-", "/", "*", ".--.-.", "/", "-.-.--", "..--.."]
    ensures t == s && ps == us
  {
  }

  /** The tokens of Punct, joined by single spaces. */
  lemma PunctJoin(ps: seq<string>, j: string)
    requires ps == [".-.-.-", "/", "*", ".--.-.", "/", "-.-.--", "..--.."]
    requires j == ".-.-.- / * .--.-. / -.-.-- ..--.."
    ensures Join(ps) == j
  {
    var qs: seq<string>, x: string := ["..--.."], "..--..";
    JoinStep("-.-.--", qs, x);
    qs, x := ["-.-.--"] + qs, "-.-.--" + " " + x;
    JoinStep("/", qs, x);
    qs, x := ["/"] + qs, "/" + " " + x;
    JoinStep(".--.-.", qs, x);
    qs, x := [".--.-."] + qs, ".--.-." + " " + x;
    JoinStep("*", qs, x);
    qs, x := ["*"] + qs, "*" + " " + x;
    JoinStep("/", qs, x);
    qs, x := ["/"] + qs, "/" + " " + x;
    JoinStep(".-.-.-", qs, x);
    qs, x := [".-.-.-"] + qs, ".-.-.-" + " " + x;
    PunctListed(qs, ps);
    PunctSpaced(x, j);
  }

  lemma PunctListed(qs: seq<string>, ps: seq<string>)
    requires qs == [".-.-.-"] + (["/"] + (["*"] + ([".--.-."] + (["/"] + (["-.-.--"] + (["..--.."]))))))
    requires ps == [".-.-.-", "/", "*", ".--.-.", "/", "-.-.--", "..--.."]
    ensures qs == ps
  {
  }

  lemma PunctSpaced(x: string, j: string)
    requires x == ".-.-.-" + " " + ("/" + " " + ("*" + " " + (".--.-." + " " + ("/" + " " + ("-.-.--" + " " + ("..--.."))))))
    requires j == ".-.-.- / * .--.-. / -.-.-- ..--.."
    ensures x == j
  {
  }

  /** `encode('. ^@ !?', 'special')`: '^' is in no table. */
  lemma EncodeMarks(text: string, language: string, expected: string,
                    store: Store, numbers: Table, special: Table)
    requires text == ". ^@ !?" && language == "special"
    requires expected == ".-.-.- / * .--.-. / -.-.-- ..--.."
    requires Find(store, "special") == Some(special)
    requires Find(store, "numbers") == Some(numbers) && Find(store, "special") == Some(special)
    requires Find(special, ".") == Some(".-.-.-") && Find(special, "^") == None && Find(numbers, "^") == None
    requires Find(special, "@") == Some(".--.-.") && Find(special, "!") == Some("-.-.--") && Find(special, "?") == Some("..--..")
    ensures Encoding(text, language, ".", "-", "/", "*", store) == Return(expected)
  {
    SpecialName(language);
    var s: string, us: seq<string> := ". ^@ !?", [".-.-.-", "/", "*", ".--.-.", "/", "-.-.--", "..--.."];
    PunctText(text, s);
    PunctUnits(s, us, store, numbers, special);
    PunctJoin(us, expected);
    EncodingOf(text, language, ".", "-", "/", "*", store, false, s, us);
  }

  lemma DollarText(text: string, s: string)
    requires text == "S == $" && s == "s == $"
    ensures Strip(Lower(text)) == s
  {
    var lowered, pre, post := "s == $", "", "";
    LowerIs(text, lowered);
    assert pre + s + post == lowered;
    StripPadded(pre, s, post);
  }

  lemma DollarUnits(s: string, us: seq<string>, store: Store, numbers: Table, special: Table)
    requires s == "s == $" && us == ["*", "/", "-...-", "-...-", "/", "...-..-"]
    requires Find(store, "numbers") == Some(numbers) && Find(store, "special") == Some(special)
    requires Find(special, "s") == None && Find(numbers, "s") == None && Find(special, "=") == Some("-...-")
    requires Find(special, "$") == Some("...-..-")
    ensures Units(s, store, special, ".", "-", "/", "*", false) == Ok(us)
  {
    var t: string, ps: seq<string> := [], [];
    UnitsFound('$', t, store, special, "/", "*", "...-..-", ps);
    t, ps := ['$'] + t, ["...-..-"] + ps;
    UnitsSpace(t, store, special, "/", "*", ps);
    t, ps := [' '] + t, ["/"] + ps;
    UnitsFound('=', t, store, special, "/", "*", "-...-", ps);
    t, ps := ['='] + t, ["-...-"] + ps;
    UnitsFound('=', t, store, special, "/", "*", "-...-", ps);
    t, ps := ['='] + t, ["-...-"] + ps;
    UnitsSpace(t, store, special, "/", "*", ps);
    t, ps := [' '] + t, ["/"] + ps;
    UnitsUnknown('s', t, store, special, numbers, special, "/", "*", ps);
    t, ps := ['s'] + t, ["*"] + ps;
    DollarEmitted(t, s, ps, us);
  }

  lemma DollarEmitted(t: string, s: string, ps: seq<string>, us: seq<string>)
    requires t == ['s'] + ([' '] + (['='] + (['='] + ([' '] + (['$'] + []))))) && s == "s == $"
    requires ps == ["*"] + (["/"] + (["-...-"] + (["-...-"] + (["/"] + (["...-..-"] + []))))) && us == ["*", "/", "-...-", "-...-", "/", "...-..-"]
    ensures t == s && ps == us
  {
  }

  /** The tokens of Dollar, joined by single spaces. */
  lemma DollarJoin(ps: seq<string>, j: string)
    requires ps == ["*", "/", "-...-", "-...-", "/", "...-..-"]
    requires j == "* / -...- -...- / ...-..-"
    ensures Join(ps) == j
  {
    var qs: seq<string>, x: string := ["...-..-"], "...-..-";
    JoinStep("/", qs, x);
    qs, x := ["/"] + qs, "/" + " " + x;
    JoinStep("-...-", qs, x);
    qs, x := ["-...-"] + qs, "-...-" + " " + x;
    JoinStep("-...-", qs, x);
    qs, x := ["-...-"] + qs, "-...-" + " " + x;
    JoinStep("/", qs, x);
    qs, x := ["/"] + qs, "/" + " " + x;
    JoinStep("*", qs, x);
    qs, x := ["*"] + qs, "*" + " " + x;
    DollarListed(qs, ps);
    DollarSpaced(x, j);
  }

  lemma DollarListed(qs: seq<string>, ps: seq<string>)
    requires qs == ["*"] + (["/"] + (["-...-"] + (["-...-"] + (["/"] + (["...-..-"])))))
    requires ps == ["*", "/", "-...-", "-...-", "/", "...-..-"]
    ensures qs == ps
  {
  }

  lemma DollarSpaced(x: string, j: string)
    requires x == "*" + " " + ("/" + " " + ("-...-" + " " + ("-...-" + " " + ("/" + " " + ("...-..-")))))
    requires j == "* / -...- -...- / ...-..-"
    ensures x == j
  {
  }

  /** `encode('S == $', 'special')`: letters are in none of the tables the chain probes. */
  lemma EncodeEquals(text: string, language: string, expected: string,
                    store: Store, numbers: Table, special: Table)
    requires text == "S == $" && language == "special"
    requires expected == "* / -...- -...- / ...-..-"
    requires Find(store, "special") == Some(special)
    requires Find(store, "numbers") == Some(numbers) && Find(store, "special") == Some(special)
    requires Find(special, "s") == None && Find(numbers, "s") == None && Find(special, "=") == Some("-...-")
    requires Find(special, "$") == Some("...-..-")
    ensures Encoding(text, language, ".", "-", "/", "*", store) == Return(expected)
  {
    SpecialName(language);
    var s: string, us: seq<string> := "s == $", ["*", "/", "-...-", "-...-", "/", "...-..-"];
    DollarText(text, s);
    DollarUnits(s, us, store, numbers, special);
    DollarJoin(us, expected);
    EncodingOf(text, language, ".", "-", "/", "*", store, false, s, us);
  }

  // ---------------------------------------------------------------------------
  // A custom dot glyph

  /** As written, `encode('e', 'english', dot='*')` still writes the table's
      '.', which `decode` with the same glyphs rejects. */
  lemma CustomDotAsWritten(text: string, language: string, dot: string, store: Store, english: Table, decodes: Store)
    requires text == "e" && language == "english" && dot == "*"
    requires Find(store, "english") == Some(english) && Find(english, "e") == Some(".")
    requires Find(decodes, "english").Some?
    ensures Encoding(text, language, dot, "-", "/", "*", store) == Return(".")
    ensures Decoding(".", language, dot, "-", "/", "*", decodes) == ReturnNone
  {
    EnglishName(language);
    LetterText(text);
    LetterUnits(text, store, english, dot, false, ".");
    EncodingOf(text, language, dot, "-", "/", "*", store, false, text, ["."]);
    StarRejectsDot(dot);
    DecodeRejects(".", language, dot, "-", "/", "*", decodes, t => t);
  }

  /** The intended encoder writes the caller's dot, and the trip closes. */
  lemma CustomDotIntended(text: string, language: string, dot: string, store: Store, english: Table,
                          decodes: Store, codes: Table)
    requires text == "e" && language == "english" && dot == "*"
    requires Find(store, "english") == Some(english) && Find(english, "e") == Some(".")
    requires Find(decodes, "english") == Some(codes) && Find(codes, ".") == Some("e") && HasFallbacks(decodes)
    ensures IntendedEncoding(text, language, dot, "-", "/", "*", store) == Return(dot)
    ensures Decoding(dot, language, dot, "-", "/", "*", decodes) == Return(text)
  {
    EnglishName(language);
    LetterText(text);
    LetterUnits(text, store, english, dot, true, dot);
    EncodingOf(text, language, dot, "-", "/", "*", store, true, text, [dot]);
    LetterDecodes(language, dot, decodes, codes, text);
  }

  lemma LetterText(text: string)
    requires text == "e"
    ensures Strip(Lower(text)) == text
  {
    Bare(text);
  }

  /** The one unit of "e": the table's code, drawn with the dot glyph when
      renderCodes is set. */
  lemma LetterUnits(s: string, store: Store, english: Table, dot: string, renderCodes: bool, u: string)
    requires s == "e" && dot == "*" && Find(english, "e") == Some(".")
    requires u == if renderCodes then dot else "."
    ensures Units(s, store, english, dot, "-", "/", "*", renderCodes) == Ok([u])
  {
    assert Render(".", dot, "-") == dot;
    UnitsPlain('e', [], store, english, dot, "-", "/", "*", renderCodes, u, []);
    assert ['e'] + [] == s;
    assert [u] + [] == [u];
  }

  lemma StarRejectsDot(dot: string)
    requires dot == "*"
    ensures !AllAllowed(".", dot, "-", "/")
  {
    assert !Allowed(".."[0], dot, "-", "/");
  }

  /** `decode('*', 'english', dot='*')` reads the code of 'e'. */
  lemma LetterDecodes(language: string, dot: string, decodes: Store, codes: Table, text: string)
    requires language == "english" && dot == "*" && text == "e"
    requires Find(decodes, "english") == Some(codes) && Find(codes, ".") == Some("e") && HasFallbacks(decodes)
    ensures Decoding(dot, language, dot, "-", "/", "*", decodes) == Return(text)
  {
    EnglishName(language);
    var code := ".";
    var ps := [code];
    PlainCons(code, [], "/");
    assert [code] + [] == ps;
    assert Join(ps) == code;
    assert Render(code, dot, "-") == dot;
    DecodeSide(ps, language, dot, "-", "/", "*", decodes);
    TranslatedFound(code, [], language, "/", "*", codes, Find(decodes, "numbers").value, Find(decodes, "special").value, text, "");
    assert text + "" == text;
  }
}

