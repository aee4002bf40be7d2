# MorseCodePy in Dafny

A model of the transcoding core of MorseCodePy, with proofs about it. MorseCodePy is a Python package that turns text into Morse code and back. It also prints a chart of its code tables and plays code as sound.

The model covers six source files:

- **Tokenizer** (`MorseCodePy/utilities.py`, module `Utilities`):
  - `separate_words` splits a Morse string into tokens: letters, separators and, in sound mode, spaces. It is modelled as a loop method proved against a specification function.
  - `separate_letters` flattens the tokens back into characters.
  - The `Language` literal type is `Tables.Languages`.
- **Encoder** (`MorseCodePy/encode.py`, module `Encoder`). It:
  - lowercases and strips both the text and the language;
  - checks the language before the glyphs;
  - walks the text with the one-character lookahead flag for "ch";
  - looks each character up in the language table, then `numbers`, then `special`, else writes the error glyph;
  - writes each emission followed by a space, and right-strips the buffer.
- **Decoder** (`MorseCodePy/decode.py`, module `Decoder`). It:
  - applies three gates: the language, the glyph lengths, and the characters of the raw code;
  - normalises the glyphs by two replacements in sequence;
  - tokenises in text mode;
  - runs each token through the `----`→"ch" rule, the separator rule and the newline rule, then the lookup chain with the `special`/`numbers` exclusions.
- **Chart** (`MorseCodePy/chart.py`, module `ChartRenderer`). It checks the glyphs, then writes a title, one section per language and one line per entry into a buffer, and prints the buffer right-stripped.
- **Exported API** (`MorseCodePy/main.py`, module `MainApi`). This is the module the package actually exports:
  - an encoder identical to `encode.py`'s;
  - a decoder that reads every table through a helper that inverts it;
  - a chart that checks no glyph, skips only the codes "\n" and " ", and prints line by line;
  - `play`.
- **Playback** (`MorseCodePy/play.py`, module `Playback`):
  - the glyph, delay and volume checks, which all happen before any sound;
  - the sound-mode token stream;
  - the `match` that turns each character into a dot, dash, silence or error event.

The code tables come from JSON files, so every operation takes them as a parameter, a `Store`. A store is a list of (language, table) pairs and a table a list of (character, code) pairs, both in file order, which is the order a Python dict iterates in. A lookup reads the first entry with the key.

Python's three outcomes are the datatype `Outcome`:

- returning a value;
- returning `None` after logging an error (`ReturnNone`);
- raising an exception (`Raise`). The model has IndexError for a trailing 'c', KeyError for a missing `numbers` or `special` table, and NameError in `chart.py`.

Two further modules hold the proofs that relate the operations:

- **`RoundTrip`** proves that decoding the encoder's output gives back the lowercased, stripped text. The assumptions are that the decode tables undo the encode lookup chain and that the glyphs cannot be confused.
- **`Vectors`** proves the test vectors of `tests/test_encoding.py` and `tests/test_decoding.py`. It instantiates them with the code entries listed in `tests/test_chart.py`.

Each loop is a `method` proved against a specification function:

- `Utilities.Tokens` for `separate_words`;
- `Encoder.Units`/`Written` and `Encoder.EncodingWith` for `encode`;
- `Decoder.Translated` and `Decoder.DecodingWith` for `decode`;
- `ChartRenderer.Buffer` and `ChartRenderer.Charting` for `chart`;
- `Playback.Playing` for `play`.

The properties are lemmas about those functions.

Where the package's documented behaviour and its code disagree, the model follows the code. Three cases:

- The encoder never draws table codes with the caller's glyphs.
- `chart.py` calls a function it never imports.
- `main.chart`'s default dot is two characters long.

## Model

| member | source | states |
|---|---|---|
| Text.RStrip | MorseCodePy/encode.py:62 | `rstrip` keeps the longest prefix that does not end in whitespace; everything it removes is whitespace, and an all-whitespace string becomes empty |
| Text.Strip | MorseCodePy/encode.py:25-26 | `strip` leaves no whitespace at either end, and an all-whitespace string becomes empty |
| Text.StripIsTrim | MorseCodePy/encode.py:25-26 | what `strip` returns is a contiguous piece of s with only whitespace before and after it; with `Text.Strip`'s ensures, the result is s with its surrounding whitespace removed |
| Text.Replace | MorseCodePy/decode.py:45 | replacing one character by a one-character string keeps the length and changes exactly the positions that held it; the replaced character no longer occurs |
| Text.LJust | MorseCodePy/chart.py:32 | `f'{s:<5}'` starts with s, is max(width, \|s\|) long, and pads with spaces only |
| Text.Repeat | MorseCodePy/chart.py:24 | `s * n` is n·\|s\| long, and for one character every position holds it |
| Text.InfixOfPair | MorseCodePy/chart.py:30 | the substrings of a two-character string are exactly the empty string, each of its characters, and the pair itself |
| Tables.Find | MorseCodePy/encode.py:53-58 | a lookup fails exactly when no entry has the key; when it succeeds, the table holds an entry with that key and that value |
| Tables.FindIndex | MorseCodePy/encode.py:53-58 | the entry a lookup reads is the first one with the key |
| Tables.FindUnique | MorseCodePy/codes.py:16 | in a table without repeated keys, looking up any entry's key returns that entry's value, as a dict does |
| Tables.MapTables | MorseCodePy/main.py:116-118 | transforming every table keeps the languages and their order |
| Tables.FindMapTables | MorseCodePy/main.py:116-118 | looking a language up in the transformed store finds the transformed table, and fails exactly when the original lookup fails |
| Tables.FirstHit | MorseCodePy/decode.py:65-72 | a fallback chain finds nothing exactly when none of its tables holds the key; when it finds a value, that is the value of some table that holds the key, and no earlier table holds it |
| Utilities.SeparateWords | MorseCodePy/utilities.py:20-56 | the loop with `letters` and `current` returns the token list of its input, in both modes |
| Utilities.SeparateLetters | MorseCodePy/utilities.py:59-68 | the flattened list is as long as the token lengths added up |
| Utilities.SeparateLettersAppend | MorseCodePy/utilities.py:59-68 | flattening a concatenation of token lists concatenates their flattenings |
| Utilities.StepCases | MorseCodePy/utilities.py:37-51 | a separator or a space (unless it is the dot or the dash) flushes the pending letter and emits its marker; any other character, a newline included, joins the pending letter |
| Utilities.TokensAreSegments | MorseCodePy/utilities.py:36-54 | the tokens are, in order, each maximal non-empty run between boundary characters, each boundary followed by its marker token |
| Utilities.TokensNonEmpty | MorseCodePy/utilities.py:40-54 | no token is ever the empty string |
| Utilities.SegmentsShape | MorseCodePy/utilities.py:36-54 | every token is the separator, a space token, or a letter holding no boundary character |
| Utilities.LettersAvoidBoundaries | MorseCodePy/utilities.py:36-54 | when the separator and space are not glyphs, letter tokens contain neither the separator nor a space |
| Utilities.TokensKeep | MorseCodePy/utilities.py:36-54 | the tokens hold every input character in order, except the spaces text mode drops |
| Utilities.SoundModeStream | MorseCodePy/utilities.py:59-68 | `separate_letters(separate_words(s, …, sound_mode=True))` is exactly s |
| Utilities.TextModeStream | MorseCodePy/utilities.py:36-54 | in text mode, with no glyph a space, the flattened tokens are the input with every space removed |
| Utilities.TokensMarkers | MorseCodePy/utilities.py:39-49 | each separator yields exactly one separator token and, in sound mode, each space exactly one space token, in input order |
| Encoder.LookUp | MorseCodePy/encode.py:51-60 | one character gives the separator for a space, the first hit of the language, `numbers` and `special` tables written verbatim, the error glyph when none holds it, or KeyError when a fallback table is missing |
| Encoder.Translate | MorseCodePy/encode.py:44-60 | the loop with the `ch_handler` flag writes every emission of the text followed by a space, or stops with the error the emissions raise |
| Encoder.Encode | MorseCodePy/encode.py:8-62 | `encode` returns what the specification function gives: None for an unknown language or a bad glyph, the exception of the loop, or the right-stripped buffer |
| Encoder.EncodeRejects | MorseCodePy/encode.py:31-39 | the result is None exactly when the lowercased, stripped language is not in the tables or a glyph is not one character |
| Encoder.CharCodeIsFirstHit | MorseCodePy/encode.py:53-60 | with both fallback tables present, a character's code is the first hit of the language, `numbers` and `special` tables, in that order |
| Encoder.MissingNumbersRaises | MorseCodePy/encode.py:55-56 | without a `numbers` table, the lookup raises exactly for the characters outside the language table |
| Encoder.UnitsFail | MorseCodePy/encode.py:49 | with the fallback tables present, the loop fails exactly when the stripped text ends in 'c', and the failure is IndexError |
| Encoder.UnitVerbatim | MorseCodePy/encode.py:53-58 | a character's emission, as written, does not depend on the dot glyph |
| Encoder.UnitsVerbatim | MorseCodePy/encode.py:44-60 | the emissions, as written, do not depend on the dot glyph |
| Encoder.EncodeIgnoresDot | MorseCodePy/encode.py:53-58 | any two one-character dot glyphs give the same `encode` result |
| Encoder.BlankEncodesEmpty | MorseCodePy/encode.py:42-62 | whitespace-only text in a known language with valid glyphs encodes to "" |
| Encoder.WrittenIsJoin | MorseCodePy/encode.py:44-60 | the buffer is the emissions separated by single spaces, plus one trailing space |
| Encoder.StrippedBuffer | MorseCodePy/encode.py:62 | the right-stripped buffer is the right-stripped join, and is the join itself when the last emission ends in a character other than whitespace |
| Encoder.EncodingIsJoin | MorseCodePy/encode.py:42-62 | when no lookup raises, `encode` returns the emissions joined by single spaces, right-stripped |
| Encoder.UnitsDefaultGlyphs | MorseCodePy/encode.py:53-58 | with the default glyphs, drawing the codes changes no emission |
| Encoder.IntendedWithDefaults | MorseCodePy/encode.py:53-58 | with the default glyphs, the corrected encoder and the encoder as written agree on every input |
| Decoder.TranslateTokens | MorseCodePy/decode.py:58-72 | the loop over the tokens writes one emission per token, in order |
| Decoder.Decode | MorseCodePy/decode.py:24-74 | `decode` returns what the specification function gives: the three gates, KeyError for a missing fallback table, then the untrimmed buffer |
| Decoder.DecodeRejects | MorseCodePy/decode.py:30-42 | the result is None exactly when the language is unknown, a glyph is not one character, or the raw code holds a character that is not a glyph, a space or a newline |
| Decoder.DecodeRaises | MorseCodePy/decode.py:55-56 | it raises exactly when the three gates pass and `numbers` or `special` is missing |
| Decoder.TranslatedAppend | MorseCodePy/decode.py:58-74 | translating a concatenation of tokens concatenates the translations |
| Decoder.TranslateTokenIsFirstHit | MorseCodePy/decode.py:65-72 | any token other than the digraph, the separator and the newline writes the first hit of the language table, then `numbers` unless the language is `special`, then `special` unless it is `numbers`; the error glyph when none holds it |
| Decoder.DigraphToken | MorseCodePy/decode.py:59-60 | "----" is "ch" in english, spanish and french whatever the tables hold, and goes through the lookup chain in every other language |
| Decoder.NormalizeSubstitutes | MorseCodePy/decode.py:45 | with distinct glyphs and a dash glyph other than '.', the two replacements amount to one simultaneous substitution on the stripped code |
| ChartRenderer.WriteEntries | MorseCodePy/chart.py:29-32 | the inner loop writes, in table order, one line per entry whose code is not a substring of "\n ": the character padded to 5, a space, the code with '.' then '-' replaced |
| ChartRenderer.Chart | MorseCodePy/chart.py:17-37 | `chart`, with the tables it means to read, prints nothing for a bad glyph and otherwise the right-stripped buffer and a newline |
| ChartRenderer.RuleIsRepeat | MorseCodePy/chart.py:24 | the rule is `'-' * 15` |
| ChartRenderer.HeaderAndFooter | MorseCodePy/chart.py:24-34 | the title block is "Morse Code Chart", a blank line and the rule; each section closes with a newline and the rule |
| ChartRenderer.ChartAsWrittenRaises | MorseCodePy/chart.py:22 | as written, every call with valid glyphs raises NameError, while the intended chart returns |
| ChartRenderer.ChartRejects | MorseCodePy/chart.py:17-19 | both versions print nothing exactly when the dot or the dash is not one character |
| ChartRenderer.BufferEnds | MorseCodePy/chart.py:34 | the buffer always ends with the rule and a newline |
| ChartRenderer.TrimThenPrint | MorseCodePy/chart.py:37 | for text ending in a dash and a newline, right-stripping and print's newline cancel out |
| ChartRenderer.ChartPrintsBuffer | MorseCodePy/chart.py:37 | the printed text is the buffer itself |
| ChartRenderer.ChartStartsWithHeader | MorseCodePy/chart.py:24 | the printed chart starts with the title, a blank line and 15 dashes |
| ChartRenderer.EntryListed | MorseCodePy/chart.py:29-32 | every entry that is not skipped has its line in its table's text; a skipped entry adds nothing |
| ChartRenderer.SkipRulesAgree | MorseCodePy/chart.py:30 | the substring rule of `chart.py` and the exact-match rule of `main.chart` differ only on the codes "" and "\n " |
| ChartRenderer.EntriesAgree | MorseCodePy/main.py:160-163 | a table without the codes "" and "\n " gives the same lines under either skip rule |
| ChartRenderer.BuffersAgree | MorseCodePy/chart.py:26-34 | under the same condition, the whole buffers agree |
| ChartRenderer.SectionPlaced | MorseCodePy/chart.py:26-34 | each language's section sits right after the title and the sections before it, so sections come in table order |
| MainApi.Encode | MorseCodePy/main.py:14-67 | the exported `encode` is the encoder of `encode.py` |
| MainApi.Decode | MorseCodePy/main.py:70-136 | the exported `decode` is `decode.py`'s decoder run against the store with every table inverted |
| MainApi.DecodeInverted | MorseCodePy/main.py:116-118 | inverting the three tables at lookup time gives the same validation, errors and output as decoding against the inverted store |
| MainApi.PrintEntries | MorseCodePy/main.py:160-163 | one printed line per entry whose code is neither "\n" nor " ", in table order |
| MainApi.Chart | MorseCodePy/main.py:149-165 | the prints write the title and rule, then each section in table order, using the exact-match skip rule, with no glyph check |
| MainApi.ChartsAgree | MorseCodePy/main.py:139-165 | with one-character glyphs and no code "" or "\n ", `main.chart` prints what the intended `chart.py` prints |
| MainApi.ChartDefaultDotIsTwoCharacters | MorseCodePy/main.py:139 | the default dot is two characters, which `chart.py`'s check would reject, and each table dot is drawn as both |
| MainApi.Play | MorseCodePy/main.py:168-226 | the exported `play` has the same checks and events as `play.py` |
| Playback.Play | MorseCodePy/play.py:23-63 | the three checks in order, then the sound-mode stream of the stripped code and the loop over it |
| Playback.DispatchAll | MorseCodePy/play.py:49-63 | the loop appends one event per character, in order, each the `match` of that character |
| Playback.PlayAborts | MorseCodePy/play.py:24-40 | playback starts exactly when every glyph is one character, the delay is at least 0.3 and the volume lies in (0, 1] |
| Playback.PlayEvents | MorseCodePy/play.py:43-63 | once started, there is one event per character of the stripped code, in order, each the dispatch of that character |
| Playback.PlayIgnoresGlyphs | MorseCodePy/play.py:50-61 | the match compares with '.', '-', ' ' and '/' literally, so every valid glyph choice plays the same events |
| Playback.SingleCharacter | MorseCodePy/play.py:49-63 | a code of one non-space character makes exactly one event |
| Playback.PlayDot | tests/test_audio_play.py:8-11 | `play('.')` makes exactly one dot sound |
| Playback.PlayDash | tests/test_audio_play.py:13-16 | `play('-')` makes exactly one dash sound |
| Playback.PlayUnknown | tests/test_audio_play.py:18-21 | `play('^')` makes exactly one error tone |
| Playback.CustomDotPlaysError | MorseCodePy/play.py:50-61 | a one-character dot glyph other than '.', '-', '/' and whitespace passes the check, and the code written with it plays an error tone, not a dot |
| RoundTrip.UnitsRendered | MorseCodePy/encode.py:44-60 | for text whose characters all have codes, the corrected encoder's emissions are the plain emissions drawn with the caller's glyphs |
| RoundTrip.SegmentsOfJoin | MorseCodePy/utilities.py:36-54 | in text mode, plain emissions joined by spaces tokenize back into exactly those emissions |
| RoundTrip.NormalizeRendered | MorseCodePy/decode.py:40-45 | normalisation undoes drawing with distinguishable glyphs, and the drawn text passes the character gate |
| RoundTrip.TranslatedUnits | MorseCodePy/decode.py:58-72 | when the decode chain maps each character's code back to it, translating the plain emissions gives back the text |
| RoundTrip.EncodeSide | MorseCodePy/encode.py:42-62 | the corrected encoder returns the plain emissions, drawn and joined by spaces |
| RoundTrip.DecodeSide | MorseCodePy/decode.py:45-74 | decoding drawn, joined plain emissions returns their translation |
| RoundTrip.DecodeEncode | MorseCodePy/decode.py:58-74 | for any glyphs that cannot be confused, decoding the corrected encoder's output gives back the lowercased, stripped text; this needs inverse decode tables, digraph languages for "ch" and no trailing 'c' |
| RoundTrip.DecodeEncodeDefaults | MorseCodePy/encode.py:44-62 | with the default glyphs, the same round trip holds for the encoder as written |
| Vectors.EncodeHello | tests/test_encoding.py:8 | `encode('  Hello!  ', 'english')` is `.... . .-.. .-.. --- -.-.--` |
| Vectors.EncodeGoodChair | tests/test_encoding.py:9 | `encode('Good chair.', 'english')` writes "ch" as four dashes |
| Vectors.EncodePower | tests/test_encoding.py:10 | in `encode('Power = ^', 'english')`, '=' falls back to `special` and '^' becomes the error glyph |
| Vectors.EncodeBonjour | tests/test_encoding.py:13 | `encode('Bonjour!', 'french')` |
| Vectors.EncodeHola | tests/test_encoding.py:19 | `encode('¡Hola!', 'spanish')` |
| Vectors.EncodeDigits | tests/test_encoding.py:31 | `encode('1234567890', 'numbers')` |
| Vectors.EncodeNumbers | tests/test_encoding.py:32 | `encode('One -> 1', 'numbers')` is `* * * / -....- * / .----`; letters are errors and '-' comes from `special` |
| Vectors.EncodeMarks | tests/test_encoding.py:35 | `encode('. ^@ !?', 'special')` |
| Vectors.EncodeEquals | tests/test_encoding.py:36 | `encode('S == $', 'special')` |
| Vectors.DecodeHello | tests/test_decoding.py:8 | `decode` of the code for "hello!" is "hello!" |
| Vectors.DecodeGoodChair | tests/test_decoding.py:9 | `decode` reads "----" as "ch" in english: "good chair." |
| Vectors.DecodePower | tests/test_decoding.py:10 | `decode('.--. --- .-- . .-.', 'english')` is "power" |
| Vectors.DecodeBonjour | tests/test_decoding.py:13 | `decode` of the code for "Bonjour!" in french is "bonjour!" |
| Vectors.DecodeHola | tests/test_decoding.py:20 | `decode` of the code for "¡Hola!" in spanish is "¡hola!" |
| Vectors.DecodeDigits | tests/test_decoding.py:32 | `decode` of the ten digit codes in `numbers` is "1234567890" |
| Vectors.DecodeSpecial | tests/test_decoding.py:35 | `decode('.-.-.- / .--.-. / -.-.-- ..--..', 'special')` is ". @ !?" |
| Vectors.DecodeEquals | tests/test_decoding.py:36 | `decode('-...- -...- / ...-..-', 'special')` is "== $" |
| Vectors.CustomDotAsWritten | MorseCodePy/encode.py:53-54 | as written, `encode('e', 'english', dot='*')` writes '.', which `decode` with the same dot rejects |
| Vectors.CustomDotIntended | MorseCodePy/encode.py:53-54 | the corrected encoder writes '*', and `decode` with the same dot reads back "e" |

The vectors Hello, Good chair, Bonjour, ¡Hola! and the digits appear in both test files. For those, the encode lemma and the decode lemma together state that decoding the encoded text returns the lowercased original. The other encode vectors write the error glyph, so their originals cannot come back.

## Left out

- `MorseCodePy/codes.py` loads the JSON files. That is I/O, so the tables are parameters.
- A table is an association list, and a lookup reads the first entry with the key. `json.load` keeps the last value of a repeated key, at the first key's position. The model therefore presumes that the data files repeat no key. Under that hypothesis, `Tables.FindUnique` shows the two readings agree.
- `decodes.json` is not part of this model. The decode vectors therefore require the inverted entries they read. The test expectations fix the ambiguous codes, such as French `o`/`ô`.
- `reverse_dictionary` is not defined in any file of the package. `main.decode` takes it as an abstract function parameter (`invert`).
- `OptionalStr`, which `main.py` uses as a parameter annotation (`main.py:14-15`, `:70-71`, `:139`, `:168-169`), is not defined anywhere either. It is not a name from `utilities.py`'s star import, and the package declares no postponed annotations.
  - On the Python versions the package lists (3.10 to 3.13, `setup.py`), annotations are evaluated when each `def` runs. As written, importing `main.py` therefore raises NameError at line 14.
  - `__init__.py:2` imports `.main`, and importing any submodule first runs the package's `__init__.py`. So `import MorseCodePy`, and each import the tests make (`MorseCodePy.encode`, `.decode`, `.chart`, `.play`), fails as written.
  - The model assumes a definition of `OptionalStr` that the source does not show, one that accepts strings, and gives those parameters the type `string`. This is the same kind of assumption as `invert` for `reverse_dictionary`. Every module is modelled as if its import succeeds.
- The audio backends are not modelled: `audio_manager.py`, `play_pygame.py`, `play_sounddevice.py` and `Legacy/play_pygame.py`. A played sound or silence is an `Event`. Their dispatch loops are copies of `play.py`'s.
- Timing is not modelled:
  - the `sleep` durations;
  - the warning logged for a delay above 1.0;
  - `KeyboardInterrupt` handling.
- Delay and volume are exact `real` values. `MinDelay` is the binary64 value of the literal 0.3, so `delay < 0.3` is decided as Python decides it for float arguments. Floating-point arithmetic is not used anywhere else.
- Logging: a failed check is `ReturnNone`, with no message.
- `cli.py`, `setup_logging.py`, `setup.py` and `__init__.py` are plumbing with no behaviour to model.
- Python's full Unicode `str.lower()` is not modelled. `Text.LowerChar` covers ASCII, Latin-1, basic Cyrillic (U+0400 to U+042F) and Ґ (U+0490), which hold every letter of the package's alphabets. Other characters are left unchanged, including the rest of the Cyrillic block (U+0460 to U+04FF), which Python would lower.
- `str.strip()` uses Python's `isspace` set of code points.
- `str.capitalize()` is modelled for the same alphabets, where title case and upper case coincide.
- The `Language` literal is only a type annotation, and Python does not enforce it. `Tables.Languages` records it, and the operations accept any language string, exactly as the code does.
- The `isinstance(language, str)` test is always true for a string.
- The expected chart of `tests/test_chart.py` is not evaluated as one literal. It is some 200 lines of text. The chart's layout is proved instead:
  - title first;
  - sections in table order;
  - every entry's line present;
  - the skip rule;
  - the printed text equal to the buffer.

  As written, `chart.py` raises for that test anyway (see Findings).
- The French vectors with accents, the second Spanish vector, and the Russian and Ukrainian vectors are not proved. Their table facts could be taken from `tests/test_chart.py` the same way as Bonjour's and ¡Hola!'s. They are left out because of proof cost: each vector lemma unfolds its literal text and code character by character, and the ones already proved are among the most expensive proofs of the project. What they add beyond the other vectors is the Latin-1 and Cyrillic branches of `Text.LowerChar`, and table lookups of accented and Cyrillic letters. The general encoder and decoder lemmas hold for every character, so they cover those lookups too.
- Decoder.NormalizeSubstitutes: stated only for distinct glyphs with a dash other than '.'. When the glyphs overlap, `Decoder.Normalize` still models the two replacements in sequence exactly.
- RoundTrip.DecodeEncode: stated only for glyphs that cannot be confused and for decode tables that invert the encode chain. A table with duplicate codes, such as French `à`/`â`, cannot round-trip. A text ending in 'c' raises instead of returning.

## Findings

| source | as written | input that shows it | evidently intended | confidence | as-written member | corrected member |
|---|---|---|---|---|---|---|
| MorseCodePy/chart.py:22 | `chart` calls `get_encodes()`, but the module imports only the utilities (`from .utilities import *`) and never `get_encodes` | `chart()` with the default glyphs raises NameError; so does every call with one-character glyphs | read the encode tables, as `main.py` does after importing them from `codes` | high (not executed) | ChartRenderer.ChartAsWrittenRaises | ChartRenderer.ChartPrintsBuffer |
| MorseCodePy/encode.py:53-58 | table codes are written verbatim; the `dot` and `dash` arguments reach the output only through the "ch" digraph | `encode('e', 'english', dot='*')` returns '.', and `decode('.', 'english', dot='*')` returns None | draw each code with the caller's glyphs, as `chart` does, so that `decode` with the same glyphs reads it back | medium (not executed) | Vectors.CustomDotAsWritten | Vectors.CustomDotIntended |

About the two rows:

- **chart.py:22.** The as-written side is `ChartRenderer.ChartAsWritten`. The `Charting` function models the intended chart, and `ChartRenderer.BuffersAgree` and `MainApi.ChartsAgree` relate it to `main.chart`.
- **encode.py:53-58.** `Encoder.Encoding` models the encoder as written, and `Encoder.EncodeIgnoresDot` proves the dot glyph is ignored for every input. `Encoder.IntendedEncoding` is the corrected encoder; `RoundTrip.DecodeEncode` proves its round trip for every glyph choice that cannot be confused. With the default glyphs the two encoders agree (`Encoder.IntendedWithDefaults`).
