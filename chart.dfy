/** The chart formatter of `MorseCodePy/chart.py`: every table of the data
    file, in file order, as a titled section of `character  code` lines. The
    unvalidated variant of `MorseCodePy/main.py` shares the layout. */
module ChartRenderer {
  import opened Wrappers
  import opened Text
  import opened Tables

  // ---------------------------------------------------------------------------
  // Layout

  /** The rule between sections, `'-' * 15` (see `RuleIsRepeat`). */
  const Rule: string := "---------------"

  /** `'Morse Code Chart\n\n' + '-' * 15 + '\n'`: the title, a blank line and
      the first rule. */
  const Header: string := "Morse Code Chart\n\n---------------\n"

  /** `'\n' + '-' * 15 + '\n'`, closing each section. */
  const Footer: string := "\n---------------\n"

  /** Whether an entry is left out of the chart. `chart.py` tests
      `code not in '\n '`, a substring test (so the empty code and "\n " are
      left out as well); `main.py` tests membership of {'\n', ' '} (exact). */
  predicate Skipped(code: string, exact: bool) {
    if exact then code == "\n" || code == " " else IsInfix(code, "\n ")
  }

  /** `f'{character:<5} {code}'` plus the newline, the code drawn with the
      caller's glyphs. */
  function EntryLine(character: string, code: string, dot: string, dash: string): string {
    LJust(character, 5) + " " + Render(code, dot, dash) + "\n"
  }

  /** What one entry adds: its line, or nothing when it is skipped. */
  function Line(entry: (string, string), dot: string, dash: string, exact: bool): string {
    if Skipped(entry.1, exact) then "" else EntryLine(entry.0, entry.1, dot, dash)
  }

  /** The texts f makes of the items, in order, run together. */
  function Concat<T>(xs: seq<T>, f: T -> string): string {
    if xs == [] then "" else Concat(xs[..|xs| - 1], f) + f(xs[|xs| - 1])
  }

  /** The lines of one table, in table order. */
  function Entries(codes: Table, dot: string, dash: string, exact: bool): string {
    Concat(codes, e => Line(e, dot, dash, exact))
  }

  /** `'\n' + language.capitalize() + '\n'`, opening a section. */
  function Heading(language: string): string {
    "\n" + Capitalize(language) + "\n"
  }

  /** One language: its heading, its lines and the closing rule. */
  function Section(language: string, codes: Table, dot: string, dash: string, exact: bool): string {
    Heading(language) + Entries(codes, dot, dash, exact) + Footer
  }

  function Sections(store: Store, dot: string, dash: string, exact: bool): string {
    Concat(store, (s: (string, Table)) => Section(s.0, s.1, dot, dash, exact))
  }

  /** The whole text, before any trimming. */
  function Buffer(store: Store, dot: string, dash: string, exact: bool): string {
    Header + Sections(store, dot, dash, exact)
  }

  lemma ConcatSnoc<T>(xs: seq<T>, j: nat, f: T -> string)
    requires j < |xs|
    ensures Concat(xs[..j + 1], f) == Concat(xs[..j], f) + f(xs[j])
  {
    assert xs[..j + 1][..j] == xs[..j];
  }

  // ---------------------------------------------------------------------------
  // `chart.py`

  /** `chart(dot=…, dash=…)` as written: glyphs of other than one character
      return before anything is printed (ReturnNone); otherwise the call of
      `get_encodes`, a name the module never imports, raises NameError. */
  function ChartAsWritten(dot: string, dash: string): Outcome<string> {
    if |dot| != 1 || |dash| != 1 then ReturnNone else Raise(NameError)
  }

  /** The evidently intended `chart`, reading the tables it is given:
      Return(t) means it prints t (the trimmed buffer plus print's newline). */
  function Charting(store: Store, dot: string, dash: string): Outcome<string> {
    if |dot| != 1 || |dash| != 1 then ReturnNone
    else Return(RStrip(Buffer(store, dot, dash, false)) + "\n")
  }

  /** The inner loop of `chart`: the lines of one table. */
  method WriteEntries(codes: Table, dot: string, dash: string) returns (lines: string)
    ensures lines == Entries(codes, dot, dash, false)
  {
    ghost var line := e => Line(e, dot, dash, false);
    lines := "";
    assert codes[..0] == [];
    for j := 0 to |codes|
      invariant lines == Concat(codes[..j], line)
    {
      var (character, code) := codes[j];
      ConcatSnoc(codes, j, line);
      if !IsInfix(code, "\n ") {
        lines := lines + EntryLine(character, code, dot, dash);
      }
    }
    assert codes[..|codes|] == codes;
  }

  /** `chart`: the glyph check, the loop over the languages writing into a
      buffer, then one print of the right-stripped buffer. */
  method Chart(store: Store, dot: string, dash: string) returns (r: Outcome<string>)
    ensures r == Charting(store, dot, dash)
  {
    if |dot| != 1 || |dash| != 1 {
      return ReturnNone;
    }
    ghost var section := (s: (string, Table)) => Section(s.0, s.1, dot, dash, false);
    var buffer := Header;
    assert store[..0] == [];
    for i := 0 to |store|
      invariant buffer == Header + Concat(store[..i], section)
    {
      var (language, codes) := store[i];
      var lines := WriteEntries(codes, dot, dash);
      ConcatSnoc(store, i, section);
      Reassoc(Header, Concat(store[..i], section), Heading(language), lines, Footer);
      buffer := buffer + Heading(language) + lines + Footer;
    }
    assert store[..|store|] == store;
    return Return(RStrip(buffer) + "\n");
  }

  lemma Reassoc(a: string, b: string, c: string, d: string, e: string)
    ensures a + b + c + d + e == a + (b + (c + d + e))
  {
  }

  // ---------------------------------------------------------------------------
  // Properties

  /** The layout constants are the source's `'-' * 15` expressions. */
  lemma RuleIsRepeat(n: nat)
    requires n == 15
    ensures Rule == Repeat("-", n)
  {
    var r := Repeat("-", n);
    forall i | 0 <= i < 15
      ensures r[i] == Rule[i]
    {
    }
  }

  lemma HeaderAndFooter()
    ensures Header == "Morse Code Chart\n\n" + Rule + "\n"
    ensures Footer == "\n" + Rule + "\n"
  {
  }

  /** As written, every call with valid glyphs raises, the defaults included. */
  lemma ChartAsWrittenRaises(dot: string, dash: string, store: Store)
    requires |dot| == 1 && |dash| == 1
    ensures ChartAsWritten(dot, dash) == Raise(NameError)
    ensures Charting(store, dot, dash).Return?
  {
  }

  /** Both versions print nothing for glyphs of other than one character. */
  lemma ChartRejects(store: Store, dot: string, dash: string)
    ensures ChartAsWritten(dot, dash) == ReturnNone <==> |dot| != 1 || |dash| != 1
    ensures Charting(store, dot, dash) == ReturnNone <==> |dot| != 1 || |dash| != 1
  {
  }

  /** The text ends in a dash and a newline. */
  predicate EndsInRule(b: string) {
    |b| >= 2 && b[|b| - 1] == '\n' && b[|b| - 2] == '-'
  }

  lemma FooterTail(x: string)
    ensures EndsInRule(x + Footer)
  {
  }

  lemma EndsAfter(h: string, c: string, s: string)
    requires EndsInRule(s)
    ensures EndsInRule(h + (c + s))
  {
  }

  lemma SectionEnds(language: string, codes: Table, dot: string, dash: string, exact: bool)
    ensures EndsInRule(Section(language, codes, dot, dash, exact))
  {
    FooterTail(Heading(language) + Entries(codes, dot, dash, exact));
  }

  /** The buffer ends in a rule and a newline. */
  lemma BufferEnds(store: Store, dot: string, dash: string, exact: bool)
    ensures EndsInRule(Buffer(store, dot, dash, exact))
  {
    if store == [] {
      assert Buffer(store, dot, dash, exact) == Header;
    } else {
      var f := (s: (string, Table)) => Section(s.0, s.1, dot, dash, exact);
      var last := store[|store| - 1];
      SectionEnds(last.0, last.1, dot, dash, exact);
      assert Concat(store, f) == Concat(store[..|store| - 1], f) + f(last);
      EndsAfter(Header, Concat(store[..|store| - 1], f), f(last));
    }
  }

  /** `rstrip` takes the final newline and print puts it back. */
  lemma TrimThenPrint(b: string)
    requires EndsInRule(b)
    ensures RStrip(b) + "\n" == b
  {
    var body := b[..|b| - 1];
    assert RStrip(b) == RStrip(body);
    assert RStrip(body) == body;
    assert body + "\n" == b;
  }

  /** Trimming and print's newline cancel: the printed chart is the buffer. */
  lemma ChartPrintsBuffer(store: Store, dot: string, dash: string)
    requires |dot| == 1 && |dash| == 1
    ensures Charting(store, dot, dash) == Return(Buffer(store, dot, dash, false))
  {
    BufferEnds(store, dot, dash, false);
    TrimThenPrint(Buffer(store, dot, dash, false));
  }

  /** The printed chart starts with the title and the first rule. */
  lemma ChartStartsWithHeader(store: Store, dot: string, dash: string)
    requires |dot| == 1 && |dash| == 1
    ensures Charting(store, dot, dash).Return?
    ensures |Header| <= |Charting(store, dot, dash).value|
    ensures Charting(store, dot, dash).value[..|Header|] == Header
  {
    ChartPrintsBuffer(store, dot, dash);
    var b := Buffer(store, dot, dash, false);
    assert b == Header + Sections(store, dot, dash, false);
  }

  lemma {:induction false} ConcatAppend<T>(a: seq<T>, b: seq<T>, f: T -> string)
    ensures Concat(a + b, f) == Concat(a, f) + Concat(b, f)
    decreases |b|
  {
    if b == [] {
      assert a + b == a;
    } else {
      ConcatAppend(a, b[..|b| - 1], f);
      assert (a + b)[..|a + b| - 1] == a + b[..|b| - 1];
      assert (a + b)[|a + b| - 1] == b[|b| - 1];
    }
  }

  lemma ConcatSingle<T>(x: T, f: T -> string)
    ensures Concat([x], f) == f(x)
  {
    assert [x][..0] == [];
  }

  /** The texts of a, x and b, in that order. */
  lemma ConcatSplit<T>(xs: seq<T>, i: nat, f: T -> string)
    requires i < |xs|
    ensures Concat(xs, f) == Concat(xs[..i], f) + f(xs[i]) + Concat(xs[i + 1..], f)
    ensures Concat(xs[..i] + xs[i + 1..], f) == Concat(xs[..i], f) + Concat(xs[i + 1..], f)
  {
    var a, b := xs[..i + 1], xs[i + 1..];
    assert a + b == xs;
    ConcatAppend(a, b, f);
    assert Concat(xs, f) == Concat(a, f) + Concat(b, f);
    ConcatSnoc(xs, i, f);
    assert Concat(a, f) == Concat(xs[..i], f) + f(xs[i]);
    ConcatAppend(xs[..i], b, f);
  }

  /** s sits right after p in p + s + q. */
  lemma Middle(p: string, s: string, q: string)
    ensures OccursAt(s, p + s + q, |p|)
    ensures s == "" ==> p + s + q == p + q
  {
    assert (p + s + q)[|p|..|p| + |s|] == s;
  }

  lemma MiddleAfter(h: string, p: string, s: string, q: string)
    ensures OccursAt(s, h + (p + s + q), |h + p|)
  {
    assert h + (p + s + q) == (h + p) + s + q;
    Middle(h + p, s, q);
  }

  /** Every entry that is not skipped has its line in the table's text, and
      a skipped one adds nothing to it. */
  lemma EntryListed(codes: Table, i: nat, dot: string, dash: string, exact: bool)
    requires i < |codes|
    ensures !Skipped(codes[i].1, exact) ==>
            IsInfix(EntryLine(codes[i].0, codes[i].1, dot, dash), Entries(codes, dot, dash, exact))
    ensures Skipped(codes[i].1, exact) ==>
            Entries(codes, dot, dash, exact) == Entries(codes[..i] + codes[i + 1..], dot, dash, exact)
  {
    var f := e => Line(e, dot, dash, exact);
    ConcatSplit(codes, i, f);
    Middle(Concat(codes[..i], f), f(codes[i]), Concat(codes[i + 1..], f));
  }

  /** The two skip rules part only on the empty code and the code "\n ". */
  lemma SkipRulesAgree(code: string)
    ensures Skipped(code, true) != Skipped(code, false) <==> code == "" || code == "\n "
  {
    InfixOfPair(code, '\n', ' ');
  }

  predicate NoOddCodes(codes: Table) {
    forall i :: 0 <= i < |codes| ==> codes[i].1 != "" && codes[i].1 != "\n "
  }

  lemma {:induction false} ConcatCongruent<T>(xs: seq<T>, f: T -> string, g: T -> string)
    requires forall i :: 0 <= i < |xs| ==> f(xs[i]) == g(xs[i])
    ensures Concat(xs, f) == Concat(xs, g)
    decreases |xs|
  {
    if xs != [] {
      var init := xs[..|xs| - 1];
      assert forall i :: 0 <= i < |init| ==> init[i] == xs[i];
      ConcatCongruent(init, f, g);
    }
  }

  lemma EntriesAgree(codes: Table, dot: string, dash: string)
    requires NoOddCodes(codes)
    ensures Entries(codes, dot, dash, true) == Entries(codes, dot, dash, false)
  {
    forall i | 0 <= i < |codes|
      ensures Line(codes[i], dot, dash, true) == Line(codes[i], dot, dash, false)
    {
      SkipRulesAgree(codes[i].1);
    }
    ConcatCongruent(codes, e => Line(e, dot, dash, true), e => Line(e, dot, dash, false));
  }

  /** When no table holds an empty code or the code "\n ", the exact and the
      substring skip rules lay out the same text. */
  lemma BuffersAgree(store: Store, dot: string, dash: string)
    requires forall i :: 0 <= i < |store| ==> NoOddCodes(store[i].1)
    ensures Buffer(store, dot, dash, true) == Buffer(store, dot, dash, false)
  {
    forall i | 0 <= i < |store|
      ensures Section(store[i].0, store[i].1, dot, dash, true) == Section(store[i].0, store[i].1, dot, dash, false)
    {
      EntriesAgree(store[i].1, dot, dash);
    }
    ConcatCongruent(store, (s: (string, Table)) => Section(s.0, s.1, dot, dash, true),
                    (s: (string, Table)) => Section(s.0, s.1, dot, dash, false));
  }

  /** Each language's section sits in the buffer right after the sections of
      the languages before it, so sections come in file order. */
  lemma SectionPlaced(store: Store, i: nat, dot: string, dash: string, exact: bool)
    requires i < |store|
    ensures OccursAt(Section(store[i].0, store[i].1, dot, dash, exact), Buffer(store, dot, dash, exact),
                     |Header + Sections(store[..i], dot, dash, exact)|)
  {
    var f := (s: (string, Table)) => Section(s.0, s.1, dot, dash, exact);
    ConcatSplit(store, i, f);
    MiddleAfter(Header, Concat(store[..i], f), f(store[i]), Concat(store[i + 1..], f));
  }
}
