/** The playback loop of `MorseCodePy/play.py`: validation of the glyphs, the
    delay and the volume, then one audio event per character of the flattened
    sound-mode token stream. The audio device and the pauses are not modelled;
    what is observable here is whether playback starts and which event each
    character produces. */
module Playback {
  import opened Text
  import opened Utilities

  /** What the loop does for one character: a tone (dot, dash or error) or a
      silence (after a space or a '/'). */
  datatype Event = DotSound | DashSound | SpaceSilence | SlashSilence | ErrorSound

  /** The outcome of a call: it returns before the audio manager is created,
      or it plays the events in order. */
  datatype Session = Aborted | Played(events: seq<Event>)

  /** The binary64 value of the literal `0.3`, written out exactly, so that
      `delay < 0.3` is decided for every float delay as Python decides it. */
  const MinDelay: real := 0.299999999999999988897769753748434595763683319091796875

  /** The `match` on each character: it compares with the literal characters,
      not with the caller's glyphs. */
  function Dispatch(c: char): Event {
    match c
    case '.' => DotSound
    case '-' => DashSound
    case ' ' => SpaceSilence
    case '/' => SlashSilence
    case _ => ErrorSound
  }

  /** The events for a character stream, in order. */
  function Dispatched(cs: string): seq<Event> {
    seq(|cs|, i requires 0 <= i < |cs| => Dispatch(cs[i]))
  }

  /** The characters the loop walks over. */
  function Stream(code: string, dot: string, dash: string, separator: string): string {
    SeparateLetters(Tokens(Strip(code), dot, dash, separator, true))
  }

  /** `play(code, delay, volume, dot=…, dash=…, separator=…)`; delay and volume
      stand for the exact values of the floats passed in. */
  function Playing(code: string, delay: real, volume: real, dot: string, dash: string, separator: string): Session {
    if !ValidGlyphs(dot, dash, separator) then Aborted
    else if delay < MinDelay then Aborted
    else if !(0.0 < volume <= 1.0) then Aborted
    else Played(Dispatched(Stream(code, dot, dash, separator)))
  }

  /** `play`: the three checks, the tokenizer, then the loop over the characters. */
  method Play(code: string, delay: real, volume: real, dot: string, dash: string, separator: string)
    returns (s: Session)
    ensures s == Playing(code, delay, volume, dot, dash, separator)
  {
    if !ValidGlyphs(dot, dash, separator) {
      return Aborted;
    }
    // A delay above 1.0 only logs a warning.
    if delay < MinDelay {
      return Aborted;
    }
    if !(0.0 < volume <= 1.0) {
      return Aborted;
    }
    var letters := SeparateWords(Strip(code), dot, dash, separator, true);
    var characters := SeparateLetters(letters);
    var events := DispatchAll(characters);
    return Played(events);
  }

  /** The `for` loop over the characters, one event per character. */
  method DispatchAll(characters: string) returns (events: seq<Event>)
    ensures events == Dispatched(characters)
  {
    events := [];
    for i := 0 to |characters|
      invariant events == Dispatched(characters[..i])
    {
      DispatchedSnoc(characters, i);
      events := events + [Dispatch(characters[i])];
    }
    assert characters[..|characters|] == characters;
  }

  lemma DispatchedSnoc(cs: string, i: nat)
    requires i < |cs|
    ensures Dispatched(cs[..i + 1]) == Dispatched(cs[..i]) + [Dispatch(cs[i])]
  {
  }

  // ---------------------------------------------------------------------------
  // Properties

  /** Playback starts exactly when every glyph is one character, the delay is
      at least 0.3 and the volume lies in (0, 1]. */
  lemma PlayAborts(code: string, delay: real, volume: real, dot: string, dash: string, separator: string)
    ensures Playing(code, delay, volume, dot, dash, separator) == Aborted
            <==> !ValidGlyphs(dot, dash, separator) || delay < MinDelay || volume <= 0.0 || 1.0 < volume
  {
  }

  /** Once it starts, there is one event per character of the stripped code,
      in order, each the dispatch of that character. */
  lemma PlayEvents(code: string, delay: real, volume: real, dot: string, dash: string, separator: string)
    requires Playing(code, delay, volume, dot, dash, separator).Played?
    ensures var events := Playing(code, delay, volume, dot, dash, separator).events;
            |events| == |Strip(code)| &&
            forall i :: 0 <= i < |events| ==> events[i] == Dispatch(Strip(code)[i])
  {
    SoundModeStream(Strip(code), dot, dash, separator);
  }

  /** The glyph arguments matter only for validation: every valid choice plays
      the same events. */
  lemma PlayIgnoresGlyphs(code: string, delay: real, volume: real,
                          dot: string, dash: string, separator: string,
                          dot': string, dash': string, separator': string)
    requires ValidGlyphs(dot, dash, separator) && ValidGlyphs(dot', dash', separator')
    ensures Playing(code, delay, volume, dot, dash, separator) == Playing(code, delay, volume, dot', dash', separator')
  {
    SoundModeStream(Strip(code), dot, dash, separator);
    SoundModeStream(Strip(code), dot', dash', separator');
  }

  /** A code of one non-space character makes exactly one event, its dispatch.
      (The test vectors below take the code as a parameter equal to the
      literal, which keeps the verifier from evaluating the whole tokenizer.) */
  lemma SingleCharacter(c: char, delay: real, volume: real, dot: string, dash: string, separator: string)
    requires ValidGlyphs(dot, dash, separator) && MinDelay <= delay && 0.0 < volume <= 1.0
    requires !IsSpace(c)
    ensures Playing([c], delay, volume, dot, dash, separator) == Played([Dispatch(c)])
  {
    StripPlain(c);
    PlayEvents([c], delay, volume, dot, dash, separator);
  }

  lemma StripPlain(c: char)
    requires !IsSpace(c)
    ensures Strip([c]) == [c]
  {
    assert RStrip([c]) == [c];
  }

  /** A one-character code with the default arguments. */
  lemma DefaultPlay(c: char, code: string)
    requires code == [c] && !IsSpace(c)
    ensures Playing(code, 0.5, 1.0, ".", "-", "/") == Played([Dispatch(c)])
  {
    SingleCharacter(c, 0.5, 1.0, ".", "-", "/");
  }

  /** `play('.')` with the default arguments makes one dot sound. */
  lemma PlayDot(code: string)
    requires code == "."
    ensures Playing(code, 0.5, 1.0, ".", "-", "/") == Played([DotSound])
  {
    DefaultPlay('.', code);
  }

  /** `play('-')` makes one dash sound. */
  lemma PlayDash(code: string)
    requires code == "-"
    ensures Playing(code, 0.5, 1.0, ".", "-", "/") == Played([DashSound])
  {
    DefaultPlay('-', code);
  }

  /** `play('^')` makes one error tone. */
  lemma PlayUnknown(code: string)
    requires code == "^"
    ensures Playing(code, 0.5, 1.0, ".", "-", "/") == Played([ErrorSound])
  {
    DefaultPlay('^', code);
  }

  /** A custom dot glyph is accepted, but it plays as an error tone: any one
      character other than '.', '-', '/' and whitespace, drawn as the code. */
  lemma CustomDotPlaysError(c: char, dot: string)
    requires dot == [c] && c != '.' && c != '-' && c != '/' && !IsSpace(c)
    ensures Playing([c], 0.5, 1.0, dot, "-", "/") == Played([ErrorSound])
  {
    SingleCharacter(c, 0.5, 1.0, dot, "-", "/");
  }
}
