/**
 * What ConvertAnsiToHtml guarantees about its output, proved over the scan that
 * specifies it: spans are balanced and never empty, the visible text is the
 * input with its escapes removed, input without escapes is only entity-encoded,
 * and the colour escapes the renderers write are read back exactly.
 */
module HtmlOutputProperties {
  import opened Wrappers
  import opened Strings
  import opened Imaging
  import opened HtmlOutputHandler

  // ---------------------------------------------------------------------------
  // Span nesting

  /** Where the output stands: outside a span, just after an opening tag, inside a span with text. */
  datatype Nest = Closed | JustOpened | InSpan

  /**
   * The pieces allowed after each position: an opening tag only outside a span
   * and only with a colour; a glyph anywhere but never a line break; a line
   * break only outside a span; a closing tag only after some text in a span.
   */
  function NestStep(p: Piece, n: Nest): Option<Nest>
  {
    match p
    case Open(fg, bg) => if n == Closed && (fg.Some? || bg.Some?) then Some(JustOpened) else None
    case Close => if n == InSpan then Some(Closed) else None
    case Glyph(c) => if IsNewline(c) then None else if n == Closed then Some(Closed) else Some(InSpan)
    case Break(c) => if IsNewline(c) && n == Closed then Some(Closed) else None
  }

  /** The position after a sequence of pieces, or None when some piece is out of place. */
  function Nesting(ps: seq<Piece>, n: Nest): Option<Nest>
  {
    if ps == [] then Some(n)
    else match NestStep(ps[0], n)
      case None => None
      case Some(m) => Nesting(ps[1..], m)
  }

  lemma {:induction false} NestingAppend(a: seq<Piece>, b: seq<Piece>, n: Nest)
    ensures Nesting(a + b, n) == match Nesting(a, n) case None => None case Some(m) => Nesting(b, m)
  {
    if a == [] {
      assert a + b == b;
    } else {
      assert (a + b)[0] == a[0];
      assert (a + b)[1..] == a[1..] + b;
      match NestStep(a[0], n)
      case None =>
        assert Nesting(a + b, n) == None;
      case Some(m) =>
        assert Nesting(a + b, n) == Nesting(a[1..] + b, m);
        NestingAppend(a[1..], b, m);
    }
  }

  /** The position the converter's locals stand for. */
  function ModeOf(st: State): Nest
  {
    if st.inSpan then InSpan else Closed
  }

  /** A character's pieces are in place and lead to the position of the new locals. */
  lemma CharStepNests(c: char, st: State)
    ensures Nesting(CharStep(c, st).0, ModeOf(st)) == Some(ModeOf(CharStep(c, st).1))
  {
    var ps := CharStep(c, st).0;
    if IsNewline(c) {
      if st.inSpan {
        assert ps == [Close, Break(c)];
        assert NestStep(Close, InSpan) == Some(Closed);
        assert Nesting(ps, InSpan) == Nesting([Break(c)], Closed) by {
          assert ps[1..] == [Break(c)];
        }
        assert NestStep(Break(c), Closed) == Some(Closed);
        assert [Break(c)][1..] == [];
        assert Nesting([Break(c)], Closed) == Nesting([], Closed);
      } else {
        assert ps == [Break(c)];
      }
    } else if (st.hasFg || st.hasBg) && !st.inSpan {
      assert ps == [OpenFor(st), Glyph(c)];
      assert Nesting(ps, Closed) == Nesting([Glyph(c)], JustOpened) by {
        assert ps[1..] == [Glyph(c)];
      }
      assert [Glyph(c)][1..] == [];
    } else {
      assert ps == [Glyph(c)];
      assert ps[1..] == [];
    }
  }

  /** An escape's pieces are in place and lead to the position of the new locals. */
  lemma ApplySequenceNests(sequence: string, st: State)
    requires ApplySequence(sequence, st).Ok?
    ensures Nesting(ApplySequence(sequence, st).value.0, ModeOf(st)) == Some(ModeOf(ApplySequence(sequence, st).value.1))
  {
  }

  /** A scan that succeeds at an escape applied that escape's parameters without error. */
  lemma ScanEscapeApplied(s: string, i: nat, st: State)
    requires EscapeAt(s, i) && IndexOf(s, 'm', i) >= 0 && Scan(s, i, st).Ok?
    ensures i + 2 <= IndexOf(s, 'm', i)
    ensures ApplySequence(s[i + 2..IndexOf(s, 'm', i)], st).Ok?
    ensures var step := ApplySequence(s[i + 2..IndexOf(s, 'm', i)], st).value;
      Scan(s, i, st) == Prepend(step.0, Scan(s, IndexOf(s, 'm', i) + 1, step.1))
  {
    ScanEscape(s, i, st);
  }

  /** From any position of the scan, its pieces are in place and end outside every span. */
  lemma {:induction false} ScanNests(s: string, i: nat, st: State)
    requires i <= |s|
    requires Scan(s, i, st).Ok?
    ensures Nesting(Scan(s, i, st).value, ModeOf(st)) == Some(Closed)
    decreases |s| - i
  {
    if i == |s| {
      if st.inSpan {
        assert Scan(s, i, st).value == [Close];
      }
    } else {
      var ps, k, st' := ScanStepNests(s, i, st);
      PrependOk(ps, Scan(s, k, st'));
      ScanNests(s, k, st');
      NestingThrough(ps, Scan(s, k, st').value, ModeOf(st), ModeOf(st'));
    }
  }

  /** One step of a successful scan: the pieces it emits lead from the old state's position to the new one's. */
  lemma ScanStepNests(s: string, i: nat, st: State) returns (ps: seq<Piece>, k: nat, st': State)
    requires i < |s| && Scan(s, i, st).Ok?
    ensures i < k <= |s| && Scan(s, i, st) == Prepend(ps, Scan(s, k, st'))
    ensures Nesting(ps, ModeOf(st)) == Some(ModeOf(st'))
  {
    if EscapeAt(s, i) && IndexOf(s, 'm', i) >= 0 {
      var j := IndexOf(s, 'm', i);
      ScanEscapeApplied(s, i, st);
      ApplySequenceNests(s[i + 2..j], st);
      var step := ApplySequence(s[i + 2..j], st).value;
      ps, k, st' := step.0, j + 1, step.1;
    } else {
      ScanChar(s, i, st);
      CharStepNests(s[i], st);
      var step := CharStep(s[i], st);
      ps, k, st' := step.0, i + 1, step.1;
    }
  }

  /** A successful result with pieces in front came from a successful result. */
  lemma PrependOk(ps: seq<Piece>, r: Result<seq<Piece>>)
    requires Prepend(ps, r).Ok?
    ensures r.Ok? && Prepend(ps, r).value == ps + r.value
  {
  }

  /** Pieces that lead from n to m, then pieces that lead from m to Closed. */
  lemma NestingThrough(ps: seq<Piece>, rest: seq<Piece>, n: Nest, m: Nest)
    requires Nesting(ps, n) == Some(m) && Nesting(rest, m) == Some(Closed)
    ensures Nesting(ps + rest, n) == Some(Closed)
  {
    NestingAppend(ps, rest, n);
  }

  /**
   * Every span the converter opens is closed, holds at least one character and
   * no line break, and has a colour; no span is opened inside another.
   */
  lemma ConvertBalanced(s: string)
    ensures Scan(s, 0, Initial).Ok? ==> Nesting(Scan(s, 0, Initial).value, Closed) == Some(Closed)
    ensures AnsiToHtml(s).Ok? <==> Scan(s, 0, Initial).Ok?
    ensures AnsiToHtml(s).Ok? ==> AnsiToHtml(s).value == MarkupOf(Scan(s, 0, Initial).value)
  {
    if Scan(s, 0, Initial).Ok? {
      ScanNests(s, 0, Initial);
    }
  }

  // ---------------------------------------------------------------------------
  // Visible text

  /** The character a piece shows: glyphs and line breaks, not tags. */
  function PieceText(p: Piece): string
  {
    match p
    case Glyph(c) => [c]
    case Break(c) => [c]
    case _ => []
  }

  function TextOf(ps: seq<Piece>): string
  {
    ConcatMap(ps, PieceText)
  }

  /** The input from i on with every escape that has a later 'm' removed, whatever it sets. */
  function Visible(s: string, i: nat): string
    requires i <= |s|
    decreases |s| - i
  {
    if i == |s| then []
    else if EscapeAt(s, i) && IndexOf(s, 'm', i) >= 0 then Visible(s, IndexOf(s, 'm', i) + 1)
    else [s[i]] + Visible(s, i + 1)
  }

  lemma CharStepText(c: char, st: State)
    ensures TextOf(CharStep(c, st).0) == [c]
  {
    var ps := CharStep(c, st).0;
    if IsNewline(c) && st.inSpan {
      assert ps == [Close, Break(c)];
      ConcatMapPair(Close, Break(c), PieceText);
    } else if !IsNewline(c) && (st.hasFg || st.hasBg) && !st.inSpan {
      ConcatMapPair(OpenFor(st), Glyph(c), PieceText);
    } else if IsNewline(c) {
      assert ps == [Break(c)];
      ConcatMapSingle(Break(c), PieceText);
    } else {
      ConcatMapSingle(Glyph(c), PieceText);
    }
  }

  lemma ApplySequenceText(sequence: string, st: State)
    requires ApplySequence(sequence, st).Ok?
    ensures TextOf(ApplySequence(sequence, st).value.0) == []
  {
    var ps := ApplySequence(sequence, st).value.0;
    if ps != [] {
      assert ps == [Close];
      ConcatMapSingle(Close, PieceText);
    }
  }

  /** The characters the output shows are the input's, escapes removed, in order. */
  lemma {:induction false} ScanText(s: string, i: nat, st: State)
    requires i <= |s|
    requires Scan(s, i, st).Ok?
    ensures TextOf(Scan(s, i, st).value) == Visible(s, i)
    decreases |s| - i
  {
    if i == |s| {
      var ps := Scan(s, i, st).value;
      if st.inSpan {
        assert ps == [Close];
        ConcatMapSingle(Close, PieceText);
      }
    } else if EscapeAt(s, i) && IndexOf(s, 'm', i) >= 0 {
      var j := IndexOf(s, 'm', i);
      ScanEscapeApplied(s, i, st);
      var step := ApplySequence(s[i + 2..j], st).value;
      PrependOk(step.0, Scan(s, j + 1, step.1));
      ScanText(s, j + 1, step.1);
      EscapeText(s, i, st, j, step);
    } else {
      var step := CharStep(s[i], st);
      ScanChar(s, i, st);
      PrependOk(step.0, Scan(s, i + 1, step.1));
      ScanText(s, i + 1, step.1);
      CharText(s, i, st, step);
    }
  }

  /** An escape shows nothing: the text from i is the text after its 'm'. */
  lemma EscapeText(s: string, i: nat, st: State, j: int, step: (seq<Piece>, State))
    requires EscapeAt(s, i) && j == IndexOf(s, 'm', i) && i + 2 <= j < |s|
    requires ApplySequence(s[i + 2..j], st) == Ok(step)
    requires Scan(s, i, st) == Prepend(step.0, Scan(s, j + 1, step.1))
    requires Scan(s, j + 1, step.1).Ok? && TextOf(Scan(s, j + 1, step.1).value) == Visible(s, j + 1)
    ensures Scan(s, i, st).Ok? && TextOf(Scan(s, i, st).value) == Visible(s, i)
  {
    ApplySequenceText(s[i + 2..j], st);
    TextPrepend(step.0, Scan(s, j + 1, step.1));
    assert [] + Visible(s, j + 1) == Visible(s, j + 1);
  }

  /** A character outside an escape shows as itself, then the text after it. */
  lemma CharText(s: string, i: nat, st: State, step: (seq<Piece>, State))
    requires i < |s| && !(EscapeAt(s, i) && IndexOf(s, 'm', i) >= 0)
    requires step == CharStep(s[i], st)
    requires Scan(s, i, st) == Prepend(step.0, Scan(s, i + 1, step.1))
    requires Scan(s, i + 1, step.1).Ok? && TextOf(Scan(s, i + 1, step.1).value) == Visible(s, i + 1)
    ensures Scan(s, i, st).Ok? && TextOf(Scan(s, i, st).value) == Visible(s, i)
  {
    CharStepText(s[i], st);
    TextPrepend(step.0, Scan(s, i + 1, step.1));
  }

  lemma TextPrepend(ps: seq<Piece>, r: Result<seq<Piece>>)
    requires Prepend(ps, r).Ok?
    ensures r.Ok? && TextOf(Prepend(ps, r).value) == TextOf(ps) + TextOf(r.value)
  {
    ConcatMapAppend(ps, r.value, PieceText);
  }

  // ---------------------------------------------------------------------------
  // Input without escapes

  /** With no colour set, a character is written encoded and the locals stay as they were. */
  lemma PlainChar(c: char)
    ensures CharStep(c, Initial).1 == Initial
    ensures MarkupOf(CharStep(c, Initial).0) == EncodeChar(c)
  {
    if IsNewline(c) {
      assert CharStep(c, Initial).0 == [Break(c)];
      MarkupSingle(Break(c));
    } else {
      MarkupSingle(Glyph(c));
    }
  }

  /** No ESC '[' from position i on is closed by a later 'm'. */
  predicate NoEscapeFrom(s: string, i: nat)
    requires i <= |s|
  {
    forall k :: i <= k < |s| ==> !(EscapeAt(s, k) && IndexOf(s, 'm', k) >= 0)
  }

  /**
   * Without a complete escape the locals never change and every character,
   * ESC included, is encoded on its own.
   */
  lemma {:induction false} ScanPlain(s: string, i: nat)
    requires i <= |s| && NoEscapeFrom(s, i)
    ensures Scan(s, i, Initial).Ok?
    ensures MarkupOf(Scan(s, i, Initial).value) == EncodeChars(s[i..])
    decreases |s| - i
  {
    if i == |s| {
      assert s[i..] == [];
    } else {
      var c := s[i];
      ScanChar(s, i, Initial);
      PlainChar(c);
      ScanPlain(s, i + 1);
      MarkupAppend(CharStep(c, Initial).0, Scan(s, i + 1, Initial).value);
      assert s[i..] == [c] + s[i + 1..];
      EncodeCharsCons(c, s[i + 1..]);
    }
  }

  /** Text with no escapes comes out exactly as HtmlEncode would write it. */
  lemma PlainIsEncoded(s: string)
    requires Esc !in s
    ensures AnsiToHtml(s) == Ok(HtmlEncode(s))
  {
    assert NoEscapeFrom(s, 0) by {
      forall k | 0 <= k < |s| ensures !EscapeAt(s, k) {
        assert s[k] in s;
      }
    }
    ScanPlain(s, 0);
    assert s[0..] == s;
    HtmlEncodeIsPerChar(s);
  }

  /** An ESC '[' with no 'm' after it is not an escape: it is copied like any other text. */
  lemma UnterminatedIsText(s: string)
    requires 'm' !in s
    ensures AnsiToHtml(s) == Ok(HtmlEncode(s))
  {
    assert NoEscapeFrom(s, 0) by {
      assert forall t :: 0 <= t < |s| ==> s[t] != 'm';
    }
    ScanPlain(s, 0);
    assert s[0..] == s;
    HtmlEncodeIsPerChar(s);
  }

  /**
   * An escape that is neither the reset nor a colour sequence with five parts
   * is consumed and leaves no trace: scanning resumes after its 'm' with the
   * same locals.
   */
  lemma OtherEscapeDropped(s: string, i: nat, st: State)
    requires EscapeAt(s, i) && IndexOf(s, 'm', i) >= 0
    requires var sequence := s[i + 2..IndexOf(s, 'm', i)];
      sequence != "0" &&
      (StartsWith(sequence, "38;2;") || StartsWith(sequence, "48;2;") ==> |Split(sequence, ';')| < 5)
    ensures Scan(s, i, st) == Scan(s, IndexOf(s, 'm', i) + 1, st)
  {
    ScanEscape(s, i, st);
    PrependNothing(Scan(s, IndexOf(s, 'm', i) + 1, st));
  }

  // ---------------------------------------------------------------------------
  // The escapes the renderers write

  /** The converter's colour for a pixel. */
  function RgbOf(p: Pixel): Rgb
  {
    Rgb(p.r, p.g, p.b)
  }

  /** An SGR escape with numeric parameters found at i: its 'm' is the first after i, its parameters sit between. */
  lemma SgrAt(s: string, i: nat, params: seq<string>)
    requires forall k :: 0 <= k < |params| ==> AllDigits(params[k])
    requires i + |Sgr(params)| <= |s| && s[i..i + |Sgr(params)|] == Sgr(params)
    ensures EscapeAt(s, i)
    ensures IndexOf(s, 'm', i) == i + |Sgr(params)| - 1
    ensures s[i + 2..IndexOf(s, 'm', i)] == Join(params, ';')
  {
    var e := Sgr(params);
    SgrShape(params);
    assert forall k :: i <= k < i + |e| ==> s[k] == e[k - i];
    var j := IndexOf(s, 'm', i);
    assert s[i + |e| - 1] == 'm';
    assert forall k :: i <= k < i + |e| - 1 ==> s[k] != 'm' by {
      forall k | i <= k < i + |e| - 1
        ensures s[k] != 'm'
      {
        if k >= i + 2 {
          assert IsParamChar(e[k - i]);
        }
      }
    }
    assert s[i + 2..j] == e[2..|e| - 1];
    assert e == [Esc, '['] + Join(params, ';') + "m";
  }

  /** Any SGR escape with numeric parameters is one escape step of the scan. */
  lemma ScanSgr(s: string, i: nat, params: seq<string>, st: State)
    requires forall k :: 0 <= k < |params| ==> AllDigits(params[k])
    requires i + |Sgr(params)| <= |s| && s[i..i + |Sgr(params)|] == Sgr(params)
    ensures Scan(s, i, st) ==
      match ApplySequence(Join(params, ';'), st)
      case Err(e) => Err(e)
      case Ok(step) => Prepend(step.0, Scan(s, i + |Sgr(params)|, step.1))
  {
    SgrAt(s, i, params);
    ScanEscape(s, i, st);
  }

  /** The parameters of a colour escape: a selector, 2 for true colour, then the three channels. */
  function ColorSelector(selector: string, p: Pixel): seq<string>
  {
    [selector, "2", IntToString(p.r), IntToString(p.g), IntToString(p.b)]
  }

  lemma JoinFive(parts: seq<string>)
    requires |parts| == 5
    ensures Join(parts, ';') == parts[0] + ";" + parts[1] + ";" + parts[2] + ";" + parts[3] + ";" + parts[4]
  {
    var two, three, four := parts[..2], parts[..3], parts[..4];
    assert two[..1] == [parts[0]];
    assert Join(two, ';') == parts[0] + ";" + parts[1];
    assert three[..2] == two;
    assert Join(three, ';') == Join(two, ';') + ";" + parts[2];
    assert four[..3] == three;
    assert Join(four, ';') == Join(three, ';') + ";" + parts[3];
    assert Join(parts, ';') == Join(four, ';') + ";" + parts[4];
  }

  /** A colour escape's channels parse back to the pixel's own values. */
  lemma ColorParsesBack(selector: string, p: Pixel)
    requires p.Valid() && AllDigits(selector)
    ensures Split(Join(ColorSelector(selector, p), ';'), ';') == ColorSelector(selector, p)
    ensures ParseColor(ColorSelector(selector, p)) == Ok(RgbOf(p))
  {
    var parts := ColorSelector(selector, p);
    forall k | 0 <= k < 5
      ensures ';' !in parts[k]
    {
      assert AllDigits(parts[k]);
    }
    SplitJoin(parts, ';');
    ParseIntRoundTrip(p.r);
    ParseIntRoundTrip(p.g);
    ParseIntRoundTrip(p.b);
  }

  /** A colour escape's parameters: the selector and 2 first, then at least three more parts. */
  lemma ColorSequence(selector: string, p: Pixel)
    requires p.Valid() && |selector| == 2 && AllDigits(selector)
    ensures var sequence := Join(ColorSelector(selector, p), ';');
      |sequence| >= 5 && sequence != "0" && sequence[0] == selector[0] && sequence[1] == selector[1] &&
      sequence[2] == ';' && sequence[3] == '2' && sequence[4] == ';'
  {
    var parts := ColorSelector(selector, p);
    JoinFive(parts);
  }

  /** A foreground escape whose channels parse sets the foreground and emits nothing. */
  lemma SetsForeground(sequence: string, c: Rgb, st: State)
    requires |sequence| >= 5 && sequence != "0"
    requires sequence[0] == '3' && sequence[1] == '8' && sequence[2] == ';' && sequence[3] == '2' && sequence[4] == ';'
    requires |Split(sequence, ';')| >= 5 && ParseColor(Split(sequence, ';')) == Ok(c)
    ensures ApplySequence(sequence, st) == Ok(([], st.(fg := c, hasFg := true)))
  {
    assert sequence[..5] == "38;2;";
  }

  /** A background escape whose channels parse sets the background and emits nothing. */
  lemma SetsBackground(sequence: string, c: Rgb, st: State)
    requires |sequence| >= 5 && sequence != "0"
    requires sequence[0] == '4' && sequence[1] == '8' && sequence[2] == ';' && sequence[3] == '2' && sequence[4] == ';'
    requires |Split(sequence, ';')| >= 5 && ParseColor(Split(sequence, ';')) == Ok(c)
    ensures ApplySequence(sequence, st) == Ok(([], st.(bg := c, hasBg := true)))
  {
    assert sequence[..5] == "48;2;";
    assert !StartsWith(sequence, "38;2;") by {
      assert sequence[0] != "38;2;"[0];
    }
  }

  /** The foreground escape a renderer writes sets exactly the pixel's colour as foreground. */
  lemma ForegroundApplies(p: Pixel, st: State)
    requires p.Valid()
    ensures ApplySequence(Join(ColorSelector("38", p), ';'), st) == Ok(([], st.(fg := RgbOf(p), hasFg := true)))
  {
    ColorSequence("38", p);
    ColorParsesBack("38", p);
    SetsForeground(Join(ColorSelector("38", p), ';'), RgbOf(p), st);
  }

  /** The background escape a renderer writes sets exactly the pixel's colour as background. */
  lemma BackgroundApplies(p: Pixel, st: State)
    requires p.Valid()
    ensures ApplySequence(Join(ColorSelector("48", p), ';'), st) == Ok(([], st.(bg := RgbOf(p), hasBg := true)))
  {
    ColorSequence("48", p);
    ColorParsesBack("48", p);
    SetsBackground(Join(ColorSelector("48", p), ';'), RgbOf(p), st);
  }

  lemma PrependNothing(r: Result<seq<Piece>>)
    ensures Prepend([], r) == r
  {
    if r.Ok? {
      assert [] + r.value == r.value;
    }
  }

  /** An escape introducer, parameters without 'm', and the final 'm'. */
  predicate EscapeShaped(e: string)
  {
    |e| >= 3 && e[0] == Esc && e[1] == '[' && e[|e| - 1] == 'm' &&
    forall k :: 2 <= k < |e| - 1 ==> e[k] != 'm'
  }

  /** A whole escape whose parameters emit nothing and turn the locals st into st'. */
  predicate SilentEscape(e: string, st: State, st': State)
  {
    EscapeShaped(e) && ApplySequence(e[2..|e| - 1], st) == Ok(([], st'))
  }

  /** A whole escape at i whose parameters emit nothing only changes the locals. */
  lemma ScanSilentEscape(s: string, i: nat, e: string, st: State, st': State)
    requires SilentEscape(e, st, st')
    requires i + |e| <= |s| && s[i..i + |e|] == e
    ensures Scan(s, i, st) == Scan(s, i + |e|, st')
  {
    assert forall k :: i <= k < i + |e| ==> s[k] == e[k - i];
    var j := IndexOf(s, 'm', i);
    assert s[i + |e| - 1] == 'm';
    assert j == i + |e| - 1;
    assert s[i + 2..j] == e[2..|e| - 1];
    ScanEscape(s, i, st);
    PrependNothing(Scan(s, i + |e|, st'));
  }

  /** Wherever e occurs in the input, scanning it turns the locals st into st' and emits nothing. */
  ghost predicate SkipsTo(e: string, st: State, st': State)
  {
    forall s: string, i: nat, j: nat :: j == i + |e| <= |s| && s[i..j] == e ==> Scan(s, i, st) == Scan(s, j, st')
  }

  lemma ScanSilentEscapes(e: string, st: State, st': State)
    requires SilentEscape(e, st, st')
    ensures SkipsTo(e, st, st')
  {
    forall s: string, i: nat, j: nat | j == i + |e| <= |s| && s[i..j] == e
      ensures Scan(s, i, st) == Scan(s, j, st')
    {
      ScanSilentEscape(s, i, e, st, st');
    }
  }

  /** The foreground escape a renderer writes is a whole escape that sets exactly the pixel's colour. */
  lemma ForegroundEscape(p: Pixel, st: State)
    requires p.Valid()
    ensures SilentEscape(Foreground(p), st, st.(fg := RgbOf(p), hasFg := true))
  {
    var params := ColorSelector("38", p);
    ColorParams(p);
    SgrShape(params);
    assert Foreground(p)[2..|Foreground(p)| - 1] == Join(params, ';');
    ForegroundApplies(p, st);
  }

  /** The background escape a renderer writes is a whole escape that sets exactly the pixel's colour. */
  lemma BackgroundEscape(p: Pixel, st: State)
    requires p.Valid()
    ensures SilentEscape(Background(p), st, st.(bg := RgbOf(p), hasBg := true))
  {
    var params := ColorSelector("48", p);
    ColorParams(p);
    SgrShape(params);
    assert Background(p)[2..|Background(p)| - 1] == Join(params, ';');
    BackgroundApplies(p, st);
  }

  lemma ForegroundScans(p: Pixel, st: State)
    requires p.Valid()
    ensures SkipsTo(Foreground(p), st, st.(fg := RgbOf(p), hasFg := true))
  {
    ForegroundEscape(p, st);
    ScanSilentEscapes(Foreground(p), st, st.(fg := RgbOf(p), hasFg := true));
  }

  /** A foreground escape in the input only records the colour. */
  lemma ScanForeground(s: string, i: nat, p: Pixel, st: State)
    requires p.Valid()
    requires i + |Foreground(p)| <= |s| && s[i..i + |Foreground(p)|] == Foreground(p)
    ensures Scan(s, i, st) == Scan(s, i + |Foreground(p)|, st.(fg := RgbOf(p), hasFg := true))
  {
    ForegroundScans(p, st);
  }

  lemma BackgroundScans(p: Pixel, st: State)
    requires p.Valid()
    ensures SkipsTo(Background(p), st, st.(bg := RgbOf(p), hasBg := true))
  {
    BackgroundEscape(p, st);
    ScanSilentEscapes(Background(p), st, st.(bg := RgbOf(p), hasBg := true));
  }

  /** A background escape in the input only records the colour. */
  lemma ScanBackground(s: string, i: nat, p: Pixel, st: State)
    requires p.Valid()
    requires i + |Background(p)| <= |s| && s[i..i + |Background(p)|] == Background(p)
    ensures Scan(s, i, st) == Scan(s, i + |Background(p)|, st.(bg := RgbOf(p), hasBg := true))
  {
    BackgroundScans(p, st);
  }

  /** The reset escape closes an open span and forgets both colours. */
  lemma ScanReset(s: string, i: nat, st: State)
    requires i + |Reset| <= |s| && s[i..i + |Reset|] == Reset
    ensures Scan(s, i, st) ==
      Prepend(if st.inSpan then [Close] else [], Scan(s, i + |Reset|, st.(inSpan := false, hasFg := false, hasBg := false)))
  {
    ResetIsSgr();
    assert Join(["0"], ';') == "0";
    ScanSgr(s, i, ["0"], st);
  }

  /** A character that is neither ESC nor a line break is one CharStep. */
  lemma ScanGlyph(s: string, i: nat, st: State)
    requires i < |s| && s[i] != Esc && !IsNewline(s[i])
    ensures Scan(s, i, st) == Prepend(CharStep(s[i], st).0, Scan(s, i + 1, CharStep(s[i], st).1))
  {
    ScanChar(s, i, st);
  }

  /**
   * A coloured cell of the classic renderer, its foreground escape and glyph:
   * outside a span it opens one in the pixel's colour; inside a span the glyph
   * joins that span and the pixel's colour is only recorded.
   */
  lemma ScanColouredGlyph(s: string, i: nat, p: Pixel, st: State)
    requires p.Valid()
    requires i + |Foreground(p)| < |s| && s[i..i + |Foreground(p)|] == Foreground(p)
    requires s[i + |Foreground(p)|] != Esc && !IsNewline(s[i + |Foreground(p)|])
    ensures var c, next, st' := s[i + |Foreground(p)|], i + |Foreground(p)| + 1, st.(fg := RgbOf(p), hasFg := true);
      (!st.inSpan ==>
         Scan(s, i, st) ==
         Prepend([Open(Some(RgbOf(p)), if st.hasBg then Some(st.bg) else None), Glyph(c)], Scan(s, next, st'.(inSpan := true)))) &&
      (st.inSpan ==> Scan(s, i, st) == Prepend([Glyph(c)], Scan(s, next, st')))
  {
    ScanForeground(s, i, p, st);
    ScanGlyph(s, i + |Foreground(p)|, st.(fg := RgbOf(p), hasFg := true));
  }

  /**
   * Escapes f then b, recorded as st to st2, followed by a glyph: outside a
   * span the glyph opens one with the given opening, inside it joins the span.
   */
  ghost predicate CellScans(f: string, b: string, st: State, st2: State, open: Piece)
  {
    forall s: string, i: nat ::
      i + |f| + |b| < |s| && s[i..i + |f| + |b|] == f + b &&
      s[i + |f| + |b|] != Esc && !IsNewline(s[i + |f| + |b|]) ==>
        (!st.inSpan ==>
           Scan(s, i, st) ==
           Prepend([open, Glyph(s[i + |f| + |b|])], Scan(s, i + |f| + |b| + 1, st2.(inSpan := true)))) &&
        (st.inSpan ==> Scan(s, i, st) == Prepend([Glyph(s[i + |f| + |b|])], Scan(s, i + |f| + |b| + 1, st2)))
  }

  /**
   * A coloured cell of the half-block renderer, its two escapes and glyph,
   * anywhere in the input: outside a span it opens one with both colours;
   * inside a span neither colour shows.
   */
  lemma ColourCellScans(top: Pixel, bottom: Pixel, st: State)
    requires top.Valid() && bottom.Valid()
    ensures CellScans(Foreground(top), Background(bottom), st,
      st.(fg := RgbOf(top), hasFg := true, bg := RgbOf(bottom), hasBg := true),
      Open(Some(RgbOf(top)), Some(RgbOf(bottom))))
  {
    var st1 := st.(fg := RgbOf(top), hasFg := true);
    ForegroundScans(top, st);
    BackgroundScans(bottom, st1);
    SkipTwoThenGlyphs(Foreground(top), Background(bottom), st, st1,
      st.(fg := RgbOf(top), hasFg := true, bg := RgbOf(bottom), hasBg := true),
      Open(Some(RgbOf(top)), Some(RgbOf(bottom))));
  }

  lemma SkipTwoThenGlyphs(f: string, b: string, st: State, st1: State, st2: State, open: Piece)
    requires SkipsTo(f, st, st1) && SkipsTo(b, st1, st2)
    requires st2.hasFg && st2.inSpan == st.inSpan && open == OpenFor(st2)
    ensures CellScans(f, b, st, st2, open)
  {
    forall s: string, i: nat |
      i + |f| + |b| < |s| && s[i..i + |f| + |b|] == f + b &&
      s[i + |f| + |b|] != Esc && !IsNewline(s[i + |f| + |b|])
      ensures (!st.inSpan ==>
                 Scan(s, i, st) ==
                 Prepend([open, Glyph(s[i + |f| + |b|])], Scan(s, i + |f| + |b| + 1, st2.(inSpan := true)))) &&
        (st.inSpan ==> Scan(s, i, st) == Prepend([Glyph(s[i + |f| + |b|])], Scan(s, i + |f| + |b| + 1, st2)))
    {
      SkipTwoThenGlyph(s, i, f, b, st, st1, st2, open);
    }
  }

  /**
   * Two escapes that only record colours, then a glyph: outside a span the
   * glyph opens one in the recorded colours, inside it joins the open span.
   */
  lemma SkipTwoThenGlyph(s: string, i: nat, f: string, b: string, st: State, st1: State, st2: State, open: Piece)
    requires SkipsTo(f, st, st1) && SkipsTo(b, st1, st2)
    requires st2.hasFg && st2.inSpan == st.inSpan && open == OpenFor(st2)
    requires i + |f| + |b| < |s| && s[i..i + |f| + |b|] == f + b
    requires s[i + |f| + |b|] != Esc && !IsNewline(s[i + |f| + |b|])
    ensures var k := i + |f| + |b|;
      (!st.inSpan ==> Scan(s, i, st) == Prepend([open, Glyph(s[k])], Scan(s, k + 1, st2.(inSpan := true)))) &&
      (st.inSpan ==> Scan(s, i, st) == Prepend([Glyph(s[k])], Scan(s, k + 1, st2)))
  {
    SkipTwo(s, i, f, b, st, st1, st2);
    GlyphAfter(s, i + |f| + |b|, st2, open);
  }

  lemma SkipTwo(s: string, i: nat, f: string, b: string, st: State, st1: State, st2: State)
    requires SkipsTo(f, st, st1) && SkipsTo(b, st1, st2)
    requires i + |f| + |b| <= |s| && s[i..i + |f| + |b|] == f + b
    ensures Scan(s, i, st) == Scan(s, i + |f| + |b|, st2)
  {
    SliceSplit(s, i, f, b);
    SkipThrough(s, i, i + |f|, f, b, st, st1, st2);
  }

  /** Two skipped texts side by side in place: the scan goes from the first's start to the second's end. */
  lemma SkipThrough(s: string, i: nat, j: nat, f: string, b: string, st: State, st1: State, st2: State)
    requires SkipsTo(f, st, st1) && SkipsTo(b, st1, st2)
    requires j == i + |f| && j + |b| <= |s| && s[i..j] == f && s[j..j + |b|] == b
    ensures Scan(s, i, st) == Scan(s, j + |b|, st2)
  {
    SkipAt(s, i, f, st, st1);
    SkipAt(s, j, b, st1, st2);
  }

  lemma SliceSplit(s: string, i: nat, f: string, b: string)
    requires i + |f| + |b| <= |s| && s[i..i + |f| + |b|] == f + b
    ensures s[i..i + |f|] == f && s[i + |f|..i + |f| + |b|] == b
  {
    var j, k := i + |f|, i + |f| + |b|;
    assert s[i..j] == s[i..k][..|f|];
    assert s[j..k] == s[i..k][|f|..];
  }

  /** A glyph after colours were recorded: it opens a span unless one is open. */
  lemma GlyphAfter(s: string, k: nat, st: State, open: Piece)
    requires k < |s| && s[k] != Esc && !IsNewline(s[k])
    requires st.hasFg && open == OpenFor(st)
    ensures !st.inSpan ==> Scan(s, k, st) == Prepend([open, Glyph(s[k])], Scan(s, k + 1, st.(inSpan := true)))
    ensures st.inSpan ==> Scan(s, k, st) == Prepend([Glyph(s[k])], Scan(s, k + 1, st))
  {
    ScanGlyph(s, k, st);
  }

  lemma SkipAt(s: string, i: nat, e: string, st: State, st': State)
    requires SkipsTo(e, st, st') && i + |e| <= |s| && s[i..i + |e|] == e
    ensures Scan(s, i, st) == Scan(s, i + |e|, st')
  {
  }

  /** Where the parts of text, glyph, text and glyph sit in their concatenation. */
  lemma FourParts(f: string, a: char, g: string, b: char)
    ensures var s := f + [a] + g + [b];
      |s| == |f| + |g| + 2 && s[0..|f|] == f && s[|f|] == a && s[|f| + 1..|s| - 1] == g && s[|s| - 1] == b
  {
  }

  /** Where the parts of text, glyph and text sit in their concatenation. */
  lemma ThreeParts(f: string, a: char, g: string)
    ensures var s, j := f + [a] + g, |f| + 1;
      |s| == j + |g| && s[0..|f|] == f && s[|f|] == a && s[j..j + |g|] == g
  {
  }

  /**
   * Once a span is open a new colour does not show until the span closes: two
   * differently coloured glyphs share the span of the first glyph's colour.
   */
  lemma SpanKeepsFirstColour(p: Pixel, q: Pixel, a: char, b: char)
    requires p.Valid() && q.Valid()
    requires a != Esc && !IsNewline(a) && b != Esc && !IsNewline(b)
    ensures AnsiToHtml(Foreground(p) + [a] + Foreground(q) + [b]) ==
      Ok(MarkupOf([Open(Some(RgbOf(p)), None), Glyph(a), Glyph(b), Close]))
  {
    var st1 := Initial.(fg := RgbOf(p), hasFg := true);
    ForegroundScans(p, Initial);
    ForegroundScans(q, st1.(inSpan := true));
    GlyphsShareSpan(Foreground(p), Foreground(q), a, b, RgbOf(p), RgbOf(q));
  }

  /** Two escapes that each record a foreground, each followed by a glyph: one span, in the first colour. */
  lemma GlyphsShareSpan(f: string, g: string, a: char, b: char, c1: Rgb, c2: Rgb)
    requires SkipsTo(f, Initial, Initial.(fg := c1, hasFg := true))
    requires SkipsTo(g, Initial.(fg := c1, hasFg := true, inSpan := true), Initial.(fg := c2, hasFg := true, inSpan := true))
    requires a != Esc && !IsNewline(a) && b != Esc && !IsNewline(b)
    ensures AnsiToHtml(f + [a] + g + [b]) == Ok(MarkupOf([Open(Some(c1), None), Glyph(a), Glyph(b), Close]))
  {
    var s := f + [a] + g + [b];
    var st1 := Initial.(fg := c1, hasFg := true);
    var st2 := st1.(inSpan := true);
    FourParts(f, a, g, b);
    SkipAt(s, 0, f, Initial, st1);
    GlyphAfter(s, |f|, st1, Open(Some(c1), None));
    GlyphThenEnd(s, |f| + 1, g, st2, Initial.(fg := c2, hasFg := true, inSpan := true));
    assert Scan(s, 0, Initial) == Ok([Open(Some(c1), None), Glyph(a)] + [Glyph(s[|s| - 1]), Close]);
    assert [Open(Some(c1), None), Glyph(a)] + [Glyph(b), Close] == [Open(Some(c1), None), Glyph(a), Glyph(b), Close];
  }

  /** Inside an open span, text that skips to a state with a colour, then a last glyph: the glyph and the closing tag. */
  lemma GlyphThenEnd(s: string, k: nat, g: string, st: State, st': State)
    requires SkipsTo(g, st, st') && st'.inSpan && st'.hasFg
    requires k + |g| + 1 == |s| && s[k..k + |g|] == g
    requires s[|s| - 1] != Esc && !IsNewline(s[|s| - 1])
    ensures Scan(s, k, st) == Ok([Glyph(s[|s| - 1]), Close])
  {
    SkipAt(s, k, g, st, st');
    GlyphAfter(s, |s| - 1, st', OpenFor(st'));
    ScanAtEnd(s, st');
    assert [Glyph(s[|s| - 1])] + [Close] == [Glyph(s[|s| - 1]), Close];
  }

  /** Inside an open span, the reset as the last thing in the input gives only the closing tag. */
  lemma ResetAtEnd(s: string, k: nat, st: State)
    requires st.inSpan && k + |Reset| == |s| && s[k..k + |Reset|] == Reset
    ensures Scan(s, k, st) == Ok([Close])
  {
    ScanReset(s, k, st);
    ScanAtEnd(s, st.(inSpan := false, hasFg := false, hasBg := false));
    assert [Close] + [] == [Close];
  }

  /** A glyph between a foreground escape and a reset is wrapped in one span of that colour. */
  lemma ResetClosesColouredGlyph(p: Pixel, a: char)
    requires p.Valid()
    requires a != Esc && !IsNewline(a)
    ensures AnsiToHtml(Foreground(p) + [a] + Reset) == Ok(MarkupOf([Open(Some(RgbOf(p)), None), Glyph(a), Close]))
  {
    ForegroundScans(p, Initial);
    ResetClosesSpan(Foreground(p), a, RgbOf(p));
  }

  /** An escape that records a foreground, a glyph, then the reset: one span around the glyph. */
  lemma ResetClosesSpan(f: string, a: char, c: Rgb)
    requires SkipsTo(f, Initial, Initial.(fg := c, hasFg := true))
    requires a != Esc && !IsNewline(a)
    ensures AnsiToHtml(f + [a] + Reset) == Ok(MarkupOf([Open(Some(c), None), Glyph(a), Close]))
  {
    var s := f + [a] + Reset;
    var st1 := Initial.(fg := c, hasFg := true);
    ThreeParts(f, a, Reset);
    SkipAt(s, 0, f, Initial, st1);
    GlyphAfter(s, |f|, st1, Open(Some(c), None));
    ResetAtEnd(s, |f| + 1, st1.(inSpan := true));
    assert [Open(Some(c), None), Glyph(a)] + [Close] == [Open(Some(c), None), Glyph(a), Close];
  }
  /**
   * The worked example of the HTML handler: a half-block cell (foreground
   * 10,20,30 over background 40,50,60, glyph X) followed by the reset becomes
   * one span carrying both styles around the glyph.
   */
  lemma WorkedExample()
    ensures AnsiToHtml(Foreground(Pixel(10, 20, 30)) + Background(Pixel(40, 50, 60)) + "X" + Reset)
      == Ok("<span style=\"" + "color:rgb(10,20,30);" + "background-color:rgb(40,50,60);" + "\">" + "X" + "</span>")
  {
    WorkedExamplePieces();
    WorkedExampleMarkup();
  }

  /** The worked example's input converts to one span with both colours around the glyph. */
  lemma WorkedExamplePieces()
    ensures AnsiToHtml(Foreground(Pixel(10, 20, 30)) + Background(Pixel(40, 50, 60)) + "X" + Reset)
      == Ok(MarkupOf([Open(Some(Rgb(10, 20, 30)), Some(Rgb(40, 50, 60))), Glyph('X'), Close]))
  {
    var top, bottom := Pixel(10, 20, 30), Pixel(40, 50, 60);
    ColourCellScans(top, bottom, Initial);
    CellResetClosesSpan(Foreground(top), Background(bottom), 'X',
      Initial.(fg := RgbOf(top), hasFg := true, bg := RgbOf(bottom), hasBg := true),
      Open(Some(RgbOf(top)), Some(RgbOf(bottom))));
    assert ['X'] == "X";
  }

  /** The text of the worked example's pieces: the tag with both styles, the glyph, the closing tag. */
  lemma WorkedExampleMarkup()
    ensures MarkupOf([Open(Some(Rgb(10, 20, 30)), Some(Rgb(40, 50, 60))), Glyph('X'), Close])
      == "<span style=\"" + "color:rgb(10,20,30);" + "background-color:rgb(40,50,60);" + "\">" + "X" + "</span>"
  {
    var open := Open(Some(Rgb(10, 20, 30)), Some(Rgb(40, 50, 60)));
    WorkedExampleTag();
    MarkupAppend([open, Glyph('X')], [Close]);
    ConcatMapPair(open, Glyph('X'), Markup);
    ConcatMapSingle(Close, Markup);
    assert [open, Glyph('X')] + [Close] == [open, Glyph('X'), Close];
    assert Markup(Glyph('X')) == "X" && Markup(Close) == "</span>";
  }

  /** The worked example's opening tag: the foreground style, then the background style. */
  lemma WorkedExampleTag()
    ensures Markup(Open(Some(Rgb(10, 20, 30)), Some(Rgb(40, 50, 60))))
      == "<span style=\"" + "color:rgb(10,20,30);" + "background-color:rgb(40,50,60);" + "\">"
  {
    WorkedExampleStyles();
  }

  /** The worked example's two style declarations. */
  lemma WorkedExampleStyles()
    ensures ColorStyle(Rgb(10, 20, 30)) == "color:rgb(10,20,30);"
    ensures BackgroundStyle(Rgb(40, 50, 60)) == "background-color:rgb(40,50,60);"
  {
    WorkedExampleForeground();
    WorkedExampleBackground();
  }

  /** The worked example's foreground colour as the style attribute writes it. */
  lemma WorkedExampleForeground()
    ensures RgbText(Rgb(10, 20, 30)) == "rgb(10,20,30)"
  {
    TensText(1, 2, 3);
    assert DigitChar(1) == '1' && DigitChar(2) == '2' && DigitChar(3) == '3';
  }

  /** The worked example's background colour as the style attribute writes it. */
  lemma WorkedExampleBackground()
    ensures RgbText(Rgb(40, 50, 60)) == "rgb(40,50,60)"
  {
    TensText(4, 5, 6);
    assert DigitChar(4) == '4' && DigitChar(5) == '5' && DigitChar(6) == '6';
  }

  /** The colour text of three multiples of ten below 100. */
  lemma TensText(r: nat, g: nat, b: nat)
    requires 1 <= r < 10 && 1 <= g < 10 && 1 <= b < 10
    ensures RgbText(Rgb(10 * r, 10 * g, 10 * b)) ==
      "rgb(" + [DigitChar(r), '0'] + "," + [DigitChar(g), '0'] + "," + [DigitChar(b), '0'] + ")"
  {
    TensDigits(r);
    TensDigits(g);
    TensDigits(b);
  }

  /** The decimal text of 10·d for a single non-zero digit d. */
  lemma TensDigits(d: nat)
    requires 1 <= d < 10
    ensures IntToString(10 * d) == [DigitChar(d), '0']
  {
    assert (10 * d) / 10 == d && (10 * d) % 10 == 0;
    assert NatToString(d) == [DigitChar(d)];
    assert DigitChar(0) == '0';
    assert NatToString(10 * d) == NatToString(d) + [DigitChar(0)];
  }

  /** A coloured cell from the initial state, a glyph, then the reset: one span around the glyph. */
  lemma CellResetClosesSpan(f: string, b: string, a: char, st2: State, open: Piece)
    requires CellScans(f, b, Initial, st2, open)
    requires a != Esc && !IsNewline(a)
    ensures AnsiToHtml(f + b + [a] + Reset) == Ok(MarkupOf([open, Glyph(a), Close]))
  {
    var fb := f + b;
    var s := fb + [a] + Reset;
    var k := |f| + |b|;
    ThreeParts(fb, a, Reset);
    assert s[0..k] == f + b;
    assert Scan(s, 0, Initial) == Prepend([open, Glyph(a)], Scan(s, k + 1, st2.(inSpan := true)));
    ResetAtEnd(s, k + 1, st2.(inSpan := true));
    assert [open, Glyph(a)] + [Close] == [open, Glyph(a), Close];
  }
}
