/**
 * HtmlOutputHandler: the path check, the HTML document around the art, the
 * four-character entity escaping (HtmlEncode) and ConvertAnsiToHtml, the
 * scanner that turns 24-bit SGR escapes (the "CSI ... m" control sequences of
 * ECMA-48) into inline-styled <span> elements.
 *
 * The converter's output is modelled twice: as the string the StringBuilder
 * holds, and as the sequence of pieces (span openings, span closings, glyphs,
 * line breaks) that string is made of, so that span balance can be stated.
 */
module HtmlOutputHandler {
  import opened Wrappers
  import opened Strings
  import opened Imaging
  import opened Options

  // ---------------------------------------------------------------------------
  // Entity escaping

  /** The text one character becomes: the four markup characters as entities, any other as itself. */
  function EncodeChar(c: char): string
  {
    if c == '<' then "&lt;"
    else if c == '>' then "&gt;"
    else if c == '&' then "&amp;"
    else if c == '"' then "&quot;"
    else [c]
  }

  /** Every character encoded in turn. */
  function EncodeChars(s: string): string
  {
    if s == [] then [] else EncodeChars(s[..|s| - 1]) + EncodeChar(s[|s| - 1])
  }

  /** HtmlEncode: four String.Replace calls, the ampersand first. */
  function HtmlEncode(s: string): (r: string)
    ensures |r| >= |s|
    ensures '&' !in s && '<' !in s && '>' !in s && '"' !in s ==> r == s
  {
    ReplaceChar(ReplaceChar(ReplaceChar(ReplaceChar(s, '&', "&amp;"), '<', "&lt;"), '>', "&gt;"), '"', "&quot;")
  }

  lemma {:induction false} ReplaceAbsent(s: string, c: char, r: string)
    requires c !in s
    ensures ReplaceChar(s, c, r) == s
  {
    if s != [] {
      ReplaceAbsent(s[..|s| - 1], c, r);
    }
  }

  lemma ReplaceSingle(c: char, x: char, r: string)
    ensures ReplaceChar([c], x, r) == if c == x then r else [c]
  {
    assert [c][..0] == [];
  }

  /** The entities the later replacements pass over unchanged. */
  lemma EntitiesClean()
    ensures '<' !in "&amp;" && '>' !in "&amp;" && '"' !in "&amp;"
    ensures '>' !in "&lt;" && '"' !in "&lt;"
    ensures '"' !in "&gt;"
  {
    assert "&amp;" == ['&', 'a', 'm', 'p', ';'];
    assert "&lt;" == ['&', 'l', 't', ';'];
    assert "&gt;" == ['&', 'g', 't', ';'];
  }

  lemma HtmlEncodeChar(c: char)
    ensures HtmlEncode([c]) == EncodeChar(c)
  {
    EntitiesClean();
    ReplaceSingle(c, '&', "&amp;");
    if c == '&' {
      ReplaceAbsent("&amp;", '<', "&lt;");
      ReplaceAbsent("&amp;", '>', "&gt;");
      ReplaceAbsent("&amp;", '"', "&quot;");
    } else {
      ReplaceSingle(c, '<', "&lt;");
      if c == '<' {
        ReplaceAbsent("&lt;", '>', "&gt;");
        ReplaceAbsent("&lt;", '"', "&quot;");
      } else {
        ReplaceSingle(c, '>', "&gt;");
        if c == '>' {
          ReplaceAbsent("&gt;", '"', "&quot;");
        } else {
          ReplaceSingle(c, '"', "&quot;");
        }
      }
    }
  }

  lemma HtmlEncodeAppend(a: string, b: string)
    ensures HtmlEncode(a + b) == HtmlEncode(a) + HtmlEncode(b)
  {
    var a1, b1 := ReplaceChar(a, '&', "&amp;"), ReplaceChar(b, '&', "&amp;");
    ReplaceCharAppend(a, b, '&', "&amp;");
    var a2, b2 := ReplaceChar(a1, '<', "&lt;"), ReplaceChar(b1, '<', "&lt;");
    ReplaceCharAppend(a1, b1, '<', "&lt;");
    var a3, b3 := ReplaceChar(a2, '>', "&gt;"), ReplaceChar(b2, '>', "&gt;");
    ReplaceCharAppend(a2, b2, '>', "&gt;");
    ReplaceCharAppend(a3, b3, '"', "&quot;");
  }

  /** The chain of replacements, ampersand first, escapes each character on its own. */
  lemma {:induction false} HtmlEncodeIsPerChar(s: string)
    ensures HtmlEncode(s) == EncodeChars(s)
  {
    if s == [] {
      assert HtmlEncode(s) == [];
    } else {
      var init, last := s[..|s| - 1], s[|s| - 1];
      assert init + [last] == s;
      HtmlEncodeIsPerChar(init);
      HtmlEncodeAppend(init, [last]);
      HtmlEncodeChar(last);
      assert EncodeChars(s) == EncodeChars(init) + EncodeChar(last);
    }
  }

  lemma {:induction false} EncodeCharsAppend(a: string, b: string)
    ensures EncodeChars(a + b) == EncodeChars(a) + EncodeChars(b)
  {
    HtmlEncodeIsPerChar(a);
    HtmlEncodeIsPerChar(b);
    HtmlEncodeIsPerChar(a + b);
    HtmlEncodeAppend(a, b);
  }

  lemma EncodeCharsCons(c: char, t: string)
    ensures EncodeChars([c] + t) == EncodeChar(c) + EncodeChars(t)
  {
    EncodeCharsAppend([c], t);
    EncodeCharsSingle(c);
  }

  lemma EncodeCharsSingle(c: char)
    ensures EncodeChars([c]) == EncodeChar(c)
  {
    assert [c][..0] == [];
  }

  /** An entity the encoder writes. */
  predicate EntityAt(s: string, k: int)
    requires 0 <= k <= |s|
  {
    StartsWith(s[k..], "&lt;") || StartsWith(s[k..], "&gt;") ||
    StartsWith(s[k..], "&amp;") || StartsWith(s[k..], "&quot;")
  }

  /** Encoded text is safe: no raw '<', '>' or '"', and every '&' begins one of the four entities. */
  predicate Escaped(s: string)
  {
    '<' !in s && '>' !in s && '"' !in s &&
    forall k :: 0 <= k < |s| && s[k] == '&' ==> EntityAt(s, k)
  }

  lemma EntityAtPrefix(a: string, b: string, k: int)
    requires 0 <= k < |a| && EntityAt(a, k)
    ensures EntityAt(a + b, k)
  {
    assert (a + b)[k..] == a[k..] + b;
  }

  lemma EscapedAppend(a: string, b: string)
    requires Escaped(a) && Escaped(b)
    ensures Escaped(a + b)
  {
    var s := a + b;
    forall k | 0 <= k < |s| && s[k] == '&'
      ensures EntityAt(s, k)
    {
      if k < |a| {
        EntityAtPrefix(a, b, k);
      } else {
        assert b[k - |a|] == '&';
        assert s[k..] == b[k - |a|..];
      }
    }
  }

  lemma EscapedChar(c: char)
    ensures Escaped(EncodeChar(c))
  {
    var e := EncodeChar(c);
    if c == '&' {
      assert e[1..] == "amp;";
      assert EntityAt(e, 0);
    } else if c == '<' || c == '>' || c == '"' {
      assert e[0] == '&' && e[1..] != [] && '&' !in e[1..];
      assert EntityAt(e, 0);
    }
  }

  /** HtmlEncode leaves no markup character raw and no ampersand unescaped. */
  lemma {:induction false} HtmlEncodeEscapes(s: string)
    ensures Escaped(HtmlEncode(s))
  {
    HtmlEncodeIsPerChar(s);
    EncodedEscapes(s);
  }

  lemma {:induction false} EncodedEscapes(s: string)
    ensures Escaped(EncodeChars(s))
  {
    if s != [] {
      EncodedEscapes(s[..|s| - 1]);
      EscapedChar(s[|s| - 1]);
      EscapedAppend(EncodeChars(s[..|s| - 1]), EncodeChar(s[|s| - 1]));
    }
  }

  /** Reading the four entities back: the partner of HtmlEncode. */
  function Unescape(s: string): string
    decreases |s|
  {
    if s == [] then []
    else if StartsWith(s, "&lt;") then "<" + Unescape(s[4..])
    else if StartsWith(s, "&gt;") then ">" + Unescape(s[4..])
    else if StartsWith(s, "&amp;") then "&" + Unescape(s[5..])
    else if StartsWith(s, "&quot;") then "\"" + Unescape(s[6..])
    else [s[0]] + Unescape(s[1..])
  }

  lemma UnescapeStep(c: char, rest: string)
    ensures Unescape(EncodeChar(c) + rest) == [c] + Unescape(rest)
  {
    var s := EncodeChar(c) + rest;
    var e := EncodeChar(c);
    assert s[..|e|] == e;
    assert s[|e|..] == rest;
    if c != '&' && c != '<' && c != '>' && c != '"' {
      assert s[0] == c;
      assert !StartsWith(s, "&lt;") && !StartsWith(s, "&gt;");
      assert !StartsWith(s, "&amp;") && !StartsWith(s, "&quot;");
    } else if c == '&' {
      assert s[1] == 'a';
      assert !StartsWith(s, "&lt;") && !StartsWith(s, "&gt;");
      assert s[..5] == "&amp;";
    } else if c == '>' {
      assert s[1] == 'g';
      assert !StartsWith(s, "&lt;");
      assert s[..4] == "&gt;";
    } else if c == '"' {
      assert s[1] == 'q';
      assert !StartsWith(s, "&lt;") && !StartsWith(s, "&gt;") && !StartsWith(s, "&amp;");
      assert s[..6] == "&quot;";
    } else {
      assert s[..4] == "&lt;";
    }
  }

  /** Unescaping what HtmlEncode wrote gives the input back: no input ampersand is left bare. */
  lemma {:induction false} UnescapeEncode(s: string)
    ensures Unescape(HtmlEncode(s)) == s
    decreases |s|
  {
    HtmlEncodeIsPerChar(s);
    if s != [] {
      EncodeCharsCons(s[0], s[1..]);
      assert [s[0]] + s[1..] == s;
      UnescapeStep(s[0], EncodeChars(s[1..]));
      UnescapeEncode(s[1..]);
      HtmlEncodeIsPerChar(s[1..]);
    }
  }

  // ---------------------------------------------------------------------------
  // ConvertAnsiToHtml

  /** A colour as the converter holds it: three int.Parse results. */
  datatype Rgb = Rgb(r: int, g: int, b: int)

  /** The locals of the scanning loop other than the index and the output. */
  datatype State = State(fg: Rgb, bg: Rgb, hasFg: bool, hasBg: bool, inSpan: bool)

  const Initial: State := State(Rgb(255, 255, 255), Rgb(0, 0, 0), false, false, false)

  /** What the converter appends: a span opening with the colours set, a span closing, an encoded glyph, a line break. */
  datatype Piece = Open(fg: Option<Rgb>, bg: Option<Rgb>) | Close | Glyph(c: char) | Break(c: char)

  predicate IsNewline(c: char) { c == '\n' || c == '\r' }

  function RgbText(c: Rgb): string
  {
    "rgb(" + IntToString(c.r) + "," + IntToString(c.g) + "," + IntToString(c.b) + ")"
  }

  function ColorStyle(c: Rgb): string { "color:" + RgbText(c) + ";" }

  function BackgroundStyle(c: Rgb): string { "background-color:" + RgbText(c) + ";" }

  /** The text of one piece. */
  function Markup(p: Piece): string
  {
    match p
    case Open(fg, bg) =>
      "<span style=\"" + (if fg.Some? then ColorStyle(fg.value) else "") +
      (if bg.Some? then BackgroundStyle(bg.value) else "") + "\">"
    case Close => "</span>"
    case Glyph(c) => EncodeChar(c)
    case Break(c) => [c]
  }

  /** The text of a sequence of pieces. */
  function MarkupOf(ps: seq<Piece>): string
  {
    ConcatMap(ps, Markup)
  }

  lemma MarkupAppend(a: seq<Piece>, b: seq<Piece>)
    ensures MarkupOf(a + b) == MarkupOf(a) + MarkupOf(b)
  {
    ConcatMapAppend(a, b, Markup);
  }

  /** String.IndexOf(c, from): the first position at or after from holding c, or -1. */
  function IndexOf(s: string, c: char, from: nat): (j: int)
    requires from <= |s|
    ensures j == -1 || (from <= j < |s| && s[j] == c)
    ensures forall k :: from <= k < |s| && (j == -1 || k < j) ==> s[k] != c
    decreases |s| - from
  {
    if from == |s| then -1 else if s[from] == c then from else IndexOf(s, c, from + 1)
  }

  /** An escape introducer ESC '[' at position i. */
  predicate EscapeAt(s: string, i: nat)
  {
    i + 1 < |s| && s[i] == Esc && s[i + 1] == '['
  }

  /** The three int.Parse calls of a colour escape; a component that does not parse throws. */
  function ParseColor(parts: seq<string>): Result<Rgb>
    requires |parts| >= 5
  {
    var r, g, b := ParseInt(parts[2]), ParseInt(parts[3]), ParseInt(parts[4]);
    if r.None? || g.None? || b.None? then Err(BadNumber) else Ok(Rgb(r.value, g.value, b.value))
  }

  /**
   * The effect of the parameters between ESC '[' and the first 'm': "0" closes an
   * open span and clears both colours; "38;2;..." and "48;2;..." with at least
   * five ';'-separated parts set the foreground or background; anything else is
   * dropped.
   */
  function ApplySequence(sequence: string, st: State): (r: Result<(seq<Piece>, State)>)
    ensures r.Err? ==> r.error == BadNumber
    ensures r.Ok? ==> r.value.0 == [] || (r.value.0 == [Close] && st.inSpan && !r.value.1.inSpan)
    ensures r.Ok? && r.value.1.inSpan ==> st.inSpan
  {
    if sequence == "0" then
      Ok(((if st.inSpan then [Close] else []), st.(inSpan := false, hasFg := false, hasBg := false)))
    else if StartsWith(sequence, "38;2;") then
      var parts := Split(sequence, ';');
      if |parts| >= 5 then
        match ParseColor(parts)
        case Err(e) => Err(e)
        case Ok(c) => Ok(([], st.(fg := c, hasFg := true)))
      else Ok(([], st))
    else if StartsWith(sequence, "48;2;") then
      var parts := Split(sequence, ';');
      if |parts| >= 5 then
        match ParseColor(parts)
        case Err(e) => Err(e)
        case Ok(c) => Ok(([], st.(bg := c, hasBg := true)))
      else Ok(([], st))
    else Ok(([], st))
  }

  /** The span opening for the colours currently set. */
  function OpenFor(st: State): Piece
  {
    Open(if st.hasFg then Some(st.fg) else None, if st.hasBg then Some(st.bg) else None)
  }

  /**
   * A character that is not part of an escape: a line break closes an open span
   * and is copied; any other character first opens a span when a colour is set
   * and none is open, then is copied encoded.
   */
  function CharStep(c: char, st: State): (r: (seq<Piece>, State))
    ensures |r.0| >= 1 && r.0[|r.0| - 1] == (if IsNewline(c) then Break(c) else Glyph(c))
    ensures r.1.inSpan <==> !IsNewline(c) && (st.inSpan || st.hasFg || st.hasBg)
    ensures r.1.(inSpan := st.inSpan) == st
  {
    if IsNewline(c) then ((if st.inSpan then [Close] else []) + [Break(c)], st.(inSpan := false))
    else if (st.hasFg || st.hasBg) && !st.inSpan then ([OpenFor(st), Glyph(c)], st.(inSpan := true))
    else ([Glyph(c)], st)
  }

  /** Pieces in front of a result, which an exception discards. */
  function Prepend(ps: seq<Piece>, r: Result<seq<Piece>>): Result<seq<Piece>>
  {
    if r.Ok? then Ok(ps + r.value) else r
  }

  lemma PrependTwice(a: seq<Piece>, b: seq<Piece>, r: Result<seq<Piece>>)
    ensures Prepend(a, Prepend(b, r)) == Prepend(a + b, r)
  {
    if r.Ok? {
      assert a + (b + r.value) == (a + b) + r.value;
    }
  }

  /** The pieces the converter appends from position i on, in state st, up to the final closing. */
  function Scan(s: string, i: nat, st: State): (r: Result<seq<Piece>>)
    requires i <= |s|
    ensures r.Err? ==> r.error == BadNumber
    decreases |s| - i
  {
    if i == |s| then Ok(if st.inSpan then [Close] else [])
    else if EscapeAt(s, i) && IndexOf(s, 'm', i) >= 0 then
      var j := IndexOf(s, 'm', i);
      match ApplySequence(s[i + 2..j], st)
      case Err(e) => Err(e)
      case Ok(step) => Prepend(step.0, Scan(s, j + 1, step.1))
    else
      var step := CharStep(s[i], st);
      Prepend(step.0, Scan(s, i + 1, step.1))
  }

  /** What ConvertAnsiToHtml returns, or the exception it raises. */
  function AnsiToHtml(s: string): (r: Result<string>)
    ensures r.Err? ==> r.error == BadNumber
  {
    match Scan(s, 0, Initial)
    case Err(e) => Err(e)
    case Ok(ps) => Ok(MarkupOf(ps))
  }

  lemma ScanAtEnd(s: string, st: State)
    ensures Scan(s, |s|, st) == Ok(if st.inSpan then [Close] else [])
  {
  }

  /** An escape with a later 'm': its parameters are applied and scanning resumes after the 'm'. */
  lemma ScanEscape(s: string, i: nat, st: State)
    requires EscapeAt(s, i) && IndexOf(s, 'm', i) >= 0
    ensures i + 2 <= IndexOf(s, 'm', i)
    ensures var j := IndexOf(s, 'm', i);
      Scan(s, i, st) ==
        match ApplySequence(s[i + 2..j], st)
        case Err(e) => Err(e)
        case Ok(step) => Prepend(step.0, Scan(s, j + 1, step.1))
  {
  }

  /** An escape whose parameters apply without error: its pieces, then the scan after the 'm'. */
  lemma ScanEscapeOk(s: string, i: nat, j: int, st: State, pieces: seq<Piece>, st': State)
    requires EscapeAt(s, i) && j == IndexOf(s, 'm', i) && j >= 0
    requires i + 2 <= j && ApplySequence(s[i + 2..j], st) == Ok((pieces, st'))
    ensures Scan(s, i, st) == Prepend(pieces, Scan(s, j + 1, st'))
  {
    ScanEscape(s, i, st);
  }

  /** One more step of the scan moves its pieces onto those already emitted. */
  lemma Advance(done: seq<Piece>, pieces: seq<Piece>, whole: Result<seq<Piece>>,
                here: Result<seq<Piece>>, next: Result<seq<Piece>>)
    requires Prepend(done, here) == whole && here == Prepend(pieces, next)
    ensures Prepend(done + pieces, next) == whole
  {
    PrependTwice(done, pieces, next);
  }

  /** Any other character is one CharStep. */
  lemma ScanChar(s: string, i: nat, st: State)
    requires i < |s| && !(EscapeAt(s, i) && IndexOf(s, 'm', i) >= 0)
    ensures Scan(s, i, st) == Prepend(CharStep(s[i], st).0, Scan(s, i + 1, CharStep(s[i], st).1))
  {
  }

  /**
   * The escape branch of the loop body: the parameters between ESC '[' and the
   * 'm' applied to the colour and span locals; a reset appends the closing of
   * an open span. A colour component that does not parse throws.
   */
  method ApplyEscape(sequence: string, st: State) returns (r: Result<(string, State)>, ghost pieces: seq<Piece>)
    ensures r.Err? ==> ApplySequence(sequence, st) == Err(r.error)
    ensures r.Ok? ==> ApplySequence(sequence, st) == Ok((pieces, r.value.1)) && r.value.0 == MarkupOf(pieces)
  {
    var appended: string := "";
    pieces := [];
    var currentFg, currentBg, hasFg, hasBg, inSpan := st.fg, st.bg, st.hasFg, st.hasBg, st.inSpan;
    if sequence == "0" {
      if inSpan {
        appended := appended + "</span>";
        inSpan := false;
        pieces := [Close];
        MarkupSingle(Close);
      } else {
        assert MarkupOf([]) == [];
      }
      hasFg := false;
      hasBg := false;
    } else if StartsWith(sequence, "38;2;") {
      var parts := Split(sequence, ';');
      if |parts| >= 5 {
        var red, green, blue := ParseInt(parts[2]), ParseInt(parts[3]), ParseInt(parts[4]);
        if red.None? || green.None? || blue.None? {
          r := Err(BadNumber);
          return;
        }
        currentFg := Rgb(red.value, green.value, blue.value);
        hasFg := true;
      }
      assert MarkupOf([]) == [];
    } else if StartsWith(sequence, "48;2;") {
      var parts := Split(sequence, ';');
      if |parts| >= 5 {
        var red, green, blue := ParseInt(parts[2]), ParseInt(parts[3]), ParseInt(parts[4]);
        if red.None? || green.None? || blue.None? {
          r := Err(BadNumber);
          return;
        }
        currentBg := Rgb(red.value, green.value, blue.value);
        hasBg := true;
      }
      assert MarkupOf([]) == [];
    } else {
      assert MarkupOf([]) == [];
    }
    r := Ok((appended, State(currentFg, currentBg, hasFg, hasBg, inSpan)));
  }

  /** The escape branch at i, whose parameters end at the 'm' found at endIndex. */
  method ApplyEscapeAt(input: string, i: nat, endIndex: int, st: State)
    returns (r: Result<(string, State)>, ghost pieces: seq<Piece>)
    requires EscapeAt(input, i) && endIndex == IndexOf(input, 'm', i) && endIndex >= 0
    ensures r.Err? ==> Scan(input, i, st) == Err(r.error)
    ensures r.Ok? ==> Scan(input, i, st) == Prepend(pieces, Scan(input, endIndex + 1, r.value.1))
    ensures r.Ok? ==> r.value.0 == MarkupOf(pieces)
  {
    ScanEscape(input, i, st);
    var sequence := input[i + 2..endIndex];
    r, pieces := ApplyEscape(sequence, st);
    if r.Ok? {
      ScanEscapeOk(input, i, endIndex, st, pieces, r.value.1);
    }
  }

  /** The opening tag for the current colours, written in four appends. */
  method WriteOpenTag(st: State) returns (tag: string)
    ensures tag == Markup(OpenFor(st))
  {
    ghost var fgText := if st.hasFg then ColorStyle(st.fg) else "";
    ghost var bgText := if st.hasBg then BackgroundStyle(st.bg) else "";
    tag := "<span style=\"";
    if st.hasFg {
      tag := tag + ColorStyle(st.fg);
    }
    assert tag == "<span style=\"" + fgText;
    if st.hasBg {
      tag := tag + BackgroundStyle(st.bg);
    }
    assert tag == "<span style=\"" + fgText + bgText;
    tag := tag + "\">";
    OpenMarkup(st);
  }

  /**
   * The character branch of the loop body: a line break closes an open span
   * and is copied; any other character opens a span when a colour is set and
   * none is open, then is appended encoded.
   */
  method EmitChar(c: char, st: State) returns (appended: string, st': State)
    ensures appended == MarkupOf(CharStep(c, st).0)
    ensures st' == CharStep(c, st).1
  {
    var inSpan := st.inSpan;
    if c == '\n' || c == '\r' {
      var close := "";
      if inSpan {
        close := "</span>";
        inSpan := false;
      }
      appended := close + [c];
      NewlineMarkup(st, c);
    } else {
      var open := "";
      if (st.hasFg || st.hasBg) && !inSpan {
        open := WriteOpenTag(st);
        inSpan := true;
      }
      appended := open + EncodeChar(c);
      GlyphMarkup(st, c);
    }
    st' := st.(inSpan := inSpan);
  }

  /**
   * One pass of the scanning loop at i: an ESC '[' with an 'm' after it is
   * applied as one escape and resumes after the 'm'; any other character is
   * emitted on its own.
   */
  method ScanStep(input: string, i: nat, st: State)
    returns (r: Result<(string, State, nat)>, ghost pieces: seq<Piece>)
    requires i < |input|
    ensures r.Err? ==> Scan(input, i, st) == Err(r.error)
    ensures r.Ok? ==> i < r.value.2 <= |input|
    ensures r.Ok? ==> Scan(input, i, st) == Prepend(pieces, Scan(input, r.value.2, r.value.1))
    ensures r.Ok? ==> r.value.0 == MarkupOf(pieces)
  {
    if i < |input| - 1 && input[i] == Esc && input[i + 1] == '[' {
      var endIndex := IndexOf(input, 'm', i);
      if endIndex != -1 {
        var applied;
        applied, pieces := ApplyEscapeAt(input, i, endIndex, st);
        if applied.Err? {
          return Err(applied.error), pieces;
        }
        return Ok((applied.value.0, applied.value.1, endIndex + 1)), pieces;
      }
    }
    ScanChar(input, i, st);
    var appended, st' := EmitChar(input[i], st);
    pieces := CharStep(input[i], st).0;
    r := Ok((appended, st', i + 1));
  }

  /**
   * ConvertAnsiToHtml: the scanning loop over i, appending to a StringBuilder.
   * The colour and span locals (currentFg, currentBg, hasFg, hasBg, inSpan) are
   * held together in st. An exception from a colour component ends the
   * conversion.
   */
  method ConvertAnsiToHtml(input: string) returns (r: Result<string>)
    ensures r == AnsiToHtml(input)
  {
    var output: string := [];
    var st := Initial;
    ghost var whole := Scan(input, 0, Initial);
    ghost var done: seq<Piece> := [];
    assert Prepend(done, whole) == whole by {
      if whole.Ok? {
        assert [] + whole.value == whole.value;
      }
    }

    var i := 0;
    while i < |input|
      invariant 0 <= i <= |input|
      invariant output == MarkupOf(done)
      invariant Prepend(done, Scan(input, i, st)) == whole
      decreases |input| - i
    {
      var step, pieces := ScanStep(input, i, st);
      if step.Err? {
        return Err(step.error);
      }
      var text, st', next := step.value.0, step.value.1, step.value.2;
      Advance(done, pieces, whole, Scan(input, i, st), Scan(input, next, st'));
      MarkupAppend(done, pieces);
      output := output + text;
      st := st';
      done := done + pieces;
      i := next;
    }

    ghost var closing: seq<Piece> := if st.inSpan then [Close] else [];
    ScanAtEnd(input, st);
    assert whole == Ok(done + closing);
    MarkupAppend(done, closing);
    if st.inSpan {
      MarkupSingle(Close);
      output := output + "</span>";
    } else {
      assert done + closing == done;
    }
    return Ok(output);
  }

  lemma MarkupSingle(p: Piece)
    ensures MarkupOf([p]) == Markup(p)
  {
    ConcatMapSingle(p, Markup);
  }

  lemma MarkupPair(p: Piece, q: Piece)
    ensures MarkupOf([p, q]) == Markup(p) + Markup(q)
  {
    ConcatMapPair(p, q, Markup);
  }

  /** A line break closes an open span, then is copied. */
  lemma NewlineMarkup(st: State, c: char)
    requires IsNewline(c)
    ensures MarkupOf(CharStep(c, st).0) == (if st.inSpan then "</span>" else "") + [c]
  {
    if st.inSpan {
      assert CharStep(c, st).0 == [Close, Break(c)];
      MarkupPair(Close, Break(c));
    } else {
      assert CharStep(c, st).0 == [Break(c)];
      MarkupSingle(Break(c));
    }
  }

  /** The opening tag, written in four appends. */
  lemma OpenMarkup(st: State)
    ensures Markup(OpenFor(st)) == "<span style=\"" + (if st.hasFg then ColorStyle(st.fg) else "") +
      (if st.hasBg then BackgroundStyle(st.bg) else "") + "\">"
  {
  }

  /** Any other character, after a span opening when one is due, is copied encoded. */
  lemma GlyphMarkup(st: State, c: char)
    requires !IsNewline(c)
    ensures MarkupOf(CharStep(c, st).0) ==
      (if (st.hasFg || st.hasBg) && !st.inSpan then Markup(OpenFor(st)) else "") + EncodeChar(c)
  {
    if (st.hasFg || st.hasBg) && !st.inSpan {
      MarkupPair(OpenFor(st), Glyph(c));
    } else {
      MarkupSingle(Glyph(c));
    }
  }

  // ---------------------------------------------------------------------------
  // The document and Write

  /**
   * The fixed text of the document template: up to the title text, from it to
   * the art, after the art. The style element is kept, its rules are not.
   */
  const DocumentHead: string :=
    "<!DOCTYPE html>\n<html lang=\"en\">\n<head>\n    <meta charset=\"UTF-8\">\n" +
    "    <meta name=\"viewport\" content=\"width=device-width, initial-scale=1.0\">\n    <title>ASCII Art - "

  const TitleToContent: string :=
    "</title>\n    <style>\n    </style>\n</head>\n<body>\n    <div class=\"container\">\n        <pre>"

  const DocumentTail: string := "</pre>\n    </div>\n</body>\n</html>"

  /**
   * GenerateHtml: the image's file name (what Path.GetFileName returns for the
   * image path), encoded, in the title; the converted art inside the pre element.
   */
  function GenerateHtml(content: string, imageName: string): (r: Result<string>)
    ensures r.Err? <==> AnsiToHtml(content).Err?
    ensures r.Err? ==> r.error == BadNumber
    ensures r.Ok? ==> |r.value| >= |DocumentHead| + |imageName| + |TitleToContent| + |DocumentTail|
  {
    match AnsiToHtml(content)
    case Err(e) => Err(e)
    case Ok(html) => Ok(DocumentHead + HtmlEncode(imageName) + TitleToContent + html + DocumentTail)
  }

  /**
   * The document is the template around two texts: a title that reads back as
   * the file name and holds no raw markup character, and the converter's output.
   */
  lemma DocumentParts(content: string, imageName: string)
    ensures GenerateHtml(content, imageName).Err? <==> AnsiToHtml(content).Err?
    ensures GenerateHtml(content, imageName).Err? ==> GenerateHtml(content, imageName).error == AnsiToHtml(content).error
    ensures GenerateHtml(content, imageName).Ok? ==>
      exists title :: GenerateHtml(content, imageName).value ==
        DocumentHead + title + TitleToContent + AnsiToHtml(content).value + DocumentTail &&
        Unescape(title) == imageName && Escaped(title)
  {
    var title := HtmlEncode(imageName);
    UnescapeEncode(imageName);
    HtmlEncodeEscapes(imageName);
  }

  /** Write: the path must be non-empty; then the document is generated and saved there. */
  function Write(content: string, o: RenderOptions, imageName: string): (r: Result<Written>)
    ensures o.outputPath.None? || o.outputPath.value == [] ==> r == Err(MissingOutputPath)
    ensures r.Ok? ==> r.value.FileText? && r.value.path == o.outputPath.value && o.outputPath.value != []
    ensures r.Ok? ==> Ok(r.value.text) == GenerateHtml(content, imageName)
    ensures o.outputPath.Some? && o.outputPath.value != [] && GenerateHtml(content, imageName).Err? ==>
      r == Err(GenerateHtml(content, imageName).error)
  {
    if o.outputPath.None? || o.outputPath.value == [] then Err(MissingOutputPath)
    else
      match GenerateHtml(content, imageName)
      case Err(e) => Err(e)
      case Ok(html) => Ok(FileText(o.outputPath.value, html))
  }
}
