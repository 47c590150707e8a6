/**
 * FileOutputHandler: the path check, the preserve-ANSI switch and
 * StripAnsiCodes, one leftmost, non-overlapping pass of the pattern
 * ESC [ [0-9;]* m, each match replaced by nothing.
 */
module FileOutputHandler {
  import opened Wrappers
  import opened Strings
  import opened Imaging
  import opened Options

  /** The end of the longest run of [0-9;] starting at i. */
  function ParamRun(s: string, i: nat): (j: nat)
    requires i <= |s|
    ensures i <= j <= |s|
    ensures forall k :: i <= k < j ==> IsParamChar(s[k])
    ensures j < |s| ==> !IsParamChar(s[j])
    decreases |s| - i
  {
    if i < |s| && IsParamChar(s[i]) then ParamRun(s, i + 1) else i
  }

  /**
   * The length of the match of ESC [ [0-9;]* m at the start of s, or 0 when
   * there is none. The starred class cannot hold 'm', so the greedy run either
   * ends right before an 'm' or the attempt fails: no backtracking is needed.
   */
  function MatchLen(s: string): (n: nat)
    ensures n == 0 || 3 <= n <= |s|
    ensures n > 0 ==> s[0] == Esc && s[1] == '[' && s[n - 1] == 'm'
    ensures n > 0 ==> forall k :: 2 <= k < n - 1 ==> IsParamChar(s[k])
  {
    if |s| >= 2 && s[0] == Esc && s[1] == '[' then
      var j := ParamRun(s, 2);
      if j < |s| && s[j] == 'm' then j + 1 else 0
    else 0
  }

  /** StripAnsiCodes: Regex.Replace(input, "") with the pattern above. */
  function StripAnsiCodes(s: string): (r: string)
    ensures |r| <= |s|
    ensures Esc !in s ==> r == s
    decreases |s|
  {
    if s == [] then []
    else if MatchLen(s) > 0 then StripAnsiCodes(s[MatchLen(s)..])
    else [s[0]] + StripAnsiCodes(s[1..])
  }

  /** Write: the path must be non-empty; the content is stripped unless PreserveAnsiInTextOutput. */
  function Write(content: string, o: RenderOptions): (r: Result<Written>)
    ensures r.Err? <==> o.outputPath.None? || o.outputPath.value == []
    ensures r.Err? ==> r.error == MissingOutputPath
    ensures r.Ok? ==> r.value.FileText? && r.value.path == o.outputPath.value
    ensures r.Ok? && o.preserveAnsiInTextOutput ==> r.value.text == content
    ensures r.Ok? && !o.preserveAnsiInTextOutput ==> r.value.text == StripAnsiCodes(content)
  {
    if o.outputPath.None? || o.outputPath.value == [] then Err(MissingOutputPath)
    else
      var text := if o.preserveAnsiInTextOutput then content else StripAnsiCodes(content);
      Ok(FileText(o.outputPath.value, text))
  }

  /** The output never grows, and text without ESC passes through unchanged. */
  lemma {:induction false} StripShrinks(s: string)
    ensures |StripAnsiCodes(s)| <= |s|
    ensures Esc !in s ==> StripAnsiCodes(s) == s
    decreases |s|
  {
    if s != [] {
      if MatchLen(s) > 0 {
        StripShrinks(s[MatchLen(s)..]);
      } else {
        StripShrinks(s[1..]);
        if Esc !in s {
          assert Esc !in s[1..];
          assert [s[0]] + s[1..] == s;
        }
      }
    }
  }

  /** The output contains only characters of the input. */
  lemma {:induction false} StripKeepsCharacters(s: string)
    ensures multiset(StripAnsiCodes(s)) <= multiset(s)
    decreases |s|
  {
    if s != [] {
      if MatchLen(s) > 0 {
        StripKeepsCharacters(s[MatchLen(s)..]);
        assert s == s[..MatchLen(s)] + s[MatchLen(s)..];
      } else {
        StripKeepsCharacters(s[1..]);
        assert s == [s[0]] + s[1..];
      }
    }
  }

  /**
   * One pass can leave a sequence behind: removing ESC[m from ESC ESC[m [m
   * joins the first ESC with the trailing [m.
   */
  lemma SinglePassCanLeaveEscape()
    ensures StripAnsiCodes([Esc, Esc, '[', 'm', '[', 'm']) == [Esc, '[', 'm']
    ensures MatchLen(StripAnsiCodes([Esc, Esc, '[', 'm', '[', 'm'])) == 3
  {
    var s := [Esc, Esc, '[', 'm', '[', 'm'];
    assert MatchLen(s) == 0;
    assert MatchLen(s[1..]) == 3;
    assert s[1..][3..] == ['[', 'm'];
    assert MatchLen(['[', 'm']) == 0;
    assert MatchLen(['m']) == 0;
    assert StripAnsiCodes(['m']) == ['m'];
    assert StripAnsiCodes(['[', 'm']) == ['[', 'm'];
    assert MatchLen([Esc, '[', 'm']) == 3;
  }

  /**
   * A string the scanner consumes cleanly: every ESC in it starts a complete
   * match that lies wholly inside it.
   */
  predicate Clean(s: string)
    decreases |s|
  {
    s == [] ||
    (s[0] != Esc && Clean(s[1..])) ||
    (MatchLen(s) > 0 && Clean(s[MatchLen(s)..]))
  }

  lemma {:induction false} ParamRunExtend(a: string, b: string, i: nat)
    requires i <= |a|
    requires ParamRun(a, i) < |a|
    ensures ParamRun(a + b, i) == ParamRun(a, i)
    decreases |a| - i
  {
    if IsParamChar(a[i]) {
      ParamRunExtend(a, b, i + 1);
    }
  }

  lemma MatchLenExtend(a: string, b: string)
    requires MatchLen(a) > 0
    ensures MatchLen(a + b) == MatchLen(a)
  {
    ParamRunExtend(a, b, 2);
  }

  /** Stripping distributes over a concatenation whose left part is clean. */
  lemma {:induction false} StripAppend(a: string, b: string)
    requires Clean(a)
    ensures StripAnsiCodes(a + b) == StripAnsiCodes(a) + StripAnsiCodes(b)
    decreases |a|
  {
    if a == [] {
      assert a + b == b;
    } else {
      if MatchLen(a) > 0 && Clean(a[MatchLen(a)..]) {
        var n := MatchLen(a);
        MatchLenExtend(a, b);
        assert (a + b)[n..] == a[n..] + b;
        StripAppend(a[n..], b);
      } else {
        assert a[0] != Esc && Clean(a[1..]);
        assert (a + b)[1..] == a[1..] + b;
        StripAppend(a[1..], b);
      }
    }
  }

  lemma {:induction false} CleanAppend(a: string, b: string)
    requires Clean(a) && Clean(b)
    ensures Clean(a + b)
    decreases |a|
  {
    if a == [] {
      assert a + b == b;
    } else {
      if MatchLen(a) > 0 && Clean(a[MatchLen(a)..]) {
        var n := MatchLen(a);
        MatchLenExtend(a, b);
        assert (a + b)[n..] == a[n..] + b;
        CleanAppend(a[n..], b);
      } else {
        assert (a + b)[1..] == a[1..] + b;
        CleanAppend(a[1..], b);
        assert (a + b)[0] != Esc;
      }
    }
  }

  /** Any character but ESC is clean and passes through. */
  lemma PlainChar(c: char)
    requires c != Esc
    ensures Clean([c]) && StripAnsiCodes([c]) == [c]
  {
    assert [c][1..] == [];
  }

  /** Every escape the renderers emit is one whole match and is removed entirely. */
  lemma SgrStripped(params: seq<string>)
    requires forall k :: 0 <= k < |params| ==> AllDigits(params[k])
    ensures MatchLen(Sgr(params)) == |Sgr(params)|
    ensures Clean(Sgr(params)) && StripAnsiCodes(Sgr(params)) == []
  {
    var s := Sgr(params);
    SgrShape(params);
    assert s[|s|..] == [];
  }

  /** A true-colour foreground escape of a byte pixel is one whole match, removed entirely. */
  lemma ForegroundStripped(p: Pixel)
    requires p.Valid()
    ensures Clean(Foreground(p)) && StripAnsiCodes(Foreground(p)) == [] && LineBreak !in Foreground(p)
  {
    var params := ["38", "2", IntToString(p.r), IntToString(p.g), IntToString(p.b)];
    ColorParams(p);
    SgrShape(params);
    SgrStripped(params);
  }

  /** A true-colour background escape of a byte pixel is one whole match, removed entirely. */
  lemma BackgroundStripped(p: Pixel)
    requires p.Valid()
    ensures Clean(Background(p)) && StripAnsiCodes(Background(p)) == [] && LineBreak !in Background(p)
  {
    var params := ["48", "2", IntToString(p.r), IntToString(p.g), IntToString(p.b)];
    ColorParams(p);
    SgrShape(params);
    SgrStripped(params);
  }

  /** Escapes that strip away entirely, then one plain character: only the character is left. */
  lemma EscapesThenChar(a: string, b: string, c: char)
    requires Clean(a) && StripAnsiCodes(a) == [] && Clean(b) && StripAnsiCodes(b) == [] && c != Esc
    ensures Clean(a + b + [c]) && StripAnsiCodes(a + b + [c]) == [c]
  {
    PlainChar(c);
    CleanAppend(a, b);
    StripAppend(a, b);
    CleanAppend(a + b, [c]);
    StripAppend(a + b, [c]);
  }

  /** Text that strips to n copies of c, then a cell that strips to one more. */
  lemma StripsToRun(text: string, cell: string, c: char, n: nat)
    requires LineBreak !in text && Clean(text) && StripAnsiCodes(text) == seq(n, _ => c)
    requires LineBreak !in cell && Clean(cell) && StripAnsiCodes(cell) == [c]
    ensures LineBreak !in text + cell && Clean(text + cell)
    ensures StripAnsiCodes(text + cell) == seq(n + 1, _ => c)
  {
    CleanAppend(text, cell);
    StripAppend(text, cell);
    assert seq(n, _ => c) + [c] == seq(n + 1, _ => c);
  }

  /** The parts of a concatenation, each stripped. */
  function StripEach(ss: seq<string>): (r: seq<string>)
    ensures |r| == |ss|
    ensures forall k :: 0 <= k < |ss| ==> r[k] == StripAnsiCodes(ss[k])
  {
    if ss == [] then [] else StripEach(ss[..|ss| - 1]) + [StripAnsiCodes(ss[|ss| - 1])]
  }

  /** A concatenation of clean parts is clean and strips part by part. */
  lemma {:induction false} StripConcat(ss: seq<string>)
    requires forall k :: 0 <= k < |ss| ==> Clean(ss[k])
    ensures Clean(Concat(ss))
    ensures StripAnsiCodes(Concat(ss)) == Concat(StripEach(ss))
  {
    if ss != [] {
      var init := ss[..|ss| - 1];
      StripConcat(init);
      CleanAppend(Concat(init), ss[|ss| - 1]);
      StripAppend(Concat(init), ss[|ss| - 1]);
      assert StripEach(ss)[..|ss| - 1] == StripEach(init);
    }
  }

  /** Rows of clean text joined by line breaks strip row by row. */
  lemma {:induction false} StripJoin(lines: seq<string>)
    requires forall k :: 0 <= k < |lines| ==> Clean(lines[k])
    ensures Clean(Join(lines, LineBreak))
    ensures StripAnsiCodes(Join(lines, LineBreak)) == Join(StripEach(lines), LineBreak)
  {
    if |lines| > 1 {
      var init := lines[..|lines| - 1];
      var last := lines[|lines| - 1];
      StripJoin(init);
      PlainChar(LineBreak);
      CleanAppend(Join(init, LineBreak), [LineBreak]);
      StripAppend(Join(init, LineBreak), [LineBreak]);
      StripAppend(Join(init, LineBreak) + [LineBreak], last);
      CleanAppend(Join(init, LineBreak) + [LineBreak], last);
      assert StripEach(lines)[..|lines| - 1] == StripEach(init);
    }
  }

  /** ESC[0m is one whole match and is removed entirely. */
  lemma ResetStripped()
    ensures Clean(Reset) && StripAnsiCodes(Reset) == []
  {
    ResetIsSgr();
    SgrStripped(["0"]);
  }

  /**
   * Stripping framed colour rows, each of which strips to the matching plain
   * row, gives the plain rows framed without colour.
   */
  lemma StripFramed(colour: seq<string>, plain: seq<string>)
    requires |colour| == |plain|
    requires forall k :: 0 <= k < |colour| ==> Clean(colour[k]) && StripAnsiCodes(colour[k]) == plain[k]
    ensures StripAnsiCodes(Framed(colour, false)) == Framed(plain, true)
  {
    var body := Join(colour, LineBreak);
    StripJoin(colour);
    assert StripEach(colour) == plain;
    ResetStripped();
    CleanAppend(Reset, body);
    StripAppend(Reset, body);
    StripAppend(Reset + body, Reset);
    var p := Join(plain, LineBreak);
    assert [] + p + [] == p;
  }
}
