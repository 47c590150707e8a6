/**
 * The .NET string operations the core relies on, stated over seq<char>:
 * StringBuilder concatenation, joining rows with a line break, String.Split on
 * one character, String.Replace of one character, Enumerable.Reverse, the
 * decimal formatting of an int and int.Parse.
 */
module Strings {
  import opened Wrappers

  /** The one line-break token used for AppendLine. */
  const LineBreak: char := '\n'

  /** Concatenation of a sequence of strings, left to right (what a StringBuilder holds). */
  function Concat(ss: seq<string>): string
  {
    if ss == [] then [] else Concat(ss[..|ss| - 1]) + ss[|ss| - 1]
  }

  lemma {:induction false} ConcatAppend(a: seq<string>, b: seq<string>)
    ensures Concat(a + b) == Concat(a) + Concat(b)
  {
    if b == [] {
      assert a + b == a;
    } else {
      var init, last := b[..|b| - 1], b[|b| - 1];
      assert (a + b)[..|a + b| - 1] == a + init;
      assert (a + b)[|a + b| - 1] == last;
      ConcatAppend(a, init);
      assert Concat(a + b) == Concat(a + init) + last;
      assert Concat(b) == Concat(init) + last;
    }
  }

  /** One more part at the end adds its text at the end. */
  lemma ConcatSnoc(init: seq<string>, x: string)
    ensures Concat(init + [x]) == Concat(init) + x
  {
    assert (init + [x])[..|init|] == init;
  }

  lemma ConcatCons(x: string, rest: seq<string>)
    ensures Concat([x] + rest) == x + Concat(rest)
  {
    ConcatAppend([x], rest);
    assert [x][..0] == [];
  }

  lemma ConcatPrefixStep(ss: seq<string>, x: nat)
    requires x < |ss|
    ensures Concat(ss[..x + 1]) == Concat(ss[..x]) + ss[x]
  {
    assert ss[..x + 1][..x] == ss[..x];
  }

  /** Appending part x to the concatenation of the parts before it. */
  lemma ConcatExtend(ss: seq<string>, x: nat, sofar: string, piece: string)
    requires x < |ss| && sofar == Concat(ss[..x]) && piece == ss[x]
    ensures sofar + piece == Concat(ss[..x + 1])
  {
    ConcatPrefixStep(ss, x);
  }

  /** A character that occurs in no part does not occur in the concatenation. */
  lemma {:induction false} ConcatExcludes(ss: seq<string>, c: char)
    requires forall k :: 0 <= k < |ss| ==> c !in ss[k]
    ensures c !in Concat(ss)
  {
    if ss != [] {
      ConcatExcludes(ss[..|ss| - 1], c);
    }
  }

  /** Concatenating one-character strings lays their characters side by side. */
  lemma {:induction false} ConcatSingles(ss: seq<string>)
    requires forall k :: 0 <= k < |ss| ==> |ss[k]| == 1
    ensures |Concat(ss)| == |ss|
    ensures forall k :: 0 <= k < |ss| ==> Concat(ss)[k] == ss[k][0]
  {
    if ss != [] {
      var init := ss[..|ss| - 1];
      ConcatSingles(init);
      assert Concat(ss) == Concat(init) + ss[|ss| - 1];
    }
  }

  /** The texts of the elements of a sequence, concatenated left to right. */
  function ConcatMap<T>(xs: seq<T>, text: T -> string): string
  {
    if xs == [] then [] else ConcatMap(xs[..|xs| - 1], text) + text(xs[|xs| - 1])
  }

  lemma {:induction false} ConcatMapAppend<T>(a: seq<T>, b: seq<T>, text: T -> string)
    ensures ConcatMap(a + b, text) == ConcatMap(a, text) + ConcatMap(b, text)
  {
    if b == [] {
      assert a + b == a;
    } else {
      assert (a + b)[..|a + b| - 1] == a + b[..|b| - 1];
      ConcatMapAppend(a, b[..|b| - 1], text);
    }
  }

  lemma ConcatMapSingle<T>(x: T, text: T -> string)
    ensures ConcatMap([x], text) == text(x)
  {
    assert [x][..0] == [];
  }

  lemma ConcatMapPair<T>(x: T, y: T, text: T -> string)
    ensures ConcatMap([x, y], text) == text(x) + text(y)
  {
    ConcatMapAppend([x], [y], text);
    ConcatMapSingle(x, text);
    ConcatMapSingle(y, text);
    assert [x] + [y] == [x, y];
  }

  /** Regrouping three appends. */
  lemma AppendAssoc(a: string, b: string, c: string)
    ensures a + b + c == a + (b + c)
  {
  }

  /** Parts joined by one separator, none before the first or after the last part. */
  function Join(parts: seq<string>, sep: char): string
  {
    if |parts| == 0 then []
    else if |parts| == 1 then parts[0]
    else Join(parts[..|parts| - 1], sep) + [sep] + parts[|parts| - 1]
  }

  /** A joined string holds only characters of its parts and the separator. */
  lemma {:induction false} JoinMembers(parts: seq<string>, sep: char)
    ensures forall c :: c in Join(parts, sep) ==> c == sep || exists k :: 0 <= k < |parts| && c in parts[k]
  {
    if |parts| > 1 {
      var init := parts[..|parts| - 1];
      JoinMembers(init, sep);
      forall c | c in Join(parts, sep)
        ensures c == sep || exists k :: 0 <= k < |parts| && c in parts[k]
      {
        if c in Join(init, sep) && c != sep {
          var k :| 0 <= k < |init| && c in init[k];
          assert parts[k] == init[k];
        }
      }
    }
  }

  lemma JoinPrefixStep(parts: seq<string>, sep: char, y: nat)
    requires y < |parts|
    ensures Join(parts[..y + 1], sep) ==
      if y == 0 then parts[0] else Join(parts[..y], sep) + [sep] + parts[y]
  {
    assert parts[..y + 1][..y] == parts[..y];
  }

  /** String.Split(sep): the pieces between separators; always at least one piece. */
  function Split(s: string, sep: char): (parts: seq<string>)
    ensures |parts| >= 1
  {
    if s == [] then [[]]
    else
      var init := Split(s[..|s| - 1], sep);
      if s[|s| - 1] == sep then init + [[]]
      else init[..|init| - 1] + [init[|init| - 1] + [s[|s| - 1]]]
  }

  lemma {:induction false} SplitNoSep(s: string, sep: char)
    requires sep !in s
    ensures Split(s, sep) == [s]
  {
    if s != [] {
      var t, last := s[..|s| - 1], s[|s| - 1];
      assert t + [last] == s;
      assert last != sep by {
        assert last in s;
      }
      assert sep !in t by {
        forall k | 0 <= k < |t| ensures t[k] != sep {
          assert t[k] in s;
        }
      }
      SplitNoSep(t, sep);
      assert Split(s, sep) == [t][..0] + [[t][0] + [last]];
    }
  }

  /** Extending the last piece of a split whose last pieces come from its tail. */
  lemma ExtendLastPiece(front: seq<string>, tail: seq<string>, c: char)
    requires |tail| >= 1
    ensures var all := front + tail;
      all[..|all| - 1] + [all[|all| - 1] + [c]] == front + (tail[..|tail| - 1] + [tail[|tail| - 1] + [c]])
  {
    var all := front + tail;
    assert all[..|all| - 1] == front + tail[..|tail| - 1];
  }

  lemma {:induction false} SplitAtSep(a: string, sep: char, b: string)
    ensures Split(a + [sep] + b, sep) == Split(a, sep) + Split(b, sep)
  {
    var s := a + [sep] + b;
    if b == [] {
      assert s[..|s| - 1] == a;
    } else {
      var b', c := b[..|b| - 1], b[|b| - 1];
      assert s[..|s| - 1] == a + [sep] + b';
      assert s[|s| - 1] == c;
      SplitAtSep(a, sep, b');
      var init := Split(a + [sep] + b', sep);
      var tail := Split(b', sep);
      assert init == Split(a, sep) + tail;
      if c == sep {
        assert Split(s, sep) == init + [[]];
        assert Split(b, sep) == tail + [[]];
      } else {
        assert Split(s, sep) == init[..|init| - 1] + [init[|init| - 1] + [c]];
        assert Split(b, sep) == tail[..|tail| - 1] + [tail[|tail| - 1] + [c]];
        ExtendLastPiece(Split(a, sep), tail, c);
      }
    }
  }

  /** Splitting what Join produced gives the parts back. */
  lemma {:induction false} SplitJoin(parts: seq<string>, sep: char)
    requires |parts| >= 1
    requires forall k :: 0 <= k < |parts| ==> sep !in parts[k]
    ensures Split(Join(parts, sep), sep) == parts
  {
    if |parts| == 1 {
      SplitNoSep(parts[0], sep);
    } else {
      var init := parts[..|parts| - 1];
      SplitJoin(init, sep);
      SplitAtSep(Join(init, sep), sep, parts[|parts| - 1]);
      SplitNoSep(parts[|parts| - 1], sep);
      assert init + [parts[|parts| - 1]] == parts;
    }
  }

  /** Joining what Split produced gives the string back. */
  lemma {:induction false} JoinSplit(s: string, sep: char)
    ensures Join(Split(s, sep), sep) == s
  {
    if s != [] {
      var init := Split(s[..|s| - 1], sep);
      JoinSplit(s[..|s| - 1], sep);
      assert s[..|s| - 1] + [s[|s| - 1]] == s;
      if s[|s| - 1] == sep {
        assert (init + [[]])[..|init|] == init;
      } else {
        var parts := init[..|init| - 1] + [init[|init| - 1] + [s[|s| - 1]]];
        assert parts[..|parts| - 1] == init[..|init| - 1];
        if |init| > 1 {
          assert init[..|init| - 1] + [init[|init| - 1]] == init;
        }
      }
    }
  }

  /** Joined rows contain exactly one break fewer than there are rows. */
  lemma {:induction false} JoinBreaks(lines: seq<string>)
    requires |lines| >= 1
    requires forall k :: 0 <= k < |lines| ==> LineBreak !in lines[k]
    ensures multiset(Join(lines, LineBreak))[LineBreak] == |lines| - 1
  {
    if |lines| > 1 {
      JoinBreaks(lines[..|lines| - 1]);
    }
  }

  /** Enumerable.Reverse. */
  function Reverse<T>(s: seq<T>): (r: seq<T>)
    ensures |r| == |s|
    ensures forall i :: 0 <= i < |s| ==> r[i] == s[|s| - 1 - i]
  {
    if s == [] then [] else [s[|s| - 1]] + Reverse(s[..|s| - 1])
  }

  lemma ReverseInvolutive<T>(s: seq<T>)
    ensures Reverse(Reverse(s)) == s
  {
  }

  /** String.Replace with a one-character pattern: every occurrence of c becomes r. */
  function ReplaceChar(s: string, c: char, r: string): (out: string)
    ensures |r| >= 1 ==> |out| >= |s|
    ensures c !in s ==> out == s
  {
    if s == [] then []
    else ReplaceChar(s[..|s| - 1], c, r) + (if s[|s| - 1] == c then r else [s[|s| - 1]])
  }

  lemma {:induction false} ReplaceCharAppend(a: string, b: string, c: char, r: string)
    ensures ReplaceChar(a + b, c, r) == ReplaceChar(a, c, r) + ReplaceChar(b, c, r)
  {
    if b == [] {
      assert a + b == a;
    } else {
      var ab := a + b;
      assert ab[..|ab| - 1] == a + b[..|b| - 1];
      assert ab[|ab| - 1] == b[|b| - 1];
      ReplaceCharAppend(a, b[..|b| - 1], c, r);
      var last: string := if b[|b| - 1] == c then r else [b[|b| - 1]];
      assert ReplaceChar(ab, c, r) == ReplaceChar(a + b[..|b| - 1], c, r) + last;
      assert ReplaceChar(b, c, r) == ReplaceChar(b[..|b| - 1], c, r) + last;
    }
  }

  predicate StartsWith(s: string, prefix: string)
  {
    |prefix| <= |s| && s[..|prefix|] == prefix
  }

  predicate IsDigit(c: char) { '0' <= c <= '9' }

  predicate AllDigits(s: string) { forall k :: 0 <= k < |s| ==> IsDigit(s[k]) }

  function DigitChar(d: int): char
    requires 0 <= d < 10
  {
    (d + '0' as int) as char
  }

  /** The decimal digits of n, most significant first, no leading zeros. */
  function NatToString(n: nat): (s: string)
    ensures |s| >= 1 && AllDigits(s)
  {
    if n < 10 then [DigitChar(n)] else NatToString(n / 10) + [DigitChar(n % 10)]
  }

  /** Int32.ToString() in the invariant culture. */
  function IntToString(n: int): string
  {
    if n < 0 then "-" + NatToString(-n) else NatToString(n)
  }

  /** The value of a string of decimal digits. */
  function DigitsValue(s: string): nat
    requires AllDigits(s)
  {
    if s == [] then 0 else DigitsValue(s[..|s| - 1]) * 10 + (s[|s| - 1] as int - '0' as int)
  }

  lemma {:induction false} DigitsRoundTrip(n: nat)
    ensures DigitsValue(NatToString(n)) == n
  {
    if n >= 10 {
      var s := NatToString(n);
      assert s[..|s| - 1] == NatToString(n / 10);
      DigitsRoundTrip(n / 10);
    }
  }

  const MinInt32: int := -0x8000_0000
  const MaxInt32: int := 0x7FFF_FFFF

  /**
   * int.Parse: an optional sign followed by one or more decimal digits whose value
   * fits in 32 bits. None stands for the FormatException or OverflowException.
   */
  function ParseInt(s: string): (r: Option<int>)
    ensures r.Some? ==> MinInt32 <= r.value <= MaxInt32
  {
    var signed := |s| > 0 && (s[0] == '-' || s[0] == '+');
    var digits := if signed then s[1..] else s;
    if digits == [] || !AllDigits(digits) then None
    else
      var v: int := if signed && s[0] == '-' then 0 - DigitsValue(digits) as int else DigitsValue(digits);
      if MinInt32 <= v <= MaxInt32 then Some(v) else None
  }

  /** Parsing the decimal form of a 32-bit integer gives it back. */
  lemma ParseIntRoundTrip(n: int)
    requires MinInt32 <= n <= MaxInt32
    ensures ParseInt(IntToString(n)) == Some(n)
  {
    var s := IntToString(n);
    if n < 0 {
      assert s[1..] == NatToString(-n);
      DigitsRoundTrip(-n);
    } else {
      DigitsRoundTrip(n);
    }
  }
}
