/** `format_whitespace` (src/cmdrun.rs:137-160): the captured stdout as it is
    spliced into the document, per target platform and substitution mode. */
module Formatter {
  import opened Base

  datatype Platform = Unix | Windows

  const CRLF: string := "\r\n"

  /** The text is empty or its last character is not whitespace. */
  predicate NoTrailingWhitespace(r: string)
  {
    r == [] || !IsWhitespace(r[|r| - 1])
  }

  /** `str::trim_end`: the longest prefix that does not end in whitespace. */
  function TrimEnd(s: string): (r: string)
    ensures |r| <= |s| && r == s[..|r|]
    ensures NoTrailingWhitespace(r)
    ensures forall k :: |r| <= k < |s| ==> IsWhitespace(s[k])
  {
    if s != [] && IsWhitespace(s[|s| - 1]) then TrimEnd(s[..|s| - 1]) else s
  }

  /** Index of the first c in s, or |s| when there is none. */
  function IndexOf(s: string, c: char): (k: nat)
    ensures k <= |s|
    ensures k < |s| ==> s[k] == c
    ensures forall i :: 0 <= i < k ==> s[i] != c
  {
    if s == [] then 0
    else if s[0] == c then 0
    else 1 + IndexOf(s[1..], c)
  }

  /** Drops the '\r' of a "\r\n" terminator. */
  function StripCR(l: string): string
  {
    if |l| > 0 && l[|l| - 1] == '\r' then l[..|l| - 1] else l
  }

  /** `str::lines`: pieces separated by "\n" or "\r\n"; the terminator of the
      last line is optional, so a trailing terminator yields no empty line. */
  function Lines(s: string): (ls: seq<string>)
    ensures forall i :: 0 <= i < |ls| ==> '\n' !in ls[i]
    ensures ls == [] <==> s == []
    decreases |s|
  {
    if s == [] then []
    else
      var k := IndexOf(s, '\n');
      if k == |s| then [s]
      else [StripCR(s[..k])] + Lines(s[k + 1..])
  }

  /** `[&str]::join(sep)`. */
  function Join(ls: seq<string>, sep: string): string
  {
    if |ls| == 0 then []
    else if |ls| == 1 then ls[0]
    else ls[0] + sep + Join(ls[1..], sep)
  }

  /** Every '\n' of s ends a "\r\n". */
  ghost predicate CrlfOnly(s: string)
  {
    forall k :: 0 <= k < |s| && s[k] == '\n' ==> k > 0 && s[k - 1] == '\r'
  }

  /** The captured stdout of one command, made ready for splicing
      (FormatShape says what it looks like). */
  function FormatWhitespace(platform: Platform, s: string, inline: bool): string
  {
    match platform
    case Unix => if inline then TrimEnd(s) else s
    case Windows =>
      var t := if inline then TrimEnd(s) else s;
      var j := Join(Lines(t), CRLF);
      if inline || j == [] then j else j + CRLF
  }

  /** Inline output loses its trailing whitespace on every platform; on
      Windows the lines are re-joined with "\r\n", so no bare '\n' is left;
      on Unix line-consuming output is kept as it is. */
  lemma FormatShape(platform: Platform, s: string, inline: bool)
    ensures s == [] ==> FormatWhitespace(platform, s, inline) == []
    ensures inline ==> NoTrailingWhitespace(FormatWhitespace(platform, s, inline))
    ensures platform == Unix ==> && StartsWith(s, FormatWhitespace(platform, s, inline))
                                 && (!inline ==> FormatWhitespace(platform, s, inline) == s)
    ensures platform == Unix && inline ==>
              forall k :: |FormatWhitespace(platform, s, inline)| <= k < |s| ==> IsWhitespace(s[k])
    ensures platform == Windows ==> CrlfOnly(FormatWhitespace(platform, s, inline))
  {
    if platform == Windows {
      if inline {
        WindowsInlineShape(s);
      } else {
        WindowsLineShape(s);
      }
    }
  }

  lemma WindowsInlineShape(s: string)
    ensures CrlfOnly(FormatWhitespace(Windows, s, true))
    ensures NoTrailingWhitespace(FormatWhitespace(Windows, s, true))
  {
    var t := TrimEnd(s);
    JoinCrlf(Lines(t));
    if t != [] {
      JoinLinesKeepsLast(t);
    }
  }

  lemma WindowsLineShape(s: string)
    ensures CrlfOnly(FormatWhitespace(Windows, s, false))
  {
    var j := Join(Lines(s), CRLF);
    JoinCrlf(Lines(s));
    if j != [] {
      CrlfOnlyConcat(j, CRLF);
    }
  }

  /** On Windows, line-consuming output that is not empty ends in exactly one
      appended "\r\n": dropping it leaves the re-joined lines. */
  lemma WindowsLineEnds(s: string)
    ensures FormatWhitespace(Windows, s, false) != [] ==>
              && EndsWith(FormatWhitespace(Windows, s, false), CRLF)
              && FormatWhitespace(Windows, s, false)[..|FormatWhitespace(Windows, s, false)| - 2] == Join(Lines(s), CRLF)
              && Join(Lines(s), CRLF) != []
  {
    var j := Join(Lines(s), CRLF);
    if j != [] {
      assert (j + CRLF)[|j + CRLF| - 2..] == CRLF;
      assert (j + CRLF)[..|j + CRLF| - 2] == j;
    }
  }

  /** The last line of a text that does not end in '\n' is not empty. */
  lemma {:induction false} LastLineNotEmpty(t: string)
    requires t != [] && t[|t| - 1] != '\n'
    ensures Lines(t)[|Lines(t)| - 1] != []
    decreases |t|
  {
    var k := IndexOf(t, '\n');
    if k < |t| {
      var rest := t[k + 1..];
      assert rest[|rest| - 1] == t[|t| - 1];
      LastLineNotEmpty(rest);
      assert Lines(t) == [StripCR(t[..k])] + Lines(rest);
    }
  }

  /** Lines undoes Join with "\r\n" when the last line is not empty. */
  lemma {:induction false} LinesOfJoin(ls: seq<string>)
    requires ls != [] && ls[|ls| - 1] != []
    requires forall i :: 0 <= i < |ls| ==> '\n' !in ls[i]
    ensures Lines(Join(ls, CRLF)) == ls
  {
    if |ls| == 1 {
      LinesOfLine(ls[0]);
    } else {
      var rest := ls[1..];
      assert rest[|rest| - 1] == ls[|ls| - 1];
      LinesOfJoin(rest);
      LinesCons(ls[0], Join(rest, CRLF));
      assert ls == [ls[0]] + rest;
    }
  }

  /** A non-empty text without '\n' is one line. */
  lemma LinesOfLine(l: string)
    requires l != [] && '\n' !in l
    ensures Lines(l) == [l]
  {
    assert IndexOf(l, '\n') == |l|;
  }

  /** On Windows, inline formatting keeps the lines of the trimmed output. */
  lemma WindowsInlineKeepsLines(s: string)
    ensures Lines(FormatWhitespace(Windows, s, true)) == Lines(TrimEnd(s))
  {
    var t := TrimEnd(s);
    if t != [] {
      LastLineNotEmpty(t);
      LinesOfJoin(Lines(t));
    }
  }

  lemma CrlfOnlyConcat(a: string, b: string)
    requires CrlfOnly(a) && CrlfOnly(b)
    requires b == [] || b[0] != '\n'
    ensures CrlfOnly(a + b)
  {
    var s := a + b;
    forall k | 0 <= k < |s| && s[k] == '\n' ensures k > 0 && s[k - 1] == '\r' {
      if k >= |a| {
        assert b[k - |a|] == '\n';
        assert k - |a| > 0 && b[k - |a| - 1] == '\r';
      } else {
        assert a[k] == '\n';
      }
    }
  }

  /** Joining '\n'-free lines with "\r\n" leaves no bare '\n'. */
  lemma {:induction false} JoinCrlf(ls: seq<string>)
    requires forall i :: 0 <= i < |ls| ==> '\n' !in ls[i]
    ensures var j := Join(ls, CRLF); CrlfOnly(j) && (j == [] || j[0] != '\n')
  {
    if |ls| == 1 {
      assert Join(ls, CRLF) == ls[0];
    } else if |ls| > 1 {
      JoinCrlf(ls[1..]);
      assert CrlfOnly(ls[0]);
      CrlfOnlyConcat(ls[0], CRLF);
      CrlfOnlyConcat(ls[0] + CRLF, Join(ls[1..], CRLF));
    }
  }

  /** Re-joining the lines of a text that ends in some other character than
      a terminator keeps that last character. */
  lemma {:induction false} JoinLinesKeepsLast(t: string)
    requires t != [] && t[|t| - 1] != '\n' && t[|t| - 1] != '\r'
    ensures var j := Join(Lines(t), CRLF); j != [] && j[|j| - 1] == t[|t| - 1]
    decreases |t|
  {
    var k := IndexOf(t, '\n');
    if k < |t| {
      var rest := t[k + 1..];
      assert rest[|rest| - 1] == t[|t| - 1];
      JoinLinesKeepsLast(rest);
      assert Lines(t) == [StripCR(t[..k])] + Lines(rest);
      assert Lines(t)[1..] == Lines(rest);
    }
  }

  /** The first '\n' of a + "\r\n" + b, when a has none, ends that "\r\n". */
  lemma IndexOfAfter(a: string, b: string)
    requires '\n' !in a
    ensures IndexOf(a + CRLF + b, '\n') == |a| + 1
  {
    var s := a + CRLF + b;
    var k := IndexOf(s, '\n');
    assert s[|a| + 1] == '\n';
    assert forall i :: 0 <= i < |a| ==> s[i] == a[i];
  }

  /** A '\n'-free line ended by "\r\n" is the first line of the text. */
  lemma LinesCons(a: string, tail: string)
    requires '\n' !in a
    ensures Lines(a + CRLF + tail) == [a] + Lines(tail)
  {
    var s := a + CRLF + tail;
    IndexOfAfter(a, tail);
    assert s[..|a| + 1] == a + "\r";
    assert s[|a| + 2..] == tail;
  }

  /** A '\n'-free line ended by a bare "\n" is the first line of the text,
      unless it ends in '\r', which then belongs to the terminator. With
      LinesCons and LinesOfLine this fixes `lines()` on every text. */
  lemma LinesConsLf(a: string, tail: string)
    requires '\n' !in a && (a == [] || a[|a| - 1] != '\r')
    ensures Lines(a + "\n" + tail) == [a] + Lines(tail)
  {
    var s := a + "\n" + tail;
    assert s[|a|] == '\n';
    assert forall i :: 0 <= i < |a| ==> s[i] == a[i];
    assert IndexOf(s, '\n') == |a|;
    assert s[..|a|] == a;
    assert s[|a| + 1..] == tail;
  }

  /** Lines undoes the line-consuming Windows join: the lines of
      Join(ls, "\r\n") + "\r\n" are ls again. */
  lemma {:induction false} LinesOfTerminatedJoin(ls: seq<string>)
    requires ls != []
    requires forall i :: 0 <= i < |ls| ==> '\n' !in ls[i]
    ensures Lines(Join(ls, CRLF) + CRLF) == ls
  {
    if |ls| == 1 {
      LinesCons(ls[0], []);
      assert Join(ls, CRLF) + CRLF == ls[0] + CRLF + [];
    } else {
      var tail := Join(ls[1..], CRLF) + CRLF;
      assert Join(ls, CRLF) + CRLF == ls[0] + CRLF + tail;
      LinesCons(ls[0], tail);
      LinesOfTerminatedJoin(ls[1..]);
      assert ls == [ls[0]] + ls[1..];
    }
  }

  /** On Windows, line-consuming formatting keeps the lines of the output,
      except that a text made of one empty line ("\n" or "\r\n") is
      formatted to nothing. */
  lemma WindowsKeepsLines(s: string)
    ensures var r := FormatWhitespace(Windows, s, false);
      Lines(r) == if Lines(s) == [[]] then [] else Lines(s)
  {
    var ls := Lines(s);
    if ls != [] && Join(ls, CRLF) != [] {
      LinesOfTerminatedJoin(ls);
    } else if ls != [] {
      assert |ls| == 1 && ls[0] == [];
    }
  }

  /** Formatting an already formatted text changes nothing. */
  lemma FormatIdempotent(platform: Platform, s: string, inline: bool)
    ensures var r := FormatWhitespace(platform, s, inline);
      FormatWhitespace(platform, r, inline) == r
  {
    if platform == Windows {
      if inline {
        var r := FormatWhitespace(Windows, s, true);
        FormatShape(Windows, s, true);
        TrimEndKeeps(r);
        WindowsInlineKeepsLines(s);
      } else {
        var ls := Lines(s);
        if Join(ls, CRLF) != [] {
          LinesOfTerminatedJoin(ls);
        }
      }
    } else if inline {
      TrimEndKeeps(TrimEnd(s));
    }
  }

  /** A text that does not end in whitespace is its own `trim_end`. */
  lemma TrimEndKeeps(r: string)
    requires NoTrailingWhitespace(r)
    ensures TrimEnd(r) == r
  {
  }

  /** On Windows a lone line terminator is formatted to nothing in line
      mode, while a line with text keeps one "\r\n". */
  lemma WindowsExamples()
    ensures FormatWhitespace(Windows, "\n", false) == []
    ensures FormatWhitespace(Windows, "a\n", false) == "a\r\n"
  {
    assert Lines("\n") == [[]] by {
      assert IndexOf("\n", '\n') == 0;
      assert "\n"[1..] == [];
    }
    assert Lines("a\n") == ["a"] by {
      assert IndexOf("a\n", '\n') == 1;
      assert "a\n"[..1] == "a" && "a\n"[2..] == [];
    }
  }

  /** Bare "\n" terminators become "\r\n" on Windows. */
  lemma WindowsLfExample()
    ensures FormatWhitespace(Windows, "a\nb\n", false) == "a\r\nb\r\n"
  {
    var ls := Lines("a\nb\n");
    assert ls == ["a", "b"] by {
      assert "a" + "\n" + "b\n" == "a\nb\n";
      assert "b" + "\n" + "" == "b\n";
      LinesConsLf("a", "b\n");
      LinesConsLf("b", "");
    }
    assert Join(ls, CRLF) == "a" + CRLF + "b" by {
      assert ls[1..] == ["b"];
    }
  }
}
