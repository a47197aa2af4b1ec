/** The two directive patterns of src/cmdrun.rs and the way the regex engine
    finds their matches: leftmost-first, non-overlapping, with a lazy capture.

      line-consuming:  <!--[ ]*cmdrun (.*?)-->\r?\n
      inline:          <!--[ ]*cmdrun (.*?)-->

    `.` matches any character except '\n', so a capture never spans lines. */
module Scanner {
  import opened Base

  datatype Mode = LineConsuming | Inline

  /** One match: the whole match is s[start..end], capture group 1 is
      s[capStart..capEnd]. */
  datatype Match = Match(start: nat, capStart: nat, capEnd: nat, end: nat)

  const Open: string := "<!--"
  const Keyword: string := "cmdrun "
  const Close: string := "-->"

  // The literal parts of the patterns, character by character.

  predicate OpenAt(s: string, i: nat)
  {
    i + 4 <= |s| && s[i] == '<' && s[i + 1] == '!' && s[i + 2] == '-' && s[i + 3] == '-'
  }

  predicate KeywordAt(s: string, j: nat)
  {
    && j + 7 <= |s| && s[j] == 'c' && s[j + 1] == 'm' && s[j + 2] == 'd' && s[j + 3] == 'r'
    && s[j + 4] == 'u' && s[j + 5] == 'n' && s[j + 6] == ' '
  }

  predicate CloseAt(s: string, c: nat)
  {
    c + 3 <= |s| && s[c] == '-' && s[c + 1] == '-' && s[c + 2] == '>'
  }

  /** The three predicates spell out the literals Open, Keyword and Close. */
  lemma MarkersSpelled(s: string, i: nat)
    ensures OpenAt(s, i) <==> OccursAt(s, Open, i)
    ensures KeywordAt(s, i) <==> OccursAt(s, Keyword, i)
    ensures CloseAt(s, i) <==> OccursAt(s, Close, i)
  {
    if i + 4 <= |s| { assert s[i..i + 4] == [s[i], s[i + 1], s[i + 2], s[i + 3]]; }
    if i + 7 <= |s| {
      assert s[i..i + 7] == [s[i], s[i + 1], s[i + 2], s[i + 3], s[i + 4], s[i + 5], s[i + 6]];
    }
    if i + 3 <= |s| { assert s[i..i + 3] == [s[i], s[i + 1], s[i + 2]]; }
  }

  /** What may follow the closing "-->" at index i, ending at e: "\r\n" or
      "\n" for the line-consuming pattern, nothing for the inline one. */
  ghost predicate TerminatorAt(s: string, i: nat, e: nat, mode: Mode)
    requires i <= e <= |s|
  {
    match mode
    case Inline => e == i
    case LineConsuming => (e == i + 2 && s[i] == '\r' && s[i + 1] == '\n') || (e == i + 1 && s[i] == '\n')
  }

  /** s[a..b] is all spaces. */
  ghost predicate AllSpaces(s: string, a: nat, b: nat)
    requires a <= b <= |s|
  {
    forall k :: a <= k < b ==> s[k] == ' '
  }

  /** s[a..b] holds no '\n', so `.` can match all of it. */
  ghost predicate NoNewline(s: string, a: nat, b: nat)
    requires a <= b <= |s|
  {
    forall k :: a <= k < b ==> s[k] != '\n'
  }

  /** The pattern of `mode` matches s[m.start..m.end] with group 1 at
      s[m.capStart..m.capEnd] (any such reading, lazy or not). */
  ghost predicate IsMatch(s: string, m: Match, mode: Mode)
  {
    && m.start + 11 <= m.capStart <= m.capEnd
    && m.capEnd + 3 <= m.end <= |s|
    && OpenAt(s, m.start)
    && AllSpaces(s, m.start + 4, m.capStart - 7)
    && KeywordAt(s, m.capStart - 7)
    && NoNewline(s, m.capStart, m.capEnd)
    && CloseAt(s, m.capEnd)
    && TerminatorAt(s, m.capEnd + 3, m.end, mode)
  }

  /** `\r?\n` tried greedily (the "\r\n" reading first), or nothing inline. */
  function TerminatorEnd(s: string, i: nat, mode: Mode): (r: Option<nat>)
    requires i <= |s|
    ensures r.Some? ==> i <= r.value <= |s| && TerminatorAt(s, i, r.value, mode)
    ensures r.None? ==> forall e :: i <= e <= |s| ==> !TerminatorAt(s, i, e, mode)
  {
    match mode
    case Inline => Some(i)
    case LineConsuming =>
      if i + 2 <= |s| && s[i] == '\r' && s[i + 1] == '\n' then Some(i + 2)
      else if i + 1 <= |s| && s[i] == '\n' then Some(i + 1)
      else None
  }

  /** `[ ]*` taken greedily from index j. */
  function SkipSpaces(s: string, j: nat): (k: nat)
    requires j <= |s|
    ensures j <= k <= |s| && AllSpaces(s, j, k)
    ensures k < |s| ==> s[k] != ' '
    decreases |s| - j
  {
    if j < |s| && s[j] == ' ' then SkipSpaces(s, j + 1) else j
  }

  /** A closing "-->" at index c, followed by what `mode` demands. */
  ghost predicate CloseFits(s: string, c: nat, mode: Mode)
  {
    CloseAt(s, c) && TerminatorEnd(s, c + 3, mode).Some?
  }

  /** The lazy `(.*?)` followed by the closing part: the capture is widened
      one character at a time from c, never across a '\n' (LazyCloseFinds
      says what it finds). */
  function LazyClose(s: string, start: nat, c0: nat, c: nat, mode: Mode): (r: Option<Match>)
    requires c0 <= c <= |s|
    ensures r.Some? ==> && r.value.start == start && r.value.capStart == c0 && c <= r.value.capEnd
                        && r.value.capEnd + 3 <= r.value.end <= |s|
    decreases |s| - c
  {
    var t := if CloseAt(s, c) then TerminatorEnd(s, c + 3, mode) else None;
    if t.Some? then
      Some(Match(start, c0, c, t.value))
    else if c < |s| && s[c] != '\n' then
      LazyClose(s, start, c0, c + 1, mode)
    else
      None
  }

  /** No closing part fits at any index in [a, b). */
  ghost predicate NoCloseIn(s: string, a: nat, b: nat, mode: Mode)
  {
    forall c' :: a <= c' < b ==> !CloseFits(s, c', mode)
  }

  /** No closing part fits at any index reachable from c without crossing
      a '\n'. */
  ghost predicate NoCloseReachable(s: string, c: nat, mode: Mode)
    requires c <= |s|
  {
    forall c' :: c <= c' <= |s| && NoNewline(s, c, c') ==> !CloseFits(s, c', mode)
  }

  /** LazyClose stops at the first index from c where the closing part
      fits, with no '\n' on the way; None means no such index exists. */
  lemma {:induction false} LazyCloseFinds(s: string, start: nat, c0: nat, c: nat, mode: Mode)
    requires c0 <= c <= |s| && NoNewline(s, c0, c)
    ensures LazyClose(s, start, c0, c, mode).Some? ==>
              && NoNewline(s, c0, LazyClose(s, start, c0, c, mode).value.capEnd)
              && CloseFits(s, LazyClose(s, start, c0, c, mode).value.capEnd, mode)
              && LazyClose(s, start, c0, c, mode).value.end
                 == TerminatorEnd(s, LazyClose(s, start, c0, c, mode).value.capEnd + 3, mode).value
              && NoCloseIn(s, c, LazyClose(s, start, c0, c, mode).value.capEnd, mode)
    ensures LazyClose(s, start, c0, c, mode).None? ==> NoCloseReachable(s, c, mode)
    decreases |s| - c
  {
    if !CloseFits(s, c, mode) && c < |s| && s[c] != '\n' {
      LazyCloseFinds(s, start, c0, c + 1, mode);
      forall c' | c < c' <= |s| && NoNewline(s, c, c') ensures NoNewline(s, c + 1, c') { }
    }
  }

  /** The match the regex engine reports when its search is at index i:
      the pattern anchored at i, with the shortest capture (MatchAtIsShortest
      says so). */
  function MatchAt(s: string, i: nat, mode: Mode): (r: Option<Match>)
    requires i <= |s|
    ensures r.Some? ==> && r.value.start == i && i + 11 <= r.value.capStart
                        && r.value.capStart <= r.value.capEnd && r.value.capEnd + 3 <= r.value.end <= |s|
  {
    if !OpenAt(s, i) then None
    else
      var j := SkipSpaces(s, i + 4);
      if !KeywordAt(s, j) then None
      else LazyClose(s, i, j + 7, j + 7, mode)
  }

  /** Of the matches that start where r does, r has the shortest capture
      (and all of them put the capture at the same place). */
  ghost predicate Shortest(s: string, r: Match, mode: Mode)
  {
    forall m :: IsMatch(s, m, mode) && m.start == r.start ==> m.capStart == r.capStart && r.capEnd <= m.capEnd
  }

  /** No match starts at i. */
  ghost predicate NoMatchAt(s: string, i: nat, mode: Mode)
  {
    forall m :: IsMatch(s, m, mode) ==> m.start != i
  }

  /** No match starts in [a, b). */
  ghost predicate NoMatchBetween(s: string, a: nat, b: nat, mode: Mode)
  {
    forall m :: IsMatch(s, m, mode) && a <= m.start ==> b <= m.start
  }

  /** No match starts at or after p. */
  ghost predicate NoMatchFrom(s: string, p: nat, mode: Mode)
  {
    forall m :: IsMatch(s, m, mode) ==> m.start < p
  }

  /** MatchAt finds a match anchored at i exactly when there is one, and of
      those it takes the one with the shortest capture. */
  lemma MatchAtIsShortest(s: string, i: nat, mode: Mode)
    requires i <= |s|
    ensures MatchAt(s, i, mode).Some? ==>
              IsMatch(s, MatchAt(s, i, mode).value, mode) && Shortest(s, MatchAt(s, i, mode).value, mode)
    ensures MatchAt(s, i, mode).None? ==> NoMatchAt(s, i, mode)
  {
    if OpenAt(s, i) {
      var j := SkipSpaces(s, i + 4);
      if !KeywordAt(s, j) {
        NoKeywordNoMatch(s, i, j, mode);
      } else {
        LazyCloseIsMatch(s, i, j, mode);
        AnchoredShortest(s, i, j, mode);
      }
    }
  }

  /** Without the keyword after the spaces, nothing matches at i. */
  lemma NoKeywordNoMatch(s: string, i: nat, j: nat, mode: Mode)
    requires i + 4 <= |s| && j == SkipSpaces(s, i + 4)
    requires !KeywordAt(s, j)
    ensures NoMatchAt(s, i, mode)
  {
    forall m | IsMatch(s, m, mode) && m.start == i ensures false {
      KeywordAfterSpaces(s, i, j, m, mode);
    }
  }

  /** Once the opening part is found at i and the keyword at j, what
      LazyClose yields is a match. */
  lemma LazyCloseIsMatch(s: string, i: nat, j: nat, mode: Mode)
    requires OpenAt(s, i) && j == SkipSpaces(s, i + 4) && KeywordAt(s, j)
    ensures LazyClose(s, i, j + 7, j + 7, mode).Some? ==> IsMatch(s, LazyClose(s, i, j + 7, j + 7, mode).value, mode)
  {
    LazyCloseFinds(s, i, j + 7, j + 7, mode);
  }

  /** ... and the one with the shortest capture; when it yields nothing,
      nothing matches at i. */
  lemma AnchoredShortest(s: string, i: nat, j: nat, mode: Mode)
    requires OpenAt(s, i) && j == SkipSpaces(s, i + 4) && KeywordAt(s, j)
    ensures LazyClose(s, i, j + 7, j + 7, mode).Some? ==> Shortest(s, LazyClose(s, i, j + 7, j + 7, mode).value, mode)
    ensures LazyClose(s, i, j + 7, j + 7, mode).None? ==> NoMatchAt(s, i, mode)
  {
    var r := LazyClose(s, i, j + 7, j + 7, mode);
    forall m | IsMatch(s, m, mode) && m.start == i
      ensures m.capStart == j + 7 && r.Some? && r.value.capEnd <= m.capEnd
    {
      KeywordAfterSpaces(s, i, j, m, mode);
      LazyCloseIsShortest(s, i, j + 7, mode, m);
    }
  }

  /** No capture of an anchored match is shorter than the one LazyClose picks. */
  lemma LazyCloseIsShortest(s: string, i: nat, c0: nat, mode: Mode, m: Match)
    requires c0 <= |s|
    requires IsMatch(s, m, mode) && m.start == i && m.capStart == c0
    ensures LazyClose(s, i, c0, c0, mode).Some?
    ensures LazyClose(s, i, c0, c0, mode).value.capEnd <= m.capEnd
  {
    LazyCloseFinds(s, i, c0, c0, mode);
    assert CloseFits(s, m.capEnd, mode);
  }

  /** Every match anchored at i places its keyword right after the maximal
      run of spaces: `[ ]*` cannot give back a space because "cmdrun "
      starts with 'c'. */
  lemma KeywordAfterSpaces(s: string, i: nat, j: nat, m: Match, mode: Mode)
    requires i + 4 <= j <= |s|
    requires AllSpaces(s, i + 4, j)
    requires j < |s| ==> s[j] != ' '
    requires IsMatch(s, m, mode) && m.start == i
    ensures m.capStart - 7 == j
  {
  }

  /** The leftmost match starting at or after p (FindFromIsLeftmost says
      which one). */
  function FindFrom(s: string, p: nat, mode: Mode): (r: Option<Match>)
    requires p <= |s|
    ensures r.Some? ==> && p <= r.value.start && r.value.start + 11 <= r.value.capStart
                        && r.value.capStart <= r.value.capEnd && r.value.capEnd + 3 <= r.value.end <= |s|
    decreases |s| - p
  {
    var here := MatchAt(s, p, mode);
    if here.Some? then here
    else if p == |s| then None
    else FindFrom(s, p + 1, mode)
  }

  /** FindFrom reports a match, the one that starts leftmost at or after p,
      with the shortest capture among those starting there; None means no
      match starts at or after p. */
  lemma {:induction false} FindFromIsLeftmost(s: string, p: nat, mode: Mode)
    requires p <= |s|
    ensures FindFrom(s, p, mode).Some? ==>
              && IsMatch(s, FindFrom(s, p, mode).value, mode)
              && Shortest(s, FindFrom(s, p, mode).value, mode)
              && NoMatchBetween(s, p, FindFrom(s, p, mode).value.start, mode)
    ensures FindFrom(s, p, mode).None? ==> NoMatchFrom(s, p, mode)
    decreases |s| - p
  {
    MatchAtIsShortest(s, p, mode);
    if MatchAt(s, p, mode).None? && p < |s| {
      FindFromIsLeftmost(s, p + 1, mode);
    }
  }

  /** Every match of a regex search from p: each next search resumes at the
      end of the previous match. */
  function AllMatches(s: string, p: nat, mode: Mode): (ms: seq<Match>)
    requires p <= |s|
    decreases |s| - p
  {
    match FindFrom(s, p, mode)
    case None => []
    case Some(m) => [m] + AllMatches(s, m.end, mode)
  }

  /** Each of ms is a match of the pattern of `mode` at or after p. */
  ghost predicate MatchesFrom(s: string, p: nat, ms: seq<Match>, mode: Mode)
  {
    forall i :: 0 <= i < |ms| ==> IsMatch(s, ms[i], mode) && p <= ms[i].start
  }

  /** ms lie in order, without overlapping. */
  predicate InOrder(ms: seq<Match>)
  {
    forall i :: 0 <= i < |ms| - 1 ==> ms[i].end <= ms[i + 1].start
  }

  /** The matches of a search from p are matches of the pattern that start
      at or after p. */
  lemma {:induction false} AllMatchesAreMatches(s: string, p: nat, mode: Mode)
    requires p <= |s|
    ensures MatchesFrom(s, p, AllMatches(s, p, mode), mode)
    decreases |s| - p
  {
    FindFromIsLeftmost(s, p, mode);
    var r := FindFrom(s, p, mode);
    if r.Some? {
      AllMatchesAreMatches(s, r.value.end, mode);
      MatchesFromCons(s, p, r.value, AllMatches(s, r.value.end, mode), mode);
    }
  }

  lemma MatchesFromCons(s: string, p: nat, m: Match, ms: seq<Match>, mode: Mode)
    requires IsMatch(s, m, mode) && p <= m.start && m.start <= m.end
    requires MatchesFrom(s, m.end, ms, mode)
    ensures MatchesFrom(s, p, [m] + ms, mode)
  {
    assert forall i :: 0 < i < |[m] + ms| ==> ([m] + ms)[i] == ms[i - 1];
  }

  /** ... and lie in order, without overlap. */
  lemma {:induction false} AllMatchesInOrder(s: string, p: nat, mode: Mode)
    requires p <= |s|
    ensures InOrder(AllMatches(s, p, mode))
    ensures AllMatches(s, p, mode) != [] ==> p <= AllMatches(s, p, mode)[0].start
    decreases |s| - p
  {
    var r := FindFrom(s, p, mode);
    if r.Some? {
      AllMatchesInOrder(s, r.value.end, mode);
      InOrderCons(r.value, AllMatches(s, r.value.end, mode));
    }
  }

  lemma InOrderCons(m: Match, ms: seq<Match>)
    requires InOrder(ms) && (ms != [] ==> m.end <= ms[0].start)
    ensures InOrder([m] + ms)
  {
    assert forall i :: 0 < i < |[m] + ms| ==> ([m] + ms)[i] == ms[i - 1];
  }

  /** ms is the chain a leftmost-first search from p visits: each match is
      the leftmost one at or after the end of the one before, with the
      shortest capture, and no match starts after the last one. */
  ghost predicate Leftmost(s: string, p: nat, ms: seq<Match>, mode: Mode)
    decreases |ms|
  {
    if ms == [] then NoMatchFrom(s, p, mode)
    else && IsMatch(s, ms[0], mode) && p <= ms[0].start && Shortest(s, ms[0], mode)
         && NoMatchBetween(s, p, ms[0].start, mode)
         && Leftmost(s, ms[0].end, ms[1..], mode)
  }

  /** `replace_all` visits every marker: the search visits exactly the
      leftmost-first chain of matches. */
  lemma {:induction false} AllMatchesLeftmost(s: string, p: nat, mode: Mode)
    requires p <= |s|
    ensures Leftmost(s, p, AllMatches(s, p, mode), mode)
    decreases |s| - p
  {
    FindFromIsLeftmost(s, p, mode);
    var r := FindFrom(s, p, mode);
    if r.Some? {
      AllMatchesLeftmost(s, r.value.end, mode);
      assert AllMatches(s, p, mode)[1..] == AllMatches(s, r.value.end, mode);
    }
  }

  /** A line-consuming match contains an inline match at the same place. */
  lemma LineMatchIsInlineMatch(s: string, m: Match)
    requires IsMatch(s, m, LineConsuming)
    ensures IsMatch(s, m.(end := m.capEnd + 3), Inline)
  {
  }

  /** Text without an inline marker has no line-consuming marker either. */
  lemma NoInlineMatchNoLineMatch(s: string, p: nat)
    requires NoMatchFrom(s, p, Inline)
    ensures NoMatchFrom(s, p, LineConsuming)
  {
    forall m | IsMatch(s, m, LineConsuming)
      ensures m.start < p
    {
      LineMatchIsInlineMatch(s, m);
    }
  }


  /** An inline capture never holds "-->": the lazy group stops at the first
      closing marker after the keyword. */
  lemma InlineCaptureHasNoClose(s: string, p: nat, k: nat)
    requires p <= |s|
    requires FindFrom(s, p, Inline).Some?
    requires FindFrom(s, p, Inline).value.capStart <= k && k + 3 <= FindFrom(s, p, Inline).value.capEnd
    ensures !OccursAt(s, Close, k)
  {
    var m := FindFrom(s, p, Inline).value;
    FindFromIsLeftmost(s, p, Inline);
    MarkersSpelled(s, k);
    if CloseAt(s, k) {
      CutAtClose(s, m, k);
    }
  }

  /** An inline match whose capture holds "-->" at k would also match with
      the capture ending at k. */
  lemma CutAtClose(s: string, m: Match, k: nat)
    requires IsMatch(s, m, Inline) && m.capStart <= k && k + 3 <= m.capEnd
    requires CloseAt(s, k)
    ensures IsMatch(s, m.(capEnd := k, end := k + 3), Inline)
  {
  }

  /** The two patterns read the same line differently: the line-consuming
      capture runs on to the "-->" that ends the line, the inline capture
      stops at the first "-->". */
  lemma CapturesDiffer()
    ensures FindFrom("<!--cmdrun x-->-->\n", 0, LineConsuming) == Some(Match(0, 11, 15, 19))
    ensures FindFrom("<!--cmdrun x-->-->\n", 0, Inline) == Some(Match(0, 11, 12, 15))
  {
    var s := "<!--cmdrun x-->-->\n";
    assert OpenAt(s, 0) && KeywordAt(s, 4) && SkipSpaces(s, 4) == 4;
    assert CloseAt(s, 12) && !CloseAt(s, 11) && CloseAt(s, 15);
    assert !CloseAt(s, 13) && !CloseAt(s, 14);
    assert LazyClose(s, 0, 11, 11, Inline) == Some(Match(0, 11, 12, 15));
    assert LazyClose(s, 0, 11, 15, LineConsuming) == Some(Match(0, 11, 15, 19));
    assert LazyClose(s, 0, 11, 13, LineConsuming) == LazyClose(s, 0, 11, 15, LineConsuming);
    assert LazyClose(s, 0, 11, 11, LineConsuming) == LazyClose(s, 0, 11, 13, LineConsuming);
  }
}
