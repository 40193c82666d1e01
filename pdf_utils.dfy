/** `_clean_text`, the normaliser applied to text extracted from a PDF:
    NUL becomes a space, runs of spaces and tabs become one space, a
    newline followed by whitespace holding another newline becomes a single
    blank line, and the ends are stripped. */
module PdfUtils {
  import opened Text

  /** `c` does not occur in `s`. */
  predicate Without(s: string, c: char) {
    forall i :: 0 <= i < |s| ==> s[i] != c
  }

  /** Two newlines separated only by whitespace are neighbours: the text
      holds no line made of whitespace alone. */
  predicate NoBlankGap(s: string) {
    forall i, j :: 0 <= i < j < |s| && s[i] == '\n' && s[j] == '\n' && AllIn(s[i + 1..j], Whitespace)
      ==> j == i + 1
  }

  /** The leading whitespace of `s` holds no newline. */
  predicate NoNewlineInLeadingSpace(s: string) {
    forall k :: 0 <= k < SpanEnd(s, Whitespace) ==> s[k] != '\n'
  }

  // ---------------------------------------------------------------------
  // The four passes

  /** `s.replace("\x00", " ")` */
  function ReplaceNul(s: string): (r: string)
    ensures |r| == |s| && Without(r, '\0')
    ensures forall i :: 0 <= i < |s| && s[i] != '\0' ==> r[i] == s[i]
  {
    if s == [] then []
    else [if s[0] == '\0' then ' ' else s[0]] + ReplaceNul(s[1..])
  }

  /** The last newline in `s[lo..hi]`, or 0 when there is none. */
  function LastNewline(s: string, lo: nat, hi: nat): (m: nat)
    requires 1 <= lo <= hi <= |s|
    ensures m == 0 || (lo <= m < hi && s[m] == '\n')
    ensures forall j :: lo <= j < hi && m < j ==> s[j] != '\n'
    decreases hi
  {
    if hi == lo then 0
    else if s[hi - 1] == '\n' then hi - 1
    else LastNewline(s, lo, hi - 1)
  }

  /** Where the greedy match of `\n\s*\n` starting at `s[0] == '\n'` ends:
      the last newline of the whitespace run after it, or 0 when the run
      holds none and nothing matches. */
  function MatchEnd(s: string): (m: nat)
    requires s != [] && s[0] == '\n'
    ensures m < |s|
    ensures m > 0 ==> s[m] == '\n' && AllIn(s[..m + 1], Whitespace)
    ensures NoNewlineInLeadingSpace(s[m + 1..])
  {
    var q := 1 + SpanEnd(s[1..], Whitespace);
    var m := LastNewline(s, 1, q);
    assert forall k :: 1 <= k < q ==> s[k] == s[1..][k - 1];
    SpanEndExact(s[m + 1..], q - (m + 1), Whitespace);
    m
  }

  /** `re.sub(r"\n\s*\n", "\n\n", s)`, scanning from the left. */
  function CollapseBlankLines(s: string): (r: string)
    ensures r == [] <==> s == []
    ensures r != [] ==> r[0] == s[0]
    decreases |s|
  {
    if s == [] then []
    else if s[0] == '\n' && MatchEnd(s) > 0 then "\n\n" + CollapseBlankLines(s[MatchEnd(s) + 1..])
    else [s[0]] + CollapseBlankLines(s[1..])
  }

  /** How many characters of `s` one step of `CollapseBlankLines` consumes. */
  function CollapseSkip(s: string): (k: nat)
    requires s != []
    ensures 1 <= k <= |s|
  {
    if s[0] == '\n' && MatchEnd(s) > 0 then MatchEnd(s) + 1 else 1
  }

  /** One step of `CollapseBlankLines`: a blank-line match becomes two
      newlines, any other character is copied. */
  lemma CollapseUnfold(s: string)
    requires s != []
    ensures CollapseBlankLines(s)
         == (if CollapseSkip(s) > 1 then "\n\n" else [s[0]]) + CollapseBlankLines(s[CollapseSkip(s)..])
  {
  }

  /** `_clean_text` */
  function CleanText(s: string): (r: string)
    ensures Stripped(r)
  {
    var t := CollapseBlankLines(ReplaceRuns(ReplaceNul(s), SpaceOrTab, ' '));
    StripSpec(t);
    Strip(t)
  }

  // ---------------------------------------------------------------------
  // Helpers on runs and slices

  /** A newline reached through whitespace only lies in the leading run. */
  lemma NewlineInLead(s: string, k: nat)
    requires k < |s| && s[k] == '\n' && AllIn(s[..k], Whitespace)
    ensures !NoNewlineInLeadingSpace(s)
  {
    assert forall l :: 0 <= l < k ==> In(Whitespace, s[l]) by {
      assert forall l :: 0 <= l < k ==> s[..k][l] == s[l];
    }
    assert k < SpanEnd(s, Whitespace);
  }

  /** `NewlineInLead` as an implication, for use where its premises may
      not hold. */
  lemma NewlineInLeadAt(s: string, k: int)
    ensures 0 <= k < |s| && s[k] == '\n' && AllIn(s[..k], Whitespace) ==> !NoNewlineInLeadingSpace(s)
  {
    if 0 <= k < |s| && s[k] == '\n' && AllIn(s[..k], Whitespace) {
      NewlineInLead(s, k);
    }
  }

  lemma GapFreeAppend(p: string, u: string)
    requires NoBlankGap(p) && NoBlankGap(u)
    requires forall i :: 0 <= i < |p| && p[i] == '\n' ==> NoNewlineInLeadingSpace(u)
    ensures NoBlankGap(p + u)
  {
    var r := p + u;
    forall i, j | 0 <= i < j < |r| && r[i] == '\n' && r[j] == '\n' && AllIn(r[i + 1..j], Whitespace)
      ensures j == i + 1
    {
      if j < |p| {
        assert r[i + 1..j] == p[i + 1..j];
      } else if i >= |p| {
        assert r[i + 1..j] == u[i - |p| + 1..j - |p|];
      } else {
        GapCrossing(p, u, i, j);
        assert false;
      }
    }
  }

  /** A whitespace-only gap from a newline of `p` to one of `u` puts a
      newline into the leading whitespace of `u`. */
  lemma GapCrossing(p: string, u: string, i: int, j: int)
    ensures 0 <= i < |p| <= j < |p| + |u| && (p + u)[j] == '\n' && AllIn((p + u)[i + 1..j], Whitespace)
        ==> !NoNewlineInLeadingSpace(u)
  {
    var r := p + u;
    if 0 <= i < |p| <= j < |r| && r[j] == '\n' && AllIn(r[i + 1..j], Whitespace) {
      var k := j - |p|;
      assert forall l :: 0 <= l < k ==> u[..k][l] == r[i + 1..j][l + |p| - i - 1];
      NewlineInLead(u, k);
    }
  }

  lemma NoBlankGapSlice(s: string, t: string, a: nat)
    requires NoBlankGap(s) && a + |t| <= |s| && t == s[a..a + |t|]
    ensures NoBlankGap(t)
  {
    forall i, j | 0 <= i < j < |t| && t[i] == '\n' && t[j] == '\n' && AllIn(t[i + 1..j], Whitespace)
      ensures j == i + 1
    {
      var w := s[a + i + 1..a + j];
      assert AllIn(w, Whitespace) by {
        forall l | 0 <= l < |w| ensures In(Whitespace, w[l]) {
          assert w[l] == t[i + 1..j][l];
        }
      }
    }
  }

  lemma StripGapFree(c: string)
    requires NoBlankGap(c)
    ensures NoBlankGap(Strip(c))
  {
    StripSlice(c);
    NoBlankGapSlice(c, Strip(c), StripStart(c));
  }

  /** `strip()` drops whitespace only. */
  lemma StripKeepsSignificant(s: string)
    ensures Select(Strip(s), Significant) == Select(s, Significant)
  {
    var a := StripStart(s);
    var r := Strip(s);
    StripSpec(s);
    StripSlice(s);
    var pre, post := s[..a], s[a + |r|..];
    assert s == pre + r + post;
    SelectAppend(pre + r, post, Significant);
    SelectAppend(pre, r, Significant);
    forall i | 0 <= i < |pre| ensures !In(Significant, pre[i]) {
      assert IsSpace(s[i]);
    }
    forall i | 0 <= i < |post| ensures !In(Significant, post[i]) {
      assert IsSpace(s[a + |r| + i]);
    }
    SelectNone(pre, Significant);
    SelectNone(post, Significant);
  }

  // ---------------------------------------------------------------------
  // Properties of each pass

  lemma {:induction false} ReplaceNulKeepsSignificant(s: string)
    ensures Select(ReplaceNul(s), Significant) == Select(s, Significant)
  {
    if s != [] {
      ReplaceNulKeepsSignificant(s[1..]);
    }
  }

  lemma {:induction false} ReplaceRunsWithout(s: string, cls: CharClass, rep: char, c: char)
    requires Without(s, c) && rep != c
    ensures Without(ReplaceRuns(s, cls, rep), c)
    decreases |s|
  {
    if s != [] {
      if In(cls, s[0]) {
        ReplaceRunsWithout(s[SpanEnd(s, cls)..], cls, rep, c);
      } else {
        ReplaceRunsWithout(s[1..], cls, rep, c);
      }
    }
  }

  lemma {:induction false} CollapseWithout(s: string, c: char)
    requires Without(s, c) && c != '\n'
    ensures Without(CollapseBlankLines(s), c)
    decreases |s|
  {
    if s != [] {
      var k := CollapseSkip(s);
      WithoutSuffix(s, k, c);
      CollapseWithout(s[k..], c);
      CollapseUnfold(s);
      var head := if k > 1 then "\n\n" else [s[0]];
      assert Without(head, c);
      WithoutAppend(head, CollapseBlankLines(s[k..]), c);
    }
  }

  lemma WithoutSuffix(s: string, k: nat, c: char)
    requires Without(s, c) && k <= |s|
    ensures Without(s[k..], c)
  {
    forall i | 0 <= i < |s| - k ensures s[k..][i] != c {
      assert s[k..][i] == s[k + i];
    }
  }

  lemma WithoutAppend(a: string, b: string, c: char)
    requires Without(a, c) && Without(b, c)
    ensures Without(a + b, c)
  {
    forall i | 0 <= i < |a + b| ensures (a + b)[i] != c {
      if i >= |a| {
        assert (a + b)[i] == b[i - |a|];
      }
    }
  }

  lemma {:induction false} CollapseNoAdjacent(s: string)
    requires NoAdjacent(s, SpaceOrTab)
    ensures NoAdjacent(CollapseBlankLines(s), SpaceOrTab)
    decreases |s|
  {
    if s != [] {
      if s[0] == '\n' && MatchEnd(s) > 0 {
        var m := MatchEnd(s);
        NoAdjacentSlice(s, SpaceOrTab, m + 1, |s|);
        CollapseNoAdjacent(s[m + 1..]);
      } else {
        NoAdjacentSlice(s, SpaceOrTab, 1, |s|);
        CollapseNoAdjacent(s[1..]);
        var t := CollapseBlankLines(s[1..]);
        assert t != [] ==> t[0] == s[1];
      }
    }
  }

  /** The whitespace a blank-line match consumes holds no significant
      character. */
  lemma MatchSelectsNothing(s: string)
    requires s != [] && s[0] == '\n' && MatchEnd(s) > 0
    ensures Select(s[..MatchEnd(s) + 1], Significant) == []
  {
    var w := s[..MatchEnd(s) + 1];
    forall i | 0 <= i < |w| ensures !In(Significant, w[i]) {
      assert In(Whitespace, w[i]);
    }
    SelectNone(w, Significant);
  }

  lemma {:induction false} CollapseKeepsSignificant(s: string)
    ensures Select(CollapseBlankLines(s), Significant) == Select(s, Significant)
    decreases |s|
  {
    if s != [] {
      var k := CollapseSkip(s);
      var head := if k > 1 then "\n\n" else [s[0]];
      var rest := s[k..];
      CollapseKeepsSignificant(rest);
      CollapseUnfold(s);
      SelectAppend(head, CollapseBlankLines(rest), Significant);
      SelectSplit(s, k, Significant);
      if k > 1 {
        MatchSelectsNothing(s);
        SelectNone(head, Significant);
      } else {
        assert s[..k] == head;
      }
    }
  }

  /** Replacing NUL by a space keeps every run of significant characters. */
  lemma {:induction false} ReplaceNulKeepsRuns(s: string)
    ensures Runs(ReplaceNul(s), Significant) == Runs(s, Significant)
    decreases |s|
  {
    if s != [] {
      var t := s[1..];
      assert s == [s[0]] + t;
      ReplaceNulKeepsRuns(t);
      if In(Significant, s[0]) {
        assert ReplaceNul(s) == [s[0]] + ReplaceNul(t);
        RunsSameHead(s[0], ReplaceNul(t), t, Significant);
      } else {
        RunsSkip(s[0], t, Significant);
        RunsSkip(if s[0] == '\0' then ' ' else s[0], ReplaceNul(t), Significant);
      }
    }
  }

  /** Collapsing blank lines keeps every run of significant characters:
      it rewrites whitespace only, and never removes all of the whitespace
      between two words. */
  lemma {:induction false} CollapseKeepsRuns(s: string)
    ensures Runs(CollapseBlankLines(s), Significant) == Runs(s, Significant)
    decreases |s|
  {
    if s != [] {
      var k := CollapseSkip(s);
      var rest := s[k..];
      CollapseKeepsRuns(rest);
      CollapseUnfold(s);
      if k > 1 {
        CollapseMatchRuns(s, rest);
      } else {
        assert s == [s[0]] + rest;
        RunsSameHead(s[0], CollapseBlankLines(rest), rest, Significant);
      }
    }
  }

  /** A blank-line match and the two newlines it becomes add no run. */
  lemma CollapseMatchRuns(s: string, rest: string)
    requires s != [] && s[0] == '\n' && MatchEnd(s) > 0 && rest == s[MatchEnd(s) + 1..]
    ensures Runs(s, Significant) == Runs(rest, Significant)
    ensures Runs("\n\n" + CollapseBlankLines(rest), Significant) == Runs(CollapseBlankLines(rest), Significant)
  {
    var w := s[..MatchEnd(s) + 1];
    assert s == w + rest;
    RunsDropFront(w, rest, Significant);
    RunsDropFront("\n\n", CollapseBlankLines(rest), Significant);
  }

  /** Two newlines with only whitespace between them, followed by text that
      does not start with whitespace, become exactly two newlines. */
  lemma CollapseMatch(w: string, t: string)
    requires AllIn(w, Whitespace) && (t == [] || !IsSpace(t[0]))
    ensures CollapseBlankLines("\n" + w + "\n" + t) == "\n\n" + CollapseBlankLines(t)
  {
    var s := "\n" + w + "\n" + t;
    var m := MatchEnd(s);
    MatchEndAt(s, w, t);
    assert m == |w| + 1;
    assert s[m + 1..] == t;
  }

  /** Where the match starting at `"\n" + w + "\n" + t` ends. */
  lemma MatchEndAt(s: string, w: string, t: string)
    requires s == "\n" + w + "\n" + t
    requires AllIn(w, Whitespace) && (t == [] || !IsSpace(t[0]))
    ensures MatchEnd(s) == |w| + 1
  {
    var m := MatchEnd(s);
    NewlineInLeadAt(s[m + 1..], |w| - m);
    MatchEndWhite(s, |w| + 2);
    if m != |w| + 1 {
      assert false;
    }
  }

  /** Every character of a blank-line match is whitespace. */
  lemma MatchEndWhite(s: string, k: int)
    ensures s != [] && s[0] == '\n' && 0 <= k <= MatchEnd(s) ==> IsSpace(s[k])
  {
    if s != [] && s[0] == '\n' && 0 <= k <= MatchEnd(s) {
      assert s[k] == s[..MatchEnd(s) + 1][k];
    }
  }

  /** Text with no blank line is left unchanged. */
  lemma {:induction false} CollapseNoGap(s: string)
    requires NoBlankGap(s)
    ensures CollapseBlankLines(s) == s
    decreases |s|
  {
    if s != [] {
      var k := CollapseSkip(s);
      NoBlankGapSlice(s, s[k..], k);
      CollapseNoGap(s[k..]);
      CollapseUnfold(s);
      GapFreeHead(s);
    }
  }

  /** In text with no blank line, one step of the collapse consumes exactly
      what it writes. */
  lemma GapFreeHead(s: string)
    requires NoBlankGap(s) && s != []
    ensures s == (if CollapseSkip(s) > 1 then "\n\n" else [s[0]]) + s[CollapseSkip(s)..]
  {
    if CollapseSkip(s) > 1 {
      GapFreeMatch(s);
      assert s == "\n\n" + s[2..];
    } else {
      assert s == [s[0]] + s[1..];
    }
  }

  /** In text with no blank line, a match is two neighbouring newlines. */
  lemma GapFreeMatch(s: string)
    requires NoBlankGap(s) && s != [] && s[0] == '\n' && MatchEnd(s) > 0
    ensures MatchEnd(s) == 1 && s[1] == '\n'
  {
    var m := MatchEnd(s);
    assert s[1..m] == s[..m + 1][1..m];
  }

  /** Collapsing blank lines twice is collapsing them once. */
  lemma CollapseIdempotent(s: string)
    ensures CollapseBlankLines(CollapseBlankLines(s)) == CollapseBlankLines(s)
  {
    CollapseGapFree(s);
    CollapseNoGap(CollapseBlankLines(s));
  }

  /** What the result starts with when the input's leading whitespace has
      no newline. */
  lemma {:induction false} CollapseLead(s: string)
    requires NoNewlineInLeadingSpace(s)
    ensures NoNewlineInLeadingSpace(CollapseBlankLines(s))
    decreases |s|
  {
    if s != [] && IsSpace(s[0]) {
      assert s[0] != '\n';
      var t := s[1..];
      assert SpanEnd(s, Whitespace) == 1 + SpanEnd(t, Whitespace);
      CollapseLead(t);
      var r := CollapseBlankLines(s);
      assert r == [s[0]] + CollapseBlankLines(t);
      assert r[1..] == CollapseBlankLines(t);
      assert SpanEnd(r, Whitespace) == 1 + SpanEnd(r[1..], Whitespace);
    }
  }

  lemma {:induction false} CollapseGapFree(s: string)
    ensures NoBlankGap(CollapseBlankLines(s))
    decreases |s|
  {
    if s != [] {
      if s[0] == '\n' && MatchEnd(s) > 0 {
        var t := s[MatchEnd(s) + 1..];
        CollapseGapFree(t);
        CollapseLead(t);
        GapFreeAppend("\n\n", CollapseBlankLines(t));
      } else {
        var t := s[1..];
        CollapseGapFree(t);
        if s[0] == '\n' {
          CollapseLead(t);
        }
        GapFreeAppend([s[0]], CollapseBlankLines(t));
      }
    }
  }

  // ---------------------------------------------------------------------
  // Properties of `_clean_text`

  /** No NUL survives. */
  lemma CleanNoNul(s: string)
    ensures Without(CleanText(s), '\0')
  {
    var a := ReplaceRuns(ReplaceNul(s), SpaceOrTab, ' ');
    ReplaceRunsWithout(ReplaceNul(s), SpaceOrTab, ' ', '\0');
    CollapseWithout(a, '\0');
    StripSpec(CollapseBlankLines(a));
  }

  /** No space or tab is next to another space or tab. */
  lemma CleanNoDoubleSpace(s: string)
    ensures NoAdjacent(CleanText(s), SpaceOrTab)
  {
    var a := ReplaceRuns(ReplaceNul(s), SpaceOrTab, ' ');
    ReplaceRunsShape(ReplaceNul(s), SpaceOrTab, ' ');
    CollapseNoAdjacent(a);
    var c := CollapseBlankLines(a);
    NoAdjacentSlice(c, SpaceOrTab, StripStart(c), StripStart(c) + |Strip(c)|);
    StripSlice(c);
    assert CleanText(s) == Strip(c);
  }

  /** No whitespace-only line is left between two newlines. */
  lemma CleanNoBlankGap(s: string)
    ensures NoBlankGap(CleanText(s))
  {
    var a := ReplaceRuns(ReplaceNul(s), SpaceOrTab, ' ');
    CollapseGapFree(a);
    StripGapFree(CollapseBlankLines(a));
  }

  /** Without blank gaps, three newlines never follow one another. */
  lemma NoTripleNewline(r: string)
    requires NoBlankGap(r)
    ensures forall i :: 0 <= i < |r| - 2 ==> !(r[i] == '\n' && r[i + 1] == '\n' && r[i + 2] == '\n')
  {
    forall i | 0 <= i < |r| - 2 && r[i] == '\n' && r[i + 1] == '\n'
      ensures r[i + 2] != '\n'
    {
      assert AllIn(r[i + 1..i + 2], Whitespace);
    }
  }

  /** Every character that is neither whitespace nor NUL survives, in
      order, and no other such character appears. */
  lemma CleanKeepsSignificant(s: string)
    ensures Select(CleanText(s), Significant) == Select(s, Significant)
  {
    var n := ReplaceNul(s);
    var a := ReplaceRuns(n, SpaceOrTab, ' ');
    ReplaceNulKeepsSignificant(s);
    ReplaceRunsKeepsOthers(n, SpaceOrTab, ' ', Significant);
    CollapseKeepsSignificant(a);
    StripKeepsSignificant(CollapseBlankLines(a));
  }

  /** Every run of significant characters survives cleaning, in order and
      unchanged: only the whitespace between them is rewritten, and none of
      it disappears between two words. */
  lemma CleanKeepsRuns(s: string)
    ensures Runs(CleanText(s), Significant) == Runs(s, Significant)
  {
    var n := ReplaceNul(s);
    var a := ReplaceRuns(n, SpaceOrTab, ' ');
    ReplaceNulKeepsRuns(s);
    ReplaceRunsKeepsRuns(n, SpaceOrTab, ' ', Significant);
    CollapseKeepsRuns(a);
    StripKeepsRuns(CollapseBlankLines(a), Significant);
  }

  /** The result is empty exactly when the input has no character other
      than whitespace and NUL. */
  lemma CleanEmpty(s: string)
    ensures CleanText(s) == [] <==> Select(s, Significant) == []
  {
    var r := CleanText(s);
    CleanKeepsSignificant(s);
    CleanNoNul(s);
    if r != [] {
      assert In(Significant, r[0]);
      assert Select(r, Significant) != [];
    }
  }
}
