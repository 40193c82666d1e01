/** Greedy word wrap of the speech bubble and the key-line card. Pillow's
    text measurement is an arbitrary function `width` from a string to its
    rendered width in pixels. */
module TextLayout {
  import opened Text

  /** Every prefix of two or more words of `group`, joined by spaces, was
      measured to fit: the greedy loop only extends a line that fits. */
  ghost predicate ExtensionsFit(group: seq<string>, width: string -> int, maxWidth: int) {
    forall k :: 2 <= k <= |group| ==> width(JoinWith(group[..k], " ")) <= maxWidth
  }

  /** Joining non-empty words that hold no whitespace gives a non-empty
      string with no whitespace at either end. */
  lemma {:induction false} JoinWordsStripped(ws: seq<string>)
    requires ws != []
    requires forall i :: 0 <= i < |ws| ==> ws[i] != [] && AllIn(ws[i], NonWhitespace)
    ensures var s := JoinWith(ws, " ");
      s != [] && s[0] == ws[0][0] && s[|s| - 1] == ws[|ws| - 1][|ws[|ws| - 1]| - 1]
  {
    if |ws| > 1 {
      JoinWordsStripped(ws[1..]);
      var rest := JoinWith(ws[1..], " ");
      assert JoinWith(ws, " ") == ws[0] + " " + rest;
    }
  }

  /** The state of the wrap loop after `i` words: `lines`/`groups` are the
      flushed lines, `cur`/`curGroup` the line being built. */
  ghost predicate WrapInv(words: seq<string>, i: nat, lines: seq<string>, groups: seq<seq<string>>,
                          cur: string, curGroup: seq<string>, width: string -> int, maxWidth: int)
  {
    && i <= |words|
    && (forall j :: 0 <= j < |words| ==> words[j] != [] && AllIn(words[j], NonWhitespace))
    && |groups| == |lines|
    && Concat(groups) + curGroup == words[..i]
    && (forall j :: 0 <= j < |lines| ==> groups[j] != [] && lines[j] == JoinWith(groups[j], " "))
    && (forall j :: 0 <= j < |lines| ==> ExtensionsFit(groups[j], width, maxWidth))
    && (forall j :: 0 <= j < |lines| - 1 ==> width(lines[j] + " " + groups[j + 1][0]) > maxWidth)
    && (i == 0 ==> cur == "" && curGroup == [] && lines == [])
    && (i > 0 ==> curGroup != [] && cur != "" && cur == JoinWith(curGroup, " ") && ExtensionsFit(curGroup, width, maxWidth))
    && (i > 0 && lines != [] ==> width(lines[|lines| - 1] + " " + curGroup[0]) > maxWidth)
  }

  /** `lines` is the greedy wrap of `words`: `groups[i]` are the words
      that make up `lines[i]`, in order and without loss; every extension
      of a line by one more word was measured to fit, and the line was
      closed because the next word did not fit. */
  ghost predicate Wrapped(words: seq<string>, lines: seq<string>, groups: seq<seq<string>>,
                          width: string -> int, maxWidth: int)
  {
    && |groups| == |lines|
    && Concat(groups) == words
    && (forall i :: 0 <= i < |lines| ==> groups[i] != [] && lines[i] == JoinWith(groups[i], " "))
    && (forall i :: 0 <= i < |lines| ==> ExtensionsFit(groups[i], width, maxWidth))
    && (forall i :: 0 <= i < |lines| - 1 ==> width(lines[i] + " " + groups[i + 1][0]) > maxWidth)
  }

  /** The state of the wrap loop: the flushed `lines` and the line `cur`
      being built, with the words (`groups`, `curGroup`) each is made of. */
  datatype WrapState = WrapState(lines: seq<string>, groups: seq<seq<string>>, cur: string, curGroup: seq<string>)

  /** The line the loop measures: the current line extended by `w`. The
      loop computes it as `(cur + " " + w).strip() if cur else w`, which is
      the same string (`StripCandidate`). */
  function Candidate(cur: string, w: string): string {
    if cur != "" then cur + " " + w else w
  }

  /** With no outer whitespace on `cur` and a whitespace-free word `w`,
      stripping `cur + " " + w` changes nothing, and the result again has
      no outer whitespace. */
  lemma StripCandidate(cur: string, w: string)
    requires Stripped(cur) && w != [] && AllIn(w, NonWhitespace)
    ensures (if cur != "" then Strip(cur + " " + w) else w) == Candidate(cur, w)
    ensures Stripped(Candidate(cur, w))
  {
    var c := Candidate(cur, w);
    assert c[|c| - 1] == w[|w| - 1];
    if cur != "" {
      assert c[0] == cur[0];
      StripStripped(c);
    }
  }

  /** One turn of the loop: try `cur + " " + w`; keep it if it fits,
      otherwise flush `cur` (when non-empty) and start over with `w`. */
  function WrapStep(st: WrapState, w: string, width: string -> int, maxWidth: int): WrapState {
    var test := Candidate(st.cur, w);
    if width(test) <= maxWidth then WrapState(st.lines, st.groups, test, st.curGroup + [w])
    else if st.cur != "" then WrapState(st.lines + [st.cur], st.groups + [st.curGroup], w, [w])
    else WrapState(st.lines, st.groups, w, [w])
  }

  /** The state the loop reaches from `st` after the words `ws`. */
  function WrapFrom(st: WrapState, ws: seq<string>, width: string -> int, maxWidth: int): WrapState
    decreases |ws|
  {
    if ws == [] then st else WrapFrom(WrapStep(st, ws[0], width, maxWidth), ws[1..], width, maxWidth)
  }

  /** The loop's state followed by the final flush of `cur`. */
  function WrapFinish(st: WrapState): WrapState {
    if st.cur != "" then WrapState(st.lines + [st.cur], st.groups + [st.curGroup], "", []) else st
  }

  /** The lines `_wrap_text` returns for `words`, and the words of each. */
  function WrapAll(words: seq<string>, width: string -> int, maxWidth: int): WrapState {
    WrapFinish(WrapFrom(WrapState([], [], "", []), words, width, maxWidth))
  }

  /** `_wrap_text`: the greedy line breaker. */
  method WrapText(text: string, width: string -> int, maxWidth: int) returns (lines: seq<string>)
    ensures lines == WrapAll(Words(text), width, maxWidth).lines
  {
    var words := Words(text);
    lines := [];
    var cur := "";
    ghost var groups: seq<seq<string>> := [];
    ghost var curGroup: seq<string> := [];
    var i := 0;
    while i < |words|
      invariant i <= |words| && Stripped(cur)
      invariant WrapFrom(WrapState(lines, groups, cur, curGroup), words[i..], width, maxWidth)
             == WrapFrom(WrapState([], [], "", []), words, width, maxWidth)
    {
      var w := words[i];
      assert words[i..][1..] == words[i + 1..];
      var test := if cur != "" then Strip(cur + " " + w) else w;
      StripCandidate(cur, w);
      if width(test) <= maxWidth {
        cur := test;
        curGroup := curGroup + [w];
      } else {
        if cur != "" {
          lines := lines + [cur];
          groups := groups + [curGroup];
        }
        cur := w;
        curGroup := [w];
      }
      i := i + 1;
    }
    if cur != "" {
      lines := lines + [cur];
    }
  }

  /** A property of (position, state) that every turn of the loop
      preserves holds of every state the loop reaches. */
  lemma {:induction false} WrapFromKeeps(words: seq<string>, i: nat, st: WrapState, width: string -> int,
                                         maxWidth: int, inv: (nat, WrapState) -> bool)
    requires i <= |words| && inv(i, st)
    requires forall j: nat, s: WrapState :: j < |words| && inv(j, s) ==> inv(j + 1, WrapStep(s, words[j], width, maxWidth))
    ensures inv(|words|, WrapFrom(st, words[i..], width, maxWidth))
    decreases |words| - i
  {
    if i < |words| {
      var next := WrapStep(st, words[i], width, maxWidth);
      assert words[i..][1..] == words[i + 1..];
      WrapFromKeeps(words, i + 1, next, width, maxWidth, inv);
    } else {
      assert words[i..] == [];
    }
  }

  ghost predicate StateInv(words: seq<string>, i: nat, st: WrapState, width: string -> int, maxWidth: int) {
    WrapInv(words, i, st.lines, st.groups, st.cur, st.curGroup, width, maxWidth)
  }

  lemma StepKeepsInv(words: seq<string>, i: nat, st: WrapState, width: string -> int, maxWidth: int)
    requires i < |words|
    requires StateInv(words, i, st, width, maxWidth)
    ensures StateInv(words, i + 1, WrapStep(st, words[i], width, maxWidth), width, maxWidth)
  {
    var w := words[i];
    var test := Candidate(st.cur, w);
    TestIsExtension(words, i, st.lines, st.groups, st.cur, st.curGroup, width, maxWidth, test);
    if width(test) <= maxWidth {
      assert WrapStep(st, w, width, maxWidth) == WrapState(st.lines, st.groups, test, st.curGroup + [w]);
      StepExtends(words, i, st.lines, st.groups, st.cur, st.curGroup, width, maxWidth, test);
    } else if st.cur != "" {
      assert WrapStep(st, w, width, maxWidth) == WrapState(st.lines + [st.cur], st.groups + [st.curGroup], w, [w]);
      StepFlushes(words, i, st.lines, st.groups, st.cur, st.curGroup, width, maxWidth);
    } else {
      assert WrapStep(st, w, width, maxWidth) == WrapState(st.lines, st.groups, w, [w]);
      StepStarts(words, i, st.lines, st.groups, st.cur, st.curGroup, width, maxWidth);
    }
  }

  /** Every turn of the loop keeps `WrapInv`. */
  lemma StepsKeepInv(words: seq<string>, width: string -> int, maxWidth: int)
    ensures forall j: nat, s: WrapState :: j < |words| && StateInv(words, j, s, width, maxWidth) ==>
      StateInv(words, j + 1, WrapStep(s, words[j], width, maxWidth), width, maxWidth)
  {
    forall j: nat, s: WrapState | j < |words| && StateInv(words, j, s, width, maxWidth)
      ensures StateInv(words, j + 1, WrapStep(s, words[j], width, maxWidth), width, maxWidth)
    {
      StepKeepsInv(words, j, s, width, maxWidth);
    }
  }

  /** The final flush turns a state satisfying `WrapInv` after all words
      into a wrap. */
  lemma FinishWrapped(words: seq<string>, st: WrapState, width: string -> int, maxWidth: int)
    requires StateInv(words, |words|, st, width, maxWidth)
    ensures Wrapped(words, WrapFinish(st).lines, WrapFinish(st).groups, width, maxWidth)
  {
    if st.cur != "" {
      FinishFlush(words, st.lines, st.groups, st.cur, st.curGroup, width, maxWidth);
    } else {
      FinishEmpty(words, st.lines, st.groups, st.cur, st.curGroup, width, maxWidth);
    }
  }

  /** The lines are the greedy wrap of the words of `text`. */
  lemma WrapAllWrapped(words: seq<string>, width: string -> int, maxWidth: int)
    requires forall j :: 0 <= j < |words| ==> words[j] != [] && AllIn(words[j], NonWhitespace)
    ensures Wrapped(words, WrapAll(words, width, maxWidth).lines, WrapAll(words, width, maxWidth).groups, width, maxWidth)
  {
    var init := WrapState([], [], "", []);
    var inv := (j: nat, s: WrapState) => StateInv(words, j, s, width, maxWidth);
    StepsKeepInv(words, width, maxWidth);
    assert words[0..] == words;
    assert inv(0, init);
    WrapFromKeeps(words, 0, init, width, maxWidth, inv);
    FinishWrapped(words, WrapFrom(init, words, width, maxWidth), width, maxWidth);
  }

  /** The string the loop measures is the current line extended by the next word. */
  lemma TestIsExtension(words: seq<string>, i: nat, lines: seq<string>, groups: seq<seq<string>>,
                        cur: string, curGroup: seq<string>, width: string -> int, maxWidth: int,
                        test: string)
    requires WrapInv(words, i, lines, groups, cur, curGroup, width, maxWidth) && i < |words|
    requires test == Candidate(cur, words[i])
    ensures test == JoinWith(curGroup + [words[i]], " ")
  {
    if i > 0 {
      JoinAppend(curGroup, [words[i]], " ");
    } else {
      assert curGroup + [words[i]] == [words[i]];
    }
  }

  lemma StepExtends(words: seq<string>, i: nat, lines: seq<string>, groups: seq<seq<string>>,
                    cur: string, curGroup: seq<string>, width: string -> int, maxWidth: int,
                    test: string)
    requires WrapInv(words, i, lines, groups, cur, curGroup, width, maxWidth) && i < |words|
    requires test == JoinWith(curGroup + [words[i]], " ") && width(test) <= maxWidth
    ensures WrapInv(words, i + 1, lines, groups, test, curGroup + [words[i]], width, maxWidth)
  {
    ExtendFits(curGroup, words[i], width, maxWidth);
    ExtendStep(groups, curGroup, words, i);
    if i == 0 {
      assert curGroup + [words[i]] == [words[i]];
    }
  }

  /** A word that does not fit closes the current line. */
  lemma StepFlushes(words: seq<string>, i: nat, lines: seq<string>, groups: seq<seq<string>>,
                    cur: string, curGroup: seq<string>, width: string -> int, maxWidth: int)
    requires WrapInv(words, i, lines, groups, cur, curGroup, width, maxWidth) && i < |words|
    requires cur != "" && width(JoinWith(curGroup + [words[i]], " ")) > maxWidth
    ensures WrapInv(words, i + 1, lines + [cur], groups + [curGroup], words[i], [words[i]], width, maxWidth)
  {
    var w := words[i];
    var ls, gs := lines + [cur], groups + [curGroup];
    assert JoinWith([w], " ") == w;
    FlushStep(groups, curGroup, words, i);
    JoinAppend(curGroup, [w], " ");
    assert cur + " " + w == JoinWith(curGroup + [w], " ");
    forall j | 0 <= j < |ls| ensures gs[j] != [] && ls[j] == JoinWith(gs[j], " ") && ExtensionsFit(gs[j], width, maxWidth) {
      if j < |lines| {
        assert gs[j] == groups[j] && ls[j] == lines[j];
      }
    }
    forall j | 0 <= j < |ls| - 1 ensures width(ls[j] + " " + gs[j + 1][0]) > maxWidth {
      if j < |lines| - 1 {
        assert gs[j + 1] == groups[j + 1] && ls[j] == lines[j];
      } else {
        assert gs[j + 1] == curGroup && ls[j] == lines[|lines| - 1];
      }
    }
  }

  /** The first word starts the first line. */
  lemma StepStarts(words: seq<string>, i: nat, lines: seq<string>, groups: seq<seq<string>>,
                   cur: string, curGroup: seq<string>, width: string -> int, maxWidth: int)
    requires WrapInv(words, i, lines, groups, cur, curGroup, width, maxWidth) && i < |words|
    requires cur == ""
    ensures WrapInv(words, i + 1, lines, groups, words[i], [words[i]], width, maxWidth)
  {
    var w := words[i];
    assert JoinWith([w], " ") == w;
    assert i == 0 && groups == [];
    assert words[..1] == [w];
  }

  lemma FinishFlush(words: seq<string>, lines: seq<string>, groups: seq<seq<string>>,
                    cur: string, curGroup: seq<string>, width: string -> int, maxWidth: int)
    requires WrapInv(words, |words|, lines, groups, cur, curGroup, width, maxWidth) && cur != ""
    ensures Wrapped(words, lines + [cur], groups + [curGroup], width, maxWidth)
  {
    var ls, gs := lines + [cur], groups + [curGroup];
    assert words[..|words|] == words;
    ConcatSnoc(groups, curGroup);
    forall j | 0 <= j < |ls| ensures gs[j] != [] && ls[j] == JoinWith(gs[j], " ") && ExtensionsFit(gs[j], width, maxWidth) {
      if j < |lines| {
        assert gs[j] == groups[j] && ls[j] == lines[j];
      }
    }
    forall j | 0 <= j < |ls| - 1 ensures width(ls[j] + " " + gs[j + 1][0]) > maxWidth {
      if j < |lines| - 1 {
        assert gs[j + 1] == groups[j + 1] && ls[j] == lines[j];
      } else {
        assert gs[j + 1] == curGroup && ls[j] == lines[|lines| - 1];
      }
    }
  }

  lemma FinishEmpty(words: seq<string>, lines: seq<string>, groups: seq<seq<string>>,
                    cur: string, curGroup: seq<string>, width: string -> int, maxWidth: int)
    requires WrapInv(words, |words|, lines, groups, cur, curGroup, width, maxWidth) && cur == ""
    ensures Wrapped(words, lines, groups, width, maxWidth)
  {
    assert groups == [];
  }

  /** What a wrap promises about its lines as text: joining them gives the
      words joined by single spaces, no line is empty, and a line wider than
      `maxWidth` holds a single word. */
  lemma WrappedLines(words: seq<string>, lines: seq<string>, groups: seq<seq<string>>,
                     width: string -> int, maxWidth: int)
    requires Wrapped(words, lines, groups, width, maxWidth)
    requires forall j :: 0 <= j < |words| ==> words[j] != [] && AllIn(words[j], NonWhitespace)
    ensures JoinWith(lines, " ") == JoinWith(words, " ")
    ensures words == [] <==> lines == []
    ensures forall i :: 0 <= i < |lines| ==> lines[i] != []
    ensures forall i :: 0 <= i < |lines| ==> |groups[i]| == 1 || width(lines[i]) <= maxWidth
  {
    forall j | 0 <= j < |lines| ensures lines[j] != [] && (|groups[j]| == 1 || width(lines[j]) <= maxWidth) {
      GroupWordsNonEmpty(groups, j, words);
      JoinWordsStripped(groups[j]);
      assert groups[j][..|groups[j]|] == groups[j];
    }
    JoinConcat(groups, lines, " ");
    if lines != [] {
      ConcatNonEmpty(groups);
    }
  }

  lemma ConcatSnoc(groups: seq<seq<string>>, g: seq<string>)
    ensures Concat(groups + [g]) == Concat(groups) + g
  {
    ConcatAppend(groups, [g]);
    assert Concat([g]) == g + Concat([g][1..]);
  }

  lemma ExtendStep(groups: seq<seq<string>>, cur: seq<string>, words: seq<string>, i: nat)
    requires i < |words| && Concat(groups) + cur == words[..i]
    ensures Concat(groups) + (cur + [words[i]]) == words[..i + 1]
  {
    assert words[..i + 1] == words[..i] + [words[i]];
  }

  lemma FlushStep(groups: seq<seq<string>>, cur: seq<string>, words: seq<string>, i: nat)
    requires i < |words| && Concat(groups) + cur == words[..i]
    ensures Concat(groups + [cur]) + [words[i]] == words[..i + 1]
  {
    ConcatSnoc(groups, cur);
    assert words[..i + 1] == words[..i] + [words[i]];
  }

  lemma ExtendFits(group: seq<string>, w: string, width: string -> int, maxWidth: int)
    requires ExtensionsFit(group, width, maxWidth)
    requires group != [] ==> width(JoinWith(group + [w], " ")) <= maxWidth
    ensures ExtensionsFit(group + [w], width, maxWidth)
  {
    var g := group + [w];
    forall k | 2 <= k <= |g| ensures width(JoinWith(g[..k], " ")) <= maxWidth {
      if k <= |group| {
        assert g[..k] == group[..k];
      } else {
        assert g[..k] == g;
      }
    }
  }

  /** The words of one group are words of the text. */
  lemma GroupWordsNonEmpty(groups: seq<seq<string>>, j: nat, words: seq<string>)
    requires j < |groups| && Concat(groups) == words
    requires forall i :: 0 <= i < |words| ==> words[i] != [] && AllIn(words[i], NonWhitespace)
    ensures forall k :: 0 <= k < |groups[j]| ==> groups[j][k] != [] && AllIn(groups[j][k], NonWhitespace)
  {
    ConcatAppend(groups[..j], groups[j..]);
    assert groups == groups[..j] + groups[j..];
    assert Concat(groups[j..]) == groups[j] + Concat(groups[j + 1..]);
    var off := |Concat(groups[..j])|;
    forall k | 0 <= k < |groups[j]| ensures groups[j][k] != [] && AllIn(groups[j][k], NonWhitespace) {
      assert words[off + k] == groups[j][k];
    }
  }
}
