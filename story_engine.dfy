/** The lesson-script builder: the text is split into sentences, each
    sentence is scored by its content words and length, a diverse set of
    high-scoring sentences becomes the key points, and every key point
    becomes a scene of fixed shape. */
module StoryEngine {
  import opened Text
  import opened Sorting
  import opened Dialogue

  // ---------------------------------------------------------------------
  // `_sentences`

  predicate IsTerminator(c: char) {
    c == '.' || c == '!' || c == '?'
  }

  /** The split pattern `(?<=[.!?])\s+` matches at `p`. */
  predicate IsBreak(s: string, p: nat) {
    1 <= p < |s| && IsTerminator(s[p - 1]) && IsSpace(s[p])
  }

  /** No terminator of `s` is followed by whitespace. */
  predicate NoBreak(s: string) {
    forall k :: 0 <= k < |s| - 1 ==> !(IsTerminator(s[k]) && IsSpace(s[k + 1]))
  }

  /** The first match position at or after `from`, or `|s|`. */
  function FirstBreak(s: string, from: nat): (p: nat)
    requires 1 <= from
    ensures from <= p && (p <= |s| || p == from)
    ensures p < |s| ==> IsBreak(s, p)
    ensures forall q :: from <= q < p && q < |s| ==> !IsBreak(s, q)
    decreases |s| - from
  {
    if from >= |s| then from
    else if IsBreak(s, from) then from
    else FirstBreak(s, from + 1)
  }

  /** `re.split(r"(?<=[.!?])\s+", s)` */
  function Pieces(s: string): (ps: seq<string>)
    ensures ps != []
    decreases |s|
  {
    var p := FirstBreak(s, 1);
    if p >= |s| then [s]
    else [s[..p]] + Pieces(s[p + SpanEnd(s[p..], Whitespace)..])
  }

  /** `[p.strip() for p in pieces if p.strip()]` */
  function StripAll(ps: seq<string>): (r: seq<string>)
    ensures |r| <= |ps|
    ensures forall i :: 0 <= i < |r| ==> r[i] != [] && Stripped(r[i])
  {
    if ps == [] then []
    else if Strip(ps[0]) == [] then StripAll(ps[1..])
    else
      StripSpec(ps[0]);
      [Strip(ps[0])] + StripAll(ps[1..])
  }

  /** `re.sub(r"\s+", " ", text.strip())` */
  function Collapse(text: string): (r: string)
    ensures Collapsed(r)
  {
    StripSpec(text);
    ReplaceRunsShape(Strip(text), Whitespace, ' ');
    ReplaceRuns(Strip(text), Whitespace, ' ')
  }

  /** `_sentences` */
  function Sentences(text: string): (ss: seq<string>)
    ensures forall i :: 0 <= i < |ss| ==> ss[i] != [] && Stripped(ss[i])
  {
    StripAll(Pieces(Collapse(text)))
  }

  /** What `_sentences` promises of each sentence. */
  predicate SentenceLike(x: string) {
    x != [] && Collapsed(x) && NoBreak(x)
  }

  /** Each entry is sentence-like and every entry but the last ends with
      a terminator. */
  predicate SentenceList(ss: seq<string>) {
    && (forall i :: 0 <= i < |ss| ==> SentenceLike(ss[i]))
    && (forall i :: 0 <= i < |ss| - 1 ==> IsTerminator(ss[i][|ss[i]| - 1]))
  }

  /** Whitespace inside is single spaces, and none at the ends. */
  predicate Collapsed(s: string) {
    && Stripped(s)
    && (forall i :: 0 <= i < |s| && IsSpace(s[i]) ==> s[i] == ' ')
    && NoAdjacent(s, Whitespace)
  }

  lemma CollapseCollapsed(text: string)
    ensures Collapsed(Collapse(text))
    ensures Collapse(text) == [] <==> AllIn(text, Whitespace)
  {
    StripSpec(text);
    ReplaceRunsShape(Strip(text), Whitespace, ' ');
    StripEmpty(text);
  }

  /** Collapsing whitespace keeps the words: each run of whitespace became
      one space, so no word is lost, split or merged with its neighbour. */
  lemma WordsOfCollapse(text: string)
    ensures Words(Collapse(text)) == Words(text)
  {
    StripKeepsRuns(text, NonWhitespace);
    ReplaceRunsKeepsRuns(Strip(text), Whitespace, ' ', NonWhitespace);
  }

  lemma CollapsedSlice(s: string, a: nat, b: nat)
    requires Collapsed(s) && a < b <= |s|
    requires !IsSpace(s[a]) && !IsSpace(s[b - 1])
    ensures Collapsed(s[a..b])
  {
    NoAdjacentSlice(s, Whitespace, a, b);
  }

  /** Without a break, the collapsed text is one sentence. */
  lemma WholePiece(s: string)
    requires Collapsed(s) && s != [] && FirstBreak(s, 1) >= |s|
    ensures Pieces(s) == [s] && SentenceLike(s)
  {
    forall k | 0 <= k < |s| - 1 ensures !(IsTerminator(s[k]) && IsSpace(s[k + 1])) {
      assert !IsBreak(s, k + 1);
    }
  }

  /** The text before a break that is the first one is a sentence. */
  lemma PieceBeforeBreak(s: string, p: nat)
    requires Collapsed(s) && IsBreak(s, p)
    requires forall q :: 1 <= q < p ==> !IsBreak(s, q)
    ensures SentenceLike(s[..p])
  {
    var piece := s[..p];
    CollapsedSlice(s, 0, p);
    assert s[0..p] == piece;
    forall k | 0 <= k < |piece| - 1 ensures !(IsTerminator(piece[k]) && IsSpace(piece[k + 1])) {
      assert !IsBreak(s, k + 1);
    }
  }

  /** In a collapsed text a break is one space followed by a non-space. */
  lemma BreakIsSingleSpace(s: string, p: nat)
    requires Collapsed(s) && IsBreak(s, p)
    ensures p + 1 < |s| && s[p] == ' ' && !IsSpace(s[p + 1])
  {
    assert In(Whitespace, s[p]);
    assert !(In(Whitespace, s[p]) && In(Whitespace, s[p + 1])) || p + 1 == |s|;
  }

  /** The split at a single-space break. */
  lemma PiecesAtBreak(s: string, p: nat)
    requires p == FirstBreak(s, 1) && p + 1 < |s| && s[p] == ' ' && !IsSpace(s[p + 1])
    ensures Pieces(s) == [s[..p]] + Pieces(s[p + 1..])
  {
    SpanEndExact(s[p..], 1, Whitespace);
  }

  lemma SplitAtSpace(s: string, p: nat)
    requires p < |s| && s[p] == ' '
    ensures s == s[..p] + " " + s[p + 1..]
  {
    assert s[p..p + 1] == " ";
    assert s == s[..p] + s[p..p + 1] + s[p + 1..];
  }

  /** The pieces of a collapsed, non-empty text are its sentences: each is
      non-empty and collapsed, contains no break, every piece but the last
      ends with a terminator, and single spaces join them back into the
      text. */
  lemma {:induction false} PiecesOfCollapsed(s: string)
    requires Collapsed(s) && s != []
    ensures SentenceList(Pieces(s))
    ensures JoinWith(Pieces(s), " ") == s
    decreases |s|
  {
    var p := FirstBreak(s, 1);
    if p >= |s| {
      WholePiece(s);
    } else {
      BreakIsSingleSpace(s, p);
      CollapsedSlice(s, p + 1, |s|);
      assert s[p + 1..|s|] == s[p + 1..];
      PiecesOfCollapsed(s[p + 1..]);
      PiecesStep(s, p);
    }
  }

  /** One sentence, one space, then the sentences of the rest. */
  lemma PiecesStep(s: string, p: nat)
    requires Collapsed(s) && p == FirstBreak(s, 1) && p + 1 < |s|
    requires IsBreak(s, p) && s[p] == ' ' && !IsSpace(s[p + 1])
    requires SentenceList(Pieces(s[p + 1..])) && JoinWith(Pieces(s[p + 1..]), " ") == s[p + 1..]
    ensures SentenceList(Pieces(s)) && JoinWith(Pieces(s), " ") == s
  {
    var rest := s[p + 1..];
    PiecesAtBreak(s, p);
    PieceBeforeBreak(s, p);
    SentenceListCons(s[..p], Pieces(rest));
    JoinAppend([s[..p]], Pieces(rest), " ");
    SplitAtSpace(s, p);
  }

  lemma SentenceListCons(x: string, ss: seq<string>)
    requires SentenceLike(x) && IsTerminator(x[|x| - 1]) && SentenceList(ss)
    ensures SentenceList([x] + ss)
  {
    var r := [x] + ss;
    forall i | 0 <= i < |r| ensures SentenceLike(r[i]) {
      if i > 0 {
        assert r[i] == ss[i - 1];
      }
    }
    forall i | 0 <= i < |r| - 1 ensures IsTerminator(r[i][|r[i]| - 1]) {
      if i > 0 {
        assert r[i] == ss[i - 1];
      }
    }
  }

  lemma {:induction false} StripAllStripped(ps: seq<string>)
    requires forall i :: 0 <= i < |ps| ==> ps[i] != [] && Stripped(ps[i])
    ensures StripAll(ps) == ps
  {
    if ps != [] {
      StripStripped(ps[0]);
      StripAllStripped(ps[1..]);
    }
  }

  lemma StripAllEmpty()
    ensures StripAll([[]]) == []
  {
    var e: string := [];
    assert Strip(e) == [];
    assert [e][1..] == [];
  }

  /** The sentences of a text are the pieces of its collapsed form. */
  lemma SentencesArePieces(text: string)
    ensures Collapsed(Collapse(text))
    ensures Collapse(text) == [] <==> AllIn(text, Whitespace)
    ensures Collapse(text) == [] ==> Sentences(text) == []
    ensures Collapse(text) != [] ==> Sentences(text) == Pieces(Collapse(text))
  {
    var c := Collapse(text);
    CollapseCollapsed(text);
    if c != [] {
      PiecesOfCollapsed(c);
      StripAllStripped(Pieces(c));
    } else {
      assert Pieces(c) == [c];
      StripAllEmpty();
    }
  }

  /** Every sentence is non-empty and stripped, its whitespace is single
      spaces, it holds no terminator followed by whitespace, and every
      sentence but the last ends with `.`, `!` or `?`. */
  lemma SentencesShape(text: string)
    ensures SentenceList(Sentences(text))
  {
    SentencesArePieces(text);
    PiecesList(Collapse(text), Sentences(text));
  }

  lemma PiecesList(c: string, ss: seq<string>)
    requires Collapsed(c)
    requires c == [] ==> ss == []
    requires c != [] ==> ss == Pieces(c)
    ensures SentenceList(ss)
  {
    if c != [] {
      PiecesOfCollapsed(c);
    }
  }

  /** Joining the sentences with single spaces gives back the text with its
      whitespace collapsed: nothing is lost, and a text has no sentence
      exactly when it is all whitespace. */
  lemma SentencesJoin(text: string)
    ensures JoinWith(Sentences(text), " ") == Collapse(text)
    ensures Sentences(text) == [] <==> AllIn(text, Whitespace)
  {
    SentencesArePieces(text);
    if Collapse(text) != [] {
      PiecesOfCollapsed(Collapse(text));
    }
  }

  /** The sentences hold the words of the text, in order. */
  lemma SentencesKeepWords(text: string)
    ensures Words(JoinWith(Sentences(text), " ")) == Words(text)
  {
    SentencesJoin(text);
    WordsOfCollapse(text);
  }

  // ---------------------------------------------------------------------
  // `_keyword_score`

  const StopWords: set<string> := {
    "the", "a", "an", "to", "of", "for", "and", "or", "in", "on", "with", "is",
    "are", "was", "were", "be", "been", "being", "this", "that", "from", "into",
    "by", "it", "as", "at", "if", "then", "than", "when", "which", "who", "whom",
    "whose", "why", "how"
  }

  /** `[w.lower() for w in re.findall(r"[A-Za-z']+", sent)]` */
  function Tokens(sent: string): (ws: seq<string>)
    ensures |ws| == |Runs(sent, WordChar)|
    ensures forall i :: 0 <= i < |ws| ==> ws[i] == Lower(Runs(sent, WordChar)[i])
  {
    var rs := Runs(sent, WordChar);
    seq(|rs|, i requires 0 <= i < |rs| => Lower(rs[i]))
  }

  /** `[w for w in words if w not in stop and len(w) > 3]` */
  function ContentWords(ws: seq<string>): (cs: seq<string>)
    ensures |cs| <= |ws|
    ensures forall i :: 0 <= i < |cs| ==> cs[i] !in StopWords && |cs[i]| > 3
    ensures forall i :: 0 <= i < |ws| && ws[i] !in StopWords && |ws[i]| > 3 ==> ws[i] in cs
  {
    if ws == [] then []
    else if ws[0] !in StopWords && |ws[0]| > 3 then [ws[0]] + ContentWords(ws[1..])
    else ContentWords(ws[1..])
  }

  /** The filter works word by word: on two lists one after the other it
      gives their content words one after the other. With
      `ContentWordsOne` this fixes the result completely: every word that
      qualifies is kept, in its place, and no other. */
  lemma {:induction false} ContentWordsAppend(a: seq<string>, b: seq<string>)
    ensures ContentWords(a + b) == ContentWords(a) + ContentWords(b)
    decreases |a|
  {
    if a != [] {
      var w := a[0];
      assert (a + b)[0] == w;
      assert (a + b)[1..] == a[1..] + b;
      ContentWordsAppend(a[1..], b);
      if w !in StopWords && |w| > 3 {
        ConsAssoc(w, ContentWords(a[1..]), ContentWords(b));
      }
    } else {
      assert a + b == b;
    }
  }

  /** A single word is kept exactly when it is no stop word and is longer
      than three characters. */
  lemma ContentWordsOne(w: string)
    ensures ContentWords([w]) == if w !in StopWords && |w| > 3 then [w] else []
  {
    assert [w][1..] == [];
  }

  /** Filtering twice is filtering once. */
  lemma {:induction false} ContentWordsIdempotent(ws: seq<string>)
    ensures ContentWords(ContentWords(ws)) == ContentWords(ws)
    decreases |ws|
  {
    if ws != [] {
      ContentWordsIdempotent(ws[1..]);
      if ws[0] !in StopWords && |ws[0]| > 3 {
        assert ([ws[0]] + ContentWords(ws[1..]))[1..] == ContentWords(ws[1..]);
      }
    }
  }

  function ContentCount(sent: string): nat {
    |ContentWords(Tokens(sent))|
  }

  /** `min(len(sent) / 120, 1.0)` */
  function LengthBonus(sent: string): (b: real)
    ensures 0.0 <= b <= 1.0
  {
    var x := |sent| as real / 120.0;
    if 1.0 < x then 1.0 else x
  }

  /** `0.65 * len(content) + 0.35 * min(len(sent) / 120, 1.0)` */
  function KeywordScore(sent: string): (score: real)
    ensures 0.65 * ContentCount(sent) as real <= score <= 0.65 * ContentCount(sent) as real + 0.35
  {
    0.65 * ContentCount(sent) as real + 0.35 * LengthBonus(sent)
  }

  /** One more content word outweighs any length bonus. */
  lemma ContentDominates(a: string, b: string)
    requires ContentCount(a) > ContentCount(b)
    ensures KeywordScore(a) > KeywordScore(b)
  {
  }

  /** With equal content, a longer sentence never scores lower, up to 120
      characters, beyond which length no longer matters. */
  lemma LengthBonusMonotone(a: string, b: string)
    requires ContentCount(a) == ContentCount(b) && |a| <= |b|
    ensures KeywordScore(a) <= KeywordScore(b)
    ensures |a| >= 120 ==> KeywordScore(a) == KeywordScore(b)
  {
    DivMono(|a| as real, |b| as real, 120.0);
  }

  // ---------------------------------------------------------------------
  // `summarize_core`

  /** One entry `(i, _keyword_score(s), s)` of `scored`. */
  datatype Candidate = Candidate(idx: nat, score: real, text: string)

  /** `[(i, _keyword_score(s), s) for i, s in enumerate(sents)]` */
  function Scored(sents: seq<string>): (cs: seq<Candidate>)
    ensures |cs| == |sents|
  {
    seq(|sents|, i requires 0 <= i < |sents| => Candidate(i, KeywordScore(sents[i]), sents[i]))
  }

  /** `scored.sort(key=lambda x: x[1], reverse=True)` keeps equal scores in
      their original order, so it is the stable ascending sort on the
      negated score. */
  function NegScore(c: Candidate): real {
    -c.score
  }

  function Idx(c: Candidate): int {
    c.idx
  }

  function Ranked(sents: seq<string>): seq<Candidate> {
    SortBy(Scored(sents), NegScore)
  }

  /** Scores never increase along the sequence. */
  predicate Descending(cs: seq<Candidate>) {
    forall i, j :: 0 <= i < j < |cs| ==> cs[i].score >= cs[j].score
  }

  /** The ranking puts the best score first and, among equal scores, the
      earlier sentence first. */
  lemma RankedOrder(sents: seq<string>)
    ensures Descending(Ranked(sents))
    ensures forall i, j :: 0 <= i < j < |Ranked(sents)| && Ranked(sents)[i].score == Ranked(sents)[j].score ==>
        Ranked(sents)[i].idx < Ranked(sents)[j].idx
  {
    SortByCorrect(Scored(sents), NegScore);
    SortByStable(Scored(sents), NegScore, Idx);
  }

  /** The ranking holds every sentence exactly once, with its own index
      and score. */
  lemma RankedEntries(sents: seq<string>)
    ensures multiset(Ranked(sents)) == multiset(Scored(sents))
    ensures |Ranked(sents)| == |sents|
    ensures forall c :: c in Ranked(sents) ==>
        c.idx < |sents| && c.text == sents[c.idx] && c.score == KeywordScore(c.text)
    ensures forall i :: 0 <= i < |sents| ==> Scored(sents)[i] in Ranked(sents)
  {
    var sc := Scored(sents);
    var r := Ranked(sents);
    SortByCorrect(sc, NegScore);
    assert |r| == |multiset(r)| == |multiset(sc)| == |sc|;
    forall c | c in r ensures c.idx < |sents| && c.text == sents[c.idx] && c.score == KeywordScore(c.text) {
      assert c in multiset(sc);
    }
    forall i | 0 <= i < |sents| ensures sc[i] in r {
      assert sc[i] in multiset(r);
    }
  }

  /** The indices in `used` after picking `cs`. */
  function Indices(cs: seq<Candidate>): set<nat> {
    set c | c in cs :: c.idx
  }

  /** The texts appended to `picked`. */
  function Texts(cs: seq<Candidate>): (ts: seq<string>)
    ensures |ts| == |cs|
  {
    seq(|cs|, i requires 0 <= i < |cs| => cs[i].text)
  }

  lemma PickStep(acc: seq<Candidate>, c: Candidate)
    ensures Texts(acc + [c]) == Texts(acc) + [c.text]
    ensures Indices(acc + [c]) == Indices(acc) + {c.idx}
  {
    assert forall x :: x in acc + [c] <==> x in acc || x == c;
  }

  /** `any(abs(idx - j) <= 1 for j in used)` */
  predicate Near(idx: int, used: set<nat>) {
    exists j :: j in used && -1 <= idx - j <= 1
  }

  /** The selection loop over `ranked[k..]`, having picked `acc` so far:
      a candidate next to a picked sentence is skipped, any other is
      picked, and the loop stops once `max_points` are picked. */
  function PickFrom(ranked: seq<Candidate>, k: nat, maxPoints: int, acc: seq<Candidate>): seq<Candidate>
    requires k <= |ranked|
    decreases |ranked| - k
  {
    if k == |ranked| then acc
    else if Near(ranked[k].idx, Indices(acc)) then PickFrom(ranked, k + 1, maxPoints, acc)
    else if |acc| + 1 >= maxPoints then acc + [ranked[k]]
    else PickFrom(ranked, k + 1, maxPoints, acc + [ranked[k]])
  }

  /** The candidates `summarize_core` picks, in the order it picks them. */
  function Picks(sents: seq<string>, maxPoints: int): seq<Candidate> {
    PickFrom(Ranked(sents), 0, maxPoints, [])
  }

  /** `sents.index(s)`, or `|sents|` when `s` is absent. */
  function IndexOf(sents: seq<string>, s: string): (k: nat)
    ensures k <= |sents|
    ensures k < |sents| ==> sents[k] == s
    ensures forall j :: 0 <= j < k ==> sents[j] != s
  {
    if sents == [] || sents[0] == s then 0 else 1 + IndexOf(sents[1..], s)
  }

  /** The key of `picked.sort(key=lambda s: sents.index(s))`. */
  function DocOrder(sents: seq<string>): string -> real {
    s => IndexOf(sents, s) as real
  }

  /** The result of `summarize_core` on the sentences `sents`. */
  function SummaryOf(sents: seq<string>, maxPoints: int): seq<string> {
    SortBy(Texts(Picks(sents, maxPoints)), DocOrder(sents))
  }

  /** What `summarize_core(text, max_points)` returns. */
  function Summary(text: string, maxPoints: int): seq<string> {
    SummaryOf(Sentences(text), maxPoints)
  }

  /** `summarize_core`: the ranking, the selection loop with its `continue`
      and `break`, and the final sort into document order. */
  method SummarizeCore(text: string, maxPoints: int) returns (points: seq<string>)
    ensures points == Summary(text, maxPoints)
  {
    var sents := Sentences(text);
    if sents == [] {
      assert Ranked(sents) == [];
      assert Texts(Picks(sents, maxPoints)) == [];
      return [];
    }
    var ranked := SortBy(Scored(sents), NegScore);
    var picked: seq<string> := [];
    var used: set<nat> := {};
    ghost var acc: seq<Candidate> := [];
    var k := 0;
    while k < |ranked|
      invariant k <= |ranked|
      invariant picked == Texts(acc) && used == Indices(acc)
      invariant PickFrom(ranked, k, maxPoints, acc) == PickFrom(ranked, 0, maxPoints, [])
    {
      var c := ranked[k];
      if Near(c.idx, used) {
        k := k + 1;
        continue;
      }
      PickStep(acc, c);
      picked := picked + [c.text];
      used := used + {c.idx};
      acc := acc + [c];
      if |picked| >= maxPoints {
        break;
      }
      k := k + 1;
    }
    assert acc == Picks(sents, maxPoints);
    assert picked == Texts(Picks(sents, maxPoints));
    points := SortBy(picked, DocOrder(sents));
  }

  // ---------------------------------------------------------------------
  // What the selection loop promises

  /** At most `max(1, max_points)` candidates are picked: the check comes
      after an append, so even `max_points <= 0` picks one. */
  function Cap(maxPoints: int): nat {
    if maxPoints < 1 then 1 else maxPoints
  }

  /** Picked indices are at least two apart. */
  predicate Spaced(cs: seq<Candidate>) {
    forall i, j :: 0 <= i < j < |cs| ==> cs[i].idx + 1 < cs[j].idx || cs[j].idx + 1 < cs[i].idx
  }

  /** The loop only appends: `acc` stays a prefix, and everything picked
      comes from the candidates still to visit. */
  lemma {:induction false} PickFromExtends(ranked: seq<Candidate>, k: nat, maxPoints: int, acc: seq<Candidate>)
    requires k <= |ranked|
    ensures var r := PickFrom(ranked, k, maxPoints, acc);
      && |acc| <= |r| <= |acc| + (|ranked| - k)
      && r[..|acc|] == acc
      && (forall c :: c in r ==> c in acc || c in ranked[k..])
    decreases |ranked| - k
  {
    if k < |ranked| {
      var x := ranked[k];
      var next := if Near(x.idx, Indices(acc)) then acc else acc + [x];
      if Near(x.idx, Indices(acc)) || |acc| + 1 < maxPoints {
        PickFromExtends(ranked, k + 1, maxPoints, next);
        var r := PickFrom(ranked, k, maxPoints, acc);
        assert r[..|next|][..|acc|] == r[..|acc|];
        assert next[..|acc|] == acc;
        forall c | c in r ensures c in acc || c in ranked[k..] {
          if c in ranked[k + 1..] {
            var m :| 0 <= m < |ranked[k + 1..]| && ranked[k + 1..][m] == c;
            assert ranked[k..][m + 1] == c;
          } else if c == x {
            assert ranked[k..][0] == c;
          }
        }
      } else {
        assert (acc + [x])[..|acc|] == acc;
        assert ranked[k..][0] == x;
      }
    }
  }

  lemma IndicesPrefix(a: seq<Candidate>, r: seq<Candidate>)
    requires |a| <= |r| && r[..|a|] == a
    ensures Indices(a) <= Indices(r)
  {
    forall j | j in Indices(a) ensures j in Indices(r) {
      var c :| c in a && c.idx == j;
      var t :| 0 <= t < |a| && a[t] == c;
      assert r[t] == c;
    }
  }

  /** Started below the cap, the loop never picks more than the cap. */
  lemma {:induction false} PickFromBound(ranked: seq<Candidate>, k: nat, maxPoints: int, acc: seq<Candidate>)
    requires k <= |ranked|
    requires acc == [] || |acc| < maxPoints
    ensures |PickFrom(ranked, k, maxPoints, acc)| <= Cap(maxPoints)
    decreases |ranked| - k
  {
    if k < |ranked| {
      var x := ranked[k];
      if Near(x.idx, Indices(acc)) {
        PickFromBound(ranked, k + 1, maxPoints, acc);
      } else if |acc| + 1 < maxPoints {
        PickFromBound(ranked, k + 1, maxPoints, acc + [x]);
      }
    }
  }

  /** A candidate next to a picked one is never picked, so the picked
      sentences are pairwise at least two apart. */
  lemma {:induction false} PickFromSpaced(ranked: seq<Candidate>, k: nat, maxPoints: int, acc: seq<Candidate>)
    requires k <= |ranked| && Spaced(acc)
    ensures Spaced(PickFrom(ranked, k, maxPoints, acc))
    decreases |ranked| - k
  {
    if k < |ranked| {
      var x := ranked[k];
      if !Near(x.idx, Indices(acc)) {
        var next := acc + [x];
        forall i, j | 0 <= i < j < |next|
          ensures next[i].idx + 1 < next[j].idx || next[j].idx + 1 < next[i].idx
        {
          if j == |acc| {
            assert next[i].idx in Indices(acc);
          }
        }
        if |acc| + 1 < maxPoints {
          PickFromSpaced(ranked, k + 1, maxPoints, next);
        }
      } else {
        PickFromSpaced(ranked, k + 1, maxPoints, acc);
      }
    }
  }

  /** Every candidate the loop visits ends up picked or next to a picked
      one, unless the loop stopped at `max_points`. */
  lemma {:induction false} PickFromMaximal(ranked: seq<Candidate>, k: nat, maxPoints: int, acc: seq<Candidate>)
    requires k <= |ranked|
    ensures var r := PickFrom(ranked, k, maxPoints, acc);
      forall m :: k <= m < |ranked| ==> Near(ranked[m].idx, Indices(r)) || |r| >= maxPoints
    decreases |ranked| - k
  {
    var r := PickFrom(ranked, k, maxPoints, acc);
    if k < |ranked| {
      var x := ranked[k];
      if Near(x.idx, Indices(acc)) {
        PickFromMaximal(ranked, k + 1, maxPoints, acc);
        PickFromExtends(ranked, k + 1, maxPoints, acc);
        IndicesPrefix(acc, r);
        var j :| j in Indices(acc) && -1 <= x.idx - j <= 1;
        assert j in Indices(r);
      } else if |acc| + 1 < maxPoints {
        var next := acc + [x];
        PickFromMaximal(ranked, k + 1, maxPoints, next);
        PickFromExtends(ranked, k + 1, maxPoints, next);
        assert r[|acc|] == next[|acc|] == x;
        assert x.idx in Indices(r);
      }
    }
  }

  /** Since the ranking is best-first, the picks come in non-increasing
      score. */
  lemma {:induction false} PickFromDescending(ranked: seq<Candidate>, k: nat, maxPoints: int, acc: seq<Candidate>)
    requires k <= |ranked| && Descending(ranked) && Descending(acc)
    requires forall i, m :: 0 <= i < |acc| && k <= m < |ranked| ==> acc[i].score >= ranked[m].score
    ensures Descending(PickFrom(ranked, k, maxPoints, acc))
    decreases |ranked| - k
  {
    if k < |ranked| {
      var x := ranked[k];
      if Near(x.idx, Indices(acc)) {
        PickFromDescending(ranked, k + 1, maxPoints, acc);
      } else {
        var next := acc + [x];
        assert Descending(next);
        if |acc| + 1 < maxPoints {
          PickFromDescending(ranked, k + 1, maxPoints, next);
        }
      }
    }
  }

  // ---------------------------------------------------------------------
  // What `summarize_core` promises

  /** The first pick is the best-scoring sentence, the earliest one among
      equal best scores. */
  lemma PicksFirstBest(sents: seq<string>, maxPoints: int)
    requires sents != []
    ensures var p := Picks(sents, maxPoints);
      && p != [] && p[0].idx < |sents|
      && (forall i :: 0 <= i < |sents| ==> KeywordScore(sents[i]) <= p[0].score)
      && (forall i :: 0 <= i < |sents| && KeywordScore(sents[i]) == p[0].score ==> p[0].idx <= i)
  {
    FirstPickIsFirstRanked(sents, maxPoints);
    RankedFirstBest(sents);
  }

  /** Nothing is near an empty `used`, so the first candidate is picked. */
  lemma FirstPickIsFirstRanked(sents: seq<string>, maxPoints: int)
    requires sents != []
    ensures |Ranked(sents)| == |sents|
    ensures Picks(sents, maxPoints) != [] && Picks(sents, maxPoints)[0] == Ranked(sents)[0]
  {
    RankedLength(sents);
    PickFromFirst(Ranked(sents), maxPoints);
  }

  lemma RankedLength(sents: seq<string>)
    ensures |Ranked(sents)| == |sents|
  {
    SortByPermutes(Scored(sents), NegScore);
    assert |Ranked(sents)| == |multiset(Ranked(sents))| == |multiset(Scored(sents))|;
  }

  lemma PickFromFirst(ranked: seq<Candidate>, maxPoints: int)
    requires ranked != []
    ensures PickFrom(ranked, 0, maxPoints, []) != [] && PickFrom(ranked, 0, maxPoints, [])[0] == ranked[0]
  {
    var e: seq<Candidate> := [];
    assert Indices(e) == {};
    assert e + [ranked[0]] == [ranked[0]];
    PickFromExtends(ranked, 1, maxPoints, [ranked[0]]);
    assert PickFrom(ranked, 0, maxPoints, [])[..1] == [ranked[0]];
  }

  /** The first ranked candidate has the best score, and the smallest
      index among the best. */
  lemma RankedFirstBest(sents: seq<string>)
    requires sents != []
    ensures |Ranked(sents)| == |sents|
    ensures Ranked(sents)[0].idx < |sents|
    ensures forall i :: 0 <= i < |sents| ==> KeywordScore(sents[i]) <= Ranked(sents)[0].score
    ensures forall i :: 0 <= i < |sents| && KeywordScore(sents[i]) == Ranked(sents)[0].score ==> Ranked(sents)[0].idx <= i
  {
    var r := Ranked(sents);
    RankedOrder(sents);
    RankedEntries(sents);
    assert r[0] in r;
    forall i | 0 <= i < |sents|
      ensures KeywordScore(sents[i]) <= r[0].score
      ensures KeywordScore(sents[i]) == r[0].score ==> r[0].idx <= i
    {
      var c := Scored(sents)[i];
      var m :| 0 <= m < |r| && r[m] == c;
    }
  }

  /** Every pick is a distinct sentence, picks are at least two sentences
      apart, at most `max(1, max_points)` are picked, and picks come in
      non-increasing score. */
  lemma PicksShape(sents: seq<string>, maxPoints: int)
    ensures var p := Picks(sents, maxPoints);
      && |p| <= Cap(maxPoints) && |p| <= |sents|
      && (forall c :: c in p ==> c.idx < |sents| && c.text == sents[c.idx])
      && Spaced(p)
      && Descending(p)
  {
    var r := Ranked(sents);
    var e: seq<Candidate> := [];
    RankedOrder(sents);
    RankedEntries(sents);
    PickFromExtends(r, 0, maxPoints, e);
    PickFromBound(r, 0, maxPoints, e);
    PickFromSpaced(r, 0, maxPoints, e);
    PickFromDescending(r, 0, maxPoints, e);
    assert r[0..] == r;
  }

  /** The selection is maximal: every sentence is picked or next to a
      picked one, unless `max_points` sentences were picked. */
  lemma PicksMaximal(sents: seq<string>, maxPoints: int)
    ensures var p := Picks(sents, maxPoints);
      forall i :: 0 <= i < |sents| ==> Near(i, Indices(p)) || |p| >= maxPoints
  {
    var r := Ranked(sents);
    RankedEntries(sents);
    PickFromMaximal(r, 0, maxPoints, []);
    forall i | 0 <= i < |sents| ensures Near(i, Indices(Picks(sents, maxPoints))) || |Picks(sents, maxPoints)| >= maxPoints {
      var m :| 0 <= m < |r| && r[m] == Scored(sents)[i];
    }
  }

  /** The result is the picked sentences, each once, put back in document
      order. */
  lemma SummaryOfOrder(sents: seq<string>, maxPoints: int)
    ensures multiset(SummaryOf(sents, maxPoints)) == multiset(Texts(Picks(sents, maxPoints)))
    ensures forall i, j :: 0 <= i < j < |SummaryOf(sents, maxPoints)| ==>
        IndexOf(sents, SummaryOf(sents, maxPoints)[i]) <= IndexOf(sents, SummaryOf(sents, maxPoints)[j])
    ensures forall s :: s in SummaryOf(sents, maxPoints) ==> s in sents
  {
    SortByPermutes(Texts(Picks(sents, maxPoints)), DocOrder(sents));
    SummaryInDocOrder(sents, maxPoints);
    SummaryFromSentences(sents, maxPoints);
  }

  lemma SummaryInDocOrder(sents: seq<string>, maxPoints: int)
    ensures forall i, j :: 0 <= i < j < |SummaryOf(sents, maxPoints)| ==>
        IndexOf(sents, SummaryOf(sents, maxPoints)[i]) <= IndexOf(sents, SummaryOf(sents, maxPoints)[j])
  {
    var out := SummaryOf(sents, maxPoints);
    SortBySorted(Texts(Picks(sents, maxPoints)), DocOrder(sents));
    forall i, j | 0 <= i < j < |out| ensures IndexOf(sents, out[i]) <= IndexOf(sents, out[j]) {
      assert DocOrder(sents)(out[i]) <= DocOrder(sents)(out[j]);
    }
  }

  lemma SummaryFromSentences(sents: seq<string>, maxPoints: int)
    ensures forall s :: s in SummaryOf(sents, maxPoints) ==> s in sents
  {
    var p := Picks(sents, maxPoints);
    var t := Texts(p);
    var out := SummaryOf(sents, maxPoints);
    SortByPermutes(t, DocOrder(sents));
    PicksShape(sents, maxPoints);
    forall s | s in out ensures s in sents {
      assert s in multiset(t);
      var i :| 0 <= i < |t| && t[i] == s;
      assert p[i] in p;
    }
  }

  /** A text has key points exactly when it is not all whitespace, and
      there are at most `max(1, max_points)` of them. */
  lemma SummaryCount(text: string, maxPoints: int)
    ensures Summary(text, maxPoints) == [] <==> AllIn(text, Whitespace)
    ensures |Summary(text, maxPoints)| <= Cap(maxPoints)
  {
    var sents := Sentences(text);
    SentencesJoin(text);
    SummaryOfCount(sents, maxPoints);
  }

  lemma SummaryOfCount(sents: seq<string>, maxPoints: int)
    ensures SummaryOf(sents, maxPoints) == [] <==> sents == []
    ensures |SummaryOf(sents, maxPoints)| <= Cap(maxPoints)
  {
    var t := Texts(Picks(sents, maxPoints));
    SortByCorrect(t, DocOrder(sents));
    assert |SummaryOf(sents, maxPoints)| == |multiset(t)| == |t|;
    PicksShape(sents, maxPoints);
    if sents != [] {
      PicksFirstBest(sents, maxPoints);
    } else {
      RankedEntries(sents);
    }
  }

  // ---------------------------------------------------------------------
  // `generate_examples`

  const Teacher := "Teacher"
  const Student := "Student"

  // The fixed wording of every example scene.
  const ConceptPrefix := "Concept "
  const KeyIdeaPrefix := "Key idea "
  const KeyIdeaSep := ": "
  const ExamplePrefix := "Real-life example: "
  const CafeOpening := "Imagine you run a small caf\U{00E9}. "
  const CafeClosing := " affects how you decide prices, stock ingredients, and serve customers efficiently."
  const StudentAsks := "So if demand spikes later, we adjust prep and pricing?"
  const TeacherAnswers := "Exactly. We align supply with expected demand to reduce waste."
  const StudentChecks := "And we track waste to optimize inventory, right?"
  const TeacherConcludes := "Perfect summary! That\U{2019}s the practical impact of this concept."

  /** The scene built for key point number `k` (counting from 1). */
  function ExampleScene(k: nat, concept: string): Scene {
    var example := CafeOpening + concept + CafeClosing;
    Scene(ConceptPrefix + Decimal(k), concept, [
      Line(Teacher, KeyIdeaPrefix + Decimal(k) + KeyIdeaSep + concept),
      Line(Teacher, ExamplePrefix + example),
      Line(Student, StudentAsks),
      Line(Teacher, TeacherAnswers),
      Line(Student, StudentChecks),
      Line(Teacher, TeacherConcludes)
    ])
  }

  /** What `generate_examples(points)` returns. */
  function Examples(points: seq<string>): (scenes: seq<Scene>)
    ensures |scenes| == |points|
  {
    seq(|points|, i requires 0 <= i < |points| => ExampleScene(i + 1, points[i]))
  }

  /** `for k, p in enumerate(points, 1): scenes.append(...)` */
  method GenerateExamples(points: seq<string>) returns (scenes: seq<Scene>)
    ensures scenes == Examples(points)
  {
    scenes := [];
    for k := 1 to |points| + 1
      invariant |scenes| == k - 1
      invariant forall i :: 0 <= i < k - 1 ==> scenes[i] == ExampleScene(i + 1, points[i])
    {
      scenes := scenes + [ExampleScene(k, points[k - 1])];
    }
  }

  /** Scene titles are pairwise distinct. */
  lemma ExampleTitlesDistinct(points: seq<string>, i: nat, j: nat)
    requires i < j < |points|
    ensures Examples(points)[i].title != Examples(points)[j].title
  {
    var a := Examples(points)[i].title;
    var b := Examples(points)[j].title;
    if a == b {
      assert a[8..] == Decimal(i + 1) && b[8..] == Decimal(j + 1);
      DecimalRoundTrip(i + 1);
      DecimalRoundTrip(j + 1);
    }
  }

  /** Scene `i` is about point `i`: its key line is the point, its title
      carries the number `i + 1`, its first line ends with the point, and
      Teacher and Student speak in the fixed order T, T, S, T, S, T. */
  lemma ExampleShape(points: seq<string>, i: nat)
    requires i < |points|
    ensures var sc := Examples(points)[i];
      && sc.keyline == points[i]
      && |ConceptPrefix| <= |sc.title| && sc.title[..|ConceptPrefix|] == ConceptPrefix
      && (forall k :: |ConceptPrefix| <= k < |sc.title| ==> IsDigit(sc.title[k]))
      && DecimalValue(sc.title[|ConceptPrefix|..]) == i + 1
      && EndsWith(sc.dialogue[0].line, points[i])
      && |sc.dialogue| == 6
      && sc.dialogue[0].who == Teacher && sc.dialogue[1].who == Teacher
      && sc.dialogue[2].who == Student && sc.dialogue[3].who == Teacher
      && sc.dialogue[4].who == Student && sc.dialogue[5].who == Teacher
  {
    var sc := Examples(points)[i];
    assert sc.title[|ConceptPrefix|..] == Decimal(i + 1);
    DecimalRoundTrip(i + 1);
  }

  /** Every scene has six lines, so the script has six per key point. */
  lemma {:induction false} ExamplesLineCount(points: seq<string>)
    ensures LineCount(Examples(points)) == 6 * |points|
  {
    if points != [] {
      var n := |points| - 1;
      assert Examples(points)[..n] == Examples(points[..n]);
      ExamplesLineCount(points[..n]);
    }
  }

  // ---------------------------------------------------------------------
  // `build_script`

  const NoContent := "No content extracted from the source."

  /** The dict `{"points": ..., "scenes": ..., "narration_text": ...}`. */
  datatype Script = Script(points: seq<string>, scenes: seq<Scene>, narration: string)

  /** `build_script`: the key points, or a single fallback point, one
      scene per point, and the points joined by spaces as narration. */
  method BuildScript(rawText: string, maxPoints: int) returns (script: Script)
    ensures script.points == if AllIn(rawText, Whitespace) then [NoContent] else Summary(rawText, maxPoints)
    ensures 1 <= |script.points| <= Cap(maxPoints)
    ensures script.scenes == Examples(script.points)
    ensures LineCount(script.scenes) == 6 * |script.points|
    ensures script.narration == JoinWith(script.points, " ")
  {
    var points := SummarizeCore(rawText, maxPoints);
    SummaryCount(rawText, maxPoints);
    if points == [] {
      points := [NoContent];
    }
    var scenes := GenerateExamples(points);
    ExamplesLineCount(points);
    script := Script(points, scenes, JoinWith(points, " "));
  }
}
