/** Python string built-ins and the few regular-expression shapes the
    application uses, restricted to ASCII: whitespace is every ASCII
    character for which Python's `str.isspace()` holds. */
module Text {

  /** `str.isspace()` on ASCII: tab, newline, vertical tab, form feed,
      carriage return, the separators 0x1C-0x1F and the space. */
  predicate IsSpace(c: char) {
    c == ' ' || ('\t' <= c <= '\r') || ('\U{1C}' <= c <= '\U{1F}')
  }

  /** The character classes the application's regular expressions use. */
  datatype CharClass =
    | Whitespace    // `\s`
    | NonWhitespace // what `str.split()` keeps
    | SpaceOrTab    // `[ \t]`
    | NotSpaceOrTab // `[^ \t]`
    | WordChar      // `[A-Za-z']`
    | Significant   // neither whitespace nor NUL

  predicate In(cls: CharClass, c: char) {
    match cls
    case Whitespace => IsSpace(c)
    case NonWhitespace => !IsSpace(c)
    case SpaceOrTab => c == ' ' || c == '\t'
    case NotSpaceOrTab => c != ' ' && c != '\t'
    case WordChar => ('A' <= c <= 'Z') || ('a' <= c <= 'z') || c == '\''
    case Significant => !IsSpace(c) && c != '\0'
  }

  predicate AllIn(s: string, cls: CharClass) {
    forall i :: 0 <= i < |s| ==> In(cls, s[i])
  }

  // ---------------------------------------------------------------------
  // Concatenation and `sep.join(parts)`

  function Concat<T>(xss: seq<seq<T>>): seq<T> {
    if xss == [] then [] else xss[0] + Concat(xss[1..])
  }

  lemma {:induction false} ConcatAppend<T>(a: seq<seq<T>>, b: seq<seq<T>>)
    ensures Concat(a + b) == Concat(a) + Concat(b)
  {
    if a == [] {
      assert a + b == b;
    } else {
      assert (a + b)[1..] == a[1..] + b;
      ConcatAppend(a[1..], b);
    }
  }

  /** `sep.join(parts)` */
  function JoinWith(parts: seq<string>, sep: string): string {
    if |parts| == 0 then ""
    else if |parts| == 1 then parts[0]
    else parts[0] + sep + JoinWith(parts[1..], sep)
  }

  /** Joining two non-empty lists puts exactly one separator between them. */
  lemma {:induction false} JoinAppend(a: seq<string>, b: seq<string>, sep: string)
    requires a != [] && b != []
    ensures JoinWith(a + b, sep) == JoinWith(a, sep) + sep + JoinWith(b, sep)
  {
    if |a| == 1 {
      assert (a + b)[1..] == b;
    } else {
      assert (a + b)[1..] == a[1..] + b;
      JoinAppend(a[1..], b, sep);
    }
  }

  /** Joining the joins of non-empty groups is joining their concatenation. */
  lemma {:induction false} JoinConcat(groups: seq<seq<string>>, joined: seq<string>, sep: string)
    requires |joined| == |groups|
    requires forall i :: 0 <= i < |groups| ==> groups[i] != [] && joined[i] == JoinWith(groups[i], sep)
    ensures JoinWith(joined, sep) == JoinWith(Concat(groups), sep)
  {
    if |groups| == 0 {
    } else if |groups| == 1 {
      assert Concat(groups) == groups[0] + Concat(groups[1..]);
      assert groups[0] + [] == groups[0];
    } else {
      JoinConcat(groups[1..], joined[1..], sep);
      assert Concat(groups) == groups[0] + Concat(groups[1..]);
      ConcatNonEmpty(groups[1..]);
      JoinAppend(groups[0], Concat(groups[1..]), sep);
    }
  }

  lemma {:induction false} ConcatNonEmpty<T>(xss: seq<seq<T>>)
    requires xss != [] && xss[0] != []
    ensures Concat(xss) != [] && Concat(xss)[0] == xss[0][0]
  {
  }

  // ---------------------------------------------------------------------
  // Maximal runs of one character class: `str.split()`, `re.findall`,
  // `re.sub`

  /** Length of the longest prefix of `s` whose characters are all in `cls`. */
  function SpanEnd(s: string, cls: CharClass): (n: nat)
    ensures n <= |s|
    ensures forall i :: 0 <= i < n ==> In(cls, s[i])
    ensures n < |s| ==> !In(cls, s[n])
  {
    if s == [] || !In(cls, s[0]) then 0 else 1 + SpanEnd(s[1..], cls)
  }

  /** `SpanEnd` is the only length with its two properties. */
  lemma SpanEndExact(s: string, n: nat, cls: CharClass)
    requires n <= |s|
    requires forall k :: 0 <= k < n ==> In(cls, s[k])
    requires n < |s| ==> !In(cls, s[n])
    ensures SpanEnd(s, cls) == n
  {
  }

  /** The maximal runs of `cls` characters, in order: `re.findall("[cls]+", s)`. */
  function Runs(s: string, cls: CharClass): (rs: seq<string>)
    ensures forall i :: 0 <= i < |rs| ==> rs[i] != [] && AllIn(rs[i], cls)
    decreases |s|
  {
    if s == [] then []
    else if !In(cls, s[0]) then Runs(s[1..], cls)
    else
      var n := SpanEnd(s, cls);
      [s[..n]] + Runs(s[n..], cls)
  }

  /** The characters of `s` that are in `cls`, in order. */
  function Select(s: string, cls: CharClass): string {
    if s == [] then []
    else (if In(cls, s[0]) then [s[0]] else []) + Select(s[1..], cls)
  }

  lemma {:induction false} SelectAppend(a: string, b: string, cls: CharClass)
    ensures Select(a + b, cls) == Select(a, cls) + Select(b, cls)
  {
    if a == [] {
      assert a + b == b;
    } else {
      var ab := a + b;
      assert ab[0] == a[0];
      assert ab[1..] == a[1..] + b;
      SelectAppend(a[1..], b, cls);
      var h: string := if In(cls, a[0]) then [a[0]] else [];
      calc {
        Select(ab, cls);
        h + Select(a[1..] + b, cls);
        h + (Select(a[1..], cls) + Select(b, cls));
        (h + Select(a[1..], cls)) + Select(b, cls);
      }
    }
  }

  /** Selecting from a string split in two. */
  lemma SelectSplit(s: string, k: nat, cls: CharClass)
    requires k <= |s|
    ensures Select(s, cls) == Select(s[..k], cls) + Select(s[k..], cls)
  {
    assert s == s[..k] + s[k..];
    SelectAppend(s[..k], s[k..], cls);
  }

  lemma {:induction false} SelectAll(s: string, cls: CharClass)
    requires AllIn(s, cls)
    ensures Select(s, cls) == s
  {
    if s != [] {
      SelectAll(s[1..], cls);
    }
  }

  lemma {:induction false} SelectNone(s: string, cls: CharClass)
    requires forall i :: 0 <= i < |s| ==> !In(cls, s[i])
    ensures Select(s, cls) == []
  {
    if s != [] {
      SelectNone(s[1..], cls);
    }
  }

  /** `Runs` loses no character of the class and invents none. */
  lemma {:induction false} RunsKeepClass(s: string, cls: CharClass)
    ensures Concat(Runs(s, cls)) == Select(s, cls)
    decreases |s|
  {
    if s == [] {
    } else if !In(cls, s[0]) {
      RunsKeepClass(s[1..], cls);
    } else {
      RunsKeepClass(s[SpanEnd(s, cls)..], cls);
      RunKeepsClass(s, cls);
    }
  }

  /** The step of `RunsKeepClass` at a run of the class. */
  lemma RunKeepsClass(s: string, cls: CharClass)
    requires s != [] && In(cls, s[0])
    requires Concat(Runs(s[SpanEnd(s, cls)..], cls)) == Select(s[SpanEnd(s, cls)..], cls)
    ensures Concat(Runs(s, cls)) == Select(s, cls)
  {
    var n := SpanEnd(s, cls);
    SelectSplit(s, n, cls);
    SelectAll(s[..n], cls);
    ConcatCons(s[..n], Runs(s[n..], cls));
  }

  lemma ConcatCons<T>(x: seq<T>, xs: seq<seq<T>>)
    ensures Concat([x] + xs) == x + Concat(xs)
  {
    assert ([x] + xs)[1..] == xs;
  }

  /** `Runs` read one character at a time, as the regular-expression
      scanner reads: a character outside the class is skipped, and a class
      character either starts a run of its own or opens the run that
      begins right after it. */
  lemma RunsCons(c: char, t: string, cls: CharClass)
    ensures !In(cls, c) ==> Runs([c] + t, cls) == Runs(t, cls)
    ensures In(cls, c) && (t == [] || !In(cls, t[0])) ==> Runs([c] + t, cls) == [[c]] + Runs(t, cls)
    ensures In(cls, c) && t != [] && In(cls, t[0]) ==>
      Runs(t, cls) != [] && Runs([c] + t, cls) == [[c] + Runs(t, cls)[0]] + Runs(t, cls)[1..]
  {
    if !In(cls, c) {
      RunsSkip(c, t, cls);
    } else if t == [] || !In(cls, t[0]) {
      RunsStart(c, t, cls);
    } else {
      RunsJoin(c, t, cls);
    }
  }

  lemma RunsSkip(c: char, t: string, cls: CharClass)
    requires !In(cls, c)
    ensures Runs([c] + t, cls) == Runs(t, cls)
  {
    assert ([c] + t)[1..] == t;
  }

  lemma RunsStart(c: char, t: string, cls: CharClass)
    requires In(cls, c) && (t == [] || !In(cls, t[0]))
    ensures Runs([c] + t, cls) == [[c]] + Runs(t, cls)
  {
    var s := [c] + t;
    SpanEndExact(s, 1, cls);
    assert s[..1] == [c] && s[1..] == t;
  }

  lemma RunsJoin(c: char, t: string, cls: CharClass)
    requires In(cls, c) && t != [] && In(cls, t[0])
    ensures Runs(t, cls) != [] && Runs([c] + t, cls) == [[c] + Runs(t, cls)[0]] + Runs(t, cls)[1..]
  {
    var s := [c] + t;
    assert s[1..] == t;
    var m := SpanEnd(t, cls);
    assert SpanEnd(s, cls) == m + 1;
    var tail := Runs(t[m..], cls);
    assert Runs(t, cls) == [t[..m]] + tail;
    assert s[..m + 1] == [c] + t[..m];
    assert s[m + 1..] == t[m..];
    assert Runs(s, cls) == [[c] + t[..m]] + tail;
    assert ([t[..m]] + tail)[1..] == tail;
  }

  /** A string made only of class characters is a single run. */
  lemma RunsWhole(s: string, cls: CharClass)
    requires s != [] && AllIn(s, cls)
    ensures Runs(s, cls) == [s]
  {
    SpanEndExact(s, |s|, cls);
    assert s[..|s|] == s;
    assert s[|s|..] == [];
  }

  /** A string without class characters has no run. */
  lemma {:induction false} RunsNone(s: string, cls: CharClass)
    requires forall i :: 0 <= i < |s| ==> !In(cls, s[i])
    ensures Runs(s, cls) == []
    decreases |s|
  {
    if s != [] {
      RunsNone(s[1..], cls);
    }
  }

  /** A character outside the class ends every run: the runs of
      `a + [c] + b` are those of `a` followed by those of `b`. With
      `RunsWhole` and `RunsNone` this says the runs are maximal, and it
      determines `Runs` completely. */
  lemma {:induction false} RunsSplit(a: string, c: char, b: string, cls: CharClass)
    requires !In(cls, c)
    ensures Runs(a + [c] + b, cls) == Runs(a, cls) + Runs(b, cls)
    decreases |a|
  {
    if a == [] {
      assert a + [c] + b == [c] + b;
      RunsSkip(c, b, cls);
    } else {
      var x, a' := a[0], a[1..];
      var rest := a' + [c] + b;
      assert a + [c] + b == [x] + rest;
      assert a == [x] + a';
      RunsSplit(a', c, b, cls);
      if a' == [] {
        assert rest == [c] + b;
      } else {
        assert rest[0] == a'[0];
      }
      RunsSplitStep(x, a', c, b, cls);
    }
  }

  /** The step of `RunsSplit` for one more leading character `x`. */
  lemma RunsSplitStep(x: char, a': string, c: char, b: string, cls: CharClass)
    requires !In(cls, c)
    requires Runs(a' + [c] + b, cls) == Runs(a', cls) + Runs(b, cls)
    ensures Runs([x] + (a' + [c] + b), cls) == Runs([x] + a', cls) + Runs(b, cls)
  {
    var rest := a' + [c] + b;
    assert rest != [] && rest[0] == if a' == [] then c else a'[0];
    if !In(cls, x) {
      RunsSkipSplit(x, a', rest, Runs(a', cls), Runs(b, cls), cls);
    } else if a' == [] || !In(cls, a'[0]) {
      RunsStartSplit(x, a', rest, Runs(a', cls), Runs(b, cls), cls);
    } else {
      RunsJoinSplit(x, a', rest, Runs(a', cls), Runs(b, cls), cls);
    }
  }

  lemma RunsSkipSplit(x: char, a': string, rest: string, ra: seq<string>, rb: seq<string>, cls: CharClass)
    requires !In(cls, x)
    requires ra == Runs(a', cls) && Runs(rest, cls) == ra + rb
    ensures Runs([x] + rest, cls) == Runs([x] + a', cls) + rb
  {
    RunsSkip(x, rest, cls);
    RunsSkip(x, a', cls);
  }

  lemma RunsStartSplit(x: char, a': string, rest: string, ra: seq<string>, rb: seq<string>, cls: CharClass)
    requires In(cls, x) && (a' == [] || !In(cls, a'[0]))
    requires rest != [] && !In(cls, rest[0])
    requires ra == Runs(a', cls) && Runs(rest, cls) == ra + rb
    ensures Runs([x] + rest, cls) == Runs([x] + a', cls) + rb
  {
    RunsStart(x, rest, cls);
    RunsStart(x, a', cls);
    ConsAssoc([x], ra, rb);
  }

  lemma ConsAssoc<T>(x: T, ra: seq<T>, rb: seq<T>)
    ensures [x] + (ra + rb) == ([x] + ra) + rb
  {
  }

  lemma RunsJoinSplit(x: char, a': string, rest: string, ra: seq<string>, rb: seq<string>, cls: CharClass)
    requires In(cls, x) && a' != [] && In(cls, a'[0])
    requires rest != [] && rest[0] == a'[0]
    requires ra == Runs(a', cls) && Runs(rest, cls) == ra + rb
    ensures Runs([x] + rest, cls) == Runs([x] + a', cls) + rb
  {
    RunsJoin(x, rest, cls);
    RunsJoin(x, a', cls);
    OpenFirst([x], ra, rb);
  }

  /** Prepending to the first of two concatenated lists. */
  lemma OpenFirst<T>(x: seq<T>, ra: seq<seq<T>>, rb: seq<seq<T>>)
    requires ra != []
    ensures [x + (ra + rb)[0]] + (ra + rb)[1..] == ([x + ra[0]] + ra[1..]) + rb
  {
    assert (ra + rb)[0] == ra[0];
    assert (ra + rb)[1..] == ra[1..] + rb;
  }

  /** There are no runs exactly when no character is in the class. */
  lemma RunsEmpty(s: string, cls: CharClass)
    ensures Runs(s, cls) == [] <==> forall i :: 0 <= i < |s| ==> !In(cls, s[i])
  {
    if exists i :: 0 <= i < |s| && In(cls, s[i]) {
      var i :| 0 <= i < |s| && In(cls, s[i]);
      SelectHas(s, i, cls);
      RunsKeepClass(s, cls);
    } else {
      RunsNone(s, cls);
    }
  }

  lemma {:induction false} SelectHas(s: string, i: nat, cls: CharClass)
    requires i < |s| && In(cls, s[i])
    ensures Select(s, cls) != []
  {
    if i > 0 {
      assert s[1..][i - 1] == s[i];
      SelectHas(s[1..], i - 1, cls);
    }
  }

  /** `str.split()` with no argument. */
  function Words(s: string): (ws: seq<string>)
    ensures forall i :: 0 <= i < |ws| ==> ws[i] != [] && AllIn(ws[i], NonWhitespace)
  {
    Runs(s, NonWhitespace)
  }

  /** `str.split()` gives no word exactly when the text is all whitespace. */
  lemma WordsEmpty(s: string)
    ensures Words(s) == [] <==> AllIn(s, Whitespace)
  {
    RunsEmpty(s, NonWhitespace);
  }

  /** No two neighbouring characters are both in `cls`. */
  predicate NoAdjacent(s: string, cls: CharClass) {
    forall i :: 0 <= i < |s| - 1 ==> !(In(cls, s[i]) && In(cls, s[i + 1]))
  }

  lemma NoAdjacentSlice(s: string, cls: CharClass, a: nat, b: nat)
    requires NoAdjacent(s, cls) && a <= b <= |s|
    ensures NoAdjacent(s[a..b], cls)
  {
    assert forall i :: 0 <= i < b - a ==> s[a..b][i] == s[a + i];
  }

  /** `re.sub("[cls]+", [rep], s)`: every maximal run of `cls` characters
      becomes the single character `rep`. */
  function ReplaceRuns(s: string, cls: CharClass, rep: char): (r: string)
    ensures |r| <= |s|
    ensures r == [] <==> s == []
    decreases |s|
  {
    if s == [] then []
    else if In(cls, s[0]) then
      var n := SpanEnd(s, cls);
      [rep] + ReplaceRuns(s[n..], cls, rep)
    else [s[0]] + ReplaceRuns(s[1..], cls, rep)
  }

  /** After `ReplaceRuns`, every class character is `rep` (when `rep` is in
      the class). */
  lemma {:induction false} ReplaceRunsOnlyRep(s: string, cls: CharClass, rep: char)
    requires In(cls, rep)
    ensures forall i :: 0 <= i < |ReplaceRuns(s, cls, rep)| && In(cls, ReplaceRuns(s, cls, rep)[i]) ==>
      ReplaceRuns(s, cls, rep)[i] == rep
    decreases |s|
  {
    if s != [] {
      var k := if In(cls, s[0]) then SpanEnd(s, cls) else 1;
      ReplaceRunsOnlyRep(s[k..], cls, rep);
      var t := ReplaceRuns(s[k..], cls, rep);
      var r := ReplaceRuns(s, cls, rep);
      var c := if In(cls, s[0]) then rep else s[0];
      assert r == [c] + t;
      forall i | 0 <= i < |r| && In(cls, r[i]) ensures r[i] == rep {
        if i > 0 {
          assert r[i] == t[i - 1];
        }
      }
    }
  }

  /** The last character of a non-empty string. */
  function Last(s: string): char
    requires s != []
  {
    s[|s| - 1]
  }

  /** The first character is a class character exactly when that of `s`
      is. */
  lemma ReplaceRunsFirst(s: string, cls: CharClass, rep: char)
    requires In(cls, rep)
    ensures var r := ReplaceRuns(s, cls, rep);
      r != [] ==> (In(cls, r[0]) <==> In(cls, s[0]))
  {
  }

  /** The last character is a class character exactly when that of `s`
      is. */
  lemma {:induction false} ReplaceRunsLast(s: string, cls: CharClass, rep: char)
    requires In(cls, rep)
    ensures s != [] ==> (In(cls, Last(ReplaceRuns(s, cls, rep))) <==> In(cls, s[|s| - 1]))
    decreases |s|
  {
    if s != [] {
      var k := RunStep(s, cls);
      var rest := s[k..];
      ReplaceRunsUnfold(s, cls, rep);
      if rest != [] {
        ReplaceRunsLast(rest, cls, rep);
        LastAppend([if In(cls, s[0]) then rep else s[0]], ReplaceRuns(rest, cls, rep));
        assert s[|s| - 1] == rest[|rest| - 1];
      } else if In(cls, s[0]) {
        assert s[|s| - 1] == s[k - 1];
      }
    }
  }

  /** How many characters one step of `ReplaceRuns` consumes. */
  function RunStep(s: string, cls: CharClass): (k: nat)
    requires s != []
    ensures 1 <= k <= |s|
    ensures In(cls, s[0]) ==> forall i :: 0 <= i < k ==> In(cls, s[i])
    ensures !In(cls, s[0]) ==> k == 1
  {
    if In(cls, s[0]) then SpanEnd(s, cls) else 1
  }

  lemma ReplaceRunsUnfold(s: string, cls: CharClass, rep: char)
    requires s != []
    ensures ReplaceRuns(s, cls, rep) == [if In(cls, s[0]) then rep else s[0]] + ReplaceRuns(s[RunStep(s, cls)..], cls, rep)
  {
  }

  lemma LastAppend(a: string, b: string)
    requires b != []
    ensures Last(a + b) == Last(b)
  {
  }

  /** After `ReplaceRuns`, no two class characters are adjacent. */
  lemma {:induction false} ReplaceRunsNoAdjacent(s: string, cls: CharClass, rep: char)
    requires In(cls, rep)
    ensures NoAdjacent(ReplaceRuns(s, cls, rep), cls)
    decreases |s|
  {
    if s != [] {
      var k := if In(cls, s[0]) then SpanEnd(s, cls) else 1;
      var rest := s[k..];
      ReplaceRunsNoAdjacent(rest, cls, rep);
      ReplaceRunsFirst(rest, cls, rep);
      var t := ReplaceRuns(rest, cls, rep);
      var r := ReplaceRuns(s, cls, rep);
      assert r == [r[0]] + t;
      forall i | 0 <= i < |r| - 1 ensures !(In(cls, r[i]) && In(cls, r[i + 1])) {
        if i > 0 {
          assert r[i] == t[i - 1] && r[i + 1] == t[i];
        } else if In(cls, s[0]) {
          assert !In(cls, rest[0]);
        }
      }
    }
  }

  /** The three facts above together. */
  lemma ReplaceRunsShape(s: string, cls: CharClass, rep: char)
    requires In(cls, rep)
    ensures var r := ReplaceRuns(s, cls, rep);
      && (forall i :: 0 <= i < |r| && In(cls, r[i]) ==> r[i] == rep)
      && NoAdjacent(r, cls)
      && (r != [] ==> (In(cls, r[0]) <==> In(cls, s[0])))
      && (r != [] ==> (In(cls, r[|r| - 1]) <==> In(cls, s[|s| - 1])))
  {
    ReplaceRunsOnlyRep(s, cls, rep);
    ReplaceRunsNoAdjacent(s, cls, rep);
    ReplaceRunsFirst(s, cls, rep);
    ReplaceRunsLast(s, cls, rep);
  }

  /** A leading run of class characters contributes nothing to a selection
      of a disjoint class. */
  lemma RunSelectsNothing(s: string, cls: CharClass, other: CharClass)
    requires forall c :: In(cls, c) ==> !In(other, c)
    ensures Select(s, other) == Select(s[SpanEnd(s, cls)..], other)
  {
    var n := SpanEnd(s, cls);
    var head, rest := s[..n], s[n..];
    assert s == head + rest;
    SelectAppend(head, rest, other);
    forall i | 0 <= i < |head| ensures !In(other, head[i]) {
      assert In(cls, head[i]);
    }
    SelectNone(head, other);
  }

  lemma SelectCons(c: char, t: string, cls: CharClass)
    ensures Select([c] + t, cls) == (if In(cls, c) then [c] else []) + Select(t, cls)
  {
    assert ([c] + t)[1..] == t;
  }

  /** `ReplaceRuns` changes class characters only: with `rep` in the class,
      the characters outside it survive in order. */
  lemma {:induction false} ReplaceRunsKeepsOthers(s: string, cls: CharClass, rep: char, other: CharClass)
    requires In(cls, rep)
    requires forall c :: In(cls, c) ==> !In(other, c)
    ensures Select(ReplaceRuns(s, cls, rep), other) == Select(s, other)
    decreases |s|
  {
    if s != [] {
      var k := RunStep(s, cls);
      var c := if In(cls, s[0]) then rep else s[0];
      ReplaceRunsKeepsOthers(s[k..], cls, rep, other);
      ReplaceRunsUnfold(s, cls, rep);
      SelectCons(c, ReplaceRuns(s[k..], cls, rep), other);
      if In(cls, s[0]) {
        RunSelectsNothing(s, cls, other);
      }
    }
  }

  /** `ReplaceRuns` keeps the runs of every class disjoint from the one it
      replaces. With the complement class (`NonWhitespace` for
      `Whitespace`, `NotSpaceOrTab` for `SpaceOrTab`) this says that the
      text between two replaced runs is unchanged and that no replaced run
      disappears, since two neighbouring runs of the complement would
      otherwise merge; with `ReplaceRunsShape` it says that each maximal
      run became exactly one `rep`. */
  lemma {:induction false} ReplaceRunsKeepsRuns(s: string, cls: CharClass, rep: char, other: CharClass)
    requires In(cls, rep)
    requires forall c :: In(cls, c) ==> !In(other, c)
    ensures Runs(ReplaceRuns(s, cls, rep), other) == Runs(s, other)
    decreases |s|
  {
    if s != [] {
      var t := s[1..];
      assert s == [s[0]] + t;
      ReplaceRunsKeepsRuns(t, cls, rep, other);
      if In(cls, s[0]) {
        RunsSkip(s[0], t, other);
        if t != [] && In(cls, t[0]) {
          ReplaceRunsGlue(s, cls, rep);
        } else {
          ReplaceRunsLone(s, cls, rep);
          RunsSkip(rep, ReplaceRuns(t, cls, rep), other);
        }
      } else {
        assert ReplaceRuns(s, cls, rep) == [s[0]] + ReplaceRuns(t, cls, rep);
        ReplaceRunsHead(t, cls, rep);
        RunsSameHead(s[0], ReplaceRuns(t, cls, rep), t, other);
      }
    }
  }

  /** The first character of the result: `rep` for a run, else kept. */
  lemma ReplaceRunsHead(t: string, cls: CharClass, rep: char)
    ensures ReplaceRuns(t, cls, rep) == [] <==> t == []
    ensures t != [] ==> ReplaceRuns(t, cls, rep)[0] == if In(cls, t[0]) then rep else t[0]
  {
  }

  /** A run of two or more class characters gives what its tail gives. */
  lemma ReplaceRunsGlue(s: string, cls: CharClass, rep: char)
    requires |s| > 1 && In(cls, s[0]) && In(cls, s[1])
    ensures ReplaceRuns(s, cls, rep) == ReplaceRuns(s[1..], cls, rep)
  {
    var n := SpanEnd(s[1..], cls);
    assert SpanEnd(s, cls) == n + 1;
    assert s[n + 1..] == s[1..][n..];
  }

  /** A class character with no class character after it becomes `rep`. */
  lemma ReplaceRunsLone(s: string, cls: CharClass, rep: char)
    requires s != [] && In(cls, s[0]) && (|s| == 1 || !In(cls, s[1]))
    ensures ReplaceRuns(s, cls, rep) == [rep] + ReplaceRuns(s[1..], cls, rep)
  {
    SpanEndExact(s, 1, cls);
  }

  /** Putting the same character in front of two strings with the same runs
      and the same kind of first character gives the same runs. */
  lemma RunsSameHead(c: char, u: string, v: string, cls: CharClass)
    requires Runs(u, cls) == Runs(v, cls)
    requires (u == [] || !In(cls, u[0])) <==> (v == [] || !In(cls, v[0]))
    ensures Runs([c] + u, cls) == Runs([c] + v, cls)
  {
    RunsCons(c, u, cls);
    RunsCons(c, v, cls);
  }

  // ---------------------------------------------------------------------
  // `str.strip()`

  /** The first index at or after `i` that is not whitespace, or `|s|`. */
  function SkipSpace(s: string, i: nat): (k: nat)
    requires i <= |s|
    ensures i <= k <= |s|
    decreases |s| - i
  {
    if i == |s| || !IsSpace(s[i]) then i else SkipSpace(s, i + 1)
  }

  lemma {:induction false} SkipSpaceSpec(s: string, i: nat)
    requires i <= |s|
    ensures forall j :: i <= j < SkipSpace(s, i) ==> IsSpace(s[j])
    ensures SkipSpace(s, i) < |s| ==> !IsSpace(s[SkipSpace(s, i)])
    decreases |s| - i
  {
    if i < |s| && IsSpace(s[i]) {
      SkipSpaceSpec(s, i + 1);
    }
  }

  /** One past the last index before `j` that is not whitespace, or 0. */
  function SkipSpaceBack(s: string, j: nat): (k: nat)
    requires j <= |s|
    ensures k <= j
  {
    if j == 0 || !IsSpace(s[j - 1]) then j else SkipSpaceBack(s, j - 1)
  }

  lemma {:induction false} SkipSpaceBackSpec(s: string, j: nat)
    requires j <= |s|
    ensures forall i :: SkipSpaceBack(s, j) <= i < j ==> IsSpace(s[i])
    ensures SkipSpaceBack(s, j) > 0 ==> !IsSpace(s[SkipSpaceBack(s, j) - 1])
  {
    if j > 0 && IsSpace(s[j - 1]) {
      SkipSpaceBackSpec(s, j - 1);
    }
  }

  /** Index of the first character `str.strip()` keeps. */
  function StripStart(s: string): nat {
    SkipSpace(s, 0)
  }

  /** `str.strip()`: the slice of `s` left after dropping leading and
      trailing whitespace. */
  function Strip(s: string): (r: string)
    ensures StripStart(s) + |r| <= |s|
  {
    var a := SkipSpace(s, 0);
    var b := SkipSpaceBack(s, |s|);
    if b <= a then [] else s[a..b]
  }

  /** `strip()` keeps a run of consecutive characters with no whitespace
      at either end, and drops only whitespace around it. */
  lemma StripSpec(s: string)
    ensures var r := Strip(s);
      r == [] || (!IsSpace(r[0]) && !IsSpace(r[|r| - 1]))
    ensures forall i :: 0 <= i < |Strip(s)| ==> Strip(s)[i] == s[StripStart(s) + i]
    ensures forall i :: 0 <= i < StripStart(s) ==> IsSpace(s[i])
    ensures forall i :: StripStart(s) + |Strip(s)| <= i < |s| ==> IsSpace(s[i])
  {
    SkipSpaceSpec(s, 0);
    SkipSpaceBackSpec(s, |s|);
  }

  /** The result of `strip()` as a slice of its input. */
  lemma StripSlice(s: string)
    ensures Strip(s) == s[StripStart(s)..StripStart(s) + |Strip(s)|]
  {
    StripSpec(s);
  }

  predicate Stripped(s: string) {
    s == [] || (!IsSpace(s[0]) && !IsSpace(s[|s| - 1]))
  }

  /** `strip()` leaves a string with no outer whitespace unchanged. */
  lemma StripStripped(s: string)
    requires Stripped(s)
    ensures Strip(s) == s
  {
    if s != [] {
      assert SkipSpace(s, 0) == 0;
      assert SkipSpaceBack(s, |s|) == |s|;
      assert s[0..|s|] == s;
    }
  }

  /** `strip()` gives the empty string exactly on all-whitespace input. */
  lemma StripEmpty(s: string)
    ensures Strip(s) == [] <==> AllIn(s, Whitespace)
  {
    var r := Strip(s);
    StripSpec(s);
    if r != [] {
      assert r[0] == s[StripStart(s)];
    }
  }

  /** `strip()` keeps the runs of any class of non-whitespace characters:
      it drops only whitespace, and only at the ends. */
  lemma StripKeepsRuns(s: string, cls: CharClass)
    requires forall c :: In(cls, c) ==> !IsSpace(c)
    ensures Runs(Strip(s), cls) == Runs(s, cls)
  {
    var p, q := StripParts(s);
    RunsDropBack(Strip(s), q, cls);
    RunsDropFront(p, Strip(s) + q, cls);
  }

  /** `s` is the result of `strip()` with whitespace on either side. */
  lemma StripParts(s: string) returns (p: string, q: string)
    ensures s == p + (Strip(s) + q)
    ensures AllIn(p, Whitespace) && AllIn(q, Whitespace)
  {
    var a := StripStart(s);
    var r := Strip(s);
    StripSpec(s);
    StripSlice(s);
    p, q := s[..a], s[a + |r|..];
    assert s == p + (r + q);
  }

  /** Characters outside the class in front of a string add no run. */
  lemma {:induction false} RunsDropFront(p: string, t: string, cls: CharClass)
    requires forall i :: 0 <= i < |p| ==> !In(cls, p[i])
    ensures Runs(p + t, cls) == Runs(t, cls)
    decreases |p|
  {
    if p != [] {
      assert p + t == [p[0]] + (p[1..] + t);
      RunsSkip(p[0], p[1..] + t, cls);
      RunsDropFront(p[1..], t, cls);
    } else {
      assert p + t == t;
    }
  }

  /** Characters outside the class after a string add no run. */
  lemma RunsDropBack(t: string, q: string, cls: CharClass)
    requires forall i :: 0 <= i < |q| ==> !In(cls, q[i])
    ensures Runs(t + q, cls) == Runs(t, cls)
  {
    if q != [] {
      assert t + q == t + [q[0]] + q[1..];
      RunsSplit(t, q[0], q[1..], cls);
      RunsNone(q[1..], cls);
    } else {
      assert t + q == t;
    }
  }

  // ---------------------------------------------------------------------
  // `str.lower()` and `str.endswith()` on ASCII

  function LowerChar(c: char): char {
    if 'A' <= c <= 'Z' then (c as int + 32) as char else c
  }

  function Lower(s: string): (r: string)
    ensures |r| == |s|
    ensures forall i :: 0 <= i < |s| ==> r[i] == LowerChar(s[i])
  {
    seq(|s|, i requires 0 <= i < |s| => LowerChar(s[i]))
  }

  predicate EndsWith(s: string, suffix: string) {
    |suffix| <= |s| && s[|s| - |suffix|..] == suffix
  }

  // ---------------------------------------------------------------------
  // Decimal rendering of a natural number, as an f-string `{k}` does

  function DigitChar(d: nat): char
    requires d < 10
  {
    ('0' as int + d) as char
  }

  predicate IsDigit(c: char) { '0' <= c <= '9' }

  function DigitValue(c: char): nat
    requires IsDigit(c)
  {
    c as int - '0' as int
  }

  function Decimal(n: nat): (r: string)
    ensures r != [] && forall i :: 0 <= i < |r| ==> IsDigit(r[i])
  {
    if n < 10 then [DigitChar(n)] else Decimal(n / 10) + [DigitChar(n % 10)]
  }

  function DecimalValue(s: string): nat
    requires forall i :: 0 <= i < |s| ==> IsDigit(s[i])
  {
    if s == [] then 0 else 10 * DecimalValue(s[..|s| - 1]) + DigitValue(s[|s| - 1])
  }

  /** Reading back the rendered digits gives the number; there is no
      leading zero unless the number is zero. */
  lemma {:induction false} DecimalRoundTrip(n: nat)
    ensures DecimalValue(Decimal(n)) == n
    ensures Decimal(n)[0] == '0' ==> n == 0
  {
    if n >= 10 {
      DecimalRoundTrip(n / 10);
      var r := Decimal(n);
      assert r[..|r| - 1] == Decimal(n / 10);
    }
  }
}
