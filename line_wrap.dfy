/** The `"lines"` mode of `splitText`: a greedy word wrap over the words of the text.
    Rendering is abstracted to a measure `width` (the hidden measuring element's
    `offsetWidth` once its text is set) and the container's width `limit`. */
module LineWrap {
  import opened JsStrings

  /** The rendered width of a piece of text. */
  type Measure = string -> nat

  /** The candidate text tested before adding `word`: `currentLineText ? currentLineText + " " + word : word`. */
  function Extend(text: string, word: string): string {
    if text != "" then text + " " + word else word
  }

  /** `currentLineText` as determined by the words of `currentLine`: each word is added with `Extend`. */
  function LineText(line: seq<string>): string {
    if line == [] then "" else Extend(LineText(line[..|line| - 1]), line[|line| - 1])
  }

  /** The line texts of a list of word groups, in order. */
  function Texts(gs: seq<seq<string>>): seq<string> {
    seq(|gs|, i requires 0 <= i < |gs| => LineText(gs[i]))
  }

  function Flatten(gs: seq<seq<string>>): seq<string> {
    if gs == [] then [] else gs[0] + Flatten(gs[1..])
  }

  /** The loop's state: the word groups of the lines already pushed, and `currentLine`. */
  datatype State = State(done: seq<seq<string>>, current: seq<string>)

  /** One turn of the loop: `word` either joins the current line, or starts a new one after
      the current line is closed; a line is closed only when it holds a word and the candidate
      is wider than the container. */
  function Step(st: State, word: string, width: Measure, limit: nat): (r: State)
    ensures r.done == st.done + [st.current] || (r.done == st.done && r.current == st.current + [word])
    ensures r.done != st.done <==> st.current != [] && width(Extend(LineText(st.current), word)) > limit
    ensures r.done != st.done ==> r.current == [word]
    ensures (forall i :: 0 <= i < |st.done| ==> st.done[i] != []) ==>
              forall i :: 0 <= i < |r.done| ==> r.done[i] != []
  {
    if width(Extend(LineText(st.current), word)) > limit && |st.current| > 0
    then State(st.done + [st.current], [word])
    else State(st.done, st.current + [word])
  }

  /** The state after the loop has seen `words`: no closed line is empty, `currentLine` is
      empty exactly when there are no words and otherwise ends with the last word, and there
      are never more closed lines and words in `currentLine` than words. */
  function Run(words: seq<string>, width: Measure, limit: nat): (r: State)
    ensures forall i :: 0 <= i < |r.done| ==> r.done[i] != []
    ensures r.current == [] <==> words == []
    ensures words != [] ==> r.current[|r.current| - 1] == words[|words| - 1]
    ensures |r.done| + |r.current| <= |words|
  {
    if words == [] then State([], [])
    else Step(Run(words[..|words| - 1], width, limit), words[|words| - 1], width, limit)
  }

  /** The lines pushed: those closed in the loop, then the current line if its text is non-empty.
      There are never more lines than words. */
  function Wrap(words: seq<string>, width: Measure, limit: nat): (r: seq<string>)
    ensures |r| <= |words|
    ensures words == [] ==> r == []
  {
    var st := Run(words, width, limit);
    var last := LineText(st.current);
    Texts(st.done) + (if last != "" then [last] else [])
  }

  /** All word groups of a state, the unfinished one included. */
  function Groups(st: State): seq<seq<string>> {
    if st.current == [] then st.done else st.done + [st.current]
  }

  // ---------------------------------------------------------------------------
  // Reference definition: a greedy grouping of the words into lines.

  predicate Covers(words: seq<string>, gs: seq<seq<string>>) {
    Flatten(gs) == words && forall i :: 0 <= i < |gs| ==> gs[i] != []
  }

  /** Every prefix of two or more words of a line passed the width test. */
  predicate PrefixesFit(gs: seq<seq<string>>, width: Measure, limit: nat) {
    forall i, k :: 0 <= i < |gs| && 2 <= k <= |gs[i]| ==> width(LineText(gs[i][..k])) <= limit
  }

  /** Each line was closed because its first following word did not fit. */
  predicate BreaksForced(gs: seq<seq<string>>, width: Measure, limit: nat)
    requires forall i :: 0 <= i < |gs| ==> gs[i] != []
  {
    forall i :: 0 <= i < |gs| - 1 ==> width(Extend(LineText(gs[i]), gs[i + 1][0])) > limit
  }

  predicate IsGreedy(words: seq<string>, gs: seq<seq<string>>, width: Measure, limit: nat) {
    Covers(words, gs) && PrefixesFit(gs, width, limit) && BreaksForced(gs, width, limit)
  }

  /** The texts of the groups, without a final group whose text is empty (the guarded flush). */
  function ShownTexts(gs: seq<seq<string>>): seq<string> {
    if gs != [] && LineText(gs[|gs| - 1]) == "" then Texts(gs[..|gs| - 1]) else Texts(gs)
  }

  lemma {:induction false} FlattenSnoc(gs: seq<seq<string>>, g: seq<string>)
    ensures Flatten(gs + [g]) == Flatten(gs) + g
  {
    if gs != [] {
      FlattenSnoc(gs[1..], g);
      assert (gs + [g])[1..] == gs[1..] + [g];
    } else {
      assert Flatten([g]) == g + Flatten([]);
    }
  }

  lemma LineTextSnoc(g: seq<string>, w: string)
    ensures LineText(g + [w]) == Extend(LineText(g), w)
  {
    assert (g + [w])[..|g|] == g;
  }

  /** Closing the last line and starting a new one with `w` keeps a grouping greedy. */
  lemma GreedyBreak(ws: seq<string>, gs: seq<seq<string>>, w: string, width: Measure, limit: nat)
    requires IsGreedy(ws, gs, width, limit) && gs != []
    requires width(Extend(LineText(gs[|gs| - 1]), w)) > limit
    ensures IsGreedy(ws + [w], gs + [[w]], width, limit)
  {
    FlattenSnoc(gs, [w]);
    var hs := gs + [[w]];
    forall i | 0 <= i < |hs| - 1 ensures width(Extend(LineText(hs[i]), hs[i + 1][0])) > limit {
      if i < |gs| - 1 { assert hs[i] == gs[i] && hs[i + 1] == gs[i + 1]; }
    }
    forall i, k | 0 <= i < |hs| && 2 <= k <= |hs[i]| ensures width(LineText(hs[i][..k])) <= limit {
      assert i < |gs| && hs[i] == gs[i];
    }
  }

  /** `gs` with `w` added to its last group. */
  function ExtendLast(gs: seq<seq<string>>, w: string): seq<seq<string>>
    requires gs != []
  {
    gs[..|gs| - 1] + [gs[|gs| - 1] + [w]]
  }

  lemma ExtendLastCovers(ws: seq<string>, gs: seq<seq<string>>, w: string)
    requires Covers(ws, gs) && gs != []
    ensures Covers(ws + [w], ExtendLast(gs, w))
  {
    var n := |gs| - 1;
    FlattenSnoc(gs[..n], gs[n]);
    FlattenSnoc(gs[..n], gs[n] + [w]);
    assert gs == gs[..n] + [gs[n]];
  }

  lemma ExtendLastFits(gs: seq<seq<string>>, w: string, width: Measure, limit: nat)
    requires PrefixesFit(gs, width, limit) && gs != []
    requires width(Extend(LineText(gs[|gs| - 1]), w)) <= limit
    ensures PrefixesFit(ExtendLast(gs, w), width, limit)
  {
    var n := |gs| - 1;
    var last := gs[n];
    var hs := ExtendLast(gs, w);
    LineTextSnoc(last, w);
    forall i, k | 0 <= i < |hs| && 2 <= k <= |hs[i]| ensures width(LineText(hs[i][..k])) <= limit {
      if i < n {
        assert hs[i] == gs[i];
      } else if k <= |last| {
        assert hs[i][..k] == last[..k];
      } else {
        assert hs[i][..k] == last + [w];
      }
    }
  }

  lemma ExtendLastBreaks(gs: seq<seq<string>>, w: string, width: Measure, limit: nat)
    requires gs != [] && (forall i :: 0 <= i < |gs| ==> gs[i] != [])
    requires BreaksForced(gs, width, limit)
    ensures var hs := ExtendLast(gs, w);
            (forall i :: 0 <= i < |hs| ==> hs[i] != []) && BreaksForced(hs, width, limit)
  {
    var n := |gs| - 1;
    var hs := ExtendLast(gs, w);
    forall i | 0 <= i < |hs| - 1 ensures width(Extend(LineText(hs[i]), hs[i + 1][0])) > limit {
      assert hs[i] == gs[i];
      if i + 1 < n { assert hs[i + 1] == gs[i + 1]; } else { assert hs[i + 1][0] == gs[i + 1][0]; }
    }
  }

  /** Adding `w` to the last line when the candidate fits keeps a grouping greedy. */
  lemma GreedyExtend(ws: seq<string>, gs: seq<seq<string>>, w: string, width: Measure, limit: nat)
    requires IsGreedy(ws, gs, width, limit) && gs != []
    requires width(Extend(LineText(gs[|gs| - 1]), w)) <= limit
    ensures IsGreedy(ws + [w], ExtendLast(gs, w), width, limit)
  {
    ExtendLastCovers(ws, gs, w);
    ExtendLastFits(gs, w, width, limit);
    ExtendLastBreaks(gs, w, width, limit);
  }

  /** The loop builds a greedy grouping of the words it has seen. */
  lemma {:induction false} RunIsGreedy(words: seq<string>, width: Measure, limit: nat)
    ensures IsGreedy(words, Groups(Run(words, width, limit)), width, limit)
  {
    if words != [] {
      var ws := words[..|words| - 1];
      var w := words[|words| - 1];
      assert words == ws + [w];
      RunIsGreedy(ws, width, limit);
      RunStarted(ws, width, limit);
      var st := Run(ws, width, limit);
      if ws == [] {
        assert Groups(Run(words, width, limit)) == [[w]];
        assert Flatten([[w]]) == [w] + Flatten([]);
      } else {
        var gs := Groups(st);
        assert gs == st.done + [st.current];
        if width(Extend(LineText(st.current), w)) > limit {
          GreedyBreak(ws, gs, w, width, limit);
        } else {
          GreedyExtend(ws, gs, w, width, limit);
          assert gs[..|gs| - 1] == st.done;
          assert Groups(Run(words, width, limit)) == ExtendLast(gs, w);
        }
      }
    }
  }

  lemma GreedyTail(ws: seq<string>, gs: seq<seq<string>>, width: Measure, limit: nat)
    requires IsGreedy(ws, gs, width, limit) && gs != []
    ensures |gs[0]| <= |ws| && ws[..|gs[0]|] == gs[0]
    ensures IsGreedy(ws[|gs[0]|..], gs[1..], width, limit)
  {
    assert ws == gs[0] + Flatten(gs[1..]);
    var tl := gs[1..];
    forall i | 0 <= i < |tl| - 1 ensures width(Extend(LineText(tl[i]), tl[i + 1][0])) > limit {
      assert tl[i] == gs[i + 1] && tl[i + 1] == gs[i + 2];
    }
    forall i, k | 0 <= i < |tl| && 2 <= k <= |tl[i]| ensures width(LineText(tl[i][..k])) <= limit {
      assert tl[i] == gs[i + 1];
    }
  }

  /** The first line of a greedy grouping cannot be shorter than that of another one. */
  lemma GreedyFirstNotShorter(ws: seq<string>, gs: seq<seq<string>>, hs: seq<seq<string>>, width: Measure, limit: nat)
    requires IsGreedy(ws, gs, width, limit) && IsGreedy(ws, hs, width, limit)
    requires gs != [] && hs != []
    ensures |gs[0]| >= |hs[0]|
  {
    GreedyTail(ws, gs, width, limit);
    GreedyTail(ws, hs, width, limit);
    var g, h := gs[0], hs[0];
    if |g| < |h| {
      var rest := Flatten(gs[1..]);
      assert ws == g + rest;
      assert gs[1..] != [];
      assert rest == gs[1] + Flatten(gs[2..]);
      assert gs[1][0] == ws[|g|];
      assert h[..|g| + 1] == g + [ws[|g|]];
      LineTextSnoc(g, ws[|g|]);
      assert false;
    }
  }

  /** There is only one greedy grouping of a list of words. */
  lemma {:induction false} GreedyUnique(ws: seq<string>, gs: seq<seq<string>>, hs: seq<seq<string>>, width: Measure, limit: nat)
    requires IsGreedy(ws, gs, width, limit) && IsGreedy(ws, hs, width, limit)
    ensures gs == hs
    decreases |ws|
  {
    FlattenEmpty(gs);
    FlattenEmpty(hs);
    if gs != [] && hs != [] {
      GreedyFirstNotShorter(ws, gs, hs, width, limit);
      GreedyFirstNotShorter(ws, hs, gs, width, limit);
      GreedyTail(ws, gs, width, limit);
      GreedyTail(ws, hs, width, limit);
      GreedyUnique(ws[|gs[0]|..], gs[1..], hs[1..], width, limit);
      assert gs == [gs[0]] + gs[1..] && hs == [hs[0]] + hs[1..];
    }
  }

  /** The wrap pushes the texts of the (unique) greedy grouping of the words, leaving out a
      final line whose text is empty. */
  lemma WrapIsGreedy(ws: seq<string>, gs: seq<seq<string>>, width: Measure, limit: nat)
    requires IsGreedy(ws, gs, width, limit)
    ensures Wrap(ws, width, limit) == ShownTexts(gs)
  {
    RunIsGreedy(ws, width, limit);
    GreedyUnique(ws, gs, Groups(Run(ws, width, limit)), width, limit);
    WrapShowsGroups(ws, width, limit);
  }

  lemma TextsSnoc(gs: seq<seq<string>>, g: seq<string>)
    ensures Texts(gs + [g]) == Texts(gs) + [LineText(g)]
  {
  }

  lemma RunStarted(words: seq<string>, width: Measure, limit: nat)
    ensures words == [] ==> Run(words, width, limit).done == []
  {
  }

  lemma WrapShowsGroups(ws: seq<string>, width: Measure, limit: nat)
    ensures Wrap(ws, width, limit) == ShownTexts(Groups(Run(ws, width, limit)))
  {
    var st := Run(ws, width, limit);
    RunStarted(ws, width, limit);
    var gs := Groups(st);
    if st.current != [] {
      assert gs == st.done + [st.current] && gs[..|gs| - 1] == st.done;
      TextsSnoc(st.done, st.current);
    }
  }

  // ---------------------------------------------------------------------------
  // Consequences when no word is empty (the text has no doubled spaces).

  lemma {:induction false} LineTextIsJoin(g: seq<string>)
    requires g != [] && HasNoEmptyWord(g)
    ensures LineText(g) == Join(g) && LineText(g) != ""
  {
    var n := |g| - 1;
    if n > 0 {
      LineTextIsJoin(g[..n]);
      assert g == g[..n] + [g[n]];
      JoinAppend(g[..n], [g[n]]);
    }
  }

  lemma {:induction false} JoinTexts(gs: seq<seq<string>>)
    requires forall i :: 0 <= i < |gs| ==> gs[i] != [] && HasNoEmptyWord(gs[i])
    ensures Join(Texts(gs)) == Join(Flatten(gs))
  {
    if gs != [] {
      LineTextIsJoin(gs[0]);
      if |gs| == 1 {
        assert Flatten(gs) == gs[0] + Flatten([]) == gs[0];
        assert Texts(gs) == [LineText(gs[0])];
      } else {
        JoinTexts(gs[1..]);
        assert Texts(gs) == [LineText(gs[0])] + Texts(gs[1..]);
        FlattenEmpty(gs[1..]);
        JoinAppend(gs[0], Flatten(gs[1..]));
      }
    }
  }

  lemma FlattenEmpty(gs: seq<seq<string>>)
    requires forall i :: 0 <= i < |gs| ==> gs[i] != []
    ensures Flatten(gs) == [] <==> gs == []
  {
    if gs != [] { assert |Flatten(gs)| >= |gs[0]|; }
  }

  lemma {:induction false} FlattenHas(gs: seq<seq<string>>, i: nat, j: nat)
    requires i < |gs| && j < |gs[i]|
    ensures gs[i][j] in Flatten(gs)
  {
    if i > 0 { FlattenHas(gs[1..], i - 1, j); }
  }

  lemma GroupsHaveNoEmptyWord(ws: seq<string>, gs: seq<seq<string>>, i: nat)
    requires Covers(ws, gs) && HasNoEmptyWord(ws) && i < |gs|
    ensures HasNoEmptyWord(gs[i])
  {
    forall j | 0 <= j < |gs[i]| ensures gs[i][j] != "" { FlattenHas(gs, i, j); }
  }

  /** With no empty word, the lines are the greedy groups joined with single spaces. */
  lemma WrapJoinsGroups(ws: seq<string>, width: Measure, limit: nat) returns (gs: seq<seq<string>>)
    requires HasNoEmptyWord(ws)
    ensures IsGreedy(ws, gs, width, limit)
    ensures |Wrap(ws, width, limit)| == |gs|
    ensures forall i :: 0 <= i < |gs| ==> Wrap(ws, width, limit)[i] == Join(gs[i])
  {
    RunIsGreedy(ws, width, limit);
    gs := Groups(Run(ws, width, limit));
    WrapIsGreedy(ws, gs, width, limit);
    forall i | 0 <= i < |gs| ensures LineText(gs[i]) == Join(gs[i]) && LineText(gs[i]) != "" {
      GroupsHaveNoEmptyWord(ws, gs, i);
      LineTextIsJoin(gs[i]);
    }
  }

  /** Reconstruction: with no empty word, joining the lines with `" "` gives back the words
      joined with `" "`; every line is non-empty, and there is a line exactly when there is a word. */
  lemma WrapRebuildsText(ws: seq<string>, width: Measure, limit: nat)
    requires HasNoEmptyWord(ws)
    ensures Join(Wrap(ws, width, limit)) == Join(ws)
    ensures HasNoEmptyWord(Wrap(ws, width, limit))
    ensures Wrap(ws, width, limit) == [] <==> ws == []
  {
    var gs := WrapJoinsGroups(ws, width, limit);
    forall i | 0 <= i < |gs| ensures HasNoEmptyWord(gs[i]) && LineText(gs[i]) == Join(gs[i]) {
      GroupsHaveNoEmptyWord(ws, gs, i);
      LineTextIsJoin(gs[i]);
    }
    JoinTexts(gs);
    assert Wrap(ws, width, limit) == Texts(gs);
    FlattenEmpty(gs);
  }

  lemma OverflowIsShort(gs: seq<seq<string>>, i: nat, width: Measure, limit: nat)
    requires PrefixesFit(gs, width, limit) && i < |gs| && width(LineText(gs[i])) > limit
    ensures |gs[i]| < 2
  {
    assert gs[i][..|gs[i]|] == gs[i];
  }

  /** Fit: a line wider than the container is a single word of the text; every line of two or
      more words passed the width test. This holds for every text, doubled spaces included. */
  lemma WrapOverflowIsOneWord(ws: seq<string>, width: Measure, limit: nat, i: nat)
    requires i < |Wrap(ws, width, limit)|
    requires width(Wrap(ws, width, limit)[i]) > limit
    ensures Wrap(ws, width, limit)[i] in ws
  {
    RunIsGreedy(ws, width, limit);
    var gs := Groups(Run(ws, width, limit));
    WrapIsGreedy(ws, gs, width, limit);
    assert Wrap(ws, width, limit)[i] == LineText(gs[i]);
    OverflowIsShort(gs, i, width, limit);
    assert gs[i] == [gs[i][0]];
    OneWordText(gs[i][0]);
    FlattenHas(gs, i, 0);
  }

  /** Breaking rule: with no empty word and no spaces inside words, each line is followed by a
      line whose first word would not have fitted after it. */
  lemma WrapBreaksForced(ws: seq<string>, width: Measure, limit: nat, i: nat)
    requires HasNoEmptyWord(ws) && HasNoSpace(ws) && i + 1 < |Wrap(ws, width, limit)|
    ensures var lines := Wrap(ws, width, limit);
            width(lines[i] + " " + Split(lines[i + 1])[0]) > limit
  {
    var gs := WrapJoinsGroups(ws, width, limit);
    GroupsHaveNoEmptyWord(ws, gs, i);
    GroupsHaveNoEmptyWord(ws, gs, i + 1);
    LineTextIsJoin(gs[i]);
    var next := gs[i + 1];
    forall j | 0 <= j < |next| ensures ' ' !in next[j] { FlattenHas(gs, i + 1, j); }
    SplitJoin(next);
  }

  /** The first word never causes a break: a one-word text gives that word as its only line,
      however wide it is, and an empty word gives no line. */
  lemma {:induction false} FirstWordNeverBreaks(w: string, width: Measure, limit: nat)
    ensures Wrap([w], width, limit) == if w != "" then [w] else []
  {
    assert [w][..0] == [];
    assert Run([w], width, limit) == State([], [w]);
    assert LineText([w]) == w by { assert [w][..0] == []; }
  }

  // ---------------------------------------------------------------------------
  // What happens when a word is empty (two consecutive spaces in the text).

  lemma FlattenCons(g: seq<string>, gs: seq<seq<string>>)
    ensures Flatten([g] + gs) == g + Flatten(gs)
  {
    assert ([g] + gs)[1..] == gs;
  }

  lemma OneWordText(w: string)
    ensures LineText([w]) == w
  {
    assert [w][..0] == [];
  }

  /** A doubled space between `a` and `b` yields an empty line between them when neither
      `a` followed by a space nor `b` alone fits. */
  lemma EmptyLineFromDoubleSpace(a: string, b: string, width: Measure, limit: nat)
    requires a != "" && b != ""
    requires width(a + " ") > limit && width(b) > limit
    ensures Wrap([a, "", b], width, limit) == [a, "", b]
  {
    var e := "";
    var gs := [[a], [e], [b]];
    FlattenCons([b], []);
    FlattenCons([e], [[b]]);
    FlattenCons([a], [[e], [b]]);
    assert [a] + ([e] + ([b] + [])) == [a, e, b];
    OneWordText(a);
    OneWordText(e);
    OneWordText(b);
    assert Extend(a, e) == a + " " && Extend(e, b) == b;
    assert IsGreedy([a, e, b], gs, width, limit);
    WrapIsGreedy([a, e, b], gs, width, limit);
  }

  /** A doubled space between `a` and `b` is not rebuilt when `a` followed by a space does not
      fit but `b` does: the lines are `a` and `b`. */
  lemma DoubleSpaceNotRebuilt(a: string, b: string, width: Measure, limit: nat)
    requires a != "" && b != ""
    requires width(a + " ") > limit && width(b) <= limit
    ensures Wrap([a, "", b], width, limit) == [a, b]
    ensures Join([a, "", b]) != Join([a, b])
  {
    var e := "";
    var gs := [[a], [e, b]];
    FlattenCons([e, b], []);
    FlattenCons([a], [[e, b]]);
    assert [a] + ([e, b] + []) == [a, e, b];
    OneWordText(a);
    OneWordText(e);
    LineTextSnoc([e], b);
    assert [e] + [b] == [e, b] && [e, b][..2] == [e, b];
    assert Extend(a, e) == a + " " && Extend(e, b) == b;
    assert IsGreedy([a, e, b], gs, width, limit);
    WrapIsGreedy([a, e, b], gs, width, limit);
    assert [a, e, b][1..] == [e, b] && [e, b][1..] == [b] && [a, b][1..] == [b];
    assert Join([e, b]) == e + " " + b;
    assert Join([a, e, b]) == a + " " + (e + " " + b);
    assert |Join([a, e, b])| == |a| + 2 + |b|;
    assert |Join([a, b])| == |a| + 1 + |b|;
  }

  // ---------------------------------------------------------------------------
  // The loop of the source.

  lemma RunSnoc(words: seq<string>, i: nat, width: Measure, limit: nat)
    requires i < |words|
    ensures Run(words[..i + 1], width, limit) == Step(Run(words[..i], width, limit), words[i], width, limit)
  {
    assert words[..i + 1][..i] == words[..i];
  }

  /** What one loop turn does to the pushed lines and to `currentLineText`. */
  lemma StepLines(closed: seq<seq<string>>, current: seq<string>, word: string, width: Measure, limit: nat)
    ensures var next := Step(State(closed, current), word, width, limit);
            var t := Extend(LineText(current), word);
            if width(t) > limit && |current| > 0
            then next == State(closed + [current], [word]) && Texts(next.done) == Texts(closed) + [LineText(current)]
                 && LineText(next.current) == word
            else next == State(closed, current + [word]) && LineText(next.current) == t
  {
    TextsSnoc(closed, current);
    OneWordText(word);
    LineTextSnoc(current, word);
  }

  /** The `forEach` over the words, then the guarded flush of the last line. */
  method WrapLines(words: seq<string>, width: Measure, limit: nat) returns (lines: seq<string>)
    ensures lines == Wrap(words, width, limit)
    ensures HasNoEmptyWord(words) ==> Join(lines) == Join(words) && HasNoEmptyWord(lines)
  {
    lines := [];
    var currentLine: seq<string> := [];
    var currentLineText := "";
    ghost var closed: seq<seq<string>> := [];
    for i := 0 to |words|
      invariant Run(words[..i], width, limit) == State(closed, currentLine)
      invariant lines == Texts(closed)
      invariant currentLineText == LineText(currentLine)
    {
      var word := words[i];
      RunSnoc(words, i, width, limit);
      StepLines(closed, currentLine, word, width, limit);
      var testText := if currentLineText != "" then currentLineText + " " + word else word;
      if width(testText) > limit && |currentLine| > 0 {
        lines := lines + [currentLineText];
        closed := closed + [currentLine];
        currentLine := [word];
        currentLineText := word;
      } else {
        currentLine := currentLine + [word];
        currentLineText := testText;
      }
    }
    assert words[..|words|] == words;
    if currentLineText != "" {
      lines := lines + [currentLineText];
    }
    assert lines == Wrap(words, width, limit);
    if HasNoEmptyWord(words) {
      WrapRebuildsText(words, width, limit);
    }
  }
}
