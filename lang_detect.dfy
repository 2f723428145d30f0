/**
 * The language-run grouper: split a text into sentences after a sentence
 * ender that is followed by whitespace, detect each sentence's language and
 * group adjacent sentences of the same language. The detector is a
 * parameter; `None` stands for a detection that raised.
 */
module LangDetect {
  import opened Text

  // ---------------------------------------------------------------------
  // split_text
  // ---------------------------------------------------------------------

  /** Full stop, exclamation and question marks, the Arabic full stop
      U+06D4, the Arabic question mark U+061F and the Devanagari danda
      U+0964. */
  const SentenceEnders: seq<char> := ['.', '!', '?', '\U{06D4}', '\U{061F}', '\U{0964}']

  predicate IsEnder(c: char) {
    c in SentenceEnders
  }

  /** Position `p` is where the zero-width pattern `(?<=[enders])(?=\s)`
      matches: between a sentence ender and a whitespace character. */
  predicate IsBoundary(s: string, p: int) {
    0 < p < |s| && IsEnder(s[p - 1]) && IsSpace(s[p])
  }

  /** The first boundary at or after `k`, or `|s|` when there is none. */
  function FirstBoundary(s: string, k: nat): (p: nat)
    ensures p <= |s|
    ensures p < |s| ==> k <= p && IsBoundary(s, p)
    decreases |s| - k
  {
    if k >= |s| then |s| else if IsBoundary(s, k) then k else FirstBoundary(s, k + 1)
  }

  lemma {:induction false} FirstBoundaryIsFirst(s: string, k: nat)
    ensures forall m :: k <= m < FirstBoundary(s, k) ==> !IsBoundary(s, m)
    decreases |s| - k
  {
    if k < |s| && !IsBoundary(s, k) {
      FirstBoundaryIsFirst(s, k + 1);
    }
  }

  /** `re.split(split_pattern, text)`: cut at every boundary; nothing is
      dropped, since the pattern matches the empty string. */
  function Pieces(s: string): (r: seq<string>)
    ensures |r| >= 1
    decreases |s|
  {
    var p := FirstBoundary(s, 1);
    if p == |s| then [s] else [s[..p]] + Pieces(s[p..])
  }

  /** `[x.strip() for x in pieces if x.strip()]` */
  function Clean(pieces: seq<string>): seq<string> {
    if pieces == [] then []
    else if Strip(pieces[0]) != [] then [Strip(pieces[0])] + Clean(pieces[1..])
    else Clean(pieces[1..])
  }

  /** `split_text(text)`: cut at every ender followed by whitespace, then
      strip the pieces and drop the empty ones. No sentence is empty or has
      whitespace at either end, and the sentences hold the text's non-space
      characters, in order, none lost or duplicated. */
  function SplitText(text: string): (r: seq<string>)
    ensures forall k :: 0 <= k < |r| ==>
      r[k] != [] && !IsSpace(r[k][0]) && !IsSpace(r[k][|r[k]| - 1])
    ensures NonSpace(Concat(r)) == NonSpace(text)
  {
    CleanSentences(Pieces(text));
    CleanNonSpace(Pieces(text));
    PiecesRebuild(text);
    Clean(Pieces(text))
  }

  /** The pieces run together give back the text. */
  lemma {:induction false} PiecesRebuild(s: string)
    ensures Concat(Pieces(s)) == s
    decreases |s|
  {
    var p := FirstBoundary(s, 1);
    if p < |s| {
      PiecesRebuild(s[p..]);
      assert s == s[..p] + s[p..];
    } else {
      assert Concat([s]) == s + [];
    }
  }

  /** Every cut lies right after an ender and right before whitespace:
      each piece but the last ends with an ender, and the next piece starts
      with whitespace. */
  lemma {:induction false} PiecesCutAtBoundaries(s: string)
    ensures forall k :: 0 <= k < |Pieces(s)| - 1 ==>
      Pieces(s)[k] != [] && IsEnder(Pieces(s)[k][|Pieces(s)[k]| - 1])
    ensures forall k :: 0 < k < |Pieces(s)| ==> Pieces(s)[k] != [] && IsSpace(Pieces(s)[k][0])
    decreases |s|
  {
    var p := FirstBoundary(s, 1);
    if p < |s| {
      var rest := Pieces(s[p..]);
      PiecesCutAtBoundaries(s[p..]);
      var r := Pieces(s);
      assert r == [s[..p]] + rest;
      forall k | 0 <= k < |r| - 1 ensures r[k] != [] && IsEnder(r[k][|r[k]| - 1]) {
        if k > 0 {
          assert r[k] == rest[k - 1];
        } else {
          assert r[0][p - 1] == s[p - 1];
        }
      }
      forall k | 0 < k < |r| ensures r[k] != [] && IsSpace(r[k][0]) {
        if k > 1 {
          assert r[k] == rest[k - 1];
        } else {
          PiecesStart(s[p..]);
          assert r[1] == rest[0];
        }
      }
    }
  }

  lemma {:induction false} PiecesStart(s: string)
    requires s != []
    ensures Pieces(s)[0] != [] && Pieces(s)[0][0] == s[0]
  {
  }

  /** No piece holds a boundary: the text is split at every ender that is
      followed by whitespace and nowhere else, so a run of enders such as
      "!?" stays in one piece. */
  lemma {:induction false} PiecesUncut(s: string)
    ensures forall k, m :: 0 <= k < |Pieces(s)| ==> !IsBoundary(Pieces(s)[k], m)
    decreases |s|
  {
    var p := FirstBoundary(s, 1);
    FirstBoundaryIsFirst(s, 1);
    var u := s[..p];
    forall m ensures !IsBoundary(u, m) {
      if IsBoundary(u, m) {
        assert u[m - 1] == s[m - 1] && u[m] == s[m];
        assert IsBoundary(s, m);
      }
    }
    if p < |s| {
      var rest := Pieces(s[p..]);
      PiecesUncut(s[p..]);
      var r := Pieces(s);
      assert r == [u] + rest;
      forall k, m | 0 <= k < |r| ensures !IsBoundary(r[k], m) {
        if k > 0 {
          assert r[k] == rest[k - 1];
        }
      }
    } else {
      assert u == s;
    }
  }

  /** No sentence is empty, and none starts or ends with whitespace. */
  lemma {:induction false} CleanSentences(pieces: seq<string>)
    ensures forall k :: 0 <= k < |Clean(pieces)| ==>
      Clean(pieces)[k] != [] && !IsSpace(Clean(pieces)[k][0]) &&
      !IsSpace(Clean(pieces)[k][|Clean(pieces)[k]| - 1])
  {
    if pieces != [] {
      CleanSentences(pieces[1..]);
      StripEnds(pieces[0]);
      var r := Clean(pieces);
      var rest := Clean(pieces[1..]);
      if Strip(pieces[0]) != [] {
        assert r == [Strip(pieces[0])] + rest;
        forall k | 0 <= k < |r|
          ensures r[k] != [] && !IsSpace(r[k][0]) && !IsSpace(r[k][|r[k]| - 1])
        {
          if k > 0 {
            assert r[k] == rest[k - 1];
          }
        }
      }
    }
  }

  /** Cleaning keeps every non-space character, in order. */
  lemma {:induction false} CleanNonSpace(pieces: seq<string>)
    ensures NonSpace(Concat(Clean(pieces))) == NonSpace(Concat(pieces))
  {
    if pieces != [] {
      var x := pieces[0];
      CleanNonSpace(pieces[1..]);
      StripKeepsNonSpace(x);
      NonSpaceAppend(x, Concat(pieces[1..]));
      if Strip(x) != [] {
        NonSpaceAppend(Strip(x), Concat(Clean(pieces[1..])));
        assert ([Strip(x)] + Clean(pieces[1..]))[1..] == Clean(pieces[1..]);
      } else {
        assert NonSpace(Strip(x)) == [];
      }
    }
  }

  lemma CleanKeeps(x: string, pieces: seq<string>)
    requires Strip(x) != []
    ensures Clean([x] + pieces) == [Strip(x)] + Clean(pieces)
  {
    assert ([x] + pieces)[1..] == pieces;
  }

  /** Cleaning keeps the enders that close all pieces but the last: a
      sentence before the last one comes from a piece before the last one. */
  lemma {:induction false} CleanEnds(pieces: seq<string>)
    requires forall k :: 0 <= k < |pieces| - 1 ==> pieces[k] != [] && IsEnder(pieces[k][|pieces[k]| - 1])
    ensures forall k :: 0 <= k < |Clean(pieces)| - 1 ==>
      Clean(pieces)[k] != [] && IsEnder(Clean(pieces)[k][|Clean(pieces)[k]| - 1])
  {
    if pieces != [] {
      var x, rest := pieces[0], pieces[1..];
      forall k | 0 <= k < |rest| - 1 ensures rest[k] != [] && IsEnder(rest[k][|rest[k]| - 1]) {
        assert rest[k] == pieces[k + 1];
      }
      CleanEnds(rest);
      if Strip(x) != [] {
        assert pieces == [x] + rest;
        CleanKeeps(x, rest);
        var r, c := Clean(pieces), Clean(rest);
        forall k | 0 <= k < |r| - 1 ensures r[k] != [] && IsEnder(r[k][|r[k]| - 1]) {
          if k > 0 {
            assert r[k] == c[k - 1];
          } else {
            assert rest != [];
            assert IsEnder(x[|x| - 1]);
            assert !IsSpace(x[|x| - 1]);
            StripEnds(x);
          }
        }
      }
    }
  }

  /** Every sentence but the last ends with a sentence ender. */
  lemma SplitTextEnds(text: string)
    ensures forall k :: 0 <= k < |SplitText(text)| - 1 ==>
      SplitText(text)[k] != [] && IsEnder(SplitText(text)[k][|SplitText(text)[k]| - 1])
  {
    PiecesCutAtBoundaries(text);
    CleanEnds(Pieces(text));
  }

  // ---------------------------------------------------------------------
  // detect_and_group_sentences
  // ---------------------------------------------------------------------

  /** A group of adjacent sentences and the language detected for them. */
  datatype Run = Run(sentences: seq<string>, lang: Option<string>)

  /** The loop state: the finished groups and the open one
      (`current_group`, `current_lang`). */
  datatype Grouping = Grouping(done: seq<Run>, current: Run)

  /** One iteration: a sentence whose detected language equals the open
      group's joins it (two failed detections are equal); otherwise the open
      group is closed, unless it is empty, and the sentence opens the next. */
  function GroupStep(g: Grouping, sentence: string, lang: Option<string>): Grouping {
    if lang == g.current.lang then
      Grouping(g.done, Run(g.current.sentences + [sentence], g.current.lang))
    else
      Grouping(if g.current.sentences != [] then g.done + [g.current] else g.done, Run([sentence], lang))
  }

  function Group(sentences: seq<string>, detect: string -> Option<string>): Grouping {
    if sentences == [] then Grouping([], Run([], None))
    else
      var last := sentences[|sentences| - 1];
      GroupStep(Group(sentences[..|sentences| - 1], detect), last, detect(last))
  }

  /** The groups the loop produces: the closed ones and the last open one. */
  function Runs(sentences: seq<string>, detect: string -> Option<string>): seq<Run> {
    var g := Group(sentences, detect);
    if g.current.sentences != [] then g.done + [g.current] else g.done
  }

  /** The groups as the script returns them: `' '.join(group)` each. */
  function Rendered(runs: seq<Run>): (r: seq<string>)
    ensures |r| == |runs|
  {
    if runs == [] then []
    else Rendered(runs[..|runs| - 1]) + [Join(" ", runs[|runs| - 1].sentences)]
  }

  /** The sentences of the groups, group after group. */
  function RunSentences(runs: seq<Run>): seq<string> {
    if runs == [] then []
    else RunSentences(runs[..|runs| - 1]) + runs[|runs| - 1].sentences
  }

  /** The number of adjacent sentences whose detected languages differ. */
  function Changes(sentences: seq<string>, detect: string -> Option<string>): nat {
    if |sentences| <= 1 then 0
    else
      Changes(sentences[..|sentences| - 1], detect) +
      (if detect(sentences[|sentences| - 2]) != detect(sentences[|sentences| - 1]) then 1 else 0)
  }

  /** The groups hold the sentences in order; no closed group is empty,
      and the open one is not once a sentence has been seen; the open
      group carries the language of the last sentence. */
  predicate GroupFlat(sentences: seq<string>, detect: string -> Option<string>, g: Grouping) {
    RunSentences(g.done) + g.current.sentences == sentences &&
    (forall k :: 0 <= k < |g.done| ==> g.done[k].sentences != []) &&
    (sentences == [] ==> g.done == [] && g.current == Run([], None)) &&
    (sentences != [] ==>
      g.current.sentences != [] && g.current.lang == detect(sentences[|sentences| - 1]))
  }

  /** Adjacent groups differ in language. */
  predicate GroupDiffer(g: Grouping) {
    (forall k :: 0 < k < |g.done| ==> g.done[k - 1].lang != g.done[k].lang) &&
    (|g.done| > 0 ==> g.done[|g.done| - 1].lang != g.current.lang)
  }

  /** Every sentence carries its group's language. */
  predicate GroupMembers(detect: string -> Option<string>, g: Grouping) {
    (forall k, j :: 0 <= k < |g.done| && 0 <= j < |g.done[k].sentences| ==>
      detect(g.done[k].sentences[j]) == g.done[k].lang) &&
    (forall j :: 0 <= j < |g.current.sentences| ==> detect(g.current.sentences[j]) == g.current.lang)
  }

  lemma {:induction false} GroupKeepsFlat(sentences: seq<string>, detect: string -> Option<string>)
    ensures GroupFlat(sentences, detect, Group(sentences, detect))
  {
    if sentences != [] {
      var n := |sentences|;
      var init := sentences[..n - 1];
      GroupKeepsFlat(init, detect);
      assert init + [sentences[n - 1]] == sentences;
      GroupStepFlat(init, sentences[n - 1], detect, Group(init, detect));
    }
  }

  /** One step of the loop keeps `GroupFlat`. */
  lemma GroupStepFlat(init: seq<string>, s: string, detect: string -> Option<string>, g: Grouping)
    requires GroupFlat(init, detect, g)
    ensures GroupFlat(init + [s], detect, GroupStep(g, s, detect(s)))
  {
    var h := GroupStep(g, s, detect(s));
    assert (init + [s])[|init|] == s;
    if detect(s) != g.current.lang && g.current.sentences != [] {
      assert h.done[..|h.done| - 1] == g.done;
      assert RunSentences(h.done) == RunSentences(g.done) + g.current.sentences;
    } else if detect(s) != g.current.lang {
      assert RunSentences(h.done) == [];
    }
  }

  lemma {:induction false} GroupCounts(sentences: seq<string>, detect: string -> Option<string>)
    requires sentences != []
    ensures |Group(sentences, detect).done| == Changes(sentences, detect)
  {
    var n := |sentences|;
    var init, s := sentences[..n - 1], sentences[n - 1];
    if init != [] {
      GroupCounts(init, detect);
      GroupKeepsFlat(init, detect);
      assert sentences[n - 2] == init[n - 2];
    } else {
      assert Group(init, detect) == Grouping([], Run([], None));
    }
  }

  lemma {:induction false} GroupKeepsDiffer(sentences: seq<string>, detect: string -> Option<string>)
    ensures GroupDiffer(Group(sentences, detect))
  {
    if sentences != [] {
      var n := |sentences|;
      var init, s := sentences[..n - 1], sentences[n - 1];
      GroupKeepsDiffer(init, detect);
      var g := Group(init, detect);
      var h := Group(sentences, detect);
      if detect(s) != g.current.lang && g.current.sentences != [] {
        assert h.done == g.done + [g.current];
        forall k | 0 < k < |h.done| ensures h.done[k - 1].lang != h.done[k].lang {
          if k < |g.done| {
            assert h.done[k - 1] == g.done[k - 1] && h.done[k] == g.done[k];
          }
        }
      }
    }
  }

  lemma {:induction false} GroupKeepsMembers(sentences: seq<string>, detect: string -> Option<string>)
    ensures GroupMembers(detect, Group(sentences, detect))
  {
    if sentences != [] {
      var n := |sentences|;
      var init, s := sentences[..n - 1], sentences[n - 1];
      GroupKeepsMembers(init, detect);
      var g := Group(init, detect);
      var h := Group(sentences, detect);
      if detect(s) != g.current.lang && g.current.sentences != [] {
        assert h.done == g.done + [g.current];
        forall k, j | 0 <= k < |h.done| && 0 <= j < |h.done[k].sentences|
          ensures detect(h.done[k].sentences[j]) == h.done[k].lang
        {
          if k < |g.done| {
            assert h.done[k] == g.done[k];
          }
        }
      }
    }
  }

  /** The groups hold every sentence exactly once, in order, and none is
      empty. */
  lemma RunsCover(sentences: seq<string>, detect: string -> Option<string>)
    ensures RunSentences(Runs(sentences, detect)) == sentences
    ensures forall k :: 0 <= k < |Runs(sentences, detect)| ==> Runs(sentences, detect)[k].sentences != []
  {
    GroupKeepsFlat(sentences, detect);
    var g := Group(sentences, detect);
    if g.current.sentences != [] {
      var runs := g.done + [g.current];
      assert runs[..|runs| - 1] == g.done;
    }
  }

  /** Adjacent groups differ in language. */
  lemma RunsDiffer(sentences: seq<string>, detect: string -> Option<string>)
    ensures var runs := Runs(sentences, detect);
      forall k :: 0 < k < |runs| ==> runs[k - 1].lang != runs[k].lang
  {
    GroupKeepsDiffer(sentences, detect);
    var g := Group(sentences, detect);
    var runs := Runs(sentences, detect);
    if g.current.sentences != [] {
      assert runs == g.done + [g.current];
      forall k | 0 < k < |runs| ensures runs[k - 1].lang != runs[k].lang {
        if k < |g.done| {
          assert runs[k - 1] == g.done[k - 1] && runs[k] == g.done[k];
        }
      }
    }
  }

  /** Every sentence carries its group's detected language. */
  lemma RunsLanguages(sentences: seq<string>, detect: string -> Option<string>)
    ensures var runs := Runs(sentences, detect);
      forall k, j :: 0 <= k < |runs| && 0 <= j < |runs[k].sentences| ==>
        detect(runs[k].sentences[j]) == runs[k].lang
  {
    GroupKeepsMembers(sentences, detect);
    var g := Group(sentences, detect);
    var runs := Runs(sentences, detect);
    if g.current.sentences != [] {
      assert runs == g.done + [g.current];
      forall k, j | 0 <= k < |runs| && 0 <= j < |runs[k].sentences|
        ensures detect(runs[k].sentences[j]) == runs[k].lang
      {
        if k < |g.done| {
          assert runs[k] == g.done[k];
        }
      }
    }
  }

  /** There is one group more than there are language changes between
      adjacent sentences, and none for no sentences. */
  lemma RunsCount(sentences: seq<string>, detect: string -> Option<string>)
    ensures |Runs(sentences, detect)| == if sentences == [] then 0 else 1 + Changes(sentences, detect)
  {
    GroupKeepsFlat(sentences, detect);
    if sentences != [] {
      GroupCounts(sentences, detect);
    }
  }

  /** The first sentence opens the first group, also when its detection
      failed: nothing is flushed before it. */
  lemma RunsStart(sentences: seq<string>, detect: string -> Option<string>)
    requires sentences != []
    ensures var runs := Runs(sentences, detect);
      runs != [] && runs[0].sentences != [] &&
      runs[0].sentences[0] == sentences[0] && runs[0].lang == detect(sentences[0])
  {
    RunsCover(sentences, detect);
    RunsLanguages(sentences, detect);
    var runs := Runs(sentences, detect);
    RunSentencesFirst(runs);
  }

  lemma {:induction false} RunSentencesFirst(runs: seq<Run>)
    requires runs != [] && runs[0].sentences != []
    ensures RunSentences(runs) != [] && RunSentences(runs)[0] == runs[0].sentences[0]
  {
    if |runs| > 1 {
      RunSentencesFirst(runs[..|runs| - 1]);
    } else {
      assert RunSentences(runs[..0]) == [];
    }
  }

  /** Joining the rendered groups with spaces gives the sentences joined
      with spaces: grouping only decides where the group boundaries fall. */
  lemma {:induction false} RenderedJoin(runs: seq<Run>)
    requires forall k :: 0 <= k < |runs| ==> runs[k].sentences != []
    ensures Join(" ", Rendered(runs)) == Join(" ", RunSentences(runs))
  {
    if runs != [] {
      var n := |runs|;
      var init, last := runs[..n - 1], runs[n - 1];
      assert forall k :: 0 <= k < |init| ==> init[k] == runs[k];
      RenderedJoin(init);
      JoinAppendOne(" ", Rendered(init), Join(" ", last.sentences));
      if init != [] {
        RunSentencesNonEmpty(init);
        JoinAppend(" ", RunSentences(init), last.sentences);
      } else {
        assert runs == [last];
        RenderedJoinOne(last);
      }
    }
  }

  lemma RenderedJoinOne(run: Run)
    ensures Join(" ", Rendered([run])) == Join(" ", RunSentences([run]))
  {
    assert [run][..0] == [];
    assert Rendered([run]) == [Join(" ", run.sentences)];
    assert RunSentences([run]) == run.sentences;
  }

  lemma RunSentencesNonEmpty(runs: seq<Run>)
    requires runs != [] && runs[0].sentences != []
    ensures RunSentences(runs) != []
  {
    RunSentencesFirst(runs);
  }

  /** `detect_and_group_sentences(text)`. */
  method DetectAndGroup(text: string, detect: string -> Option<string>) returns (groupedSentences: seq<string>)
    ensures groupedSentences == Rendered(Runs(SplitText(text), detect))
    ensures Join(" ", groupedSentences) == Join(" ", SplitText(text))
    ensures forall k :: 0 <= k < |groupedSentences| ==> groupedSentences[k] != []
  {
    var sentences := SplitText(text);
    groupedSentences := [];
    var currentGroup: seq<string> := [];
    var currentLang: Option<string> := None;
    for i := 0 to |sentences|
      invariant groupedSentences == Rendered(Group(sentences[..i], detect).done)
      invariant currentGroup == Group(sentences[..i], detect).current.sentences
      invariant currentLang == Group(sentences[..i], detect).current.lang
    {
      var sentence := sentences[i];
      assert sentences[..i + 1][..i] == sentences[..i];
      var detectedLang := detect(sentence);
      ghost var before := Group(sentences[..i], detect);
      assert Group(sentences[..i + 1], detect) == GroupStep(before, sentence, detectedLang);
      if detectedLang == currentLang {
        currentGroup := currentGroup + [sentence];
      } else {
        if currentGroup != [] {
          assert (before.done + [before.current])[..|before.done|] == before.done;
          groupedSentences := groupedSentences + [Join(" ", currentGroup)];
        }
        currentGroup := [sentence];
        currentLang := detectedLang;
      }
    }
    assert sentences[..|sentences|] == sentences;
    ghost var g := Group(sentences, detect);
    if currentGroup != [] {
      assert (g.done + [g.current])[..|g.done|] == g.done;
      groupedSentences := groupedSentences + [Join(" ", currentGroup)];
    }
    GroupedSentences(text, detect);
  }

  /** The groups of `split_text(text)`, joined with spaces, are its
      sentences joined with spaces, and no group is empty. */
  lemma GroupedSentences(text: string, detect: string -> Option<string>)
    ensures var grouped := Rendered(Runs(SplitText(text), detect));
      Join(" ", grouped) == Join(" ", SplitText(text)) &&
      forall k :: 0 <= k < |grouped| ==> grouped[k] != []
  {
    var sentences := SplitText(text);
    RunsCover(sentences, detect);
    RenderedJoin(Runs(sentences, detect));
    RenderedNonEmpty(sentences, detect);
  }

  /** No group is empty: each holds a sentence, and no sentence is empty. */
  lemma RenderedNonEmpty(sentences: seq<string>, detect: string -> Option<string>)
    requires forall k :: 0 <= k < |sentences| ==> sentences[k] != []
    ensures forall k :: 0 <= k < |Runs(sentences, detect)| ==> Rendered(Runs(sentences, detect))[k] != []
  {
    var runs := Runs(sentences, detect);
    RunsCover(sentences, detect);
    RunMembers(runs);
    forall k | 0 <= k < |runs| ensures Rendered(runs)[k] != [] {
      RenderedAt(runs, k);
      assert runs[k].sentences[0] in sentences;
    }
  }

  lemma {:induction false} RunMembers(runs: seq<Run>)
    ensures forall k, j :: 0 <= k < |runs| && 0 <= j < |runs[k].sentences| ==>
      runs[k].sentences[j] in RunSentences(runs)
  {
    if runs != [] {
      var n := |runs|;
      var init := runs[..n - 1];
      RunMembers(init);
      forall k, j | 0 <= k < n && 0 <= j < |runs[k].sentences|
        ensures runs[k].sentences[j] in RunSentences(runs)
      {
        if k < n - 1 {
          assert runs[k] == init[k];
        } else {
          assert RunSentences(runs)[|RunSentences(init)| + j] == runs[k].sentences[j];
        }
      }
    }
  }

  lemma {:induction false} RenderedAt(runs: seq<Run>, k: nat)
    requires k < |runs|
    ensures Rendered(runs)[k] == Join(" ", runs[k].sentences)
  {
    if k < |runs| - 1 {
      RenderedAt(runs[..|runs| - 1], k);
    }
  }
}
