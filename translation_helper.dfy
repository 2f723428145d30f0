/**
 * The sentence splitter, the English heuristic, the chunker and the
 * reassembler of the translation helper. The remote translator is a
 * parameter; `None` stands for a call that raised.
 */
module TranslationHelper {
  import opened Text

  // ---------------------------------------------------------------------
  // SENTENCE_ENDING_CHARACTERS and SENTENCE_SPLIT_REGEX
  // ---------------------------------------------------------------------

  /** Full stop, exclamation and question marks, the Arabic full stop
      U+06D4, the Arabic question mark U+061F, the Devanagari danda U+0964
      and double danda U+0965, and the Arabic semicolon U+061B. */
  const SentenceEnders: seq<char> :=
    ['.', '!', '?', '\U{06D4}', '\U{061F}', '\U{0964}', '\U{0965}', '\U{061B}']

  predicate IsEnder(c: char) {
    c in SentenceEnders
  }

  /** Position `i` is where `(?<=[enders])\s+` can start a match: a
      whitespace character right after a sentence ender. */
  predicate IsCut(s: string, i: int) {
    0 < i < |s| && IsEnder(s[i - 1]) && IsSpace(s[i])
  }

  /** The first cut position at or after `k`, or `|s|` when there is none. */
  function FirstCut(s: string, k: nat): (i: nat)
    ensures i <= |s|
    ensures i < |s| ==> k <= i && IsCut(s, i)
    decreases |s| - k
  {
    if k >= |s| then |s| else if IsCut(s, k) then k else FirstCut(s, k + 1)
  }

  lemma {:induction false} FirstCutIsFirst(s: string, k: nat)
    ensures forall m :: k <= m < FirstCut(s, k) ==> !IsCut(s, m)
    decreases |s| - k
  {
    if k < |s| && !IsCut(s, k) {
      FirstCutIsFirst(s, k + 1);
    }
  }

  /** The end of the whitespace run that starts at `i` (`\s+` is greedy). */
  function RunEnd(s: string, i: nat): (j: nat)
    requires i <= |s|
    ensures i <= j <= |s|
    ensures j == |s| || !IsSpace(s[j])
    decreases |s| - i
  {
    if i < |s| && IsSpace(s[i]) then RunEnd(s, i + 1) else i
  }

  lemma {:induction false} RunEndSpaces(s: string, i: nat)
    requires i <= |s|
    ensures AllSpace(s[i..RunEnd(s, i)])
    decreases |s| - i
  {
    if i < |s| && IsSpace(s[i]) {
      RunEndSpaces(s, i + 1);
      assert s[i..RunEnd(s, i)] == [s[i]] + s[i + 1..RunEnd(s, i)];
    }
  }

  /** The pieces `re.split` returns (`units`) and the whitespace runs it
      matched and dropped (`gaps`). */
  datatype Segmentation = Segmentation(units: seq<string>, gaps: seq<string>)

  /** `re.split(SENTENCE_SPLIT_REGEX, s)`: cut at the first whitespace run
      that follows an ender, drop the run, and go on after it. */
  function Segment(s: string): (r: Segmentation)
    ensures |r.units| == |r.gaps| + 1
    decreases |s|
  {
    var i := FirstCut(s, 1);
    if i == |s| then Segmentation([s], [])
    else
      var rest := Segment(After(s, i));
      Segmentation([s[..i]] + rest.units, [s[i..RunEnd(s, i)]] + rest.gaps)
  }

  /** The text after the run of whitespace at cut `i`. */
  function After(s: string, i: nat): (r: string)
    requires IsCut(s, i)
    ensures |r| < |s|
  {
    s[RunEnd(s, i)..]
  }

  /** The units with the dropped runs put back between them. */
  function Interleave(units: seq<string>, gaps: seq<string>): string
    requires |units| == |gaps| + 1
  {
    if gaps == [] then units[0]
    else units[0] + gaps[0] + Interleave(units[1..], gaps[1..])
  }

  /** Splitting loses nothing: the units and the dropped runs, interleaved,
      give back the text. */
  lemma {:induction false} SegmentRebuilds(s: string)
    ensures Interleave(Segment(s).units, Segment(s).gaps) == s
    decreases |s|
  {
    var i := FirstCut(s, 1);
    if i < |s| {
      var j := RunEnd(s, i);
      SegmentRebuilds(After(s, i));
      assert s == s[..i] + s[i..j] + s[j..];
    }
  }

  /** Every dropped run is a non-empty run of whitespace. */
  lemma {:induction false} SegmentGaps(s: string)
    ensures forall k :: 0 <= k < |Segment(s).gaps| ==>
      Segment(s).gaps[k] != [] && AllSpace(Segment(s).gaps[k])
    decreases |s|
  {
    var i := FirstCut(s, 1);
    if i < |s| {
      var j := RunEnd(s, i);
      var rest := Segment(After(s, i));
      SegmentGaps(After(s, i));
      RunEndSpaces(s, i);
      var r := Segment(s);
      assert r.gaps == [s[i..j]] + rest.gaps;
      assert RunEnd(s, i) == RunEnd(s, i + 1);
      forall k | 0 <= k < |r.gaps| ensures r.gaps[k] != [] && AllSpace(r.gaps[k]) {
        if k > 0 {
          assert r.gaps[k] == rest.gaps[k - 1];
        }
      }
    }
  }

  /** Every unit followed by a dropped run ends with a sentence ender: the
      ender stays with the sentence it closes. */
  lemma {:induction false} SegmentUnitEnds(s: string)
    ensures forall k :: 0 <= k < |Segment(s).gaps| ==>
      Segment(s).units[k] != [] && IsEnder(Segment(s).units[k][|Segment(s).units[k]| - 1])
    decreases |s|
  {
    var i := FirstCut(s, 1);
    if i < |s| {
      var rest := Segment(After(s, i));
      SegmentUnitEnds(After(s, i));
      var r := Segment(s);
      assert r.units == [s[..i]] + rest.units;
      forall k | 0 <= k < |r.gaps|
        ensures r.units[k] != [] && IsEnder(r.units[k][|r.units[k]| - 1])
      {
        if k > 0 {
          assert r.units[k] == rest.units[k - 1];
        } else {
          assert s[..i][i - 1] == s[i - 1];
        }
      }
    }
  }

  /** The runs are maximal: no unit after a dropped run starts with
      whitespace. */
  lemma {:induction false} SegmentUnitStarts(s: string)
    ensures forall k :: 0 < k < |Segment(s).units| ==>
      Segment(s).units[k] == [] || !IsSpace(Segment(s).units[k][0])
    decreases |s|
  {
    var i := FirstCut(s, 1);
    if i < |s| {
      var j := RunEnd(s, i);
      var rest := Segment(After(s, i));
      SegmentUnitStarts(After(s, i));
      var r := Segment(s);
      assert r.units == [s[..i]] + rest.units;
      forall k | 0 < k < |r.units| ensures r.units[k] == [] || !IsSpace(r.units[k][0]) {
        if k > 1 {
          assert r.units[k] == rest.units[k - 1];
        } else if rest.units[0] != [] {
          SegmentRebuilds(After(s, i));
          InterleaveStart(rest.units, rest.gaps);
          assert rest.units[0][0] == After(s, i)[0] == s[j];
        }
      }
    }
  }

  lemma InterleaveStart(units: seq<string>, gaps: seq<string>)
    requires |units| == |gaps| + 1 && units[0] != []
    ensures Interleave(units, gaps) != [] && Interleave(units, gaps)[0] == units[0][0]
  {
  }

  /** No unit holds a cut position: `re.split` splits at every whitespace
      run that follows an ender, and nowhere else. */
  lemma {:induction false} SegmentUnitsUncut(s: string)
    ensures forall k, m :: 0 <= k < |Segment(s).units| ==> !IsCut(Segment(s).units[k], m)
    decreases |s|
  {
    var i := FirstCut(s, 1);
    FirstCutIsFirst(s, 1);
    var u := s[..i];
    forall m ensures !IsCut(u, m) {
      if IsCut(u, m) {
        assert u[m - 1] == s[m - 1] && u[m] == s[m];
        assert IsCut(s, m);
      }
    }
    if i < |s| {
      var rest := Segment(After(s, i));
      SegmentUnitsUncut(After(s, i));
      assert forall k, m :: 0 <= k < |rest.units| ==> !IsCut(rest.units[k], m);
      var r := Segment(s);
      assert r.units == [u] + rest.units;
      forall k, m | 0 <= k < |r.units| ensures !IsCut(r.units[k], m) {
        if k > 0 {
          assert r.units[k] == rest.units[k - 1];
        } else {
          assert r.units[k] == u;
        }
      }
    } else {
      assert u == s;
    }
  }

  // ---------------------------------------------------------------------
  // is_english_text
  // ---------------------------------------------------------------------

  /** The superscript and subscript digits the heuristic counts as English:
      U+00B9, U+00B2, U+00B3, U+2070, U+2074..U+2079 and U+2080..U+2089. */
  predicate IsSupSub(c: char) {
    c == '\U{B9}' || c == '\U{B2}' || c == '\U{B3}' || c == '\U{2070}' ||
    ('\U{2074}' <= c <= '\U{2079}') || ('\U{2080}' <= c <= '\U{2089}')
  }

  /** A character counted in the numerator. */
  predicate IsEnglishChar(c: char, isAlnum: char -> bool) {
    (IsAscii(c) && isAlnum(c)) || IsSupSub(c)
  }

  /** A character counted in the denominator. */
  predicate IsCountedChar(c: char, isAlnum: char -> bool) {
    isAlnum(c) || IsSupSub(c)
  }

  function EnglishCount(s: string, isAlnum: char -> bool): nat {
    if s == [] then 0
    else (if IsEnglishChar(s[0], isAlnum) then 1 else 0) + EnglishCount(s[1..], isAlnum)
  }

  function TotalCount(s: string, isAlnum: char -> bool): nat {
    if s == [] then 0
    else (if IsCountedChar(s[0], isAlnum) then 1 else 0) + TotalCount(s[1..], isAlnum)
  }

  /** The counted characters that are not English ones. */
  function OtherCount(s: string, isAlnum: char -> bool): nat {
    if s == [] then 0
    else
      var other := if IsCountedChar(s[0], isAlnum) && !IsEnglishChar(s[0], isAlnum) then 1 else 0;
      other + OtherCount(s[1..], isAlnum)
  }

  /** Every counted character is either an English one or another one. */
  lemma {:induction false} CountsSplit(s: string, isAlnum: char -> bool)
    ensures TotalCount(s, isAlnum) == EnglishCount(s, isAlnum) + OtherCount(s, isAlnum)
  {
    if s != [] {
      CountsSplit(s[1..], isAlnum);
    }
  }

  /** `is_english_text`, with `isAlnum` for `str.isalnum`. The ratio test
      `english / total > 0.5` is the exact integer test `2 * english > total`:
      a text is English when it has no counted character at all, or when its
      English characters outnumber the other counted ones. */
  function IsEnglishText(s: string, isAlnum: char -> bool): (r: bool)
    ensures r <==>
      (EnglishCount(s, isAlnum) == 0 && OtherCount(s, isAlnum) == 0) ||
      EnglishCount(s, isAlnum) > OtherCount(s, isAlnum)
  {
    CountsSplit(s, isAlnum);
    var total := TotalCount(s, isAlnum);
    total == 0 || 2 * EnglishCount(s, isAlnum) > total
  }

  /** The numerator never exceeds the denominator. */
  lemma {:induction false} EnglishWithinTotal(s: string, isAlnum: char -> bool)
    ensures EnglishCount(s, isAlnum) <= TotalCount(s, isAlnum)
  {
    if s != [] {
      EnglishWithinTotal(s[1..], isAlnum);
    }
  }

  lemma {:induction false} CountsAppend(a: string, b: string, isAlnum: char -> bool)
    ensures EnglishCount(a + b, isAlnum) == EnglishCount(a, isAlnum) + EnglishCount(b, isAlnum)
    ensures TotalCount(a + b, isAlnum) == TotalCount(a, isAlnum) + TotalCount(b, isAlnum)
  {
    if a == [] {
      assert a + b == b;
    } else {
      assert (a + b)[1..] == a[1..] + b;
      CountsAppend(a[1..], b, isAlnum);
    }
  }

  /** Text made only of ASCII characters is always taken for English: every
      counted character is then an English one. */
  lemma {:induction false} AsciiTextIsEnglish(s: string, isAlnum: char -> bool)
    requires forall i :: 0 <= i < |s| ==> IsAscii(s[i])
    ensures EnglishCount(s, isAlnum) == TotalCount(s, isAlnum)
    ensures IsEnglishText(s, isAlnum)
  {
    if s != [] {
      AsciiTextIsEnglish(s[1..], isAlnum);
    }
  }

  /** A text whose counted characters are exactly half English is not
      English: 50% does not pass the strict test. */
  lemma HalfEnglishIsNot(s: string, isAlnum: char -> bool)
    requires 2 * EnglishCount(s, isAlnum) == TotalCount(s, isAlnum) > 0
    ensures !IsEnglishText(s, isAlnum)
  {
  }

  /** An ASCII part followed by an equally long run of counted characters
      none of which is English is exactly half English, so not English. */
  lemma MixedHalfIsNot(a: string, b: string, isAlnum: char -> bool)
    requires forall i :: 0 <= i < |a| ==> IsAscii(a[i])
    requires EnglishCount(b, isAlnum) == 0
    requires TotalCount(a, isAlnum) == TotalCount(b, isAlnum) > 0
    ensures !IsEnglishText(a + b, isAlnum)
  {
    AsciiTextIsEnglish(a, isAlnum);
    CountsAppend(a, b, isAlnum);
    HalfEnglishIsNot(a + b, isAlnum);
  }

  // ---------------------------------------------------------------------
  // translate_to_english: the chunking loop
  // ---------------------------------------------------------------------

  /** The index of the first `c` at or after `k`, or `|s|` when there is none. */
  function IndexOf(s: string, c: char, k: nat): (i: nat)
    ensures i <= |s|
    ensures i < |s| ==> k <= i && s[i] == c
    decreases |s| - k
  {
    if k >= |s| then |s| else if s[k] == c then k else IndexOf(s, c, k + 1)
  }

  lemma {:induction false} IndexOfIsFirst(s: string, c: char, k: nat)
    ensures forall m :: k <= m < IndexOf(s, c, k) ==> s[m] != c
    decreases |s| - k
  {
    if k < |s| && s[k] != c {
      IndexOfIsFirst(s, c, k + 1);
    }
  }

  /** `s.split('.')` */
  function SplitDots(s: string): (pieces: seq<string>)
    ensures |pieces| >= 1
    decreases |s|
  {
    if IndexOf(s, '.', 0) == |s| then [s]
    else [BeforeDot(s)] + SplitDots(AfterDot(s))
  }

  function BeforeDot(s: string): string
    requires IndexOf(s, '.', 0) < |s|
  {
    s[..IndexOf(s, '.', 0)]
  }

  function AfterDot(s: string): (r: string)
    requires IndexOf(s, '.', 0) < |s|
    ensures |r| < |s|
  {
    s[IndexOf(s, '.', 0) + 1..]
  }

  /** `'.'.join(s.split('.')) == s` */
  lemma {:induction false} SplitDotsJoin(s: string)
    ensures Join(".", SplitDots(s)) == s
    decreases |s|
  {
    if IndexOf(s, '.', 0) < |s| {
      var rest := SplitDots(AfterDot(s));
      SplitDotsJoin(AfterDot(s));
      assert ([BeforeDot(s)] + rest)[1..] == rest;
      assert s == BeforeDot(s) + "." + AfterDot(s);
    }
  }

  /** No piece of `s.split('.')` holds a '.'. */
  lemma {:induction false} SplitDotsNoDot(s: string)
    ensures forall k :: 0 <= k < |SplitDots(s)| ==> '.' !in SplitDots(s)[k]
    decreases |s|
  {
    IndexOfIsFirst(s, '.', 0);
    if IndexOf(s, '.', 0) < |s| {
      var rest := SplitDots(AfterDot(s));
      SplitDotsNoDot(AfterDot(s));
      var pieces := [BeforeDot(s)] + rest;
      assert '.' !in BeforeDot(s);
      forall k | 0 <= k < |pieces| ensures '.' !in pieces[k] {
        if k > 0 {
          assert pieces[k] == rest[k - 1];
        }
      }
    } else {
      assert '.' !in s;
    }
  }

  /** The length a group of pieces is charged: `len(piece) + 1` each. */
  function Weight(g: seq<string>): nat {
    if g == [] then 0 else Weight(g[..|g| - 1]) + |g[|g| - 1]| + 1
  }

  /** The loop state of the chunker after some pieces: the finished groups,
      the open group (`current_chunk`) and its charged length
      (`current_length`). */
  datatype Packing = Packing(done: seq<seq<string>>, current: seq<string>, currentLength: int)

  /** One iteration: the piece joins the open group while the charge stays
      within `chunkSize`; otherwise the open group is closed, even when it is
      empty, and the piece opens the next one. */
  function Step(p: Packing, piece: string, chunkSize: int): Packing {
    var n := |piece| + 1;
    if p.currentLength + n <= chunkSize then Packing(p.done, p.current + [piece], p.currentLength + n)
    else Packing(p.done + [p.current], [piece], n)
  }

  function Pack(pieces: seq<string>, chunkSize: int): Packing {
    if pieces == [] then Packing([], [], 0)
    else Step(Pack(pieces[..|pieces| - 1], chunkSize), pieces[|pieces| - 1], chunkSize)
  }

  /** The groups the chunker emits: the closed ones and the last open one. */
  function Groups(pieces: seq<string>, chunkSize: int): seq<seq<string>> {
    var p := Pack(pieces, chunkSize);
    if p.current != [] then p.done + [p.current] else p.done
  }

  /** `'.'.join(group) + '.'` */
  function Render(g: seq<string>): string {
    Join(".", g) + "."
  }

  function RenderAll(gs: seq<seq<string>>): (r: seq<string>)
    ensures |r| == |gs|
  {
    if gs == [] then [] else RenderAll(gs[..|gs| - 1]) + [Render(gs[|gs| - 1])]
  }

  lemma WeightAppend(g: seq<string>, x: string)
    ensures Weight(g + [x]) == Weight(g) + |x| + 1
  {
    assert (g + [x])[..|g|] == g;
  }

  /** The pieces are all there, in order, and the open group is never empty
      once a piece has been seen. */
  predicate InvFlat(pieces: seq<string>, p: Packing) {
    Flatten(p.done) + p.current == pieces &&
    (pieces == [] ==> p.done == [] && p.current == []) &&
    (pieces != [] ==> p.current != [])
  }

  /** Only the first closed group can be empty. */
  predicate InvNonEmpty(p: Packing) {
    forall k :: 0 < k < |p.done| ==> p.done[k] != []
  }

  /** A group over the budget holds at most one piece. */
  predicate InvFit(p: Packing, chunkSize: int) {
    (forall k :: 0 <= k < |p.done| ==> Weight(p.done[k]) <= chunkSize || |p.done[k]| <= 1) &&
    (Weight(p.current) <= chunkSize || |p.current| <= 1)
  }

  /** The first group is the empty one exactly when the first piece alone is
      over the budget. */
  predicate InvSpurious(pieces: seq<string>, p: Packing, chunkSize: int) {
    pieces != [] ==> ((|p.done| > 0 && p.done[0] == []) <==> |pieces[0]| + 1 > chunkSize)
  }

  /** A group was closed only because the next piece did not fit. */
  predicate InvGreedy(p: Packing, chunkSize: int) {
    (forall k :: 0 < k < |p.done| && p.done[k] != [] ==>
       Weight(p.done[k - 1]) + |p.done[k][0]| + 1 > chunkSize) &&
    (|p.done| > 0 && p.current != [] ==>
       Weight(p.done[|p.done| - 1]) + |p.current[0]| + 1 > chunkSize)
  }

  lemma {:induction false} PackFlat(pieces: seq<string>, chunkSize: int)
    ensures InvFlat(pieces, Pack(pieces, chunkSize))
  {
    if pieces != [] {
      var init, piece := pieces[..|pieces| - 1], pieces[|pieces| - 1];
      var p := Pack(init, chunkSize);
      PackFlat(init, chunkSize);
      assert init + [piece] == pieces;
      if p.currentLength + |piece| + 1 > chunkSize {
        FlattenAppend(p.done, [p.current]);
        assert Flatten([p.current]) == p.current + [];
      }
    }
  }

  lemma {:induction false} PackLength(pieces: seq<string>, chunkSize: int)
    ensures Pack(pieces, chunkSize).currentLength == Weight(Pack(pieces, chunkSize).current)
  {
    if pieces != [] {
      var init, piece := pieces[..|pieces| - 1], pieces[|pieces| - 1];
      PackLength(init, chunkSize);
      WeightAppend(Pack(init, chunkSize).current, piece);
      WeightAppend([], piece);
    }
  }

  lemma {:induction false} PackNonEmpty(pieces: seq<string>, chunkSize: int)
    ensures InvNonEmpty(Pack(pieces, chunkSize))
  {
    if pieces != [] {
      var init, piece := pieces[..|pieces| - 1], pieces[|pieces| - 1];
      PackNonEmpty(init, chunkSize);
      PackFlat(init, chunkSize);
    }
  }

  lemma {:induction false} PackFit(pieces: seq<string>, chunkSize: int)
    ensures InvFit(Pack(pieces, chunkSize), chunkSize)
  {
    if pieces != [] {
      var init, piece := pieces[..|pieces| - 1], pieces[|pieces| - 1];
      var p := Pack(init, chunkSize);
      PackFit(init, chunkSize);
      PackLength(init, chunkSize);
      WeightAppend(p.current, piece);
    }
  }

  lemma {:induction false} PackSpurious(pieces: seq<string>, chunkSize: int)
    ensures InvSpurious(pieces, Pack(pieces, chunkSize), chunkSize)
  {
    if pieces != [] {
      var init, piece := pieces[..|pieces| - 1], pieces[|pieces| - 1];
      PackSpurious(init, chunkSize);
      PackFlat(init, chunkSize);
      if init != [] {
        assert pieces[0] == init[0];
      } else {
        assert pieces == [piece];
      }
    }
  }

  lemma {:induction false} PackGreedy(pieces: seq<string>, chunkSize: int)
    ensures InvGreedy(Pack(pieces, chunkSize), chunkSize)
  {
    if pieces != [] {
      var init, piece := pieces[..|pieces| - 1], pieces[|pieces| - 1];
      var p := Pack(init, chunkSize);
      PackGreedy(init, chunkSize);
      PackLength(init, chunkSize);
      PackFlat(init, chunkSize);
      var q := Pack(pieces, chunkSize);
      assert q == Step(p, piece, chunkSize);
      if p.currentLength + |piece| + 1 <= chunkSize {
        assert q.done == p.done;
        if |p.done| > 0 && p.current != [] {
          assert q.current[0] == p.current[0];
        }
      } else {
        assert q.done == p.done + [p.current] && q.current == [piece];
        assert Weight(q.done[|q.done| - 1]) == p.currentLength;
        forall k | 0 < k < |q.done| && q.done[k] != []
          ensures Weight(q.done[k - 1]) + |q.done[k][0]| + 1 > chunkSize
        {
          if k < |p.done| {
            assert q.done[k] == p.done[k] && q.done[k - 1] == p.done[k - 1];
          } else {
            assert q.done[k] == p.current && q.done[k - 1] == p.done[|p.done| - 1];
          }
        }
      }
    }
  }

  /** The groups the chunker emits, stated without its loop: they hold the
      pieces in order; only the first can be empty, and it is exactly when
      the first piece alone is over the budget; a group over the budget holds
      one piece; and a group was closed only because the next piece would
      not fit. */
  lemma GroupsShape(pieces: seq<string>, chunkSize: int)
    requires pieces != []
    ensures var gs := Groups(pieces, chunkSize);
      Flatten(gs) == pieces &&
      (gs[0] == [] <==> |pieces[0]| + 1 > chunkSize) &&
      (forall k :: 0 < k < |gs| ==> gs[k] != []) &&
      (forall k :: 0 <= k < |gs| ==> Weight(gs[k]) <= chunkSize || |gs[k]| <= 1)
  {
    var p := Pack(pieces, chunkSize);
    PackFlat(pieces, chunkSize);
    PackNonEmpty(pieces, chunkSize);
    PackFit(pieces, chunkSize);
    PackSpurious(pieces, chunkSize);
    var gs := p.done + [p.current];
    assert Groups(pieces, chunkSize) == gs;
    FlattenAppend(p.done, [p.current]);
    assert Flatten([p.current]) == p.current + [];
    if p.done == [] {
      assert gs[0] == p.current;
    }
    forall k | 0 <= k < |gs| ensures Weight(gs[k]) <= chunkSize || |gs[k]| <= 1 {
      if k < |p.done| {
        assert gs[k] == p.done[k];
      }
    }
  }

  /** The chunker is greedy: each group after the first starts with a piece
      that would have pushed the group before it over the budget. */
  lemma GroupsGreedy(pieces: seq<string>, chunkSize: int)
    requires pieces != []
    ensures var gs := Groups(pieces, chunkSize);
      forall k :: 0 < k < |gs| ==> gs[k] != [] && Weight(gs[k - 1]) + |gs[k][0]| + 1 > chunkSize
  {
    var p := Pack(pieces, chunkSize);
    PackFlat(pieces, chunkSize);
    PackNonEmpty(pieces, chunkSize);
    PackGreedy(pieces, chunkSize);
    var gs := p.done + [p.current];
    assert Groups(pieces, chunkSize) == gs;
    forall k | 0 < k < |gs| ensures gs[k] != [] && Weight(gs[k - 1]) + |gs[k][0]| + 1 > chunkSize {
      if k < |p.done| {
        assert gs[k] == p.done[k] && gs[k - 1] == p.done[k - 1];
      } else {
        assert gs[k] == p.current && gs[k - 1] == p.done[|p.done| - 1];
      }
    }
  }

  /** A rendered group is as long as it was charged. */
  lemma {:induction false} RenderLength(g: seq<string>)
    requires g != []
    ensures |Render(g)| == Weight(g)
  {
    var init, x := g[..|g| - 1], g[|g| - 1];
    assert init + [x] == g;
    JoinAppendOne(".", init, x);
    if init != [] {
      RenderLength(init);
    }
  }

  /** The rendered groups, run together, are the pieces joined with '.'
      and a closing '.'. */
  lemma {:induction false} ConcatRenderAll(gs: seq<seq<string>>)
    requires gs != [] && forall k :: 0 <= k < |gs| ==> gs[k] != []
    ensures Concat(RenderAll(gs)) == Join(".", Flatten(gs)) + "."
  {
    var init, g := gs[..|gs| - 1], gs[|gs| - 1];
    assert init + [g] == gs;
    ConcatAppend(RenderAll(init), [Render(g)]);
    assert Concat([Render(g)]) == Render(g) + [];
    FlattenAppend(init, [g]);
    assert Flatten([g]) == g + [];
    if init == [] {
      assert RenderAll(init) == [];
      assert Concat(RenderAll(gs)) == Render(g);
      assert Flatten(gs) == g;
    } else {
      assert forall k :: 0 <= k < |init| ==> init[k] == gs[k];
      ConcatRenderAll(init);
      FlattenNonEmpty(init);
      JoinAppend(".", Flatten(init), g);
      calc {
        Concat(RenderAll(gs));
        Concat(RenderAll(init)) + Render(g);
        Join(".", Flatten(init)) + "." + (Join(".", g) + ".");
        Join(".", Flatten(init) + g) + ".";
        { assert Flatten(gs) == Flatten(init) + g; }
        Join(".", Flatten(gs)) + ".";
      }
    }
  }

  lemma FlattenNonEmpty(gs: seq<seq<string>>)
    requires gs != [] && gs[0] != []
    ensures Flatten(gs) != []
  {
  }

  /** The chunks `translate_to_english` sends to the translator. */
  function ChunksOf(text: string, chunkSize: int): seq<string> {
    RenderAll(Groups(SplitDots(text), chunkSize))
  }

  /** The chunking loop of `translate_to_english`. A chunk over the budget
      holds a single piece; when the first piece alone is over the budget a
      lone "." chunk comes first; and the chunks run together give back the
      text with a closing '.'. */
  method ChunkText(text: string, chunkSize: int) returns (chunks: seq<string>)
    ensures chunks == ChunksOf(text, chunkSize)
    ensures var gs := Groups(SplitDots(text), chunkSize);
      forall k :: 0 <= k < |chunks| ==>
        (gs[k] != [] ==> |chunks[k]| == Weight(gs[k])) &&
        (|chunks[k]| <= chunkSize || |gs[k]| <= 1)
    ensures |SplitDots(text)[0]| + 1 > chunkSize ==> chunks[0] == "."
    ensures Concat(chunks) ==
      (if |SplitDots(text)[0]| + 1 > chunkSize then "." else "") + text + "."
  {
    var pieces := SplitDots(text);
    chunks := [];
    var currentChunk: seq<string> := [];
    var currentLength := 0;
    for k := 0 to |pieces|
      invariant chunks == RenderAll(Pack(pieces[..k], chunkSize).done)
      invariant currentChunk == Pack(pieces[..k], chunkSize).current
      invariant currentLength == Pack(pieces[..k], chunkSize).currentLength
    {
      assert pieces[..k + 1][..k] == pieces[..k];
      var sentenceLength := |pieces[k]| + 1;
      if currentLength + sentenceLength <= chunkSize {
        currentChunk := currentChunk + [pieces[k]];
        currentLength := currentLength + sentenceLength;
      } else {
        assert RenderAll(Pack(pieces[..k + 1], chunkSize).done)
          == RenderAll(Pack(pieces[..k], chunkSize).done) + [Render(currentChunk)];
        chunks := chunks + [Join(".", currentChunk) + "."];
        currentChunk := [pieces[k]];
        currentLength := sentenceLength;
      }
    }
    assert pieces[..|pieces|] == pieces;
    PackFlat(pieces, chunkSize);
    if currentChunk != [] {
      chunks := chunks + [Join(".", currentChunk) + "."];
    }
    ChunkFacts(text, chunkSize);
  }

  lemma ChunkFacts(text: string, chunkSize: int)
    ensures var gs := Groups(SplitDots(text), chunkSize);
      var chunks := RenderAll(gs);
      (forall k :: 0 <= k < |chunks| ==>
        (gs[k] != [] ==> |chunks[k]| == Weight(gs[k])) &&
        (|chunks[k]| <= chunkSize || |gs[k]| <= 1)) &&
      (|SplitDots(text)[0]| + 1 > chunkSize ==> chunks[0] == ".") &&
      Concat(chunks) == (if |SplitDots(text)[0]| + 1 > chunkSize then "." else "") + text + "."
  {
    var pieces := SplitDots(text);
    var gs := Groups(pieces, chunkSize);
    GroupsShape(pieces, chunkSize);
    ChunkLengths(gs, chunkSize);
    SplitDotsJoin(text);
    ChunkConcat(gs, pieces);
  }

  lemma ChunkLengths(gs: seq<seq<string>>, chunkSize: int)
    requires forall k :: 0 <= k < |gs| ==> Weight(gs[k]) <= chunkSize || |gs[k]| <= 1
    ensures forall k :: 0 <= k < |gs| ==>
      (gs[k] != [] ==> |RenderAll(gs)[k]| == Weight(gs[k])) &&
      (|RenderAll(gs)[k]| <= chunkSize || |gs[k]| <= 1) &&
      (gs[k] == [] ==> RenderAll(gs)[k] == ".")
  {
    forall k | 0 <= k < |gs|
      ensures (gs[k] != [] ==> |RenderAll(gs)[k]| == Weight(gs[k])) &&
              (|RenderAll(gs)[k]| <= chunkSize || |gs[k]| <= 1) &&
              (gs[k] == [] ==> RenderAll(gs)[k] == ".")
    {
      RenderAllAt(gs, k);
      if gs[k] != [] {
        RenderLength(gs[k]);
      } else {
        assert Render(gs[k]) == [] + ".";
      }
    }
  }

  /** Only the first group may be empty, and it renders as a lone ".". */
  lemma ChunkConcat(gs: seq<seq<string>>, pieces: seq<string>)
    requires gs != [] && Flatten(gs) == pieces && pieces != []
    requires forall k :: 0 < k < |gs| ==> gs[k] != []
    ensures Concat(RenderAll(gs)) == (if gs[0] == [] then "." else "") + Join(".", pieces) + "."
  {
    if gs[0] == [] {
      ChunkConcatLeadingEmpty(gs, pieces);
    } else {
      ConcatRenderAll(gs);
    }
  }

  lemma RenderEmptyGroup()
    ensures RenderAll([[]]) == ["."]
  {
    var none: seq<seq<string>> := [[]];
    var e: seq<string> := [];
    assert none[..0] == [];
    assert Join(".", e) == [];
    assert Render(e) == ".";
  }

  lemma ChunkConcatLeadingEmpty(gs: seq<seq<string>>, pieces: seq<string>)
    requires gs != [] && gs[0] == [] && Flatten(gs) == pieces && pieces != []
    requires forall k :: 0 < k < |gs| ==> gs[k] != []
    ensures Concat(RenderAll(gs)) == "." + Join(".", pieces) + "."
  {
    var rest := gs[1..];
    var none: seq<seq<string>> := [[]];
    assert gs == none + rest;
    assert Flatten(rest) == pieces;
    RenderAllSplit(none, rest);
    RenderEmptyGroup();
    assert forall k :: 0 <= k < |rest| ==> rest[k] == gs[k + 1];
    ConcatRenderAll(rest);
    ConcatAppend(["."], RenderAll(rest));
    assert Concat(["."]) == "." + [];
  }

  lemma {:induction false} RenderAllAt(gs: seq<seq<string>>, k: nat)
    requires k < |gs|
    ensures RenderAll(gs)[k] == Render(gs[k])
  {
    if k < |gs| - 1 {
      RenderAllAt(gs[..|gs| - 1], k);
    }
  }

  lemma {:induction false} RenderAllSplit(a: seq<seq<string>>, b: seq<seq<string>>)
    ensures RenderAll(a + b) == RenderAll(a) + RenderAll(b)
  {
    if b == [] {
      assert a + b == a;
    } else {
      var init := b[..|b| - 1];
      assert (a + b)[..|a + b| - 1] == a + init;
      RenderAllSplit(a, init);
    }
  }

  /** A text that fits the budget together with its closing '.' is sent as
      one chunk: the text and a '.'. */
  lemma SingleChunk(text: string, chunkSize: int)
    requires |text| + 1 <= chunkSize
    ensures ChunksOf(text, chunkSize) == [text + "."]
  {
    var pieces := SplitDots(text);
    SplitDotsJoin(text);
    RenderLength(pieces);
    PackUnderBudget(pieces, chunkSize);
    assert Groups(pieces, chunkSize) == [pieces];
    var one := [pieces];
    assert one[..0] == [];
  }

  /** While the pieces fit the budget, none is ever closed off. */
  lemma {:induction false} PackUnderBudget(pieces: seq<string>, chunkSize: int)
    requires Weight(pieces) <= chunkSize
    ensures Pack(pieces, chunkSize) == Packing([], pieces, Weight(pieces))
  {
    if pieces != [] {
      var init, piece := pieces[..|pieces| - 1], pieces[|pieces| - 1];
      assert init + [piece] == pieces;
      PackUnderBudget(init, chunkSize);
    }
  }

  // ---------------------------------------------------------------------
  // translate_to_english: translating the chunks
  // ---------------------------------------------------------------------

  /** `0, 1, ..., n - 1` */
  function Indices(n: nat): (r: seq<int>)
    ensures |r| == n
  {
    seq(n, i => i)
  }

  /** `order` lists each of `0 .. n - 1` exactly once: the order in which
      `as_completed` hands back the futures of `n` tasks. */
  predicate IsOrderOf(order: seq<int>, n: nat) {
    multiset(order) == multiset(Indices(n))
  }

  lemma OrderCovers(order: seq<int>, n: nat)
    requires IsOrderOf(order, n)
    ensures |order| == n
    ensures forall i :: 0 <= i < |order| ==> 0 <= order[i] < n
    ensures forall k :: 0 <= k < n ==> k in order
  {
    assert |order| == |multiset(order)| == |multiset(Indices(n))| == n;
    forall i | 0 <= i < |order| ensures 0 <= order[i] < n {
      assert order[i] in multiset(order);
      assert order[i] in Indices(n);
    }
    forall k | 0 <= k < n ensures k in order {
      assert Indices(n)[k] == k;
      assert k in multiset(Indices(n));
    }
  }

  /** `xs` taken in the order `order` lists their positions. */
  function Reorder(xs: seq<string>, order: seq<int>): (r: seq<string>)
    requires forall i :: 0 <= i < |order| ==> 0 <= order[i] < |xs|
    ensures |r| == |order|
  {
    seq(|order|, i requires 0 <= i < |order| => xs[order[i]])
  }

  /** What `translate_to_english` returns when its chunk translations
      complete in the order `completion`: `None` when a translation raised,
      otherwise the translations joined with spaces in completion order. */
  function EnglishOf(text: string, chunkSize: int, translate: string -> Option<string>, completion: seq<int>): Option<string>
    requires IsOrderOf(completion, |ChunksOf(text, chunkSize)|)
  {
    var parts := StripEach(ChunksOf(text, chunkSize));
    OrderCovers(completion, |parts|);
    if AllTranslate(parts, translate) then
      Some(Join(" ", Reorder(Translations(parts, translate), completion)))
    else None
  }

  lemma {:induction false} StripEachAt(lines: seq<string>, k: nat)
    requires k < |lines|
    ensures StripEach(lines)[k] == Strip(lines[k])
  {
    if k > 0 {
      StripEachAt(lines[1..], k - 1);
    }
  }

  /** `translate_to_english(text, chunk_size)`: chunk the text, translate
      each stripped chunk and join the results in the order the
      translations complete. A text that fits one chunk is translated in a
      single call, whatever the completion order. */
  method TranslateToEnglish(text: string, chunkSize: int, translate: string -> Option<string>, completion: seq<int>)
    returns (r: Option<string>)
    requires IsOrderOf(completion, |ChunksOf(text, chunkSize)|)
    ensures r == EnglishOf(text, chunkSize, translate, completion)
  {
    var chunks := ChunkText(text, chunkSize);
    OrderCovers(completion, |chunks|);
    var parts := StripEach(chunks);
    var translatedChunks: seq<string> := [];
    for i := 0 to |completion|
      invariant |translatedChunks| == i
      invariant forall j :: 0 <= j < i ==> Some(translatedChunks[j]) == translate(parts[completion[j]])
    {
      StripEachAt(chunks, completion[i]);
      var t := translate(Strip(chunks[completion[i]]));
      if t.None? {
        assert !translate(parts[completion[i]]).Some?;
        return None;
      }
      ghost var before := translatedChunks;
      translatedChunks := translatedChunks + [t.value];
      forall j | 0 <= j < i + 1
        ensures Some(translatedChunks[j]) == translate(parts[completion[j]])
      {
        if j < i {
          assert translatedChunks[j] == before[j];
        }
      }
    }
    assert AllTranslate(parts, translate) by {
      forall k | 0 <= k < |parts| ensures translate(parts[k]).Some? {
        assert k in completion;
        var j :| 0 <= j < |completion| && completion[j] == k;
      }
    }
    assert translatedChunks == Reorder(Translations(parts, translate), completion);
    r := Some(Join(" ", translatedChunks));
  }

  /** A text that fits one chunk is translated in a single call, with its
      closing '.', whatever the completion order. */
  lemma ShortTextOneCall(text: string, chunkSize: int, translate: string -> Option<string>, completion: seq<int>)
    requires IsOrderOf(completion, |ChunksOf(text, chunkSize)|)
    requires |text| + 1 <= chunkSize
    ensures EnglishOf(text, chunkSize, translate, completion) == translate(Strip(text + "."))
  {
    SingleChunk(text, chunkSize);
    OneChunkOrder(completion);
    var parts := StripEach(ChunksOf(text, chunkSize));
    StripEachAt(ChunksOf(text, chunkSize), 0);
    assert parts == [Strip(text + ".")];
    if AllTranslate(parts, translate) {
      assert Reorder(Translations(parts, translate), completion) == [translate(Strip(text + ".")).value];
    } else {
      assert translate(parts[0]).None?;
    }
  }

  lemma OneChunkOrder(order: seq<int>)
    requires IsOrderOf(order, 1)
    ensures order == [0]
  {
    OrderCovers(order, 1);
  }

  /** With a translator that returns its input and completions in chunk
      order, the result keeps every non-space character of the text, plus
      the closing '.' and the lone '.' of a leading empty chunk. */
  lemma EnglishOfIdentity(text: string, chunkSize: int)
    ensures var r := EnglishOf(text, chunkSize, x => Some(x), Indices(|ChunksOf(text, chunkSize)|));
      r.Some? &&
      NonSpace(r.value) ==
        NonSpace((if |SplitDots(text)[0]| + 1 > chunkSize then "." else "") + text + ".")
  {
    var chunks := ChunksOf(text, chunkSize);
    var parts := StripEach(chunks);
    var id: string -> Option<string> := x => Some(x);
    assert AllTranslate(parts, id);
    assert Translations(parts, id) == parts;
    assert Reorder(parts, Indices(|chunks|)) == parts;
    NonSpaceJoin(" ", parts);
    StripEachNonSpace(chunks);
    ChunkFacts(text, chunkSize);
  }

  // ---------------------------------------------------------------------
  // check_and_translate_non_english_content
  // ---------------------------------------------------------------------

  /** The chunk budget `translate_to_english` is called with. */
  const DefaultChunkSize := 5000

  /** Only sentences of more than three characters, once stripped, are
      looked at; the others are dropped from the output. */
  predicate Kept(sentence: string) {
    |Strip(sentence)| > 3
  }

  /** The `i`-th sentence as it goes into the output: unchanged when it
      reads as English, otherwise its translation, with the completion
      order of its own chunks. */
  function SentenceOut(sentences: seq<string>, i: nat, isAlnum: char -> bool,
                       translate: string -> Option<string>, completions: seq<seq<int>>): Option<string>
    requires i < |sentences| && |completions| == |sentences|
    requires OrdersFit(sentences, completions)
  {
    if IsEnglishText(sentences[i], isAlnum) then Some(sentences[i])
    else EnglishOf(sentences[i], DefaultChunkSize, translate, completions[i])
  }

  /** Each sentence has a completion order for the chunks it would be
      translated in. */
  predicate OrdersFit(sentences: seq<string>, completions: seq<seq<int>>)
    requires |completions| == |sentences|
  {
    forall i :: 0 <= i < |sentences| ==>
      IsOrderOf(completions[i], |ChunksOf(sentences[i], DefaultChunkSize)|)
  }

  /** Every kept sentence reaches the output: no translation raised. */
  predicate AllOut(sentences: seq<string>, isAlnum: char -> bool,
                   translate: string -> Option<string>, completions: seq<seq<int>>)
    requires |completions| == |sentences| && OrdersFit(sentences, completions)
  {
    forall i :: 0 <= i < |sentences| && Kept(sentences[i]) ==>
      SentenceOut(sentences, i, isAlnum, translate, completions).Some?
  }

  /** What each sentence comes to: its output when it is kept, `None`
      when it is dropped or its translation raised. */
  function Outcomes(sentences: seq<string>, isAlnum: char -> bool,
                    translate: string -> Option<string>, completions: seq<seq<int>>): (r: seq<Option<string>>)
    requires |completions| == |sentences| && OrdersFit(sentences, completions)
    ensures |r| == |sentences|
  {
    seq(|sentences|, i requires 0 <= i < |sentences| =>
      if Kept(sentences[i]) then SentenceOut(sentences, i, isAlnum, translate, completions) else None)
  }

  /** The output before the final strip: the sentences that have an
      outcome, in their original order, each followed by the space stored
      with it and the space the joining loop adds. */
  function Reassembled(outcomes: seq<Option<string>>): string {
    if outcomes == [] then []
    else
      var last := outcomes[|outcomes| - 1];
      Reassembled(outcomes[..|outcomes| - 1]) + (if last.Some? then last.value + "  " else [])
  }

  /** Some kept sentence does not read as English. */
  predicate NeedsTranslation(sentences: seq<string>, isAlnum: char -> bool) {
    exists i :: 0 <= i < |sentences| && Kept(sentences[i]) && !IsEnglishText(sentences[i], isAlnum)
  }

  /** `order` is the order in which `as_completed` hands back the language
      checks: each kept sentence's index exactly once. */
  predicate IsCheckOrder(order: seq<int>, sentences: seq<string>) {
    (forall k :: 0 <= k < |order| ==> 0 <= order[k] < |sentences| && Kept(sentences[order[k]])) &&
    (forall i :: 0 <= i < |sentences| && Kept(sentences[i]) ==> i in order) &&
    (forall a, b :: 0 <= a < b < |order| ==> order[a] != order[b])
  }

  /** `check_and_translate_non_english_content(text_content)`: split into
      sentences, check each kept one for English in the order the checks
      complete, translate those that are not, store each result with a
      trailing space at its sentence's index, then join the stored
      sentences in index order. `None` stands for a translation that raised.
      Neither the flag nor the text depends on the completion order. */
  method CheckAndTranslate(textContent: string, isAlnum: char -> bool,
                           translate: string -> Option<string>,
                           order: seq<int>, completions: seq<seq<int>>)
    returns (r: Option<(bool, string)>)
    requires |completions| == |Segment(textContent).units|
    requires OrdersFit(Segment(textContent).units, completions)
    requires IsCheckOrder(order, Segment(textContent).units)
    ensures r.Some? <==> AllOut(Segment(textContent).units, isAlnum, translate, completions)
    ensures r.Some? ==> (r.value.0 <==> NeedsTranslation(Segment(textContent).units, isAlnum))
    ensures r.Some? ==>
      r.value.1 == Strip(Reassembled(Outcomes(Segment(textContent).units, isAlnum, translate, completions)))
  {
    var sentences := Segment(textContent).units;
    var containsNonEnglish := false;
    var translatedText: seq<Option<string>> := seq(|sentences|, _ => None);
    ghost var seen: set<int> := {};
    for k := 0 to |order|
      invariant AllIn(order[..k], seen)
      invariant Filled(sentences, translatedText, seen, isAlnum, translate, completions)
      invariant containsNonEnglish <==> FlaggedWithin(order[..k], sentences, isAlnum)
    {
      var index := order[k];
      var sentence := sentences[index];
      var isEnglish := IsEnglishText(sentence, isAlnum);
      var translatedSentence: string;
      if !isEnglish {
        var t := TranslateToEnglish(sentence, DefaultChunkSize, translate, completions[index]);
        if t.None? {
          assert SentenceOut(sentences, index, isAlnum, translate, completions).None?;
          return None;
        }
        translatedSentence := t.value;
        containsNonEnglish := true;
      } else {
        translatedSentence := sentence;
      }
      FilledStep(sentences, translatedText, seen, index, isAlnum, translate, completions);
      translatedText := translatedText[index := Some(translatedSentence + " ")];
      AllInStep(order, k, seen);
      seen := seen + {index};
      FlaggedStep(order, k, sentences, isAlnum);
    }
    assert order[..|order|] == order;
    CheckOrderCovers(order, sentences, isAlnum);
    FilledSlots(sentences, translatedText, seen, order, isAlnum, translate, completions);
    var finalText := JoinStored(translatedText);
    r := Some((containsNonEnglish, Strip(finalText)));
  }

  /** The slots of the sentences checked so far (`seen`) hold their
      outcomes with a space after them; the others are still `None`. */
  predicate Filled(sentences: seq<string>, slots: seq<Option<string>>, seen: set<int>,
                   isAlnum: char -> bool, translate: string -> Option<string>, completions: seq<seq<int>>)
    requires |completions| == |sentences| && OrdersFit(sentences, completions)
  {
    |slots| == |sentences| &&
    (forall i :: i in seen ==> 0 <= i < |sentences| && Kept(sentences[i])) &&
    (forall i :: 0 <= i < |sentences| && i !in seen ==> slots[i].None?) &&
    (forall i :: i in seen ==>
      SentenceOut(sentences, i, isAlnum, translate, completions).Some? &&
      slots[i] == Some(SentenceOut(sentences, i, isAlnum, translate, completions).value + " "))
  }

  lemma FilledStep(sentences: seq<string>, slots: seq<Option<string>>, seen: set<int>, index: int,
                   isAlnum: char -> bool, translate: string -> Option<string>, completions: seq<seq<int>>)
    requires |completions| == |sentences| && OrdersFit(sentences, completions)
    requires Filled(sentences, slots, seen, isAlnum, translate, completions)
    requires 0 <= index < |sentences| && Kept(sentences[index])
    requires SentenceOut(sentences, index, isAlnum, translate, completions).Some?
    ensures Filled(sentences,
      slots[index := Some(SentenceOut(sentences, index, isAlnum, translate, completions).value + " ")],
      seen + {index}, isAlnum, translate, completions)
  {
  }

  /** Every element of `xs` is in `s`. */
  predicate AllIn(xs: seq<int>, s: set<int>) {
    forall j :: 0 <= j < |xs| ==> xs[j] in s
  }

  lemma AllInStep(order: seq<int>, k: nat, seen: set<int>)
    requires k < |order| && AllIn(order[..k], seen)
    ensures AllIn(order[..k + 1], seen + {order[k]})
  {
    assert order[..k + 1] == order[..k] + [order[k]];
  }

  /** Once every checked sentence has its slot, every kept sentence has one:
      the slots are the outcomes, each with a space after it. */
  lemma FilledSlots(sentences: seq<string>, slots: seq<Option<string>>, seen: set<int>, order: seq<int>,
                    isAlnum: char -> bool, translate: string -> Option<string>, completions: seq<seq<int>>)
    requires |completions| == |sentences| && OrdersFit(sentences, completions)
    requires IsCheckOrder(order, sentences)
    requires AllIn(order, seen)
    requires Filled(sentences, slots, seen, isAlnum, translate, completions)
    ensures AllOut(sentences, isAlnum, translate, completions)
    ensures Stored(slots) == Reassembled(Outcomes(sentences, isAlnum, translate, completions))
  {
    assert IsStoredFrom(slots, Outcomes(sentences, isAlnum, translate, completions)) by {
    forall i | 0 <= i < |sentences| && Kept(sentences[i]) ensures i in seen {
      assert i in order;
      var j :| 0 <= j < |order| && order[j] == i;
    }
    }
    StoredReassembled(slots, Outcomes(sentences, isAlnum, translate, completions));
  }

  /** Some sentence among those checked so far does not read as English. */
  predicate FlaggedWithin(checked: seq<int>, sentences: seq<string>, isAlnum: char -> bool)
    requires forall k :: 0 <= k < |checked| ==> 0 <= checked[k] < |sentences|
  {
    exists j :: 0 <= j < |checked| && !IsEnglishText(sentences[checked[j]], isAlnum)
  }

  lemma FlaggedStep(order: seq<int>, k: nat, sentences: seq<string>, isAlnum: char -> bool)
    requires k < |order| && IsCheckOrder(order, sentences)
    ensures FlaggedWithin(order[..k + 1], sentences, isAlnum) <==>
      FlaggedWithin(order[..k], sentences, isAlnum) || !IsEnglishText(sentences[order[k]], isAlnum)
  {
    assert order[..k + 1] == order[..k] + [order[k]];
    if FlaggedWithin(order[..k + 1], sentences, isAlnum) && !FlaggedWithin(order[..k], sentences, isAlnum) {
      var j :| 0 <= j < k + 1 && !IsEnglishText(sentences[order[..k + 1][j]], isAlnum);
      assert j == k;
    }
    if !IsEnglishText(sentences[order[k]], isAlnum) {
      assert order[..k + 1][k] == order[k];
    }
  }

  /** Every kept sentence is checked, so the flag is set exactly when some
      kept sentence does not read as English. */
  lemma CheckOrderCovers(order: seq<int>, sentences: seq<string>, isAlnum: char -> bool)
    requires IsCheckOrder(order, sentences)
    ensures FlaggedWithin(order, sentences, isAlnum) <==> NeedsTranslation(sentences, isAlnum)
  {
    if NeedsTranslation(sentences, isAlnum) {
      var i :| 0 <= i < |sentences| && Kept(sentences[i]) && !IsEnglishText(sentences[i], isAlnum);
      assert i in order;
      var j :| 0 <= j < |order| && order[j] == i;
    }
  }

  /** The text the second loop builds from the stored sentences: each one
      followed by a space unless it ends with a sentence ender. */
  function Stored(slots: seq<Option<string>>): string {
    if slots == [] then []
    else
      var last := slots[|slots| - 1];
      Stored(slots[..|slots| - 1]) +
      (if last.Some? && last.value != [] then
         last.value + (if last.value[|last.value| - 1] in SentenceEnders then [] else " ")
       else [])
  }

  /** The joining loop of `check_and_translate_non_english_content` (a
      `None` slot and an empty stored string are skipped alike). */
  method JoinStored(slots: seq<Option<string>>) returns (finalText: string)
    ensures finalText == Stored(slots)
  {
    finalText := "";
    for i := 0 to |slots|
      invariant finalText == Stored(slots[..i])
    {
      assert slots[..i + 1][..i] == slots[..i];
      var sentence := slots[i];
      if sentence.Some? && sentence.value != [] {
        finalText := finalText + sentence.value;
        if sentence.value[|sentence.value| - 1] !in SentenceEnders {
          finalText := finalText + " ";
        }
      }
    }
    assert slots[..|slots|] == slots;
  }

  /** The first loop stores each outcome with a space after it. */
  predicate IsStoredFrom(slots: seq<Option<string>>, outcomes: seq<Option<string>>) {
    |slots| == |outcomes| &&
    forall i :: 0 <= i < |slots| ==>
      slots[i] == (if outcomes[i].Some? then Some(outcomes[i].value + " ") else None)
  }

  /** Since every stored sentence ends with a space, the ender test never
      holds and each sentence with an outcome is followed by two spaces. */
  lemma {:induction false} StoredReassembled(slots: seq<Option<string>>, outcomes: seq<Option<string>>)
    requires IsStoredFrom(slots, outcomes)
    ensures Stored(slots) == Reassembled(outcomes)
  {
    if slots != [] {
      var n := |slots|;
      var init, oinit := slots[..n - 1], outcomes[..n - 1];
      assert IsStoredFrom(init, oinit) by {
        forall i | 0 <= i < n - 1
          ensures init[i] == (if oinit[i].Some? then Some(oinit[i].value + " ") else None)
        {
          assert init[i] == slots[i] && oinit[i] == outcomes[i];
        }
      }
      StoredReassembled(init, oinit);
      var last, olast := slots[n - 1], outcomes[n - 1];
      assert last == (if olast.Some? then Some(olast.value + " ") else None);
      if olast.Some? {
        var stored := olast.value + " ";
        assert stored[|stored| - 1] !in SentenceEnders;
        assert Stored(slots) == Stored(init) + (stored + " ");
        assert stored + " " == olast.value + "  ";
      }
    }
  }


  /** Joining outcomes only adds whitespace between the sentences. */
  lemma {:induction false} ReassembledNonSpace(outcomes: seq<Option<string>>, xs: seq<string>)
    requires |outcomes| == |xs|
    requires forall i :: 0 <= i < |xs| ==> outcomes[i] == Some(xs[i])
    ensures NonSpace(Reassembled(outcomes)) == NonSpace(Concat(xs))
  {
    if xs != [] {
      var n := |xs|;
      var init, oinit, x := xs[..n - 1], outcomes[..n - 1], xs[n - 1];
      assert forall i :: 0 <= i < |init| ==> oinit[i] == Some(init[i]);
      ReassembledNonSpace(oinit, init);
      assert init + [x] == xs;
      ConcatAppend(init, [x]);
      assert Concat([x]) == x + [] == x;
      assert Concat(xs) == Concat(init) + x;
      assert Reassembled(outcomes) == Reassembled(oinit) + (x + "  ");
      NonSpaceAppend(Reassembled(oinit), x + "  ");
      NonSpaceAppend(x, "  ");
      NonSpaceAppend(Concat(init), x);
      assert NonSpace("  ") == [];
      calc {
        NonSpace(Reassembled(outcomes));
        NonSpace(Reassembled(oinit)) + NonSpace(x + "  ");
        NonSpace(Concat(init)) + (NonSpace(x) + []);
        { assert NonSpace(x) + [] == NonSpace(x); }
        NonSpace(Concat(init) + x);
        NonSpace(Concat(xs));
      }
    } else {
      assert Concat(xs) == [];
    }
  }

  /** The dropped runs are whitespace, so the units hold every non-space
      character of the text. */
  lemma {:induction false} InterleaveNonSpace(units: seq<string>, gaps: seq<string>)
    requires |units| == |gaps| + 1
    requires forall k :: 0 <= k < |gaps| ==> AllSpace(gaps[k])
    ensures NonSpace(Interleave(units, gaps)) == NonSpace(Concat(units))
  {
    if gaps == [] {
      assert units[1..] == [];
      assert Concat(units) == units[0] + Concat(units[1..]) == units[0] + [] == units[0];
      assert Interleave(units, gaps) == units[0];
    } else {
      var rest := Interleave(units[1..], gaps[1..]);
      assert Interleave(units, gaps) == units[0] + gaps[0] + rest;
      assert Concat(units) == units[0] + Concat(units[1..]);
      assert forall k :: 0 <= k < |gaps[1..]| ==> AllSpace(gaps[1..][k]) by {
        forall k | 0 <= k < |gaps[1..]| ensures AllSpace(gaps[1..][k]) {
          assert gaps[1..][k] == gaps[k + 1];
        }
      }
      InterleaveNonSpace(units[1..], gaps[1..]);
      NonSpaceAppend(units[0] + gaps[0], rest);
      NonSpaceAppend(units[0], gaps[0]);
      AllSpaceNonSpace(gaps[0]);
      NonSpaceAppend(units[0], Concat(units[1..]));
      calc {
        NonSpace(Interleave(units, gaps));
        NonSpace(units[0]) + NonSpace(gaps[0]) + NonSpace(rest);
        { assert NonSpace(units[0]) + [] == NonSpace(units[0]); }
        NonSpace(units[0]) + NonSpace(Concat(units[1..]));
        NonSpace(Concat(units));
      }
    }
  }

  /** A text whose every sentence is long enough to be kept and reads as
      English comes back with the same non-space characters, in order:
      only whitespace changes, and nothing is translated. */
  lemma EnglishTextKept(textContent: string, isAlnum: char -> bool,
                        translate: string -> Option<string>, completions: seq<seq<int>>)
    requires |completions| == |Segment(textContent).units|
    requires OrdersFit(Segment(textContent).units, completions)
    requires forall i :: 0 <= i < |Segment(textContent).units| ==>
      Kept(Segment(textContent).units[i]) && IsEnglishText(Segment(textContent).units[i], isAlnum)
    ensures AllOut(Segment(textContent).units, isAlnum, translate, completions)
    ensures !NeedsTranslation(Segment(textContent).units, isAlnum)
    ensures NonSpace(Strip(Reassembled(Outcomes(Segment(textContent).units, isAlnum, translate, completions))))
      == NonSpace(textContent)
  {
    var seg := Segment(textContent);
    var units := seg.units;
    var outcomes := Outcomes(units, isAlnum, translate, completions);
    assert forall i :: 0 <= i < |units| ==> outcomes[i] == Some(units[i]);
    ReassembledNonSpace(outcomes, units);
    StripKeepsNonSpace(Reassembled(outcomes));
    SegmentRebuilds(textContent);
    SegmentGaps(textContent);
    InterleaveNonSpace(units, seg.gaps);
  }
}
