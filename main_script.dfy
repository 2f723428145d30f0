/**
 * The text handling of the command-line script: merging the OCR text files
 * of a folder into one text, cutting that text into chunks the translation
 * service accepts, and joining the translated chunks again.
 */
module MainScript {
  import opened Text

  // ---------------------------------------------------------------------
  // merge_text_files
  // ---------------------------------------------------------------------

  /** A directory entry as the script reads it: its name and, as
      `readlines()` gives them, its lines. */
  datatype TextFile = TextFile(name: string, lines: seq<string>)

  /** `name.endswith('.txt')` */
  predicate IsTxt(name: string) {
    |name| >= 4 && name[|name| - 4..] == ".txt"
  }

  /** What one directory entry adds to the merged text: for a `.txt` file with
      at least one line, its stripped first line, a newline, its remaining
      lines stripped and run together, and a blank line. */
  function FileBlock(f: TextFile): string {
    if IsTxt(f.name) && f.lines != [] then
      Strip(f.lines[0]) + "\n" + Concat(StripEach(f.lines[1..])) + "\n\n"
    else []
  }

  /** The blocks of all entries, in listing order (before the final strip). */
  function Blocks(files: seq<TextFile>): string {
    if files == [] then []
    else Blocks(files[..|files| - 1]) + FileBlock(files[|files| - 1])
  }

  /** The text of the `.txt` entries, line after line, unstripped. */
  function TxtContent(files: seq<TextFile>): string {
    if files == [] then []
    else
      TxtContent(files[..|files| - 1]) +
      (if IsTxt(files[|files| - 1].name) then Concat(files[|files| - 1].lines) else [])
  }

  /** The listing is a parameter: it stands for `os.listdir(folder_path)`. */
  method MergeTextFiles(files: seq<TextFile>) returns (merged: string)
    ensures merged == Strip(Blocks(files))
    ensures NonSpace(merged) == NonSpace(TxtContent(files))
  {
    var combined := "";
    var k := 0;
    while k < |files|
      invariant 0 <= k <= |files|
      invariant combined == Blocks(files[..k])
    {
      var f := files[k];
      if IsTxt(f.name) {
        if f.lines != [] {
          var firstLine := Strip(f.lines[0]);
          var remainingLines := Concat(StripEach(f.lines[1..]));
          combined := combined + firstLine + "\n" + remainingLines + "\n\n";
        }
      }
      assert files[..k + 1][..k] == files[..k];
      k := k + 1;
    }
    assert files[..k] == files;
    merged := Strip(combined);
    MergedNonSpace(files);
  }

  /** A block keeps every non-space character of a `.txt` file, and an entry
      that is not a `.txt` file adds none. */
  lemma FileBlockNonSpace(f: TextFile)
    ensures NonSpace(FileBlock(f)) == if IsTxt(f.name) then NonSpace(Concat(f.lines)) else []
  {
    if IsTxt(f.name) && f.lines != [] {
      var first, rest := Strip(f.lines[0]), Concat(StripEach(f.lines[1..]));
      NonSpaceAppend(first + "\n" + rest, "\n\n");
      NonSpaceAppend(first + "\n", rest);
      NonSpaceAppend(first, "\n");
      assert NonSpace("\n\n") == [] && NonSpace("\n") == [];
      StripEachNonSpace(f.lines[1..]);
      StripKeepsNonSpace(f.lines[0]);
      NonSpaceAppend(f.lines[0], Concat(f.lines[1..]));
    }
  }

  /** Merging loses only whitespace: the non-space characters of the merged
      text are those of the `.txt` files, in listing and line order. */
  lemma {:induction false} MergedNonSpace(files: seq<TextFile>)
    ensures NonSpace(Strip(Blocks(files))) == NonSpace(TxtContent(files))
  {
    BlocksNonSpace(files);
    StripKeepsNonSpace(Blocks(files));
  }

  lemma {:induction false} BlocksNonSpace(files: seq<TextFile>)
    ensures NonSpace(Blocks(files)) == NonSpace(TxtContent(files))
  {
    if files != [] {
      var init, last := files[..|files| - 1], files[|files| - 1];
      BlocksNonSpace(init);
      FileBlockNonSpace(last);
      NonSpaceAppend(Blocks(init), FileBlock(last));
      NonSpaceAppend(TxtContent(init), if IsTxt(last.name) then Concat(last.lines) else []);
    }
  }

  // ---------------------------------------------------------------------
  // split_text
  // ---------------------------------------------------------------------

  /** `text.rfind(c, 0, end)`: the last index below `end` that holds `c`,
      or -1 when there is none. */
  function RFind(text: string, c: char, end: nat): (r: int)
    requires end <= |text|
    ensures -1 <= r < end
    ensures r >= 0 ==> text[r] == c
  {
    if end == 0 then -1
    else if text[end - 1] == c then end - 1
    else RFind(text, c, end - 1)
  }

  /** `rfind` finds the last occurrence: none lies after it below `end`. */
  lemma {:induction false} RFindIsLast(text: string, c: char, end: nat)
    requires end <= |text|
    ensures forall i :: RFind(text, c, end) < i < end ==> text[i] != c
  {
    if end > 0 && text[end - 1] != c {
      RFindIsLast(text, c, end - 1);
    }
  }

  /** `split_index` in `split_text`: the last '.' among the first
      `maxLength` characters, or `maxLength` itself when there is none. */
  function CutIndex(text: string, maxLength: nat): nat
    requires |text| > maxLength
  {
    var k := RFind(text, '.', maxLength);
    if k == -1 then maxLength else k
  }

  /** The chunks `split_text` returns: cut after the cut index, strip the
      rest and go on while the rest is longer than `maxLength`. */
  function SplitChunks(text: string, maxLength: nat): (chunks: seq<string>)
    ensures |chunks| >= 1
    decreases |text|
  {
    if |text| <= maxLength then [text]
    else [Head(text, maxLength)] + SplitChunks(Rest(text, maxLength), maxLength)
  }

  /** The chunk cut off the front: `text[:split_index+1]`. */
  function Head(text: string, maxLength: nat): string
    requires |text| > maxLength
  {
    text[..CutIndex(text, maxLength) + 1]
  }

  /** What is left to split: `text[split_index+1:].strip()`, always shorter. */
  function Rest(text: string, maxLength: nat): (r: string)
    requires |text| > maxLength
    ensures |r| < |text|
  {
    Strip(text[CutIndex(text, maxLength) + 1..])
  }

  /** A chunk before the last one: either it ends with a '.' and fits the
      budget, or no '.' was found and it is one character over it. */
  predicate InnerChunk(c: string, maxLength: nat) {
    (0 < |c| <= maxLength && c[|c| - 1] == '.') ||
    (|c| == maxLength + 1 && forall i :: 0 <= i < maxLength ==> c[i] != '.')
  }

  /** `split_text`. `max_length` is a `nat`: with a negative budget the
      source loops forever. */
  method SplitText(text: string, maxLength: nat) returns (chunks: seq<string>)
    ensures chunks == SplitChunks(text, maxLength)
    ensures |text| <= maxLength ==> chunks == [text]
    ensures forall k :: 0 <= k < |chunks| - 1 ==> InnerChunk(chunks[k], maxLength)
    ensures |chunks[|chunks| - 1]| <= maxLength
    ensures NonSpace(Concat(chunks)) == NonSpace(text)
  {
    chunks := [];
    var rest := text;
    while |rest| > maxLength
      invariant chunks + SplitChunks(rest, maxLength) == SplitChunks(text, maxLength)
      decreases |rest|
    {
      var splitIndex := RFind(rest, '.', maxLength);
      if splitIndex == -1 {
        splitIndex := maxLength;
      }
      assert rest[..splitIndex + 1] == Head(rest, maxLength);
      assert Strip(rest[splitIndex + 1..]) == Rest(rest, maxLength);
      chunks := chunks + [rest[..splitIndex + 1]];
      rest := Strip(rest[splitIndex + 1..]);
    }
    chunks := chunks + [rest];
    SplitChunksShape(text, maxLength);
    SplitChunksNonSpace(text, maxLength);
  }

  /** The first cut of a text over the budget: after the last '.' among the
      first `maxLength` characters when there is one, so the chunk ends with
      that '.' and fits; otherwise the first `maxLength + 1` characters. */
  lemma SplitFirstChunk(text: string, maxLength: nat)
    requires |text| > maxLength
    ensures var first := SplitChunks(text, maxLength)[0];
      |first| <= |text| && first == text[..|first|] &&
      if exists j :: 0 <= j < maxLength && text[j] == '.' then
        0 < |first| <= maxLength && first[|first| - 1] == '.' &&
        forall j :: |first| <= j < maxLength ==> text[j] != '.'
      else
        first == text[..maxLength + 1]
  {
    assert SplitChunks(text, maxLength)[0] == Head(text, maxLength);
    RFindIsLast(text, '.', maxLength);
  }

  lemma {:induction false} SplitChunksLast(text: string, maxLength: nat)
    ensures var chunks := SplitChunks(text, maxLength); |chunks[|chunks| - 1]| <= maxLength
    decreases |text|
  {
    if |text| > maxLength {
      var tail := SplitChunks(Rest(text, maxLength), maxLength);
      SplitChunksLast(Rest(text, maxLength), maxLength);
      var chunks := [Head(text, maxLength)] + tail;
      assert chunks[|chunks| - 1] == tail[|tail| - 1];
    }
  }

  /** Every chunk but the last is cut at a '.' within the budget or, with no
      '.' in reach, one character past it; the last one fits the budget. */
  lemma {:induction false} SplitChunksShape(text: string, maxLength: nat)
    ensures var chunks := SplitChunks(text, maxLength);
      (forall k :: 0 <= k < |chunks| - 1 ==> InnerChunk(chunks[k], maxLength)) &&
      |chunks[|chunks| - 1]| <= maxLength
    decreases |text|
  {
    SplitChunksLast(text, maxLength);
    if |text| > maxLength {
      var c, rest := Head(text, maxLength), Rest(text, maxLength);
      var tail := SplitChunks(rest, maxLength);
      SplitChunksShape(rest, maxLength);
      assert InnerChunk(c, maxLength) by {
        if RFind(text, '.', maxLength) == -1 {
          RFindIsLast(text, '.', maxLength);
          forall j | 0 <= j < maxLength ensures c[j] != '.' {
            assert c[j] == text[j];
          }
        }
      }
      var chunks := [c] + tail;
      forall k | 0 <= k < |chunks| - 1 ensures InnerChunk(chunks[k], maxLength) {
        if k > 0 {
          assert chunks[k] == tail[k - 1];
        }
      }
    }
  }

  /** Chunking loses only the whitespace stripped at the cuts: no
      non-space character is dropped, duplicated or moved. */
  lemma {:induction false} SplitChunksNonSpace(text: string, maxLength: nat)
    ensures NonSpace(Concat(SplitChunks(text, maxLength))) == NonSpace(text)
    decreases |text|
  {
    if |text| <= maxLength {
      assert Concat([text]) == text + Concat([]);
      assert text + [] == text;
    } else {
      var i := CutIndex(text, maxLength);
      var c, rest := Head(text, maxLength), Rest(text, maxLength);
      var tail := SplitChunks(rest, maxLength);
      assert ([c] + tail)[1..] == tail;
      assert Concat([c] + tail) == c + Concat(tail);
      SplitChunksNonSpace(rest, maxLength);
      StripKeepsNonSpace(text[i + 1..]);
      NonSpaceAppend(c, Concat(tail));
      assert text == c + text[i + 1..];
      NonSpaceAppend(c, text[i + 1..]);
    }
  }

  // ---------------------------------------------------------------------
  // translate_text
  // ---------------------------------------------------------------------

  /** `translate_text`: the translator stands for the remote provider and
      `None` for a call that raised; the script then exits, which is the
      `None` result here. */
  method TranslateText(chunks: seq<string>, translate: string -> Option<string>) returns (r: Option<string>)
    ensures r.Some? <==> AllTranslate(chunks, translate)
    ensures r.Some? ==> r.value == Join(" ", Translations(chunks, translate))
  {
    var translatedChunks: seq<string> := [];
    var k := 0;
    while k < |chunks|
      invariant 0 <= k <= |chunks|
      invariant AllTranslate(chunks[..k], translate)
      invariant translatedChunks == Translations(chunks[..k], translate)
    {
      var translated := translate(chunks[k]);
      if translated.None? {
        return None;
      }
      assert chunks[..k + 1] == chunks[..k] + [chunks[k]];
      translatedChunks := translatedChunks + [translated.value];
      k := k + 1;
    }
    assert chunks[..k] == chunks;
    r := Some(Join(" ", translatedChunks));
  }

  /** With a translator that returns its input, splitting and re-joining
      gives back the merged text up to whitespace. */
  lemma IdentityTranslationKeepsText(text: string, maxLength: nat)
    ensures var chunks := SplitChunks(text, maxLength);
      AllTranslate(chunks, x => Some(x)) &&
      NonSpace(Join(" ", Translations(chunks, x => Some(x)))) == NonSpace(text)
  {
    var chunks := SplitChunks(text, maxLength);
    assert Translations(chunks, x => Some(x)) == chunks;
    NonSpaceJoin(" ", chunks);
    SplitChunksNonSpace(text, maxLength);
  }
}
