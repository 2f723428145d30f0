/**
 * Character classes and the handful of Python `str` operations that the
 * translation scripts rely on: `strip()`, `''.join(...)`, `sep.join(...)`.
 * Every operation is stated against the characters it keeps, so that the
 * scripts' segmenters and chunkers can be shown to lose nothing but
 * whitespace.
 */
module Text {

  datatype Option<+T> = None | Some(value: T)

  /** Python's `str.isspace()`, which is also what the `\s` class of `re`
      matches on `str` patterns: the ASCII controls TAB..CR and FS..US, SPACE,
      NEL, NO-BREAK SPACE and the Unicode separators. */
  predicate IsSpace(c: char) {
    ('\t' <= c <= '\r') || ('\U{1C}' <= c <= '\U{1F}') || c == ' ' ||
    c == '\U{85}' || c == '\U{A0}' || c == '\U{1680}' ||
    ('\U{2000}' <= c <= '\U{200A}') || c == '\U{2028}' || c == '\U{2029}' ||
    c == '\U{202F}' || c == '\U{205F}' || c == '\U{3000}'
  }

  /** Python's `str.isascii()` on a single character. */
  predicate IsAscii(c: char) {
    c as int < 128
  }

  predicate AllSpace(s: string) {
    forall i :: 0 <= i < |s| ==> IsSpace(s[i])
  }

  /** The characters of `s` that are not whitespace, in order. */
  function NonSpace(s: string): (r: string)
    ensures |r| <= |s|
  {
    if s == [] then []
    else if IsSpace(s[0]) then NonSpace(s[1..])
    else [s[0]] + NonSpace(s[1..])
  }

  /** `s.lstrip()`: the longest suffix of `s` that starts with a non-space. */
  function TrimStart(s: string): (r: string)
    ensures |r| <= |s|
  {
    if s != [] && IsSpace(s[0]) then TrimStart(s[1..]) else s
  }

  /** `lstrip()` keeps a suffix that starts with a non-space, and what it
      removes is whitespace. */
  lemma {:induction false} TrimStartDropsSpace(s: string)
    ensures TrimStart(s) == s[|s| - |TrimStart(s)|..]
    ensures TrimStart(s) == [] || !IsSpace(TrimStart(s)[0])
    ensures AllSpace(s[..|s| - |TrimStart(s)|])
  {
    if s != [] && IsSpace(s[0]) {
      TrimStartDropsSpace(s[1..]);
      assert s[1..][|s| - 1 - |TrimStart(s)|..] == s[|s| - |TrimStart(s)|..];
      var p := s[1..][..|s| - 1 - |TrimStart(s)|];
      assert s[..|s| - |TrimStart(s)|] == [s[0]] + p;
    }
  }

  /** `s.rstrip()`: the longest prefix of `s` that ends with a non-space. */
  function TrimEnd(s: string): (r: string)
    ensures |r| <= |s|
  {
    if s != [] && IsSpace(s[|s| - 1]) then TrimEnd(s[..|s| - 1]) else s
  }

  /** `rstrip()` keeps a prefix that ends with a non-space, and what it
      removes is whitespace. */
  lemma {:induction false} TrimEndDropsSpace(s: string)
    ensures TrimEnd(s) == s[..|TrimEnd(s)|]
    ensures TrimEnd(s) == [] || !IsSpace(TrimEnd(s)[|TrimEnd(s)| - 1])
    ensures AllSpace(s[|TrimEnd(s)|..])
  {
    if s != [] && IsSpace(s[|s| - 1]) {
      TrimEndDropsSpace(s[..|s| - 1]);
      assert s[..|s| - 1][..|TrimEnd(s)|] == s[..|TrimEnd(s)|];
      var q := s[..|s| - 1][|TrimEnd(s)|..];
      assert s[|TrimEnd(s)|..] == q + [s[|s| - 1]];
    }
  }

  /** `s.strip()`: what is left once the leading and trailing whitespace is
      gone (its facts are the lemmas that follow). */
  function Strip(s: string): (r: string)
    ensures |r| <= |s|
  {
    TrimEnd(TrimStart(s))
  }

  /** Stripping keeps every non-space character, in order. */
  lemma StripKeepsNonSpace(s: string)
    ensures NonSpace(Strip(s)) == NonSpace(s)
  {
    TrimStartNonSpace(s);
    TrimEndNonSpace(TrimStart(s));
  }

  lemma {:induction false} TrimStartNonSpace(s: string)
    ensures NonSpace(TrimStart(s)) == NonSpace(s)
  {
    if s != [] && IsSpace(s[0]) {
      TrimStartNonSpace(s[1..]);
    }
  }

  lemma {:induction false} TrimEndNonSpace(s: string)
    ensures NonSpace(TrimEnd(s)) == NonSpace(s)
  {
    if s != [] && IsSpace(s[|s| - 1]) {
      var init, last := s[..|s| - 1], s[|s| - 1];
      TrimEndNonSpace(init);
      assert s == init + [last];
      NonSpaceAppend(init, [last]);
      assert NonSpace([last]) == [];
    }
  }

  /** A stripped string is empty exactly when the input is all whitespace,
      and otherwise starts and ends with a non-space character; a last
      character that is not whitespace survives. */
  lemma StripEnds(s: string)
    ensures var r := Strip(s);
      (r == [] <==> AllSpace(s)) &&
      (r == [] || (!IsSpace(r[0]) && !IsSpace(r[|r| - 1]))) &&
      (s != [] && !IsSpace(s[|s| - 1]) ==> r != [] && r[|r| - 1] == s[|s| - 1])
  {
    var t := TrimStart(s);
    var r := TrimEnd(t);
    TrimStartDropsSpace(s);
    TrimEndDropsSpace(t);
    StripEmpty(s, t, r);
    if r != [] {
      assert r[0] == t[0];
    }
    if s != [] && !IsSpace(s[|s| - 1]) {
      assert t != [] && t[|t| - 1] == s[|s| - 1] by {
        assert s == s[..|s| - |t|] + t;
      }
      assert r == t;
    }
  }

  lemma StripEmpty(s: string, t: string, r: string)
    requires t == TrimStart(s) && r == TrimEnd(t)
    ensures r == [] <==> AllSpace(s)
  {
    var p := s[..|s| - |t|];
    TrimStartDropsSpace(s);
    TrimEndDropsSpace(t);
    assert s == p + t;
    if r == [] {
      assert t[|r|..] == t;
      assert t == [];
      assert s == p;
    } else {
      assert s[|p|] == t[0] && !IsSpace(t[0]);
    }
  }

  lemma AllSpaceNonSpace(s: string)
    requires AllSpace(s)
    ensures NonSpace(s) == []
  {
    if s != [] {
      AllSpaceNonSpace(s[1..]);
    }
  }

  lemma {:induction false} NonSpaceAppend(a: string, b: string)
    ensures NonSpace(a + b) == NonSpace(a) + NonSpace(b)
  {
    if a == [] {
      assert a + b == b;
    } else {
      assert (a + b)[1..] == a[1..] + b;
      NonSpaceAppend(a[1..], b);
    }
  }

  /** `''.join(xs)` */
  function Concat(xs: seq<string>): string {
    if xs == [] then [] else xs[0] + Concat(xs[1..])
  }

  /** `sep.join(xs)` */
  function Join(sep: string, xs: seq<string>): string {
    if xs == [] then []
    else if |xs| == 1 then xs[0]
    else xs[0] + sep + Join(sep, xs[1..])
  }

  /** The lists of a list of lists, one after the other. */
  function Flatten<T>(xss: seq<seq<T>>): seq<T> {
    if xss == [] then [] else xss[0] + Flatten(xss[1..])
  }

  lemma {:induction false} ConcatAppend(xs: seq<string>, ys: seq<string>)
    ensures Concat(xs + ys) == Concat(xs) + Concat(ys)
  {
    if xs == [] {
      assert xs + ys == ys;
    } else {
      assert (xs + ys)[1..] == xs[1..] + ys;
      ConcatAppend(xs[1..], ys);
    }
  }

  lemma {:induction false} FlattenAppend<T>(xss: seq<seq<T>>, yss: seq<seq<T>>)
    ensures Flatten(xss + yss) == Flatten(xss) + Flatten(yss)
  {
    if xss == [] {
      assert xss + yss == yss;
    } else {
      assert (xss + yss)[1..] == xss[1..] + yss;
      FlattenAppend(xss[1..], yss);
    }
  }

  lemma {:induction false} JoinAppendOne(sep: string, xs: seq<string>, x: string)
    ensures Join(sep, xs + [x]) == if xs == [] then x else Join(sep, xs) + sep + x
  {
    if |xs| == 1 {
      assert xs + [x] == [xs[0], x];
    } else if |xs| > 1 {
      assert (xs + [x])[1..] == xs[1..] + [x];
      JoinAppendOne(sep, xs[1..], x);
    }
  }

  /** Joining two non-empty lists puts one `sep` between their joins. */
  lemma {:induction false} JoinAppend(sep: string, a: seq<string>, b: seq<string>)
    requires a != [] && b != []
    ensures Join(sep, a + b) == Join(sep, a) + sep + Join(sep, b)
  {
    assert (a + b)[0] == a[0];
    assert (a + b)[1..] == a[1..] + b;
    if |a| > 1 {
      JoinAppend(sep, a[1..], b);
    }
  }

  /** Joining with `sep` only adds copies of `sep` between the parts: when
      `sep` is whitespace, the non-space characters are those of the parts. */
  lemma {:induction false} NonSpaceJoin(sep: string, xs: seq<string>)
    requires AllSpace(sep)
    ensures NonSpace(Join(sep, xs)) == NonSpace(Concat(xs))
  {
    if |xs| == 1 {
      assert xs[1..] == [];
      assert Concat(xs) == xs[0] + [] == xs[0];
    } else if |xs| > 1 {
      NonSpaceJoin(sep, xs[1..]);
      NonSpaceAppend(xs[0] + sep, Join(sep, xs[1..]));
      NonSpaceAppend(xs[0], sep);
      NonSpaceAppend(xs[0], Concat(xs[1..]));
      AllSpaceNonSpace(sep);
    }
  }

  /** `[line.strip() for line in lines]` */
  function StripEach(lines: seq<string>): (r: seq<string>)
    ensures |r| == |lines|
  {
    if lines == [] then [] else [Strip(lines[0])] + StripEach(lines[1..])
  }

  /** Stripping each part keeps the non-space characters of the parts. */
  lemma {:induction false} StripEachNonSpace(lines: seq<string>)
    ensures NonSpace(Concat(StripEach(lines))) == NonSpace(Concat(lines))
  {
    if lines != [] {
      StripEachNonSpace(lines[1..]);
      StripKeepsNonSpace(lines[0]);
      NonSpaceAppend(Strip(lines[0]), Concat(StripEach(lines[1..])));
      NonSpaceAppend(lines[0], Concat(lines[1..]));
    }
  }

  /** Every part has a translation: `None` stands for a call to the
      translation provider that raised. */
  predicate AllTranslate(chunks: seq<string>, translate: string -> Option<string>) {
    forall k :: 0 <= k < |chunks| ==> translate(chunks[k]).Some?
  }

  /** The translations of the parts, in order. */
  function Translations(chunks: seq<string>, translate: string -> Option<string>): (r: seq<string>)
    requires AllTranslate(chunks, translate)
    ensures |r| == |chunks|
    ensures forall k :: 0 <= k < |chunks| ==> Some(r[k]) == translate(chunks[k])
  {
    seq(|chunks|, k requires 0 <= k < |chunks| => translate(chunks[k]).value)
  }
}
