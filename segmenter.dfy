/** Chapter segmentation, the first half of `Txt2Epub.create_epub`
    (text2epub.py:44-90): the manuscript text becomes an ordered sequence of
    (title, body) chapters, either at the matches of a chapter pattern or at
    runs of three line breaks. */
module Segmenter {
  import opened Wrappers
  import opened Strings

  datatype Chapter = Chapter(title: string, body: string)

  /** The title given to a chapter that has none. */
  const UNTITLED := "Untitled"

  /** The separator of the default mode: three line breaks in a row. */
  const CHAPTER_BREAK := "\n\n\n"

  /** A match of the chapter pattern, as the regular expression engine reports
      it: `match.start()` and `match.end()`. */
  datatype Span = Span(start: nat, end: nat)

  /** What `re.finditer` yields: spans inside the text, each ending no later
      than the next one starts. Empty spans are allowed. */
  predicate WellFormedMatches(text: string, ms: seq<Span>) {
    (forall i :: 0 <= i < |ms| ==> ms[i].start <= ms[i].end <= |text|)
    && (forall i :: 0 <= i < |ms| - 1 ==> ms[i].end <= ms[i + 1].start)
  }

  /** `if chapter_regex:` -- an absent or empty pattern selects the default mode. */
  predicate PatternMode(pattern: Option<string>) {
    pattern.Some? && pattern.value != []
  }

  // ---- pattern mode ----------------------------------------------------

  /** Where the body of chapter `i` ends: at the next match, or at the end of
      the text for the last one. */
  function BodyEnd(text: string, ms: seq<Span>, i: nat): (e: nat)
    requires WellFormedMatches(text, ms) && i < |ms|
    ensures ms[i].end <= e <= |text|
  {
    if i < |ms| - 1 then ms[i + 1].start else |text|
  }

  /** The chapter match `i` starts: the match text without its trailing
      whitespace, and the stripped text up to the next match. */
  function MatchChapter(text: string, ms: seq<Span>, i: nat): Chapter
    requires WellFormedMatches(text, ms) && i < |ms|
  {
    Chapter(RStrip(text[ms[i].start..ms[i].end]), Strip(text[ms[i].end..BodyEnd(text, ms, i)]))
  }

  /** The chapters of pattern mode, as a function of the text and the matches. */
  function PatternChapters(text: string, ms: seq<Span>): seq<Chapter>
    requires WellFormedMatches(text, ms)
  {
    if ms == [] then [Chapter(UNTITLED, text)]
    else seq(|ms|, i requires 0 <= i < |ms| => MatchChapter(text, ms, i))
  }

  /** The loop of text2epub.py:53-72. */
  method SplitAtMatches(text: string, ms: seq<Span>) returns (chapters: seq<Chapter>)
    requires WellFormedMatches(text, ms)
    ensures chapters == PatternChapters(text, ms)
    ensures ms == [] ==> chapters == [Chapter(UNTITLED, text)]
    ensures ms != [] ==> |chapters| == |ms|
    ensures forall i :: 0 <= i < |ms| ==>
              chapters[i].title == RStrip(text[ms[i].start..ms[i].end]) &&
              chapters[i].body == Strip(text[ms[i].end..BodyEnd(text, ms, i)])
  {
    if |ms| == 0 {
      return [Chapter(UNTITLED, text)];
    }
    chapters := [];
    var i := 0;
    while i < |ms|
      invariant 0 <= i <= |ms|
      invariant |chapters| == i
      invariant forall j :: 0 <= j < i ==> chapters[j] == MatchChapter(text, ms, j)
    {
      var m := ms[i];
      var title := RStrip(text[m.start..m.end]);
      var end := if i < |ms| - 1 then ms[i + 1].start else |text|;
      var content := Strip(text[m.end..end]);
      chapters := chapters + [Chapter(title, content)];
      i := i + 1;
    }
  }

  /** Matches start in order, so none starts before the first. */
  lemma {:induction false} StartsAfterFirst(text: string, ms: seq<Span>, i: nat)
    requires WellFormedMatches(text, ms) && i < |ms|
    ensures ms[0].start <= ms[i].start
  {
    if i > 0 {
      StartsAfterFirst(text, ms, i - 1);
    }
  }

  /** Text before the first match belongs to no chapter: two texts that agree
      from the first match on yield the same chapters. */
  lemma PreambleDropped(t1: string, t2: string, ms: seq<Span>)
    requires WellFormedMatches(t1, ms) && ms != []
    requires |t1| == |t2| && t1[ms[0].start..] == t2[ms[0].start..]
    ensures WellFormedMatches(t2, ms)
    ensures PatternChapters(t1, ms) == PatternChapters(t2, ms)
  {
    var p := ms[0].start;
    forall a, b | p <= a <= b <= |t1| ensures t1[a..b] == t2[a..b] {
      assert t1[a..b] == t1[p..][a - p..b - p];
      assert t2[a..b] == t2[p..][a - p..b - p];
    }
    forall i | 0 <= i < |ms| ensures MatchChapter(t1, ms, i) == MatchChapter(t2, ms, i) {
      StartsAfterFirst(t1, ms, i);
    }
  }

  /** The stretch of text that chapter `i` is made from: its match and what
      follows up to the next match. */
  function Stretch(text: string, ms: seq<Span>, i: nat): string
    requires WellFormedMatches(text, ms) && i < |ms|
  {
    text[ms[i].start..BodyEnd(text, ms, i)]
  }

  function Concat(parts: seq<string>): string {
    if parts == [] then [] else parts[0] + Concat(parts[1..])
  }

  /** The chapters' stretches tile the text from the first match to the end,
      without overlap or reordering. */
  lemma {:induction false} StretchesTile(text: string, ms: seq<Span>)
    requires WellFormedMatches(text, ms) && ms != []
    ensures Concat(seq(|ms|, i requires 0 <= i < |ms| => Stretch(text, ms, i))) == text[ms[0].start..]
    decreases |ms|
  {
    var parts := seq(|ms|, i requires 0 <= i < |ms| => Stretch(text, ms, i));
    if |ms| > 1 {
      var rest := ms[1..];
      StretchesTile(text, rest);
      var restParts := seq(|rest|, i requires 0 <= i < |rest| => Stretch(text, rest, i));
      assert parts[1..] == restParts by {
        forall i | 0 <= i < |rest| ensures parts[1..][i] == restParts[i] {
          assert BodyEnd(text, rest, i) == BodyEnd(text, ms, i + 1);
        }
      }
      assert text[ms[0].start..] == text[ms[0].start..ms[1].start] + text[ms[1].start..];
    }
  }

  /** Each stretch is the match text followed by the raw body. The title is a
      prefix of the match text, and the body lies at some offset `k` inside the
      raw body with only whitespace around it. */
  lemma ChapterWithinStretch(text: string, ms: seq<Span>, i: nat) returns (k: nat)
    requires WellFormedMatches(text, ms) && i < |ms|
    ensures Stretch(text, ms, i) == text[ms[i].start..ms[i].end] + text[ms[i].end..BodyEnd(text, ms, i)]
    ensures MatchChapter(text, ms, i).title <= text[ms[i].start..ms[i].end]
    ensures ms[i].end + k + |MatchChapter(text, ms, i).body| <= BodyEnd(text, ms, i)
    ensures text[ms[i].end + k..ms[i].end + k + |MatchChapter(text, ms, i).body|] == MatchChapter(text, ms, i).body
    ensures AllSpace(text[ms[i].end..ms[i].end + k])
  {
    var st, en, e := ms[i].start, ms[i].end, BodyEnd(text, ms, i);
    assert text[st..e] == text[st..en] + text[en..e];
    RStripSpec(text[st..en]);
    k := StripInside(text, en, e);
  }

  /** The stripped slice `text[lo..hi]` sits at some offset `k` past `lo`
      with only whitespace before it. */
  lemma StripInside(text: string, lo: nat, hi: nat) returns (k: nat)
    requires lo <= hi <= |text|
    ensures lo + k + |Strip(text[lo..hi])| <= hi
    ensures text[lo + k..lo + k + |Strip(text[lo..hi])|] == Strip(text[lo..hi])
    ensures AllSpace(text[lo..lo + k])
  {
    var gap := text[lo..hi];
    k := StripSplitsOff(gap);
    var b := Strip(gap);
    assert gap[k..k + |b|] == b by {
      assert gap == gap[..k] + b + gap[k + |b|..];
    }
    SliceOfSlice(text, lo, hi, k, k + |b|);
    SliceOfSlice(text, lo, hi, 0, k);
  }

  /** A slice of a slice is a slice of the whole. */
  lemma SliceOfSlice(s: string, lo: nat, hi: nat, a: nat, b: nat)
    requires lo <= hi <= |s| && a <= b <= hi - lo
    ensures s[lo..hi][a..b] == s[lo + a..lo + b]
  {
    forall j | 0 <= j < b - a ensures s[lo..hi][a..b][j] == s[lo + a..lo + b][j] {
      assert s[lo..hi][a..b][j] == s[lo..hi][a + j] == s[lo + a + j];
    }
  }

  // ---- default mode ----------------------------------------------------

  /** Indices of the strings in `s` that do not strip to nothing, in order. */
  function NonBlankIndices(s: seq<string>): (r: seq<nat>)
    ensures forall j :: 0 <= j < |r| ==> r[j] < |s|
  {
    if s == [] then []
    else
      var r0 := NonBlankIndices(s[..|s| - 1]);
      if Strip(s[|s| - 1]) != [] then r0 + [|s| - 1] else r0
  }

  /** The kept indices are exactly those of the non-blank strings, increasing. */
  lemma {:induction false} NonBlankIndicesSpec(s: seq<string>)
    ensures |NonBlankIndices(s)| <= |s|
    ensures forall j :: 0 <= j < |NonBlankIndices(s)| ==> Strip(s[NonBlankIndices(s)[j]]) != []
    ensures forall j, k :: 0 <= j < k < |NonBlankIndices(s)| ==> NonBlankIndices(s)[j] < NonBlankIndices(s)[k]
    ensures forall i :: 0 <= i < |s| && Strip(s[i]) != [] ==> i in NonBlankIndices(s)
  {
    if s != [] {
      var n := |s| - 1;
      var init := s[..n];
      NonBlankIndicesSpec(init);
      var r0 := NonBlankIndices(init);
      assert forall i :: 0 <= i < n ==> init[i] == s[i];
      if Strip(s[n]) != [] {
        assert NonBlankIndices(s) == r0 + [n];
        assert forall j :: 0 <= j < |r0| ==> (r0 + [n])[j] == r0[j];
      } else {
        assert NonBlankIndices(s) == r0;
      }
    }
  }

  /** Extending the strings by one extends the kept indices by that one's index
      when it is not blank. */
  lemma NonBlankStep(s: seq<string>, i: nat)
    requires i < |s|
    ensures NonBlankIndices(s[..i + 1]) ==
            NonBlankIndices(s[..i]) + (if Strip(s[i]) != [] then [i] else [])
  {
    assert s[..i + 1][..i] == s[..i];
  }

  /** Nothing is kept of strings that are all blank. */
  lemma {:induction false} NoneKept(s: seq<string>)
    requires forall i :: 0 <= i < |s| ==> Strip(s[i]) == []
    ensures NonBlankIndices(s) == []
  {
    if s != [] {
      NoneKept(s[..|s| - 1]);
    }
  }

  /** The chapter made of one non-blank piece (text2epub.py:82-88). */
  function PieceChapter(piece: string): Chapter {
    var lines := SplitOnce(piece, '\n');
    if |lines| > 1 then Chapter(Strip(lines[0]), Strip(lines[1]))
    else Chapter(UNTITLED, Strip(lines[0]))
  }

  /** A piece with a line break is titled by its stripped first line and has
      the stripped rest as body; a single-line piece is untitled. */
  lemma PieceChapterShape(piece: string)
    ensures forall i :: 0 <= i < |piece| && piece[i] == '\n' && Lacks(piece[..i], '\n') ==>
              PieceChapter(piece) == Chapter(Strip(piece[..i]), Strip(piece[i + 1..]))
    ensures Lacks(piece, '\n') ==> PieceChapter(piece) == Chapter(UNTITLED, Strip(piece))
  {
    var lines := SplitOnce(piece, '\n');
    SplitOnceSpec(piece, '\n');
    if |lines| == 2 {
      assert piece[|lines[0]|] == '\n';
    }
    forall i | 0 <= i < |piece| && piece[i] == '\n' && Lacks(piece[..i], '\n')
      ensures PieceChapter(piece) == Chapter(Strip(piece[..i]), Strip(piece[i + 1..]))
    {
      if |lines| == 2 {
        assert |lines[0]| == i;
        assert lines[0] == piece[..i];
        assert lines[1] == piece[i + 1..];
      }
    }
  }

  /** The chapters of default mode, as a function of the pieces of the text. */
  function PieceChapters(parts: seq<string>): seq<Chapter> {
    var kept := NonBlankIndices(parts);
    seq(|kept|, j requires 0 <= j < |kept| => PieceChapter(parts[kept[j]]))
  }

  /** The loop of text2epub.py:75-90. */
  method SplitAtBreaks(text: string) returns (chapters: seq<Chapter>)
    ensures chapters == PieceChapters(Split(text, CHAPTER_BREAK))
  {
    var parts := Split(text, CHAPTER_BREAK);
    chapters := [];
    ghost var kept: seq<nat> := [];
    for i := 0 to |parts|
      invariant kept == NonBlankIndices(parts[..i])
      invariant |chapters| == |kept|
      invariant forall j :: 0 <= j < |kept| ==> kept[j] < i && chapters[j] == PieceChapter(parts[kept[j]])
    {
      NonBlankStep(parts, i);
      if Strip(parts[i]) == [] {
        continue;
      }
      var lines := SplitOnce(parts[i], '\n');
      var title, content;
      if |lines| > 1 {
        title := Strip(lines[0]);
        content := Strip(lines[1]);
      } else {
        title := UNTITLED;
        content := Strip(lines[0]);
      }
      chapters := chapters + [Chapter(title, content)];
      kept := kept + [i];
    }
    assert parts[..|parts|] == parts;
  }

  /** Default mode keeps the non-blank pieces, in order, one chapter each:
      chapter `j` is made of piece `kept[j]`, and every non-blank piece is kept. */
  lemma PieceChaptersCorrespond(parts: seq<string>)
    ensures |PieceChapters(parts)| == |NonBlankIndices(parts)| <= |parts|
    ensures forall j :: 0 <= j < |PieceChapters(parts)| ==>
              Strip(parts[NonBlankIndices(parts)[j]]) != [] &&
              PieceChapters(parts)[j] == PieceChapter(parts[NonBlankIndices(parts)[j]])
    ensures forall j, k :: 0 <= j < k < |NonBlankIndices(parts)| ==>
              NonBlankIndices(parts)[j] < NonBlankIndices(parts)[k]
    ensures forall i :: 0 <= i < |parts| && Strip(parts[i]) != [] ==> i in NonBlankIndices(parts)
  {
    NonBlankIndicesSpec(parts);
  }

  /** A blank text (the empty text included) has no chapters in default mode. */
  lemma BlankTextNoChapters(text: string)
    requires AllSpace(text)
    ensures PieceChapters(Split(text, CHAPTER_BREAK)) == []
  {
    var parts := Split(text, CHAPTER_BREAK);
    SplitBlank(text, CHAPTER_BREAK);
    forall k | 0 <= k < |parts| ensures Strip(parts[k]) == [] {
      StripEmptyIffBlank(parts[k]);
    }
    NoneKept(parts);
  }

  /** Text without a chapter break is one piece: one chapter when it is not
      blank, none when it is. */
  lemma NoBreakOneChapter(text: string)
    requires Free(text, CHAPTER_BREAK)
    ensures Strip(text) != [] ==> PieceChapters(Split(text, CHAPTER_BREAK)) == [PieceChapter(text)]
    ensures Strip(text) == [] ==> PieceChapters(Split(text, CHAPTER_BREAK)) == []
  {
    SplitOfFree(text, CHAPTER_BREAK);
    assert [text][..0] == [];
    assert NonBlankIndices([text]) == if Strip(text) != [] then [0] else [];
  }

  /** Splitting a text that holds no separator gives the text back. */
  lemma {:induction false} SplitOfFree(s: string, sep: string)
    requires sep != [] && Free(s, sep)
    ensures Split(s, sep) == [s]
    decreases |s|
  {
    if |s| >= |sep| {
      assert !OccursAt(s, sep, 0);
      assert Free(s[1..], sep) by {
        forall k: nat ensures !OccursAt(s[1..], sep, k) {
          if OccursAt(s[1..], sep, k) {
            assert s[1..][k..k + |sep|] == s[k + 1..k + 1 + |sep|];
            assert OccursAt(s, sep, k + 1);
          }
        }
      }
      SplitOfFree(s[1..], sep);
      assert s == [s[0]] + s[1..];
    }
  }

  // ---- both modes --------------------------------------------------------

  /** The chapters of either mode. */
  function Chapters(text: string, pattern: Option<string>, ms: seq<Span>): seq<Chapter>
    requires PatternMode(pattern) ==> WellFormedMatches(text, ms)
  {
    if PatternMode(pattern) then PatternChapters(text, ms)
    else PieceChapters(Split(text, CHAPTER_BREAK))
  }

  /** The branch of text2epub.py:45-90; `ms` is what `re.finditer` found for
      the pattern and is consulted only in pattern mode. */
  method Segment(text: string, pattern: Option<string>, ms: seq<Span>) returns (chapters: seq<Chapter>)
    requires PatternMode(pattern) ==> WellFormedMatches(text, ms)
    ensures chapters == Chapters(text, pattern, ms)
  {
    if pattern.Some? && pattern.value != [] {
      chapters := SplitAtMatches(text, ms);
    } else {
      chapters := SplitAtBreaks(text);
    }
  }
}
