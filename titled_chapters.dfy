/** Default mode on manuscripts written the intended way: chapters made of a
    one-line title and a body, separated by two blank lines. */
module TitledChapters {
  import opened Wrappers
  import opened Strings
  import opened Segmenter

  /** Nothing but non-blank characters at the ends. */
  predicate Trimmed(s: string) {
    s != [] && !IsSpace(s[0]) && !IsSpace(s[|s| - 1])
  }

  /** A piece whose first line is followed by more text. */
  lemma TitledPiece(title: string, body: string)
    requires Lacks(title, '\n') && Trimmed(title) && Trimmed(body)
    ensures PieceChapter(title + "\n" + body) == Chapter(title, body)
  {
    var piece := title + "\n" + body;
    assert PieceChapter(piece) == Chapter(Strip(title), Strip(body)) by {
      PieceChapterShape(piece);
      assert piece[|title|] == '\n';
      assert piece[..|title|] == title && piece[|title| + 1..] == body;
    }
    TrimmedStrip(title);
    TrimmedStrip(body);
  }

  /** Two trimmed pieces without a chapter break, joined by one, split into
      exactly those two pieces. */
  lemma TwoPiecesSplit(a: string, b: string)
    requires Trimmed(a) && Trimmed(b)
    requires Free(a, CHAPTER_BREAK) && Free(b, CHAPTER_BREAK)
    ensures Split(a + CHAPTER_BREAK + b, CHAPTER_BREAK) == [a, b]
  {
    var t := a + CHAPTER_BREAK + b;
    forall k: nat | k < |a| ensures !OccursAt(t, CHAPTER_BREAK, k) {
      if k + 3 <= |a| {
        assert t[k..k + 3] == a[k..k + 3];
        assert !OccursAt(a, CHAPTER_BREAK, k);
      } else if k == |a| - 1 {
        assert t[k] == a[k];
        assert t[k..k + 3][0] == t[k];
      } else {
        assert t[k + 1] == a[k + 1] && a[k + 1] == a[|a| - 1];
        assert t[k..k + 3][1] == t[k + 1];
      }
    }
    SplitAtFirst(a, CHAPTER_BREAK, b);
    SplitOfFree(b, CHAPTER_BREAK);
  }

  /** Two non-blank pieces give one chapter each, in order. */
  lemma TwoNonBlankPieces(a: string, b: string)
    requires Strip(a) != [] && Strip(b) != []
    ensures PieceChapters([a, b]) == [PieceChapter(a), PieceChapter(b)]
  {
    assert [a][..0] == [] && [a, b][..1] == [a];
    assert NonBlankIndices([a]) == [0];
    assert NonBlankIndices([a, b]) == [0, 1];
  }

  /** Two chapters, each a one-line title and a body without a chapter break
      (blank lines between paragraphs are allowed), joined by a chapter break
      give those two chapters in default mode. */
  lemma TwoChaptersDefaultMode(t1: string, b1: string, t2: string, b2: string)
    requires Lacks(t1, '\n') && Lacks(t2, '\n')
    requires Trimmed(t1) && Trimmed(b1) && Trimmed(t2) && Trimmed(b2)
    requires Free(b1, CHAPTER_BREAK) && Free(b2, CHAPTER_BREAK)
    ensures Chapters(t1 + "\n" + b1 + CHAPTER_BREAK + t2 + "\n" + b2, None, [])
            == [Chapter(t1, b1), Chapter(t2, b2)]
  {
    var a := t1 + "\n" + b1;
    var b := t2 + "\n" + b2;
    assert t1 + "\n" + b1 + CHAPTER_BREAK + t2 + "\n" + b2 == a + CHAPTER_BREAK + b;
    TitledLine(t1, b1);
    TitledLine(t2, b2);
    TwoPiecesSplit(a, b);
    TrimmedStrip(a);
    TrimmedStrip(b);
    TwoNonBlankPieces(a, b);
    TitledPiece(t1, b1);
    TitledPiece(t2, b2);
  }

  /** A trimmed string is its own strip, so it is not blank. */
  lemma TrimmedStrip(s: string)
    requires Trimmed(s)
    ensures Strip(s) == s
  {
    StripUnique([], s, []);
    assert [] + s + [] == s;
  }

  /** A title line and a body without a chapter break make a trimmed piece
      without a chapter break. */
  lemma TitledLine(title: string, body: string)
    requires Lacks(title, '\n') && Trimmed(title) && Trimmed(body)
    requires Free(body, CHAPTER_BREAK)
    ensures var p := title + "\n" + body;
            Trimmed(p) && Free(p, CHAPTER_BREAK)
  {
    var p := title + "\n" + body;
    var n := |title|;
    assert p[0] == title[0] && p[|p| - 1] == body[|body| - 1];
    assert CHAPTER_BREAK[0] == '\n' && CHAPTER_BREAK[1] == '\n';
    forall k: nat ensures !OccursAt(p, CHAPTER_BREAK, k) {
      if k + 3 <= |p| {
        if k < n {
          assert p[k..k + 3][0] == title[k] != '\n';
        } else if k == n {
          assert p[k..k + 3][1] == body[0] != '\n';
        } else {
          assert p[k..k + 3] == body[k - n - 1..k - n + 2];
          assert !OccursAt(body, CHAPTER_BREAK, k - n - 1);
        }
      }
    }
  }
}
