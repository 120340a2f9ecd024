/** Section, spine and table-of-contents assembly, the loop of
    text2epub.py:108-135: every chapter with a non-blank body becomes an XHTML
    section named after its position in the chapter list, and is appended to
    the spine and to the table of contents in the same step. */
module Assembly {
  import opened Wrappers
  import opened Strings
  import opened Segmenter

  /** The part of an `EpubHtml` item the converter fills in. */
  datatype Section = Section(fileName: string, title: string, lang: string, content: string)

  /** A spine entry: the navigation document, named `"nav"`, or a chapter item. */
  datatype SpineItem = Nav | Page(section: Section)

  /** The href and title of an `epub.Link` table-of-contents entry. */
  datatype Link = Link(href: string, title: string)

  // ---- file names ------------------------------------------------------

  /** `"chap_{:02d}.xhtml".format(number)`. */
  function FileName(number: nat): string {
    "chap_" + Pad2(number) + ".xhtml"
  }

  /** The number a section file name carries, if it has the form of one. */
  function FileNumber(name: string): Option<nat> {
    if |name| >= 11 && name[..5] == "chap_" && name[|name| - 6..] == ".xhtml"
       && AllDigits(name[5..|name| - 6])
    then Some(ParseDecimal(name[5..|name| - 6]))
    else None
  }

  /** A file name gives back the number it was made from. */
  lemma FileNameRoundTrip(number: nat)
    ensures FileNumber(FileName(number)) == Some(number)
  {
    var p := Pad2(number);
    var name := FileName(number);
    assert name[..5] == "chap_";
    assert name[|name| - 6..] == ".xhtml";
    assert name[5..|name| - 6] == p;
    Pad2RoundTrip(number);
  }

  /** Distinct numbers give distinct file names. */
  lemma FileNameInjective(a: nat, b: nat)
    requires a != b
    ensures FileName(a) != FileName(b)
  {
    FileNameRoundTrip(a);
    FileNameRoundTrip(b);
  }

  // ---- content ---------------------------------------------------------

  /** The XHTML body of a section (text2epub.py:123-126). Title and body are
      inserted as they are, without escaping. */
  function Content(title: string, body: string): string {
    "<h1>" + title + "</h1><p>" + ReplaceChar(body, '\n', "</p><p>") + "</p>"
  }

  /** One paragraph element per line. */
  function Paragraphs(lines: seq<string>): string {
    if lines == [] then [] else "<p>" + lines[0] + "</p>" + Paragraphs(lines[1..])
  }

  lemma {:induction false} WrapJoin(lines: seq<string>)
    requires lines != []
    ensures "<p>" + Join(lines, "</p><p>") + "</p>" == Paragraphs(lines)
    decreases |lines|
  {
    if |lines| > 1 {
      WrapJoin(lines[1..]);
      assert "</p><p>" == "</p>" + "<p>";
    } else {
      assert Paragraphs(lines[1..]) == [];
    }
  }

  /** A section's content is the title as a heading followed by each line of
      the body, taken verbatim, as a paragraph. */
  lemma ContentIsHeadingAndParagraphs(title: string, body: string)
    ensures Content(title, body) == "<h1>" + title + "</h1>" + Paragraphs(Split(body, "\n"))
  {
    ReplaceIsSplitJoin(body, '\n', "</p><p>");
    WrapJoin(Split(body, "\n"));
    assert "<h1>" + title + "</h1><p>" == "<h1>" + title + "</h1>" + "<p>";
  }

  // ---- sections, spine and table of contents ---------------------------

  /** The section of the chapter at (pre-filter) position `index`. */
  function MakeSection(index: nat, chapter: Chapter, lang: string): Section {
    Section(FileName(index + 1), chapter.title, lang, Content(chapter.title, chapter.body))
  }

  function Bodies(chapters: seq<Chapter>): (r: seq<string>)
    ensures |r| == |chapters| && forall i :: 0 <= i < |r| ==> r[i] == chapters[i].body
  {
    seq(|chapters|, i requires 0 <= i < |chapters| => chapters[i].body)
  }

  /** Positions of the chapters that become sections. */
  function Kept(chapters: seq<Chapter>): seq<nat> {
    NonBlankIndices(Bodies(chapters))
  }

  /** The sections made of the chapters, in order. */
  function Sections(chapters: seq<Chapter>, lang: string): seq<Section> {
    var kept := Kept(chapters);
    seq(|kept|, j requires 0 <= j < |kept| => MakeSection(kept[j], chapters[kept[j]], lang))
  }

  /** The spine: the navigation document, then every section. */
  function Spine(items: seq<Section>): seq<SpineItem> {
    [Nav] + seq(|items|, j requires 0 <= j < |items| => Page(items[j]))
  }

  /** The table of contents: a link to every section, titled as the section. */
  function Toc(items: seq<Section>): seq<Link> {
    seq(|items|, j requires 0 <= j < |items| => Link(items[j].fileName, items[j].title))
  }

  /** The loop of text2epub.py:109-131. */
  method Assemble(chapters: seq<Chapter>, lang: string)
    returns (items: seq<Section>, spine: seq<SpineItem>, toc: seq<Link>)
    ensures items == Sections(chapters, lang)
    ensures spine == Spine(items) && toc == Toc(items)
    ensures |spine| == |items| + 1 && spine[0] == Nav && |toc| == |items|
    ensures forall j :: 0 <= j < |items| ==>
              spine[j + 1] == Page(items[j]) && toc[j] == Link(items[j].fileName, items[j].title)
  {
    items, spine, toc := [], [Nav], [];
    ghost var kept: seq<nat> := [];
    ghost var bodies := Bodies(chapters);
    for chapterId := 0 to |chapters|
      invariant kept == NonBlankIndices(bodies[..chapterId])
      invariant |items| == |kept|
      invariant forall j :: 0 <= j < |kept| ==>
                  kept[j] < chapterId && items[j] == MakeSection(kept[j], chapters[kept[j]], lang)
      invariant spine == Spine(items) && toc == Toc(items)
    {
      NonBlankStep(bodies, chapterId);
      var chapter := chapters[chapterId];
      if Strip(chapter.body) == [] {
        continue;
      }
      var section := MakeSection(chapterId, chapter, lang);
      AppendSection(items, section);
      items := items + [section];
      spine := spine + [Page(section)];
      toc := toc + [Link(section.fileName, section.title)];
      kept := kept + [chapterId];
    }
    assert bodies[..|chapters|] == bodies;
  }

  /** Appending a section appends one page to the spine and one link to the
      table of contents. */
  lemma AppendSection(items: seq<Section>, section: Section)
    ensures Spine(items + [section]) == Spine(items) + [Page(section)]
    ensures Toc(items + [section]) == Toc(items) + [Link(section.fileName, section.title)]
  {
    var longer := items + [section];
    assert forall j :: 0 <= j < |items| ==> longer[j] == items[j];
  }

  /** Sections are made exactly of the chapters whose body is not blank, in
      their order: section `j` is chapter `Kept[j]`, each kept chapter has a
      non-blank body, and every chapter with a non-blank body is kept. */
  lemma SectionsAreNonBlankChapters(chapters: seq<Chapter>, lang: string)
    ensures |Sections(chapters, lang)| == |Kept(chapters)| <= |chapters|
    ensures forall j :: 0 <= j < |Kept(chapters)| ==>
              Kept(chapters)[j] < |chapters| && Strip(chapters[Kept(chapters)[j]].body) != [] &&
              Sections(chapters, lang)[j] == MakeSection(Kept(chapters)[j], chapters[Kept(chapters)[j]], lang)
    ensures forall j, k :: 0 <= j < k < |Kept(chapters)| ==> Kept(chapters)[j] < Kept(chapters)[k]
    ensures forall i :: 0 <= i < |chapters| && Strip(chapters[i].body) != [] ==> i in Kept(chapters)
  {
    var b := Bodies(chapters);
    NonBlankIndicesSpec(b);
  }

  /** File names carry the chapter's position plus one. */
  lemma FileNumbersArePositions(chapters: seq<Chapter>, lang: string)
    ensures forall j :: 0 <= j < |Sections(chapters, lang)| ==>
              FileNumber(Sections(chapters, lang)[j].fileName) == Some(Kept(chapters)[j] + 1)
  {
    var items := Sections(chapters, lang);
    var kept := Kept(chapters);
    forall j | 0 <= j < |items| ensures FileNumber(items[j].fileName) == Some(kept[j] + 1) {
      assert items[j].fileName == FileName(kept[j] + 1);
      FileNameRoundTrip(kept[j] + 1);
    }
  }

  /** File numbers increase strictly along the sections (with gaps where
      chapters were skipped), so no two sections share a file name. */
  lemma FileNumbersIncrease(chapters: seq<Chapter>, lang: string)
    ensures forall j, k :: 0 <= j < k < |Sections(chapters, lang)| ==>
              FileNumber(Sections(chapters, lang)[j].fileName).Some? &&
              FileNumber(Sections(chapters, lang)[k].fileName).Some? &&
              FileNumber(Sections(chapters, lang)[j].fileName).value
              < FileNumber(Sections(chapters, lang)[k].fileName).value
    ensures forall j, k :: 0 <= j < k < |Sections(chapters, lang)| ==>
              Sections(chapters, lang)[j].fileName != Sections(chapters, lang)[k].fileName
  {
    var items := Sections(chapters, lang);
    var kept := Kept(chapters);
    FileNumbersArePositions(chapters, lang);
    NonBlankIndicesSpec(Bodies(chapters));
    forall j, k | 0 <= j < k < |items|
      ensures FileNumber(items[j].fileName).Some? && FileNumber(items[k].fileName).Some? &&
              FileNumber(items[j].fileName).value < FileNumber(items[k].fileName).value
    {
      assert kept[j] < kept[k];
    }
  }

  /** The table of contents mirrors the spine after its first entry: both list
      the same sections in the same order. */
  lemma TocMirrorsSpine(items: seq<Section>)
    ensures |Toc(items)| == |Spine(items)| - 1 && Spine(items)[0] == Nav
    ensures forall j :: 0 <= j < |Toc(items)| ==>
              Spine(items)[j + 1].Page? && Toc(items)[j].href == Spine(items)[j + 1].section.fileName &&
              Toc(items)[j].title == Spine(items)[j + 1].section.title
  {
  }
}
