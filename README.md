# txt2epub in Dafny

A model of `Txt2Epub.create_epub` (`text2epub.py`), the function that turns a
plain-text manuscript into an EPUB book. It defaults the book's metadata
(identifier, title, author, language), splits the text into chapters, converts
an optional cover image, and assembles one XHTML section per non-blank chapter
together with the book's spine and table of contents.

Chapters are split in one of two modes:

- **pattern mode**, when a non-empty chapter pattern is given: every match of
  the pattern starts a chapter, titled by the match text with trailing
  whitespace removed. Its body is the stripped text from the end of the match
  to the start of the next match, or to the end of the text. Text before the
  first match is dropped. When nothing matches, the whole text is one chapter
  titled `Untitled`.
- **default mode**: the text is cut at every `"\n\n\n"`. Blank pieces are
  dropped. A piece with a line break is titled by its stripped first line and
  has the stripped rest as body. A single-line piece is titled `Untitled`.

Every chapter whose body is not blank becomes a section. The section file is
named `chap_NN.xhtml`, where `NN` is the chapter's position in the chapter
list plus one, counted before blank chapters are skipped. Its content is the
title as an `<h1>` heading and every line of the body as a `<p>` paragraph. The spine is `nav` followed by
the sections; the table of contents links to every section in the same order.

Modules, one per file:

- `Wrappers` (`wrappers.dfy`): `Option`, `Result`, `Byte`.
- `Strings` (`strings.dfy`): the Python string operations the converter uses
  (`strip`, `rstrip`, `split`, `split(sep, 1)`, `replace`, the
  `{:02d}` format), with their characterising lemmas. `Strings.Join` is not
  called by the converter; it states what `split` and `replace` do.
- `Segmenter` (`segmenter.dfy`): both segmentation modes. Each loop is a
  method proved against a specification function.
- `Assembly` (`assembly.dfy`): sections, spine and table of contents. The loop
  is a method proved against a specification function.
- `Metadata` (`metadata.dfy`): metadata and cover defaulting.
- `Conversion` (`conversion.dfy`): `create_epub` as a whole.
- `TitledChapters` (`titled_chapters.dfy`): default mode on manuscripts
  written the intended way.

The surrounding world is passed in as values. The parameters are the text read
from the input file, the fresh `uuid4` string, the language detector's answer,
the spans the regular expression engine finds, the cover encoder's bytes or
error message, the input file's stem and the default output path.

XHTML needs `<` and `&` escaped; the code escapes nothing, and
`Assembly.Content` inserts title and body verbatim.

## Model

| member | source | states |
|---|---|---|
| Strings.StripSplitsOff | text2epub.py:68 | `strip()` removes a whitespace prefix and a whitespace suffix and keeps the middle, which is empty or starts and ends with a non-whitespace character |
| Strings.StripUnique | text2epub.py:84-85 | any split of a string into blank prefix, trimmed middle and blank suffix has that middle as its `strip()` |
| Strings.StripEmptyIffBlank | text2epub.py:79 | a string strips to nothing exactly when every character is whitespace |
| Strings.LStripSpec | text2epub.py:68 | `lstrip` keeps the longest suffix that does not start with whitespace and removes only whitespace |
| Strings.RStripSpec | text2epub.py:58 | `rstrip` keeps the longest prefix that does not end with whitespace and removes only whitespace |
| Strings.SplitJoin | text2epub.py:75 | joining the pieces of `split(sep)` with `sep` gives back the text |
| Strings.SplitFree | text2epub.py:75 | no piece of `split(sep)` contains `sep` |
| Strings.SplitAtFirst | text2epub.py:75 | the text before the first separator is the first piece and the rest is split on |
| Strings.SplitBlank | text2epub.py:75 | every piece of a blank text is blank |
| Strings.SplitOnceSpec | text2epub.py:82 | `split("\n", 1)` gives one piece lacking the separator, or the text before the first separator and the text after it |
| Strings.ReplaceIsSplitJoin | text2epub.py:125 | replacing a character equals splitting on it and joining with the replacement |
| Strings.Pad2RoundTrip | text2epub.py:119 | the `{:02d}` rendering has at least two digits and reads back as the number |
| Strings.Pad2Width | text2epub.py:119 | `{:02d}` writes numbers below 100 with exactly two digits and larger numbers as `str(n)`, without a leading zero |
| Segmenter.SplitAtMatches | text2epub.py:53-72 | the loop yields one chapter per match, titled by the right-stripped match text, with the stripped text up to the next match (or the end) as body; with no match, one `Untitled` chapter holding the whole text |
| Segmenter.PreambleDropped | text2epub.py:53-69 | text before the first match has no effect on the chapters |
| Segmenter.StretchesTile | text2epub.py:62-68 | the stretches of text from one match to the next tile the text from the first match to the end, in order and without overlap |
| Segmenter.ChapterWithinStretch | text2epub.py:58-68 | a chapter's title is a prefix of its match text and its body lies inside the text after the match, with only whitespace before it |
| Segmenter.NonBlankIndicesSpec | text2epub.py:78-80 | the kept pieces are exactly the non-blank ones, in increasing order |
| Segmenter.PieceChapterShape | text2epub.py:82-88 | a piece with a line break is titled by its stripped first line with the stripped rest as body; a single-line piece is `Untitled` with the stripped piece as body |
| Segmenter.SplitAtBreaks | text2epub.py:75-90 | the loop yields exactly the chapters of the non-blank pieces of `split("\n\n\n")`, in order |
| Segmenter.PieceChaptersCorrespond | text2epub.py:78-90 | default-mode chapter `j` comes from the `j`-th non-blank piece, and every non-blank piece gives a chapter |
| Segmenter.BlankTextNoChapters | text2epub.py:75-80 | a blank or empty text gives no chapters in default mode |
| Segmenter.NoBreakOneChapter | text2epub.py:75-90 | a text with no chapter break gives one chapter when it is not blank and none when it is |
| Segmenter.SplitOfFree | text2epub.py:75 | a text without the separator splits into itself alone |
| Segmenter.Segment | text2epub.py:45-90 | pattern mode exactly when a non-empty pattern is given, default mode otherwise |
| Assembly.FileNameRoundTrip | text2epub.py:119 | the number a section file name carries can be read back from the name |
| Assembly.FileNameInjective | text2epub.py:119 | distinct numbers give distinct file names |
| Assembly.ContentIsHeadingAndParagraphs | text2epub.py:123-126 | section content is the title as a heading followed by every body line, verbatim, as a paragraph |
| Assembly.Assemble | text2epub.py:109-131 | the loop keeps exactly the chapters with non-blank bodies; the spine is `nav` followed by one page per section, and the table of contents has one link per section with its file name and title, in the same order |
| Assembly.AppendSection | text2epub.py:129-131 | one loop step adds one page to the spine and one link to the table of contents |
| Assembly.SectionsAreNonBlankChapters | text2epub.py:111-114 | section `j` is made from the `j`-th chapter with a non-blank body; kept chapters are in increasing order and every non-blank chapter is kept |
| Assembly.FileNumbersArePositions | text2epub.py:111-119 | a section's file number is its chapter's position in the chapter list plus one |
| Assembly.FileNumbersIncrease | text2epub.py:111-119 | file numbers increase strictly along the sections, so no two sections share a file name |
| Assembly.TocMirrorsSpine | text2epub.py:109-135 | the table of contents lists the same sections as the spine after `nav`, in the same order |
| Metadata.ResolveMetadata | text2epub.py:30-42 | a given non-empty value wins; a missing or empty identifier, title or author becomes the generated id, the file stem or `Unknown`; the language comes from the detector and falls back to `en` |
| Metadata.ResolveLanguage | text2epub.py:39-42 | the given language when non-empty, otherwise the detector's answer, and `en` when the detector fails |
| Metadata.EmptyIsAbsent | text2epub.py:30-40 | an empty string for any field gives the same metadata as no value |
| Metadata.GivenLanguageWins | text2epub.py:40 | a given non-empty language is used whatever the detector would say |
| Metadata.ResolveCover | text2epub.py:93-106 | the cover is converted only when a non-empty path is given; a conversion failure aborts; an empty conversion result sets no cover |
| Conversion.CreateEpub | text2epub.py:19-146 | the conversion yields the book of `Convert`; it fails exactly when a cover is requested and its conversion fails; the spine and table of contents follow the sections in lockstep, and every section carries the book's language; the output path is the given one, or the input path with suffix `.epub` when none is given (`Conversion.OutputPath`, text2epub.py:142-143) |
| Conversion.EmptyCoverPathIsNoCover | text2epub.py:94 | an empty cover path behaves like no cover and cannot make the conversion fail |
| Conversion.GivenLanguageEverywhere | text2epub.py:40 | a given language is the book's and every section's, and the detector's answer does not matter |
| TitledChapters.TitledPiece | text2epub.py:82-85 | a trimmed one-line title, a line break and a trimmed body make the chapter with that title and body |
| TitledChapters.TwoPiecesSplit | text2epub.py:75 | two trimmed pieces that hold no chapter break, joined by one, split into exactly those two pieces |
| TitledChapters.TwoChaptersDefaultMode | text2epub.py:75-90 | two chapters written as title line plus a body holding no chapter break (blank lines between paragraphs allowed), joined by a chapter break, give exactly those two chapters in default mode |

## Left out

- The regular expression engine: the spans of `re.finditer` are an input, required to be ordered and non-overlapping. Empty spans are allowed. An invalid pattern raises `re.error` inside the engine, which is not part of this model.
- `langdetect.detect` is an input. Its answer is `None` when it raises `LangDetectException`.
- `uuid.uuid4` is an input: the generated identifier string.
- Reading the input file (UTF-8 decoding, I/O errors) is left out; the text read is an input.
- `pathlib`: the input's `stem` and `with_suffix(".epub")` are inputs, and paths are strings.
- Metadata.ResolveCover: the cover path is a string, so `book_cover != ""` compares strings. For a `pathlib.Path` argument that comparison is always true in Python; the model treats the empty path as no cover.
- `convert_image_to_jpeg` (image loading, JPEG encoding) is an input: its bytes, or the message of the exception it raises.
- The `ebooklib` objects: the model builds the values handed to the library (metadata, cover, sections, spine, table of contents, output path). The `EpubNcx`/`EpubNav` items, the identifier `ebooklib` assigns each item, and `epub.write_epub` are left out.
- Assembly.Assemble: the third argument of each `epub.Link`, the `chapter.id` that `ebooklib` assigns, is not modelled.
- The Tkinter GUI (`Txt2EpubGUI`) and the script entry point are not part of this model.
- XHTML escaping of titles and bodies: the code performs none, and neither does the model.
