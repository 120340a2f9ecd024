/** `Txt2Epub.create_epub` as a whole (text2epub.py:19-146): defaults the
    metadata, segments the text, converts the cover and assembles the book
    model handed to the EPUB writer. What the writer does with the model is
    not part of this model. */
module Conversion {
  import opened Wrappers
  import opened Strings
  import opened Segmenter
  import opened Assembly
  import opened Metadata

  /** The arguments of `create_epub`; paths are reduced to what is used of
      them: the stem of the input file, the path `with_suffix(".epub")` gives,
      the optional output path and the optional cover path. */
  datatype Request = Request(
    inputStem: string,
    defaultOutput: string,
    outputFile: Option<string>,
    identifier: Option<string>,
    title: Option<string>,
    author: Option<string>,
    language: Option<string>,
    cover: Option<string>,
    chapterRegex: Option<string>)

  /** What the collaborators answer for this request: the text read from the
      input file, the fresh `uuid4` string, the language detector's answer
      (`None` when it raises), the spans `re.finditer` yields for the pattern,
      and the image encoder's bytes or failure. */
  datatype Collaborators = Collaborators(
    text: string,
    generatedId: string,
    detected: Option<string>,
    matches: seq<Span>,
    encodedCover: Result<seq<Byte>, string>)

  datatype ConversionError = CoverEncodingFailure(message: string)

  /** What `epub.write_epub` receives: metadata, cover, chapter items, spine,
      table of contents, and the path written. */
  datatype Book = Book(
    metadata: BookMetadata,
    cover: Option<seq<Byte>>,
    items: seq<Section>,
    spine: seq<SpineItem>,
    toc: seq<Link>,
    outputPath: string)

  /** The regular expression engine's spans are well formed whenever they are used. */
  predicate Admissible(req: Request, env: Collaborators) {
    PatternMode(req.chapterRegex) ==> WellFormedMatches(env.text, env.matches)
  }

  /** `output_file`, or the input path with suffix `.epub` when it is `None`. */
  function OutputPath(req: Request): string {
    if req.outputFile.Some? then req.outputFile.value else req.defaultOutput
  }

  /** The book a conversion produces, as a function of its inputs. */
  function Convert(req: Request, env: Collaborators): Result<Book, ConversionError>
    requires Admissible(req, env)
  {
    var meta := ResolveMetadata(req.identifier, req.title, req.author, req.language,
                                env.generatedId, req.inputStem, env.detected);
    var chapters := Chapters(env.text, req.chapterRegex, env.matches);
    match ResolveCover(req.cover, env.encodedCover)
    case Failure(e) => Failure(CoverEncodingFailure(e))
    case Success(cover) =>
      var items := Sections(chapters, meta.language);
      Success(Book(meta, cover, items, Spine(items), Toc(items), OutputPath(req)))
  }

  /** `create_epub`, step by step. */
  method CreateEpub(req: Request, env: Collaborators) returns (r: Result<Book, ConversionError>)
    requires Admissible(req, env)
    ensures r == Convert(req, env)
    ensures r.Failure? <==> CoverRequested(req.cover) && env.encodedCover.Failure?
    ensures r.Success? ==>
              |r.value.spine| == |r.value.items| + 1 && r.value.spine[0] == Nav &&
              |r.value.toc| == |r.value.items| &&
              forall j :: 0 <= j < |r.value.items| ==>
                r.value.spine[j + 1] == Page(r.value.items[j]) &&
                r.value.toc[j] == Link(r.value.items[j].fileName, r.value.items[j].title) &&
                r.value.items[j].lang == r.value.metadata.language
  {
    var identifier := OrElse(req.identifier, env.generatedId);
    var title := OrElse(req.title, req.inputStem);
    var author := OrElse(req.author, DEFAULT_AUTHOR);
    var language := ResolveLanguage(req.language, env.detected);

    var chapters := Segment(env.text, req.chapterRegex, env.matches);

    var coverJpeg: Option<seq<Byte>> := None;
    if req.cover.Some? && req.cover.value != [] {
      match env.encodedCover
      case Failure(e) =>
        return Failure(CoverEncodingFailure(e));
      case Success(bytes) =>
        coverJpeg := Some(bytes);
    }
    var cover := if coverJpeg.Some? && coverJpeg.value != [] then coverJpeg else None;

    var items, spine, toc := Assemble(chapters, language);
    var outputPath := if req.outputFile.Some? then req.outputFile.value else req.defaultOutput;
    r := Success(Book(BookMetadata(identifier, title, author, language), cover, items, spine, toc, outputPath));
  }

  /** An empty cover path is the same as none: nothing is encoded and the
      conversion cannot fail on the cover. */
  lemma EmptyCoverPathIsNoCover(req: Request, env: Collaborators)
    requires Admissible(req, env) && req.cover == Some("")
    ensures Convert(req, env) == Convert(req.(cover := None), env)
    ensures Convert(req, env).Success? && Convert(req, env).value.cover == None
  {
  }

  /** A given language is the book's and every section's, whatever the
      detector says. */
  lemma GivenLanguageEverywhere(req: Request, env: Collaborators, lang: string)
    requires Admissible(req, env) && req.language == Some(lang) && lang != []
    ensures Convert(req, env).Success? ==>
              Convert(req, env).value.metadata.language == lang &&
              forall j :: 0 <= j < |Convert(req, env).value.items| ==>
                Convert(req, env).value.items[j].lang == lang
    ensures Convert(req, env) == Convert(req, env.(detected := None))
  {
  }
}
