/** Metadata and cover defaulting (text2epub.py:29-42, 92-95, 105-106).
    The generated identifier, the file stem, the language detector's answer and
    the image encoder's answer are inputs: `uuid.uuid4`, `pathlib`,
    `langdetect.detect` and the JPEG conversion are not part of this model. */
module Metadata {
  import opened Wrappers

  const DEFAULT_AUTHOR := "Unknown"
  const DEFAULT_LANGUAGE := "en"

  datatype BookMetadata = BookMetadata(identifier: string, title: string, author: string, language: string)

  /** Python's `given or fallback` on an optional string: `None` and `""` are
      both false, so both give the fallback. */
  function OrElse(given: Option<string>, fallback: string): (r: string)
    ensures given.Some? && given.value != [] ==> r == given.value
    ensures given.None? || given.value == [] ==> r == fallback
  {
    if given.Some? && given.value != [] then given.value else fallback
  }

  /** `book_language or langdetect.detect(book_text)`, and `"en"` when the
      detector raises; `detected` is the detector's answer, `None` when it
      raises. The detector is only consulted when no language was given. */
  function ResolveLanguage(given: Option<string>, detected: Option<string>): (r: string)
    ensures given.Some? && given.value != [] ==> r == given.value
    ensures (given.None? || given.value == []) && detected.Some? ==> r == detected.value
    ensures (given.None? || given.value == []) && detected.None? ==> r == DEFAULT_LANGUAGE
  {
    if given.Some? && given.value != [] then given.value
    else if detected.Some? then detected.value
    else DEFAULT_LANGUAGE
  }

  /** The metadata the book receives (text2epub.py:30-42, 101-104). */
  function ResolveMetadata(identifier: Option<string>, title: Option<string>, author: Option<string>,
                           language: Option<string>, generatedId: string, stem: string,
                           detected: Option<string>): (m: BookMetadata)
    ensures identifier.Some? && identifier.value != [] ==> m.identifier == identifier.value
    ensures identifier.None? || identifier.value == [] ==> m.identifier == generatedId
    ensures title.Some? && title.value != [] ==> m.title == title.value
    ensures title.None? || title.value == [] ==> m.title == stem
    ensures author.Some? && author.value != [] ==> m.author == author.value
    ensures author.None? || author.value == [] ==> m.author == DEFAULT_AUTHOR
    ensures m.language == ResolveLanguage(language, detected)
  {
    BookMetadata(OrElse(identifier, generatedId), OrElse(title, stem), OrElse(author, DEFAULT_AUTHOR),
                 ResolveLanguage(language, detected))
  }

  /** An empty string given for any field is treated exactly as no value. */
  lemma EmptyIsAbsent(identifier: Option<string>, title: Option<string>, author: Option<string>,
                      language: Option<string>, generatedId: string, stem: string, detected: Option<string>)
    ensures ResolveMetadata(Some(""), title, author, language, generatedId, stem, detected)
            == ResolveMetadata(None, title, author, language, generatedId, stem, detected)
    ensures ResolveMetadata(identifier, Some(""), author, language, generatedId, stem, detected)
            == ResolveMetadata(identifier, None, author, language, generatedId, stem, detected)
    ensures ResolveMetadata(identifier, title, Some(""), language, generatedId, stem, detected)
            == ResolveMetadata(identifier, title, None, language, generatedId, stem, detected)
    ensures ResolveMetadata(identifier, title, author, Some(""), generatedId, stem, detected)
            == ResolveMetadata(identifier, title, author, None, generatedId, stem, detected)
  {
  }

  /** A language that is given wins whatever the detector would have said. */
  lemma GivenLanguageWins(lang: string, d1: Option<string>, d2: Option<string>)
    requires lang != []
    ensures ResolveLanguage(Some(lang), d1) == ResolveLanguage(Some(lang), d2) == lang
  {
  }

  /** `book_cover is not None and book_cover != ""`. */
  predicate CoverRequested(path: Option<string>) {
    path.Some? && path.value != []
  }

  /** The cover the book receives: the encoder is consulted only for a
      requested cover, its failure aborts the conversion, and an empty
      encoding sets no cover (`if book_cover_jpeg:`). `encoded` is what the
      encoder returns, or the message of the exception it raises. */
  function ResolveCover(path: Option<string>, encoded: Result<seq<Byte>, string>): (r: Result<Option<seq<Byte>>, string>)
    ensures !CoverRequested(path) ==> r == Success(None)
    ensures CoverRequested(path) && encoded.Failure? ==> r == Failure(encoded.error)
    ensures CoverRequested(path) && encoded.Success? && encoded.value != [] ==> r == Success(Some(encoded.value))
    ensures CoverRequested(path) && encoded.Success? && encoded.value == [] ==> r == Success(None)
  {
    if !(path.Some? && path.value != []) then Success(None)
    else match encoded
      case Failure(e) => Failure(e)
      case Success(bytes) => Success(if bytes != [] then Some(bytes) else None)
  }
}
