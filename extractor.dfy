/** `extrair_texto_pdf`: join the page texts of the uploaded PDF and turn
    the result, or the exception raised while reading it, into the pair
    `(texto, erro)` of which exactly one is set. */
module Extractor {
  import opened Text

  datatype Option<T> = None | Some(value: T)

  /** What reading the PDF gives: the text of every page, in page order, or
      the message of the exception raised by opening the document, reading
      a page or closing it. */
  datatype Parse = Pages(texts: seq<string>) | ParseError(message: string)

  /** The four ways `extrair_texto_pdf` can end. */
  datatype Extraction =
    | Extracted(text: string)
    | NoText
    | PasswordProtected
    | Unexpected(message: string)

  /** The opening shared by the no-text and password errors. */
  const ErrorTag: string := "Erro: "
  const NoTextError: string := ErrorTag + "O PDF parece conter apenas imagens ou está vazio. Nenhum texto foi extraído."
  const PasswordError: string := ErrorTag + "Este PDF está protegido por senha e não pode ser lido."
  const UnexpectedPrefix: string := "Erro inesperado ao processar o PDF: "

  /** The exception's message, lower-cased, contains "password". */
  predicate MentionsPassword(message: string) {
    Contains(Lower(message), "password")
  }

  /** The branches of `extrair_texto_pdf`: a document whose joined text
      strips to nothing has no text; an exception is a password failure when
      its lower-cased message mentions "password", and unexpected otherwise. */
  function Classify(parse: Parse): Extraction {
    match parse
    case Pages(texts) =>
      var full := Concat(texts);
      if Strip(full) == [] then NoText else Extracted(full)
    case ParseError(message) =>
      if MentionsPassword(message) then PasswordProtected else Unexpected(message)
  }

  /** The pair `(texto, erro)` returned for each ending. */
  function AsPair(e: Extraction): (pair: (Option<string>, Option<string>))
    ensures pair.0.Some? <==> pair.1.None?
    ensures pair.0.Some? <==> e.Extracted?
  {
    match e
    case Extracted(text) => (Some(text), None)
    case NoText => (None, Some(NoTextError))
    case PasswordProtected => (None, Some(PasswordError))
    case Unexpected(message) => (None, Some(UnexpectedPrefix + message))
  }

  /** `extrair_texto_pdf`, given what reading the uploaded bytes gives. */
  function ExtractText(parse: Parse): (Option<string>, Option<string>) {
    AsPair(Classify(parse))
  }

  /** Reads an ending back from a pair: the caller can tell every ending
      from the pair alone. */
  function FromPair(pair: (Option<string>, Option<string>)): Option<Extraction> {
    match pair
    case (Some(text), None) => Some(Extracted(text))
    case (None, Some(error)) =>
      if error == NoTextError then Some(NoText)
      else if error == PasswordError then Some(PasswordProtected)
      else if |UnexpectedPrefix| <= |error| && error[..|UnexpectedPrefix|] == UnexpectedPrefix then
        Some(Unexpected(error[|UnexpectedPrefix|..]))
      else None
    case _ => None
  }

  /** No two endings give the same pair: the three error texts never clash,
      and an unexpected error keeps the exception's message recoverable. */
  lemma PairRoundTrip(e: Extraction)
    ensures FromPair(AsPair(e)) == Some(e)
  {
    match e
    case Extracted(_) =>
    case NoText =>
    case PasswordProtected =>
      assert |PasswordError| != |NoTextError|;
    case Unexpected(message) =>
      var error := UnexpectedPrefix + message;
      assert error[4] == ' ';
      assert NoTextError[4] == ErrorTag[4] == ':';
      assert PasswordError[4] == ErrorTag[4];
      assert error[..|UnexpectedPrefix|] == UnexpectedPrefix;
      assert error[|UnexpectedPrefix|..] == message;
  }

  /** Text comes back exactly when the pages were read and their joined text
      is not blank, and then it is that joined text, unchanged. */
  lemma ExtractedIffNotBlank(parse: Parse, text: string)
    ensures ExtractText(parse).0 == Some(text)
        <==> parse.Pages? && text == Concat(parse.texts) && !IsBlank(text)
  {
    if parse.Pages? {
      StripEmptyIffBlank(Concat(parse.texts));
    }
  }

  /** The no-text error comes back exactly when the pages were read and
      their joined text is empty or all whitespace. */
  lemma NoTextIffBlank(parse: Parse)
    ensures ExtractText(parse).1 == Some(NoTextError)
        <==> parse.Pages? && IsBlank(Concat(parse.texts))
  {
    PairRoundTrip(Classify(parse));
    if parse.Pages? {
      StripEmptyIffBlank(Concat(parse.texts));
    }
  }

  /** An exception gives the password error exactly when "password" occurs
      somewhere in its lower-cased message. */
  lemma PasswordIffMentioned(parse: Parse)
    ensures Classify(parse) == PasswordProtected
        <==> parse.ParseError? && exists i: nat :: OccursAt(Lower(parse.message), "password", i)
  {
    if parse.ParseError? {
      ContainsIff(Lower(parse.message), "password");
    }
  }

  /** The password test ignores case: "Password", "PASSWORD" or any other spelling
      that lower-cases to "password" is caught. */
  lemma PasswordInAnyCase(message: string, i: nat)
    requires i + 8 <= |message| && Lower(message[i..i + 8]) == "password"
    ensures Classify(ParseError(message)) == PasswordProtected
  {
    LowerSlice(message, i, i + 8);
    assert OccursAt(Lower(message), "password", i);
    ContainsIff(Lower(message), "password");
  }

  /** Any other exception gives the generic error, which embeds the
      exception's message after a fixed prefix. */
  lemma UnexpectedEmbedsMessage(message: string)
    requires !MentionsPassword(message)
    ensures ExtractText(ParseError(message)) == (None, Some(UnexpectedPrefix + message))
    ensures OccursAt(ExtractText(ParseError(message)).1.value, message, |UnexpectedPrefix|)
  {
    var error := UnexpectedPrefix + message;
    assert error[|UnexpectedPrefix|..|UnexpectedPrefix| + |message|] == message;
  }

  /** Pages are joined in page order: the text of any page follows the
      text of the pages before it and precedes the text of the pages after it. */
  lemma PagesInOrder(before: seq<string>, page: string, after: seq<string>)
    requires !IsBlank(Concat(before + [page] + after))
    ensures ExtractText(Pages(before + [page] + after)).0 == Some(Concat(before) + page + Concat(after))
  {
    var texts := before + [page] + after;
    ExtractedIffNotBlank(Pages(texts), Concat(texts));
    ConcatAround(before, page, after);
  }
}
