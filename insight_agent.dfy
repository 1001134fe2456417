/**
 * The `POST /analyze` endpoint of the insight agent service: the request
 * schema's validation rule and the `analyze_text` handler that counts the
 * words and the non-whitespace characters of a text and echoes it back.
 *
 * HTTP, JSON and the web framework are not modelled: a request body is a
 * value whose `text` field may be absent, validation is a function returning
 * a result, and the handler is a pure function of the validated request.
 */
module InsightAgent {
  import opened StrSplit

  datatype Option<T> = None | Some(value: T)

  datatype Result<T, E> = Success(value: T) | Failure(error: E)

  /** A deserialised request body: `text` is None when the field is missing. */
  datatype RawPayload = RawPayload(text: Option<string>)

  /** A request that passed validation. */
  datatype AnalysisRequest = AnalysisRequest(text: string)

  /** The handler's response body. */
  datatype AnalysisResult = AnalysisResult(originalText: string, wordCount: nat, characterCount: nat)

  /** Why the schema rejected a body (the framework answers these with 422). */
  datatype ValidationError =
    | MissingField(field: string)
    | StringTooShort(field: string, minLength: nat)

  /** The error the handler itself raises (answered with 400). */
  datatype HandlerError = BadRequest(detail: string)

  /** What a client of the endpoint can get back instead of a result. */
  datatype AnalyzeError =
    | Unprocessable(validation: ValidationError)
    | HandlerFailed(handler: HandlerError)

  /** `min_length` of the `text` field. */
  const MinTextLength: nat := 1

  const EmptyTextDetail: string := "Text field cannot be empty"

  /** The `AnalysisRequest` schema: `text` must be present and at least one
      character long. Nothing is trimmed first, so whitespace passes. */
  function Validate(p: RawPayload): (r: Result<AnalysisRequest, ValidationError>)
    ensures r.Success? <==> p.text.Some? && p.text.value != []
    ensures r.Success? ==> r.value.text == p.text.value
    ensures p.text.None? ==> r == Failure(MissingField("text"))
    ensures p.text == Some([]) ==> r == Failure(StringTooShort("text", MinTextLength))
  {
    match p.text
    case None => Failure(MissingField("text"))
    case Some(t) =>
      if |t| < MinTextLength then Failure(StringTooShort("text", MinTextLength))
      else Success(AnalysisRequest(t))
  }

  /** `len(text.split())`: the number of maximal non-whitespace runs. */
  function WordCount(text: string): (n: nat)
    ensures n == RunCount(text, true)
  {
    SplitCountsRuns(text);
    |Split(text)|
  }

  /** `len(''.join(text.split()))`: the number of non-whitespace characters,
      that is, the length of the text less its whitespace. */
  function CharacterCount(text: string): (n: nat)
    ensures n == |RemoveWs(text)| == |text| - WsCount(text)
  {
    ConcatSplitIsRemoveWs(text);
    RemoveWsLength(text);
    |Concat(Split(text))|
  }

  /** Every token is non-empty and taken from the text, so there are no more
      words than counted characters and no more of those than characters. */
  lemma CountBounds(text: string)
    ensures WordCount(text) <= CharacterCount(text) <= |text|
  {
    ConcatLengthAtLeastCount(Split(text));
  }

  /** A text has no words, and then no counted characters, exactly when it
      is whitespace only. */
  lemma NoWordsIffWhitespaceOnly(text: string)
    ensures WordCount(text) == 0 <==> AllWs(text)
    ensures WordCount(text) == 0 <==> CharacterCount(text) == 0
  {
    NoTokensIffAllWs(text);
    CountBounds(text);
  }

  /** `analyze_text`: rejects an empty text with 400, otherwise returns the
      text unchanged with its word and non-whitespace character counts. */
  function AnalyzeText(request: AnalysisRequest): (r: Result<AnalysisResult, HandlerError>)
    ensures r.Failure? <==> request.text == []
    ensures r.Failure? ==> r.error == BadRequest(EmptyTextDetail)
    ensures r.Success? ==> r.value.originalText == request.text
    ensures r.Success? ==> r.value.wordCount == RunCount(request.text, true)
    ensures r.Success? ==> r.value.characterCount == |request.text| - WsCount(request.text)
  {
    if request.text == [] then
      Failure(BadRequest(EmptyTextDetail))
    else
      Success(AnalysisResult(request.text, WordCount(request.text), CharacterCount(request.text)))
  }

  /** The endpoint: validation, then the handler. The handler's own 400
      branch cannot be reached, because validation already rejected "". */
  function Analyze(p: RawPayload): (r: Result<AnalysisResult, AnalyzeError>)
    ensures r.Failure? <==> p.text.None? || p.text.value == []
    ensures r.Failure? ==> r.error.Unprocessable?
    ensures r.Success? ==> r.value.originalText == p.text.value
    ensures r.Success? ==> r.value.wordCount == RunCount(p.text.value, true)
    ensures r.Success? ==> r.value.characterCount == |p.text.value| - WsCount(p.text.value)
  {
    match Validate(p)
    case Failure(e) => Failure(Unprocessable(e))
    case Success(request) =>
      match AnalyzeText(request)
      case Failure(e) => Failure(HandlerFailed(e))
      case Success(result) => Success(result)
  }

  /** A whitespace-only text is accepted and has no words and no counted
      characters. */
  lemma WhitespaceOnlyAccepted(text: string)
    requires text != [] && AllWs(text)
    ensures Analyze(RawPayload(Some(text))) == Success(AnalysisResult(text, 0, 0))
  {
    NoWordsIffWhitespaceOnly(text);
  }

  /** Spaces, tabs, newlines and the other whitespace characters are
      interchangeable as delimiters. */
  lemma DelimitersAlike(s: string, t: string)
    requires SameUpToWs(s, t)
    ensures WordCount(s) == WordCount(t) && CharacterCount(s) == CharacterCount(t)
  {
    SplitUpToWs(s, t);
  }

  // ---------------------------------------------------------------------------
  // The documented examples

  /** An empty text and a missing field are both rejected by validation. */
  lemma RejectsEmptyAndMissing()
    ensures Analyze(RawPayload(Some(""))) == Failure(Unprocessable(StringTooShort("text", 1)))
    ensures Analyze(RawPayload(None)) == Failure(Unprocessable(MissingField("text")))
  {
  }

  /** A non-empty text is accepted and echoed with its counts. */
  lemma AnalyzeAccepts(text: string)
    requires text != []
    ensures Analyze(RawPayload(Some(text))) == Success(AnalysisResult(text, WordCount(text), CharacterCount(text)))
  {
  }

  /** Exhibiting the tokens of `text` and the whitespace gaps between them
      determines what the endpoint answers. */
  lemma AnalyzeByTokens(text: string, words: seq<string>, gaps: seq<string>, wordCount: nat, characterCount: nat)
    requires text != []
    requires IsRunDecomposition(text, words, gaps)
    requires wordCount == |words| && characterCount == |Concat(words)|
    ensures Analyze(RawPayload(Some(text))) == Success(AnalysisResult(text, wordCount, characterCount))
  {
    SplitOfDecomposition(text, words, gaps);
    AnalyzeAccepts(text);
  }

  // Each example below is proved in three steps, kept apart so that each
  // proof stays small: a layout lemma shows that the literal text is its
  // tokens separated by the given gaps, a tokens lemma checks the tokens and
  // gaps character by character, and the example lemma evaluates the
  // endpoint from these.

  lemma SimpleTextLayout()
    ensures Interleave(["", " ", " ", " ", ""], ["I", "love", "cloud", "engineering!"])
         == "I love cloud engineering!"
  {
    var pieces := ("" + "I") + ((" " + "love") + ((" " + "cloud") + ((" " + "engineering!") + (""))));
    assert pieces == "I love cloud engineering!";
    assert Interleave(["", " ", " ", " ", ""], ["I", "love", "cloud", "engineering!"]) == pieces;
  }

  lemma SimpleTextTokens()
    ensures forall i :: 0 <= i < 4 ==> IsToken(["I", "love", "cloud", "engineering!"][i])
    ensures forall i :: 0 <= i < 5 ==> AllWs(["", " ", " ", " ", ""][i])
  {
  }

  lemma ExampleSimpleText()
    ensures Analyze(RawPayload(Some("I love cloud engineering!")))
         == Success(AnalysisResult("I love cloud engineering!", 4, 22))
  {
    SimpleTextLayout();
    SimpleTextTokens();
    AnalyzeByTokens("I love cloud engineering!", ["I", "love", "cloud", "engineering!"], ["", " ", " ", " ", ""], 4, 22);
  }

  lemma SingleWordTokens()
    ensures IsToken("Hello")
    ensures AllWs("")
  {
  }

  /** One token and no whitespace at all: the whole text is the word. */
  lemma ExampleSingleWord()
    ensures Analyze(RawPayload(Some("Hello"))) == Success(AnalysisResult("Hello", 1, 5))
  {
    SingleWordTokens();
    assert Interleave(["", ""], ["Hello"]) == "Hello";
    AnalyzeByTokens("Hello", ["Hello"], ["", ""], 1, 5);
  }

  lemma MultipleSpacesLayout()
    ensures Interleave(["", "    ", "    ", ""], ["Hello", "world", "test"])
         == "Hello    world    test"
  {
    var pieces := ("" + "Hello") + (("    " + "world") + (("    " + "test") + ("")));
    assert pieces == "Hello    world    test";
    assert Interleave(["", "    ", "    ", ""], ["Hello", "world", "test"]) == pieces;
  }

  lemma MultipleSpacesTokens()
    ensures forall i :: 0 <= i < 3 ==> IsToken(["Hello", "world", "test"][i])
    ensures forall i :: 0 <= i < 4 ==> AllWs(["", "    ", "    ", ""][i])
  {
  }

  lemma ExampleMultipleSpaces()
    ensures Analyze(RawPayload(Some("Hello    world    test")))
         == Success(AnalysisResult("Hello    world    test", 3, 14))
  {
    MultipleSpacesLayout();
    MultipleSpacesTokens();
    AnalyzeByTokens("Hello    world    test", ["Hello", "world", "test"], ["", "    ", "    ", ""], 3, 14);
  }

  lemma NumbersLayout()
    ensures Interleave(["", " ", " ", " ", ""], ["I", "have", "123", "items"])
         == "I have 123 items"
  {
    var pieces := ("" + "I") + ((" " + "have") + ((" " + "123") + ((" " + "items") + (""))));
    assert pieces == "I have 123 items";
    assert Interleave(["", " ", " ", " ", ""], ["I", "have", "123", "items"]) == pieces;
  }

  lemma NumbersTokens()
    ensures forall i :: 0 <= i < 4 ==> IsToken(["I", "have", "123", "items"][i])
    ensures forall i :: 0 <= i < 5 ==> AllWs(["", " ", " ", " ", ""][i])
  {
  }

  lemma ExampleNumbers()
    ensures Analyze(RawPayload(Some("I have 123 items")))
         == Success(AnalysisResult("I have 123 items", 4, 13))
  {
    NumbersLayout();
    NumbersTokens();
    AnalyzeByTokens("I have 123 items", ["I", "have", "123", "items"], ["", " ", " ", " ", ""], 4, 13);
  }

  lemma SpecialCharactersLayout()
    ensures Interleave(["", " ", " ", " ", ""], ["Hello!", "How", "are", "you?"])
         == "Hello! How are you?"
  {
    var pieces := ("" + "Hello!") + ((" " + "How") + ((" " + "are") + ((" " + "you?") + (""))));
    assert pieces == "Hello! How are you?";
    assert Interleave(["", " ", " ", " ", ""], ["Hello!", "How", "are", "you?"]) == pieces;
  }

  lemma SpecialCharactersTokens()
    ensures forall i :: 0 <= i < 4 ==> IsToken(["Hello!", "How", "are", "you?"][i])
    ensures forall i :: 0 <= i < 5 ==> AllWs(["", " ", " ", " ", ""][i])
  {
  }

  lemma ExampleSpecialCharacters()
    ensures Analyze(RawPayload(Some("Hello! How are you?")))
         == Success(AnalysisResult("Hello! How are you?", 4, 16))
  {
    SpecialCharactersLayout();
    SpecialCharactersTokens();
    AnalyzeByTokens("Hello! How are you?", ["Hello!", "How", "are", "you?"], ["", " ", " ", " ", ""], 4, 16);
  }

  lemma NewlinesLayout()
    ensures Interleave(["", " ", "\n", " ", "\n", " ", ""], ["Line", "one", "Line", "two", "Line", "three"])
         == "Line one\nLine two\nLine three"
  {
    var pieces := ("" + "Line") + ((" " + "one") + (("\n" + "Line") + ((" " + "two") + (("\n" + "Line") + ((" " + "three") + (""))))));
    assert pieces == "Line one\nLine two\nLine three";
    assert Interleave(["", " ", "\n", " ", "\n", " ", ""], ["Line", "one", "Line", "two", "Line", "three"]) == pieces;
  }

  lemma NewlinesTokens()
    ensures forall i :: 0 <= i < 6 ==> IsToken(["Line", "one", "Line", "two", "Line", "three"][i])
    ensures forall i :: 0 <= i < 7 ==> AllWs(["", " ", "\n", " ", "\n", " ", ""][i])
  {
  }

  lemma ExampleNewlines()
    ensures Analyze(RawPayload(Some("Line one\nLine two\nLine three")))
         == Success(AnalysisResult("Line one\nLine two\nLine three", 6, 23))
  {
    NewlinesLayout();
    NewlinesTokens();
    AnalyzeByTokens("Line one\nLine two\nLine three", ["Line", "one", "Line", "two", "Line", "three"], ["", " ", "\n", " ", "\n", " ", ""], 6, 23);
  }

  lemma UnicodeLayout()
    ensures Interleave(["", " ", " ", ""], ["Hello", "\U{4E16}\U{754C}", "\U{1F30D}"])
         == "Hello \U{4E16}\U{754C} \U{1F30D}"
  {
    var pieces := ("" + "Hello") + ((" " + "\U{4E16}\U{754C}") + ((" " + "\U{1F30D}") + ("")));
    assert pieces == "Hello \U{4E16}\U{754C} \U{1F30D}";
    assert Interleave(["", " ", " ", ""], ["Hello", "\U{4E16}\U{754C}", "\U{1F30D}"]) == pieces;
  }

  lemma UnicodeTokens()
    ensures forall i :: 0 <= i < 3 ==> IsToken(["Hello", "\U{4E16}\U{754C}", "\U{1F30D}"][i])
    ensures forall i :: 0 <= i < 4 ==> AllWs(["", " ", " ", ""][i])
  {
  }

  /** Code points, not bytes or UTF-16 units: each ideograph and the globe
      emoji is one character, and the emoji alone is one word. */
  lemma ExampleUnicode()
    ensures Analyze(RawPayload(Some("Hello \U{4E16}\U{754C} \U{1F30D}")))
         == Success(AnalysisResult("Hello \U{4E16}\U{754C} \U{1F30D}", 3, 8))
  {
    UnicodeLayout();
    UnicodeTokens();
    AnalyzeByTokens("Hello \U{4E16}\U{754C} \U{1F30D}", ["Hello", "\U{4E16}\U{754C}", "\U{1F30D}"], ["", " ", " ", ""], 3, 8);
  }
}
