/** ai-service's `ChatController.generatePost` after the model has answered:
    the answer text goes through the extraction and normalisation pipeline,
    is decoded as JSON, and on any failure is replaced by a fallback post. */
module ChatController {
  import opened Wrappers
  import opened PostText

  /** The post shape the ai-service decodes into. Either field may be null
      after decoding, since a JSON object may leave it out. */
  datatype PostDto = PostDto(title: Option<string>, content: Option<string>)

  /** The title the fallback post gets before the topic */
  const FallbackPrefix: string := "AI Generated Post: "

  /** What Jackson's `readValue(text, PostDto.class)` does with a text: it
      throws, it returns null (for the JSON literal `null`; the default
      mapper reads the first value and ignores what follows it), or it
      returns a post. */
  datatype Decoded = Failed | NullValue | Parsed(post: PostDto)

  /** The decoder, left abstract: which texts decode depends on the library
      and on the DTO's annotations. */
  type Decoder = string -> Decoded

  const NullLiteral: string := "null"

  /** What the default mapper does for a plain bean, on the only texts that
      reach it here (trimmed ones): it throws unless the text opens with the
      literal `null` or opens with `{` and holds a `}`. No other JSON value
      becomes a PostDto or null, and an object is not complete without its
      closing brace. */
  ghost predicate RejectsNonObjects(decode: Decoder) {
    forall t :: VisibleEnds(t) && !(NullLiteral <= t) && !(|t| > 0 && t[0] == '{' && '}' in t)
      ==> decode(t).Failed?
  }

  /** Lines 74-100: decode the normalised answer; if that throws, fall back
      to a post titled after the topic whose content is the normalised answer
      (the variable holding the answer was already overwritten by then). The
      result is None where the handler returns null: the decoder returned
      null, no exception was raised, and the fallback never ran. */
  function GeneratePost(aiText: string, topic: string, decode: Decoder): (r: Option<PostDto>)
    ensures decode(Pipeline(aiText)).Parsed? ==> r == Some(decode(Pipeline(aiText)).post)
    ensures r.None? <==> decode(Pipeline(aiText)).NullValue?
    ensures decode(Pipeline(aiText)).Failed? ==>
      && r.Some? && r.value.title.Some? && |r.value.title.value| > 0
      && FallbackPrefix <= r.value.title.value
      && r.value.content.Some? && Normalized(r.value.content.value)
      && |r.value.content.value| <= |aiText|
  {
    var text := Pipeline(aiText);
    match decode(text)
    case Parsed(decoded) => Some(decoded)
    case NullValue => None
    case Failed => Some(PostDto(Some(FallbackPrefix + topic), Some(text)))
  }

  /** The fallback post in full: its title is the prefix and the topic, its
      content is the text the decoder rejected, which is the brace-delimited
      object when the answer held one and the whole normalised answer when
      it did not. */
  lemma FallbackPost(aiText: string, topic: string, decode: Decoder)
    requires decode(Pipeline(aiText)).Failed?
    ensures GeneratePost(aiText, topic, decode) == Some(PostDto(Some(FallbackPrefix + topic), Some(Pipeline(aiText))))
    ensures HasBracePair(aiText) ==> Braced(Pipeline(aiText))
    ensures !HasBracePair(aiText) ==> Pipeline(aiText) == Normalize(aiText)
  {
    if HasBracePair(aiText) {
      PipelineKeepsBraces(aiText);
    }
  }

  /** An answer with no `{` before a `}`, whose normalisation does not open
      with the literal `null`, is never decoded: the post falls back, with
      the normalised answer as content. */
  lemma ProseFallsBack(aiText: string, topic: string, decode: Decoder)
    requires RejectsNonObjects(decode)
    requires !HasBracePair(aiText) && !(NullLiteral <= Normalize(aiText))
    ensures GeneratePost(aiText, topic, decode)
         == Some(PostDto(Some(FallbackPrefix + topic), Some(Normalize(aiText))))
  {
    var t := Pipeline(aiText);
    assert t == Normalize(aiText);
    NormalizeKeepsNoPair(aiText);
    if |t| > 0 && t[0] == '{' {
      forall j | 0 <= j < |t| ensures t[j] != '}' {
        assert !(0 < j && t[0] == '{' && t[j] == '}');
      }
    }
    assert decode(t).Failed?;
  }

  /** An answer that normalises to the literal `null` gets no post at all:
      the handler returns null. */
  lemma NullAnswer(aiText: string, topic: string, decode: Decoder)
    requires decode(NullLiteral) == NullValue
    requires '{' !in aiText && Normalize(aiText) == NullLiteral
    ensures GeneratePost(aiText, topic, decode) == None
  {
    PipelineWithoutBraces(aiText);
  }

  /** A refusal with no braces comes back word for word as the content */
  lemma RefusalScenario(topic: string, decode: Decoder)
    requires RejectsNonObjects(decode)
    ensures GeneratePost("Sorry, I can't help.", topic, decode)
         == Some(PostDto(Some("AI Generated Post: " + topic), Some("Sorry, I can't help.")))
  {
    var s := "Sorry, I can't help.";
    RefusalIsNormalized();
    NormalizedIsFixed(s);
    assert s[0] != NullLiteral[0];
    ProseFallsBack(s, topic, decode);
  }

  /** An empty answer gives the fallback with empty content */
  lemma EmptyAnswerScenario(topic: string, decode: Decoder)
    requires RejectsNonObjects(decode)
    ensures GeneratePost("", topic, decode) == Some(PostDto(Some(FallbackPrefix + topic), Some("")))
  {
    NormalizedIsFixed("");
    ProseFallsBack("", topic, decode);
  }

  /** The bare answer `null` yields a null response, not the fallback post */
  lemma NullAnswerScenario(topic: string, decode: Decoder)
    requires decode("null") == NullValue
    ensures GeneratePost("null", topic, decode) == None
  {
    NullIsNormalized();
    NormalizedIsFixed(NullLiteral);
    NullAnswer(NullLiteral, topic, decode);
  }

  /** An object behind a prose preamble is cut out and decoded, and the
      decoded post is returned as it is. */
  lemma WrappedJsonScenario(topic: string, decode: Decoder)
    requires decode("{\"title\": \"Hi\", \"content\": \"World\"}") == Parsed(PostDto(Some("Hi"), Some("World")))
    ensures GeneratePost("Here is json: {\"title\": \"Hi\", \"content\": \"World\"}", topic, decode)
         == Some(PostDto(Some("Hi"), Some("World")))
  {
    WrappedJsonText();
  }

  /** The text the decoder sees for the wrapped answer is the bare object */
  lemma WrappedJsonText()
    ensures Pipeline("Here is json: {\"title\": \"Hi\", \"content\": \"World\"}")
         == "{\"title\": \"Hi\", \"content\": \"World\"}"
  {
    WrappedJsonExtract();
    ObjectIsNormalized();
    NormalizedIsFixed("{\"title\": \"Hi\", \"content\": \"World\"}");
  }

  lemma WrappedJsonExtract()
    ensures ExtractObject("Here is json: {\"title\": \"Hi\", \"content\": \"World\"}")
         == "{\"title\": \"Hi\", \"content\": \"World\"}"
  {
    var pre := "Here is json: ";
    var obj := "{\"title\": \"Hi\", \"content\": \"World\"}";
    assert pre + obj + "" == "Here is json: {\"title\": \"Hi\", \"content\": \"World\"}";
    ExtractAround(pre, obj, "");
  }

  lemma RefusalIsNormalized()
    ensures '{' !in "Sorry, I can't help."
    ensures Normalized("Sorry, I can't help.")
  {
    RefusalHasNoQuotes();
    RefusalHasNoBacktickOrLineFeed();
  }

  lemma RefusalHasNoQuotes()
    ensures LeftDoubleQuote !in "Sorry, I can't help."
    ensures RightDoubleQuote !in "Sorry, I can't help."
  {
  }

  lemma RefusalHasNoBacktickOrLineFeed()
    ensures Backtick !in "Sorry, I can't help."
    ensures LineFeed !in "Sorry, I can't help."
  {
  }
  lemma NullIsNormalized()
    ensures '{' !in "null"
    ensures Normalized("null")
  {
  }

  lemma ObjectIsNormalized()
    ensures Normalized("{\"title\": \"Hi\", \"content\": \"World\"}")
  {
    ObjectHasNoQuotes();
    ObjectHasNoBacktickOrLineFeed();
  }

  lemma ObjectHasNoQuotes()
    ensures LeftDoubleQuote !in "{\"title\": \"Hi\", \"content\": \"World\"}"
    ensures RightDoubleQuote !in "{\"title\": \"Hi\", \"content\": \"World\"}"
  {
  }

  lemma ObjectHasNoBacktickOrLineFeed()
    ensures Backtick !in "{\"title\": \"Hi\", \"content\": \"World\"}"
    ensures LineFeed !in "{\"title\": \"Hi\", \"content\": \"World\"}"
  {
  }
}
