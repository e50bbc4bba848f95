/** `analyze_with_bedrock`: build the prompt, send it to the model, and turn
    the reply into a JSON value. The model call and the decoding of its
    response are a parameter (`invoke`), and so is the JSON parser (`parse`). */
module Invoker {
  import opened Wrappers
  import opened Strings
  import opened Json
  import opened Prompt
  import opened Normalizer
  import Chunker

  /** The API version the request names. */
  const AnthropicVersion := "bedrock-2023-05-31"

  /** The largest reply the request asks for, in tokens. */
  const MaxTokens := 4000

  /** The request body: one user message holding one text block with the prompt. */
  function RequestBody(prompt: string): Json {
    JObject(map[
      "anthropic_version" := JString(AnthropicVersion),
      "max_tokens" := JNumber(MaxTokens),
      "messages" := JArray([JObject(map[
        "role" := JString("user"),
        "content" := JArray([JObject(map["type" := JString("text"), "text" := JString(prompt)])])])])])
  }

  /** The text of the single text block of the single user message of a
      request body, if the body has that shape. */
  function PromptOf(body: Json): Option<string> {
    if !body.JObject? || "messages" !in body.fields then None
    else
      var messages := body.fields["messages"];
      if !messages.JArray? || |messages.items| != 1 then None
      else
        var message := messages.items[0];
        if !message.JObject? || "role" !in message.fields || "content" !in message.fields
           || message.fields["role"] != JString("user") then None
        else
          var content := message.fields["content"];
          if !content.JArray? || |content.items| != 1 then None
          else
            var block := content.items[0];
            if !block.JObject? || "type" !in block.fields || "text" !in block.fields
               || block.fields["type"] != JString("text") || !block.fields["text"].JString? then None
            else Some(block.fields["text"].s)
  }

  /** The prompt travels unchanged in the request body. */
  lemma RequestBodyCarriesPrompt(prompt: string)
    ensures PromptOf(RequestBody(prompt)) == Some(prompt)
    ensures RequestBody(prompt).fields["anthropic_version"] == JString("bedrock-2023-05-31")
    ensures RequestBody(prompt).fields["max_tokens"] == JNumber(4000)
  {
  }

  /** The model call: given the request body it returns the `content` list of
      the decoded reply (`None` when the reply has no `content` key), or the
      message of the exception the call or the decoding raised. */
  type Transport = Json -> Result<Option<seq<ContentBlock>>, string>

  /** `analyze_with_bedrock(client, arn, text, pillar)`: a failure is the
      message of the exception that escapes it. */
  function AnalyzeWithBedrock(templates: map<string, string>, invoke: Transport,
                              parse: string -> Option<Json>, text: string, pillar: string): Result<Json, string>
  {
    var prompt :- LoadPrompt(templates, pillar, text);
    var content :- invoke(RequestBody(prompt));
    var reply :- ReplyText(content);
    Success(NormalizeReply(reply, pillar, parse))
  }

  /** Without the pillar's template file nothing else happens: the call fails
      with the file-not-found message naming the template path. */
  lemma AnalyzeMissingTemplate(templates: map<string, string>, invoke: Transport,
                               parse: string -> Option<Json>, text: string, pillar: string)
    requires TemplatePath(pillar) !in templates
    ensures AnalyzeWithBedrock(templates, invoke, parse, text, pillar)
            == Failure(NotFoundMessage(TemplatePath(pillar)))
  {
  }

  /** A failing model call fails the analysis with the same message. */
  lemma AnalyzeTransportError(templates: map<string, string>, invoke: Transport,
                              parse: string -> Option<Json>, text: string, pillar: string)
    requires TemplatePath(pillar) in templates
    requires invoke(RequestBody(LoadPrompt(templates, pillar, text).value)).Failure?
    ensures AnalyzeWithBedrock(templates, invoke, parse, text, pillar)
            == Failure(invoke(RequestBody(LoadPrompt(templates, pillar, text).value)).error)
  {
  }

  /** The analysis succeeds exactly when the template exists, the model call
      succeeds and no content block lacks a key the extraction reads; the
      JSON parse never makes it fail. */
  lemma AnalyzeSucceeds(templates: map<string, string>, invoke: Transport,
                        parse: string -> Option<Json>, text: string, pillar: string)
    ensures AnalyzeWithBedrock(templates, invoke, parse, text, pillar).Success?
            <==> TemplatePath(pillar) in templates
                 && invoke(RequestBody(LoadPrompt(templates, pillar, text).value)).Success?
                 && (var content := invoke(RequestBody(LoadPrompt(templates, pillar, text).value)).value;
                     content.Some? ==> WellFormedBlocks(content.value))
  {
    if TemplatePath(pillar) in templates {
      var content := invoke(RequestBody(LoadPrompt(templates, pillar, text).value));
      if content.Success? && content.value.Some? {
        ExtractTextSucceeds(content.value.value);
      }
    }
  }

  /** On success the result is the normalised concatenation of the `text`
      fields of the reply's text blocks, built from the filled-in template. */
  lemma AnalyzeResult(templates: map<string, string>, invoke: Transport,
                      parse: string -> Option<Json>, text: string, pillar: string,
                      blocks: seq<ContentBlock>)
    requires TemplatePath(pillar) in templates
    requires invoke(RequestBody(ReplaceAll(templates[TemplatePath(pillar)], Placeholder, text)))
             == Success(Some(blocks))
    requires WellFormedBlocks(blocks)
    ensures AnalyzeWithBedrock(templates, invoke, parse, text, pillar)
            == Success(NormalizeReply(Chunker.Concat(TextFields(blocks)), pillar, parse))
  {
    var prompt := ReplaceAll(templates[TemplatePath(pillar)], Placeholder, text);
    assert LoadPrompt(templates, pillar, text) == Success(prompt);
    var reply := Chunker.Concat(TextFields(blocks));
    assert ReplyText(Some(blocks)) == Success(reply) by {
      ExtractTextIsTextFields(blocks);
    }
  }

  /** A reply without `content` is the empty text, which is not JSON: the
      result is the fallback issue with an empty description. */
  lemma AnalyzeEmptyReply(templates: map<string, string>, invoke: Transport,
                          parse: string -> Option<Json>, text: string, pillar: string)
    requires TemplatePath(pillar) in templates
    requires invoke(RequestBody(LoadPrompt(templates, pillar, text).value)) == Success(None)
    requires parse("") == None
    ensures AnalyzeWithBedrock(templates, invoke, parse, text, pillar)
            == Success(Fallback("", pillar))
  {
    assert CleanText("") == "";
  }
}
