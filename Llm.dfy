/**
 * The LLM client, `query_llm`: the request payload
 * `{"model", "prompt", "stream": false}` with the configured `llm_params`
 * merged over it one level deep, the status check on the reply, and the
 * adapter that accepts the Ollama shape (`"response"`) or the OpenAI shape
 * (`choices[0].message.content`). The HTTP exchange itself is an input: what
 * the server answered, or that the request could not be sent.
 */
module Llm {
  import opened Wrappers
  import opened RustCore
  import opened Json
  import opened Errors
  import opened Config

  // ---------------------------------------------------------------------------
  // The request payload
  // ---------------------------------------------------------------------------

  /** The members of the payload before any parameters are merged in. */
  function BaseFields(model: string, text: string): (fields: map<string, Json>)
    ensures fields.Keys == {"model", "prompt", "stream"}
    ensures AsStr(Get(JObj(fields), "model")) == Some(model) && AsStr(Get(JObj(fields), "prompt")) == Some(text)
    ensures Get(JObj(fields), "stream") == Some(JBool(false))
  {
    map["model" := JStr(model), "prompt" := JStr(text), "stream" := JBool(false)]
  }

  /**
   * Every top-level member of an object-valued `params` replaces or joins the
   * base member of that name, as a whole; any other `params` is ignored.
   */
  function MergeParams(base: map<string, Json>, params: Option<Json>): (merged: map<string, Json>)
    ensures !(params.Some? && params.value.JObj?) ==> merged == base
    ensures params.Some? && params.value.JObj? ==>
              && (forall k :: k in merged <==> k in base || k in params.value.fields)
              && (forall k :: k in params.value.fields ==> merged[k] == params.value.fields[k])
              && (forall k :: k in base && k !in params.value.fields ==> merged[k] == base[k])
  {
    if params.Some? && params.value.JObj? then base + params.value.fields else base
  }

  /**
   * The payload construction of `query_llm`: the base object, then, when the
   * parameters are an object, one `insert` per member of it.
   */
  method BuildPayload(model: string, text: string, params: Option<Json>) returns (payload: Json)
    ensures payload == JObj(MergeParams(BaseFields(model, text), params))
  {
    var fields := BaseFields(model, text);
    if params.Some? && params.value.JObj? {
      fields := InsertAll(fields, params.value.fields);
      MergeObject(BaseFields(model, text), params.value.fields);
    }
    payload := JObj(fields);
  }

  /**
   * `payload_map.insert(key, value)` for every member of `extra`: each insert
   * replaces the member of that name or adds it. The members have distinct
   * names, so the order of the inserts does not matter.
   */
  method InsertAll<K(!new), V>(base: map<K, V>, extra: map<K, V>) returns (merged: map<K, V>)
    ensures merged == base + extra
  {
    merged := base;
    var pending := extra.Keys;
    ghost var done: set<K> := {};
    while pending != {}
      invariant pending <= extra.Keys && done == extra.Keys - pending
      invariant merged == base + Restrict(extra, done)
      decreases |pending|
    {
      var key :| key in pending;
      RestrictGrow(base, extra, done, key);
      merged := merged[key := extra[key]];
      pending := pending - {key};
      done := done + {key};
    }
    RestrictAll(extra);
  }

  lemma MergeObject(base: map<string, Json>, extra: map<string, Json>)
    ensures MergeParams(base, Some(JObj(extra))) == base + extra
  {
  }

  /** The members of `m` whose names are in `names`. */
  function Restrict<K(!new), V>(m: map<K, V>, names: set<K>): (r: map<K, V>)
    ensures forall k :: k in r <==> k in m && k in names
    ensures forall k :: k in r ==> r[k] == m[k]
  {
    map k | k in m && k in names :: m[k]
  }

  lemma RestrictGrow<K(!new), V>(base: map<K, V>, m: map<K, V>, names: set<K>, k: K)
    requires k in m
    ensures (base + Restrict(m, names))[k := m[k]] == base + Restrict(m, names + {k})
  {
  }

  lemma RestrictAll<K(!new), V>(m: map<K, V>)
    ensures Restrict(m, m.Keys) == m
  {
  }

  // ---------------------------------------------------------------------------
  // The reply
  // ---------------------------------------------------------------------------

  /**
   * What came of sending the request: it could not be sent (`send` failed), or
   * the server answered with a status, a body that may or may not be
   * readable as text, and that body read as JSON or the decoding error.
   */
  datatype Exchange =
    | SendFailed(detail: string)
    | Replied(status: u16, text: Option<string>, json: Result<Json, string>)

  /** `StatusCode::is_success`: the 2xx range. */
  predicate IsSuccess(status: u16) {
    200 <= status < 300
  }

  const UNRECOGNIZED_PREFIX: string := "Unrecognized LLM response format. Received: "

  /** The error text for a non-success status, given the error body as far as it could be read. */
  function StatusErrorText(status: u16, text: Option<string>): string {
    var body := if text.Some? then text.value else "Failed to read error body";
    "LLM API error (Status " + Decimal(status) + "): " + body
  }

  /** `choices[0].message.content` as a string, if the reply has that shape. */
  function ChoiceContent(data: Json): (c: Option<string>)
    ensures c.Some? <==> HasChoiceText(data)
    ensures c.Some? ==> c.value == data.fields["choices"].items[0].fields["message"].fields["content"].s
  {
    match AsArray(Get(data, "choices"))
    case Some(choices) =>
      if |choices| > 0 then
        match Get(choices[0], "message")
        case Some(message) => AsStr(Get(message, "content"))
        case None => None
      else None
    case None => None
  }

  /** Whether the reply carries a string member `"response"` (the Ollama shape). */
  predicate HasResponseText(data: Json) {
    data.JObj? && "response" in data.fields && data.fields["response"].JStr?
  }

  /** Whether the reply carries a string at `choices[0].message.content` (the OpenAI shape). */
  predicate HasChoiceText(data: Json) {
    && data.JObj? && "choices" in data.fields
    && data.fields["choices"].JArr? && |data.fields["choices"].items| > 0
    && data.fields["choices"].items[0].JObj?
    && "message" in data.fields["choices"].items[0].fields
    && data.fields["choices"].items[0].fields["message"].JObj?
    && "content" in data.fields["choices"].items[0].fields["message"].fields
    && data.fields["choices"].items[0].fields["message"].fields["content"].JStr?
  }

  /**
   * The response adapter: the Ollama shape wins, then the OpenAI shape, both
   * trimmed; anything else is an error that quotes the reply.
   */
  function ParseReply(data: Json): (r: Result<string, AppError>)
    ensures HasResponseText(data) ==> r == Ok(Trim(data.fields["response"].s))
    ensures !HasResponseText(data) && HasChoiceText(data) ==>
              r == Ok(Trim(data.fields["choices"].items[0].fields["message"].fields["content"].s))
    ensures !HasResponseText(data) && !HasChoiceText(data) ==>
              r == Err(LlmApiError(UNRECOGNIZED_PREFIX + Serialize(data)))
    ensures r.Ok? ==> Trimmed(r.value)
  {
    match AsStr(Get(data, "response"))
    case Some(s) => Ok(Trim(s))
    case None =>
      match ChoiceContent(data)
      case Some(c) => Ok(Trim(c))
      case None => Err(LlmApiError(UNRECOGNIZED_PREFIX + Serialize(data)))
  }

  /** What `query_llm` returns for an exchange. */
  function Outcome(exchange: Exchange): (r: Result<string, AppError>)
    ensures exchange.SendFailed? ==> r == Err(Reqwest(exchange.detail))
    ensures exchange.Replied? && !IsSuccess(exchange.status) ==>
              r == Err(LlmApiError(StatusErrorText(exchange.status, exchange.text)))
    ensures exchange.Replied? && IsSuccess(exchange.status) && exchange.json.Err? ==>
              r == Err(Reqwest(exchange.json.error))
    ensures exchange.Replied? && IsSuccess(exchange.status) && exchange.json.Ok? ==>
              r == ParseReply(exchange.json.value)
    ensures r.Err? ==> IsUpstream(r.error)
  {
    match exchange
    case SendFailed(d) => Err(Reqwest(d))
    case Replied(status, text, json) =>
      if !IsSuccess(status) then Err(LlmApiError(StatusErrorText(status, text)))
      else match json
        case Err(d) => Err(Reqwest(d))
        case Ok(data) => ParseReply(data)
  }

  /**
   * `query_llm(text, config, client)`: builds the payload, which is what gets
   * posted to `config.llmUrl`, and turns the exchange into the answer.
   */
  method QueryLlm(text: string, config: AppConfig, exchange: Exchange) returns (payload: Json, r: Result<string, AppError>)
    ensures payload == JObj(MergeParams(BaseFields(config.modelName, text), config.llmParams))
    ensures r == Outcome(exchange)
  {
    payload := BuildPayload(config.modelName, text, config.llmParams);
    r := Outcome(exchange);
  }

  // ---------------------------------------------------------------------------
  // Properties
  // ---------------------------------------------------------------------------

  /** Without parameters, the payload is exactly model, prompt (the raw text) and `stream: false`. */
  lemma PlainPayload(model: string, text: string, params: Option<Json>)
    requires params.None? || !params.value.JObj?
    ensures var p := MergeParams(BaseFields(model, text), params);
            && p.Keys == {"model", "prompt", "stream"}
            && p["model"] == JStr(model) && p["prompt"] == JStr(text) && p["stream"] == JBool(false)
  {
  }

  /** A `stream` parameter overrides the default, and a nested object replaces rather than merges. */
  lemma ParamsOverride(model: string, text: string, stream: Json, options: Json)
    ensures var p := MergeParams(BaseFields(model, text),
                                   Some(JObj(map["stream" := stream, "options" := options])));
            && p["stream"] == stream && p["options"] == options
            && p["model"] == JStr(model) && p["prompt"] == JStr(text)
            && p.Keys == {"model", "prompt", "stream", "options"}
  {
  }

  /** The error text names the status and quotes the body that was read. */
  lemma StatusErrorTextMentions(status: u16, body: string)
    ensures var m := StatusErrorText(status, Some(body));
            && m[|m| - |body|..] == body
            && m[|"LLM API error (Status "|..|"LLM API error (Status "| + |Decimal(status)|] == Decimal(status)
  {
  }

  /** On a non-success status the reply body is never parsed: its JSON does not matter. */
  lemma ErrorStatusIgnoresJson(status: u16, text: Option<string>, j1: Result<Json, string>, j2: Result<Json, string>)
    requires !IsSuccess(status)
    ensures Outcome(Replied(status, text, j1)) == Outcome(Replied(status, text, j2))
  {
  }

  /** A reply of neither shape is quoted in the error: a bare string reply appears in quotes. */
  lemma UnrecognizedQuotesReply(s: string)
    requires forall i :: 0 <= i < |s| ==> PlainChar(s[i])
    ensures ParseReply(JStr(s)) == Err(LlmApiError(UNRECOGNIZED_PREFIX + "\"" + s + "\""))
  {
    SerializePlain(s);
    assert UNRECOGNIZED_PREFIX + Serialize(JStr(s)) == UNRECOGNIZED_PREFIX + "\"" + s + "\"";
  }

  /** The Ollama shape: its text, trimmed. */
  lemma OllamaReply()
    ensures ParseReply(JObj(map["response" := JStr("  Hello\n")])) == Ok("Hello")
  {
    var data := JObj(map["response" := JStr("  Hello\n")]);
    assert HasResponseText(data);
    assert AllWhitespace("  ") && AllWhitespace("\n") && Trimmed("Hello");
    assert "  " + "Hello" + "\n" == "  Hello\n";
    TrimPadded("  ", "Hello", "\n");
  }

  /** The OpenAI shape: the first choice's message content, trimmed. */
  lemma OpenAiReply()
    ensures ParseReply(JObj(map["choices" := JArr([JObj(map["message" := JObj(map["role" := JStr("assistant"), "content" := JStr("Hi ")])])])]))
            == Ok("Hi")
  {
    var data := JObj(map["choices" := JArr([JObj(map["message" := JObj(map["role" := JStr("assistant"), "content" := JStr("Hi ")])])])]);
    assert !HasResponseText(data) && HasChoiceText(data);
    assert AllWhitespace("") && AllWhitespace(" ") && Trimmed("Hi");
    assert "" + "Hi" + " " == "Hi ";
    TrimPadded("", "Hi", " ");
  }

  /** A string `"response"` wins over any `"choices"` next to it. */
  lemma ResponseBeforeChoices(s: string, choices: Json)
    ensures ParseReply(JObj(map["response" := JStr(s), "choices" := choices])) == Ok(Trim(s))
  {
    assert HasResponseText(JObj(map["response" := JStr(s), "choices" := choices]));
  }

  /** A `"response"` that is not a string is passed over for the OpenAI shape. */
  lemma NonStringResponseFallsThrough(v: Json, content: string)
    requires !v.JStr?
    ensures ParseReply(JObj(map["response" := v, "choices" := JArr([JObj(map["message" := JObj(map["content" := JStr(content)])])])]))
            == Ok(Trim(content))
  {
    var data := JObj(map["response" := v, "choices" := JArr([JObj(map["message" := JObj(map["content" := JStr(content)])])])]);
    assert !HasResponseText(data) && HasChoiceText(data);
  }

  /** An empty `choices` array matches neither shape. */
  lemma EmptyChoicesUnrecognized()
    ensures ParseReply(JObj(map["choices" := JArr([])])) == Err(LlmApiError(UNRECOGNIZED_PREFIX + Serialize(JObj(map["choices" := JArr([])]))))
  {
    var data := JObj(map["choices" := JArr([])]);
    assert !HasResponseText(data) && !HasChoiceText(data);
  }
}
