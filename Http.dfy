/**
 * The request handler, `process_text_handler`: derive the template hash,
 * try the cache, otherwise ask the LLM and store its answer, and answer the
 * client. The clock readings of the lookup and of the store, the faults of
 * the table, and the LLM exchange are inputs.
 */
module Http {
  import opened Wrappers
  import opened RustCore
  import opened Json
  import opened Errors
  import opened Config
  import opened Cache
  import Llm

  /** The hash of the prompt template that goes into the cache key; 0 without a template. */
  function TemplateHash(hasher: StrHasher, template: Option<string>): (h: u64)
    ensures template.None? ==> h == 0
    ensures template.Some? ==> h == hasher(template.value)
  {
    match template
    case None => 0
    case Some(t) => hasher(t)
  }

  /** The cache key of a request under a configuration. */
  function RequestKey(config: AppConfig, hasher: StrHasher, text: string): Bytes {
    GenerateKey(hasher, text, config.modelName, TemplateHash(hasher, config.promptTemplate))
  }

  /** The payload `query_llm` posts for a request. */
  function RequestPayload(config: AppConfig, text: string): Json {
    JObj(Llm.MergeParams(Llm.BaseFields(config.modelName, text), config.llmParams))
  }

  /**
   * How a request went: the handler's result, the payload posted to the LLM
   * (`None` when it was not called), and the cache table afterwards.
   */
  datatype Handled = Handled(result: Result<string, AppError>, sent: Option<Json>, db: Db)

  /**
   * The handler as a function of the cache table `db` before the request.
   * `config.cache.enabled` gates the two cache calls; the manager applies
   * its own `manager` settings inside them.
   */
  function Handle(config: AppConfig, manager: CacheConfig, hasher: StrHasher, db: Db, text: string,
                  lookupNow: u64, getFails: bool, exchange: Llm.Exchange, storeNow: u64, insertFails: bool)
    : (h: Handled)
    ensures h.sent.Some? ==> h.sent.value == RequestPayload(config, text)
    ensures h.sent.Some? ==> h.result == Llm.Outcome(exchange)
    ensures h.sent.None? ==> config.cache.enabled && h.result.Ok? && h.db == db
    ensures !config.cache.enabled ==> h.sent.Some? && h.db == db
    ensures h.sent.None? <==>
              config.cache.enabled && LookupStep(manager.enabled, db, RequestKey(config, hasher, text), lookupNow, getFails).0.Ok?
              && LookupStep(manager.enabled, db, RequestKey(config, hasher, text), lookupNow, getFails).0.value.Some?
  {
    var key := RequestKey(config, hasher, text);
    var (found, db1) :=
      if config.cache.enabled then LookupStep(manager.enabled, db, key, lookupNow, getFails) else (Ok(None), db);
    if found.Ok? && found.value.Some? then Handled(Ok(found.value.value), None, db1)
    else
      var sent := Some(RequestPayload(config, text));
      match Llm.Outcome(exchange)
      case Err(e) => Handled(Err(e), sent, db1)
      case Ok(answer) =>
        var db2 :=
          if config.cache.enabled then StoreStep(manager.enabled, manager.ttlDays, db1, key, answer, storeNow, insertFails).1
          else db1;
        Handled(Ok(answer), sent, db2)
  }

  /** The HTTP response for the handler's result: 200 with `{"response": text}`, or the error's response. */
  function Respond(result: Result<string, AppError>): (resp: HttpResponse)
    ensures result.Ok? ==> resp.status == OK && resp.body.JObj? && resp.body.fields.Keys == {"response"}
                           && AsStr(Get(resp.body, "response")) == Some(result.value)
    ensures result.Err? ==> resp == IntoResponse(result.error)
  {
    match result
    case Ok(text) => HttpResponse(OK, JObj(map["response" := JStr(text)]))
    case Err(e) => IntoResponse(e)
  }

  /** `process_text_handler` on the shared cache manager. */
  method ProcessText(config: AppConfig, cache: CacheManager, text: string,
                     lookupNow: u64, getFails: bool, exchange: Llm.Exchange, storeNow: u64, insertFails: bool)
    returns (r: Result<string, AppError>, sent: Option<Json>)
    modifies cache
    ensures Handled(r, sent, cache.db)
            == Handle(config, cache.config, cache.hasher, old(cache.db), text, lookupNow, getFails, exchange, storeNow, insertFails)
  {
    var templateHash := TemplateHash(cache.hasher, config.promptTemplate);
    if config.cache.enabled {
      var found := cache.Lookup(text, config.modelName, templateHash, lookupNow, getFails);
      if found.Ok? && found.value.Some? {
        return Ok(found.value.value), None;
      }
    }
    var payload, answer := Llm.QueryLlm(text, config, exchange);
    sent := Some(payload);
    if answer.Err? {
      return Err(answer.error), sent;
    }
    if config.cache.enabled {
      var _ := cache.Store(text, answer.value, config.modelName, templateHash, storeNow, insertFails);
    }
    r := Ok(answer.value);
  }

  // ---------------------------------------------------------------------------
  // Properties
  // ---------------------------------------------------------------------------

  /** A live, readable entry for the request is served as is, and the LLM is not called. */
  lemma CacheHitSkipsLlm(config: AppConfig, hasher: StrHasher, db: Db, text: string,
                         lookupNow: u64, exchange: Llm.Exchange, storeNow: u64, insertFails: bool)
    requires config.cache.enabled
    requires RequestKey(config, hasher, text) in db
    requires FromBytes(db[RequestKey(config, hasher, text)]).Ok?
    requires !IsExpired(FromBytes(db[RequestKey(config, hasher, text)]).value, lookupNow)
    ensures var h := Handle(config, config.cache, hasher, db, text, lookupNow, false, exchange, storeNow, insertFails);
            && h.result == Ok(FromBytes(db[RequestKey(config, hasher, text)]).value.response)
            && h.sent.None? && h.db == db
  {
  }

  /**
   * Any lookup that does not hit (a miss, an expired entry, a failed read or
   * an undecodable value) asks the LLM, and a successful answer is stored
   * under the request's key in the table the lookup left.
   */
  lemma MissAsksLlm(config: AppConfig, hasher: StrHasher, db: Db, text: string,
                    lookupNow: u64, getFails: bool, exchange: Llm.Exchange, storeNow: u64, insertFails: bool)
    requires config.cache.enabled
    requires var found := LookupStep(config.cache.enabled, db, RequestKey(config, hasher, text), lookupNow, getFails).0;
             !(found.Ok? && found.value.Some?)
    ensures var h := Handle(config, config.cache, hasher, db, text, lookupNow, getFails, exchange, storeNow, insertFails);
            var db1 := LookupStep(config.cache.enabled, db, RequestKey(config, hasher, text), lookupNow, getFails).1;
            && h.sent == Some(RequestPayload(config, text))
            && h.result == Llm.Outcome(exchange)
            && (h.result.Ok? ==>
                  h.db == StoreStep(config.cache.enabled, config.cache.ttlDays, db1, RequestKey(config, hasher, text),
                                    h.result.value, storeNow, insertFails).1)
  {
  }

  /**
   * A failed lookup, whether the table read fails or the stored value does
   * not decode, is treated as a miss: the LLM is asked, and its result is the
   * handler's.
   */
  lemma LookupErrorFallsBack(config: AppConfig, hasher: StrHasher, db: Db, text: string,
                             lookupNow: u64, getFails: bool, exchange: Llm.Exchange, storeNow: u64, insertFails: bool)
    requires config.cache.enabled
    requires LookupStep(config.cache.enabled, db, RequestKey(config, hasher, text), lookupNow, getFails).0.Err?
    ensures var h := Handle(config, config.cache, hasher, db, text, lookupNow, getFails, exchange, storeNow, insertFails);
            var db1 := LookupStep(config.cache.enabled, db, RequestKey(config, hasher, text), lookupNow, getFails).1;
            && h.sent == Some(RequestPayload(config, text))
            && h.result == Llm.Outcome(exchange)
            && (h.result.Ok? ==>
                  h.db == StoreStep(config.cache.enabled, config.cache.ttlDays, db1, RequestKey(config, hasher, text),
                                    h.result.value, storeNow, insertFails).1)
  {
  }

  /** An LLM failure reaches the client unchanged, and nothing is stored. */
  lemma LlmErrorPropagates(config: AppConfig, hasher: StrHasher, db: Db, text: string,
                           lookupNow: u64, getFails: bool, exchange: Llm.Exchange, storeNow: u64, insertFails: bool)
    requires Llm.Outcome(exchange).Err?
    ensures var h := Handle(config, config.cache, hasher, db, text, lookupNow, getFails, exchange, storeNow, insertFails);
            && (h.sent.Some? ==> h.result == Llm.Outcome(exchange))
            && h.db == (if config.cache.enabled then LookupStep(config.cache.enabled, db, RequestKey(config, hasher, text), lookupNow, getFails).1 else db)
  {
  }

  /** A failed store does not change what the client gets. */
  lemma StoreFailureIgnored(config: AppConfig, hasher: StrHasher, db: Db, text: string,
                            lookupNow: u64, getFails: bool, exchange: Llm.Exchange, storeNow: u64)
    ensures Handle(config, config.cache, hasher, db, text, lookupNow, getFails, exchange, storeNow, true).result
            == Handle(config, config.cache, hasher, db, text, lookupNow, getFails, exchange, storeNow, false).result
  {
  }

  /** With the cache disabled every request goes to the LLM and the table is never touched. */
  lemma DisabledAlwaysAsks(config: AppConfig, hasher: StrHasher, db: Db, text: string,
                           lookupNow: u64, getFails: bool, exchange: Llm.Exchange, storeNow: u64, insertFails: bool)
    requires !config.cache.enabled
    ensures var h := Handle(config, config.cache, hasher, db, text, lookupNow, getFails, exchange, storeNow, insertFails);
            && h.sent == Some(RequestPayload(config, text))
            && h.result == Llm.Outcome(exchange)
            && h.db == db
  {
  }

  /** What the LLM answers, the handler returns trimmed; only a cached text can come back untrimmed. */
  lemma LlmAnswerTrimmed(config: AppConfig, hasher: StrHasher, db: Db, text: string,
                         lookupNow: u64, getFails: bool, exchange: Llm.Exchange, storeNow: u64, insertFails: bool)
    ensures var h := Handle(config, config.cache, hasher, db, text, lookupNow, getFails, exchange, storeNow, insertFails);
            h.sent.Some? && h.result.Ok? ==> Trimmed(h.result.value)
  {
    var h := Handle(config, config.cache, hasher, db, text, lookupNow, getFails, exchange, storeNow, insertFails);
    if h.sent.Some? && h.result.Ok? {
      assert h.result == Llm.Outcome(exchange);
    }
  }

  /**
   * The same request again before the stored answer expires is served from
   * the cache, with no second LLM call, provided the answer has no '|'.
   */
  lemma RepeatServedFromCache(config: AppConfig, hasher: StrHasher, db: Db, text: string,
                              t1: u64, getFails: bool, exchange: Llm.Exchange, t2: u64,
                              t3: u64, again: Llm.Exchange, t4: u64, insertFails: bool)
    requires config.cache.enabled
    requires Llm.Outcome(exchange).Ok? && SEP !in Llm.Outcome(exchange).value
    requires var found := LookupStep(true, db, RequestKey(config, hasher, text), t1, getFails).0;
             !(found.Ok? && found.value.Some?)
    requires t3 <= NewEntry(Llm.Outcome(exchange).value, config.cache.ttlDays, t2).expiresAt
    ensures var first := Handle(config, config.cache, hasher, db, text, t1, getFails, exchange, t2, false);
            var second := Handle(config, config.cache, hasher, first.db, text, t3, false, again, t4, insertFails);
            && second.result == first.result
            && second.sent.None?
  {
    var key := RequestKey(config, hasher, text);
    var answer := Llm.Outcome(exchange).value;
    var db1 := LookupStep(true, db, key, t1, getFails).1;
    StoreThenLookup(config.cache.ttlDays, db1, key, answer, t2, t3);
  }

  /** An upstream failure is answered with 502 and its message. */
  lemma UpstreamFailureIsBadGateway(config: AppConfig, hasher: StrHasher, db: Db, text: string,
                                    lookupNow: u64, getFails: bool, exchange: Llm.Exchange, storeNow: u64, insertFails: bool)
    requires Llm.Outcome(exchange).Err?
    ensures var h := Handle(config, config.cache, hasher, db, text, lookupNow, getFails, exchange, storeNow, insertFails);
            h.sent.Some? ==> Respond(h.result).status == BAD_GATEWAY
  {
  }
}
