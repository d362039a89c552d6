# writer-ai backend service: cache and request pipeline in Dafny

This project models the Rust backend of writer-ai (`rust_service/src`). The
service takes a text, asks an LLM for an improved version, and caches the
answers in a sled key/value store. Four pieces of its logic are modelled, with
proofs about each:

- **The response cache** (`cache.rs`), in `Cache.dfy`.
  - `CacheEntry` has a text encoding `"response|created_at|expires_at"`, the
    UTF-8 bytes of that text. Its decoder uses `splitn(3, '|')` and
    `parse::<u64>`.
  - The key is the 8 big-endian bytes of a `DefaultHasher` hash of
    `"model|template_hash|text"`.
  - `CacheManager` is a class whose `db` field is the sled tree, a map from
    byte strings to byte strings. It offers `Lookup` with lazy deletion,
    `Store` that overwrites, `CleanupExpired`, `Clear`, and a constructor
    that sweeps on start-up. `CleanupExpired` runs the loop `RemoveWhere`,
    which visits every entry once and removes and counts the expired ones.
  - Each table operation is also given as a function of the table contents
    (`LookupStep`, `StoreStep`, `Swept`). Each method is proved equal to its
    function, and the properties are proved about the functions.
- **The LLM client** (`llm.rs`), in `Llm.dfy`.
  - The payload `{"model", "prompt", "stream": false}` gets the configured
    parameters merged in one level deep. `BuildPayload` does
    this with `InsertAll`, a loop of inserts. The loop is proved to give
    the map union, and the payload is proved equal to `MergeParams`.
  - The status check turns a non-2xx reply into `LlmApiError`.
  - The reply adapter tries the Ollama shape first, then the OpenAI shape,
    and otherwise reports an unrecognized format.
- **The request handler** (`http.rs`), in `Http.dfy`.
  - `process_text_handler` is the method `ProcessText`, acting on a
    `CacheManager`. It is proved equal to the function `Handle`, which
    gives the result, the payload sent to the LLM (if any) and the table
    afterwards.
  - `Respond` builds the HTTP response.
- **The error type** (`errors.rs`), in `Errors.dfy`: `AppError` and
  `into_response`, a 502 or 500 status with an `{"error": message}` body.

Supporting modules:

- `RustCore.dfy` models the parts of Rust's core library the logic relies
  on: `u16`/`u64`, integer `Display`, `str::parse::<u64>`, `str::trim` with
  Unicode white space, and `str::splitn` with a `char` pattern.
- `Utf8.dfy` models `String::into_bytes` and `String::from_utf8`.
- `Json.dfy` models a `serde_json::Value` with integer numbers, and
  `serde_json::to_string` with keys in `BTreeMap` order.
- `Config.dfy` models the configuration record.
- `Wrappers.dfy` holds `Option` and `Result`.

Inputs that the code reads from the environment are parameters:

- the clock: `now`, and in the handler `lookupNow` and `storeNow`, because
  `lookup` and `store` each read the clock;
- the hasher: a function `StrHasher` fixed when the `CacheManager` is built;
- the HTTP exchange with the LLM: `Llm.Exchange`;
- the two table faults the code reacts to: `getFails` and `insertFails`.

Where the source contradicts itself, the model follows the code that runs:

- `AppConfig` in `config.rs` has no `cache` field, yet the handler reads
  `config.cache`, so the modelled record carries one.
- `cache.rs` raises `AppError::CacheError`, a variant `errors.rs` does not
  declare. Cache failures are modelled as their own `Cache.CacheError`. The
  handler only logs them, so they never reach `into_response`.
- The handler's unit test (`http.rs:150-162`) expects a "Missing OpenAI API
  key" error. No code produces one: the outcome of such a request is
  whatever the LLM exchange gives.

## Model

| member | source | states |
|---|---|---|
| RustCore.Decimal | rust_service/src/cache.rs:43-48 | the decimal text of a number is a non-empty digit string with no leading zero |
| RustCore.DecimalValue | rust_service/src/cache.rs:43-48 | reading the decimal text of `n` back as digits gives `n` |
| RustCore.ParseU64 | rust_service/src/cache.rs:62-65 | `parse::<u64>` accepts exactly one or more digits, with at most one leading '+', whose value is below 2^64, and gives that value; text with a pipe or a leading '-' is rejected |
| RustCore.ParseDecimal | rust_service/src/cache.rs:62-65 | `parse::<u64>` of the decimal text of any `u64` gives it back |
| RustCore.Trim | rust_service/src/llm.rs:62-64 | `str::trim` gives a sub-slice with no white space at either end, and only white space was cut off around it |
| RustCore.TrimPadded | rust_service/src/llm.rs:62-64 | trimming removes exactly the white-space padding around a trimmed core |
| RustCore.TrimTrimmed | rust_service/src/llm.rs:62-64 | a text with no white space at either end is left as it is |
| RustCore.SplitN | rust_service/src/cache.rs:56-56 | `splitn(n, sep)` gives no pieces exactly when `n` is 0 |
| RustCore.SplitNLength | rust_service/src/cache.rs:56-59 | `splitn(n, sep)` gives min(separators + 1, n) pieces |
| RustCore.SplitNJoin | rust_service/src/cache.rs:56-56 | the pieces joined with the separator give the input back |
| RustCore.SplitNSepFree | rust_service/src/cache.rs:56-56 | no piece but the last holds the separator |
| RustCore.SplitNLastCount | rust_service/src/cache.rs:56-56 | the last piece holds every separator that was not split on |
| RustCore.SplitThree | rust_service/src/cache.rs:56-61 | three fields, the first two free of the separator, split back into exactly those fields |
| Utf8.EncodeChar | rust_service/src/cache.rs:49-49 | one character takes 1 to 4 bytes, one byte exactly for ASCII, and every byte after the first is a continuation byte |
| Utf8.Encode | rust_service/src/cache.rs:49-49 | `into_bytes` writes between one and four times as many bytes as there are characters, and exactly one byte per character for ASCII text |
| Utf8.Decode | rust_service/src/cache.rs:53-54 | a string that `from_utf8` accepts has at least a quarter as many characters as there are bytes, and at most as many |
| Utf8.DecodeAscii | rust_service/src/cache.rs:53-54 | ASCII bytes are always accepted, one character per byte with the byte's value |
| Utf8.DecodeEncode | rust_service/src/cache.rs:49-54 | `String::from_utf8(s.into_bytes())` is `Ok(s)` for every string |
| Utf8.EncodeDecode | rust_service/src/cache.rs:53-54 | the bytes `from_utf8` accepts are exactly the encoding of the string it returns |
| Json.Get | rust_service/src/llm.rs:62-70 | `value.get(key)` finds a member exactly when the value is an object that has the key |
| Json.AsStr | rust_service/src/llm.rs:62-70 | `as_str` succeeds exactly on strings and gives their text |
| Json.AsArray | rust_service/src/llm.rs:67-68 | `as_array` succeeds exactly on arrays and gives their items |
| Json.Serialize | rust_service/src/llm.rs:81-81 | `serde_json::to_string` gives non-empty text; a string is written in quotes, an array in brackets and an object in braces |
| Json.EscapePlain | rust_service/src/llm.rs:81-81 | text with no quote, no backslash and no control character is written inside a string literal unchanged |
| Json.SerializePlain | rust_service/src/llm.rs:81-81 | such a string value is serialised as exactly its text in quotes |
| Json.SortedKeys | rust_service/src/llm.rs:81-81 | a map's keys in `BTreeMap` order: every key once, strictly ascending |
| Errors.Display | rust_service/src/errors.rs:10-26 | each variant that wraps a detail or a message displays a non-empty prefix followed by it, and `MissingHomeDir` displays a non-empty text |
| Errors.Status | rust_service/src/errors.rs:32-53 | the status is 502 exactly for `Reqwest` and `LlmApiError`, and 500 for every other variant |
| Errors.Message | rust_service/src/errors.rs:32-53 | `LlmApiError` and `Internal` messages pass through verbatim; the other wrapped errors end with their detail text |
| Errors.IntoResponse | rust_service/src/errors.rs:30-56 | 502 if and only if upstream, 500 if and only if not, and a body with the single member "error" holding the message |
| Errors.ErrorTextReadsBack | rust_service/src/errors.rs:45-55 | for `LlmApiError` and `Internal`, the client reads the original message back from the body |
| Cache.NewEntry | rust_service/src/cache.rs:26-38 | `created_at` is the clock; `expires_at` is clock + ttl_days·86400 when that fits in a u64; if only the sum overflows, the entry is born expired |
| Cache.ExpiryBoundary | rust_service/src/cache.rs:74-81 | `IsExpired` (`is_expired`) is strict: an entry is live up to and including its `expires_at` second, and expired after it |
| Cache.CountFormat | rust_service/src/cache.rs:43-48 | `Format`, the text `to_bytes` encodes, holds the response's pipes plus exactly the two separators, the timestamps adding none |
| Cache.ToBytes | rust_service/src/cache.rs:41-50 | the bytes are well-formed UTF-8 that decodes to the formatted text |
| Cache.FromBytes | rust_service/src/cache.rs:52-72 | non-UTF-8 bytes fail with NotUtf8, fewer than two pipes fail with InvalidFormat, and an accepted entry's bytes spell response, pipe, created, pipe, expires, with both timestamps parsing as u64 and no pipe in the response |
| Cache.FromBytesAccepts | rust_service/src/cache.rs:52-72 | conversely, any such bytes decode, to exactly those fields |
| Cache.EntryRoundTrip | rust_service/src/cache.rs:41-72 | `from_bytes(to_bytes(e)) == Ok(e)` whenever the response has no pipe |
| Cache.PipedResponseNeverDecodes | rust_service/src/cache.rs:41-65 | an entry whose response contains a pipe never decodes |
| Cache.PipedNotTimestamp | rust_service/src/cache.rs:62-65 | a piece holding a pipe never parses as a timestamp |
| Cache.TooManySeparators | rust_service/src/cache.rs:56-65 | text with more than two pipes is always rejected, because the last timestamp then holds a pipe |
| Cache.FromBytesStable | rust_service/src/cache.rs:41-72 | re-encoding a decoded entry and decoding again gives the same entry |
| Cache.BigEndianRoundTrip | rust_service/src/cache.rs:117-117 | `to_be_bytes` loses nothing: the bytes read back as the same number |
| Cache.GenerateKey | rust_service/src/cache.rs:110-118 | the key is 8 bytes, whose big-endian value is the hash of the key text |
| Cache.SameKeyIffSameHash | rust_service/src/cache.rs:110-118 | two requests share a key if and only if their key texts hash alike |
| Cache.KeyTextInjective | rust_service/src/cache.rs:111-111 | `KeyText`, the text that is hashed, is injective: with pipe-free model names, different (text, model, template hash) triples give different key texts |
| Cache.KeyTextCollision | rust_service/src/cache.rs:111-111 | a model name containing a pipe lets two different triples share a key text |
| Cache.LookupStep | rust_service/src/cache.rs:121-148 | disabled: miss, nothing changes; a failing read is `LookupFailed`, an absent key a miss, and a stored value that does not decode its decoding error, all with the table unchanged; a hit happens exactly on a readable, unexpired entry and returns its response; the table changes only by deleting that key, which happens exactly when the entry is readable and expired, and then reports a miss |
| Cache.StoreStep | rust_service/src/cache.rs:151-164 | disabled: Ok, nothing changes; insert failure: StoreFailed, nothing changes; otherwise the key maps to a fresh entry's bytes and every other key keeps its value |
| Cache.StoreThenLookup | rust_service/src/cache.rs:151-164 | for a response without a pipe, a store followed by a lookup of the same key, before expiry, returns the stored response and changes nothing |
| Cache.StoreThenLookupExpired | rust_service/src/cache.rs:132-136 | for a response without a pipe, a lookup after the stored entry expired misses and removes the key |
| Cache.StoreThenLookupOther | rust_service/src/cache.rs:151-164 | a store under one key does not change what a lookup under any other key returns |
| Cache.StoredPipedResponseFails | rust_service/src/cache.rs:128-131 | a stored response containing a pipe is never served; its lookups report a decoding error |
| Cache.StoreOverwrites | rust_service/src/cache.rs:159-160 | storing twice under one key leaves what storing only the second response leaves |
| Cache.ClearedMisses | rust_service/src/cache.rs:292-296 | after `clear`, every lookup whose read succeeds misses |
| Cache.Swept | rust_service/src/cache.rs:177-195 | a sweep keeps exactly the entries that do not decode or have not expired, with their values |
| Cache.SweptRemovesExpired | rust_service/src/cache.rs:177-195 | the swept table lacks exactly the expired keys, so its size drops by their number |
| Cache.SweepIdempotent | rust_service/src/cache.rs:177-195 | a second sweep at the same time removes nothing |
| Cache.LookupAfterSweep | rust_service/src/cache.rs:98-104 | after the sweep, a lookup at the same time deletes nothing |
| Cache.CacheManager.constructor | rust_service/src/cache.rs:92-107 | opening the manager sweeps the stored table when the cache is enabled, and keeps it otherwise |
| Cache.CacheManager.Lookup | rust_service/src/cache.rs:121-148 | the result and the new table are those of `LookupStep` for the request's key |
| Cache.CacheManager.Store | rust_service/src/cache.rs:151-164 | the result and the new table are those of `StoreStep` for the request's key |
| Cache.CacheManager.CleanupExpired | rust_service/src/cache.rs:167-196 | disabled: returns 0, nothing changes; otherwise the table becomes `Swept` and the count is the number of expired keys |
| Cache.RemoveWhere | rust_service/src/cache.rs:176-193 | visiting every entry once and removing those the test accepts leaves exactly the others, with their values, and counts the removed ones |
| Cache.CacheManager.Clear | rust_service/src/cache.rs:200-206 | the table becomes empty |
| Llm.BaseFields | rust_service/src/llm.rs:16-21 | the base payload has exactly the members model, prompt and stream, holding the model name, the raw text and false |
| Llm.MergeParams | rust_service/src/llm.rs:24-36 | an object's members override or join the base members whole, base members it does not name are kept, and a missing or non-object parameter leaves the base unchanged |
| Llm.InsertAll | rust_service/src/llm.rs:26-29 | inserting every member of the parameters into the payload map, one at a time, gives the union of the two maps, with the parameters' values winning |
| Llm.BuildPayload | rust_service/src/llm.rs:16-36 | the payload is the base object with the parameters merged as `MergeParams` says |
| Llm.PlainPayload | rust_service/src/llm.rs:16-21 | without object parameters the payload is exactly model, the raw text as prompt, and `stream: false` |
| Llm.ParamsOverride | rust_service/src/llm.rs:24-29 | a `stream` parameter replaces the default, and a nested parameter value is taken whole |
| Llm.ChoiceContent | rust_service/src/llm.rs:67-75 | `choices[0].message.content` is found exactly when the reply has the OpenAI shape with a string there, and it is that string |
| Llm.ParseReply | rust_service/src/llm.rs:58-82 | a string "response" gives its trimmed text; failing that, a string `choices[0].message.content` gives its trimmed text; otherwise an `LlmApiError` quoting the serialised reply; a success is always trimmed |
| Llm.Outcome | rust_service/src/llm.rs:41-82 | a send failure is `Reqwest`; a non-2xx status is `LlmApiError` with the status and error body; an undecodable 2xx body is `Reqwest`; otherwise the adapter decides; every error is an upstream one |
| Llm.QueryLlm | rust_service/src/llm.rs:10-83 | posts the merged payload and returns `Outcome` of the exchange |
| Llm.StatusErrorTextMentions | rust_service/src/llm.rs:49-53 | `StatusErrorText`, the status error text, contains the status code and ends with the error body |
| Llm.ErrorStatusIgnoresJson | rust_service/src/llm.rs:47-54 | on a non-success status the JSON of the body does not affect the result |
| Llm.OllamaReply | rust_service/src/llm.rs:62-64 | `{"response": "  Hello\n"}` gives "Hello" |
| Llm.OpenAiReply | rust_service/src/llm.rs:67-75 | a first choice with message content "Hi " gives "Hi" |
| Llm.ResponseBeforeChoices | rust_service/src/llm.rs:62-75 | a string "response" wins over any "choices" next to it |
| Llm.NonStringResponseFallsThrough | rust_service/src/llm.rs:62-75 | a non-string "response" is passed over for the OpenAI shape |
| Llm.UnrecognizedQuotesReply | rust_service/src/llm.rs:78-82 | a reply of neither shape is quoted in the error: a bare string reply appears after the prefix as its text in quotes |
| Llm.EmptyChoicesUnrecognized | rust_service/src/llm.rs:67-82 | an empty "choices" array is an unrecognized format |
| Http.TemplateHash | rust_service/src/http.rs:35-41 | 0 without a template, otherwise the hash of the template |
| Http.Handle | rust_service/src/http.rs:27-90 | when the LLM is called, the merged payload is sent and the handler's result is its outcome; it is not called exactly when the cache is enabled and the lookup hits, and then the result is a success and the table is unchanged; with the cache disabled the LLM is always called and the table is untouched |
| Http.ProcessText | rust_service/src/http.rs:27-90 | result, sent payload and new table are those of `Handle` |
| Http.Respond | rust_service/src/http.rs:87-89 | a success is 200 with the single member "response" holding the text; an error is the error's response |
| Http.CacheHitSkipsLlm | rust_service/src/http.rs:46-55 | a readable, live entry is returned without calling the LLM, and the table is unchanged |
| Http.MissAsksLlm | rust_service/src/http.rs:46-80 | on any lookup that does not hit, with the cache enabled, the merged payload is sent, the result is the LLM's outcome, and after a successful answer the table is what storing it under the request's key leaves |
| Http.LookupErrorFallsBack | rust_service/src/http.rs:46-61 | any failed lookup, a failing read or a stored value that does not decode, counts as a miss: the LLM is called, its outcome is the result, and after a successful answer the table is what storing it under the request's key leaves |
| Http.LlmErrorPropagates | rust_service/src/http.rs:66-66 | an LLM error is returned unchanged and nothing is stored |
| Http.StoreFailureIgnored | rust_service/src/http.rs:74-89 | a failing store does not change the result |
| Http.DisabledAlwaysAsks | rust_service/src/http.rs:46-80 | with the cache disabled every request calls the LLM, returns its outcome and leaves the table alone |
| Http.LlmAnswerTrimmed | rust_service/src/http.rs:66-89 | an answer that came from the LLM is trimmed |
| Http.RepeatServedFromCache | rust_service/src/http.rs:46-80 | when the first lookup does not hit, the same request again before the stored answer expires returns the same result without calling the LLM, provided the answer has no pipe |
| Http.UpstreamFailureIsBadGateway | rust_service/src/http.rs:66-66 | an LLM failure reaches the client as 502 |

## Left out

- Network, sockets and the axum server (`main.rs`), HTTP client internals, and the asynchronous execution: the LLM exchange is an input.
- Configuration loading (`config.rs`): the config crate, environment variables, and writing the default file. Only the record is modelled.
- `DefaultHasher`'s algorithm: it is a function parameter. No collision-freedom is assumed and none is claimed; the key lemmas are stated in terms of the hash.
- sled faults other than a failing `get` in `lookup` and a failing `insert` in `store`. A failing `remove` in `lookup` or in the sweep, failing iteration in the sweep, failing `clear`, and a failure to open the tree are not modelled. Durability and concurrent access are also out.
- Cache.CacheManager.CleanupExpired: the source counts only removals that succeed; with `remove` never failing in the model, the count is the number of expired keys.
- Cache.NewEntry: the `u64` arithmetic wraps modulo 2^64 as in a release build; a debug build would panic on overflow instead.
- Cache errors: the source's messages carry the underlying error text in the source; the model keeps only which failure it was.
- Llm.Outcome: `StatusCode`'s display adds the canonical reason phrase after the number ("404 Not Found"); the model's error text has the number only.
- Llm.ParseReply: the fallback text "Non-serializable response" is left out, because serialising a JSON value cannot fail.
- JSON numbers are integers only; floating point is not modelled.
- Logging, latency measurement and the long-response warning (`http.rs:44-85`), which use `f64` formatting and have no effect on results.
- `max_size_mb` is carried in the configuration but, as in the source, never enforced.
- Template substitution: no code performs it; the template only feeds the cache key.
- The `output[0].content[0].text` reply shape used by the integration test's mock server: `llm.rs` does not parse it, so in the model such a reply is an unrecognized format.
- The live-API integration tests and `lib.rs`'s re-exports.
