/**
 * The service's error type and its conversion into an HTTP response
 * (`impl IntoResponse for AppError`). A variant that wraps a foreign
 * error (`config::ConfigError`, `reqwest::Error`, `serde_json::Error`,
 * `std::io::Error`) carries that error's display text as `detail`.
 */
module Errors {
  import opened Wrappers
  import opened RustCore
  import opened Json

  datatype AppError =
    | Config(detail: string)
    | Reqwest(detail: string)
    | SerdeJson(detail: string)
    | LlmApiError(message: string)
    | Io(detail: string)
    | MissingHomeDir
    | Internal(message: string)

  const OK: u16 := 200
  const INTERNAL_SERVER_ERROR: u16 := 500
  const BAD_GATEWAY: u16 := 502

  /** A status line and a JSON body, which is all the service's responses consist of. */
  datatype HttpResponse = HttpResponse(status: u16, body: Json)

  /** The errors that are the upstream LLM's fault rather than the service's. */
  predicate IsUpstream(e: AppError) {
    e.Reqwest? || e.LlmApiError?
  }

  /** The `#[error(...)]` display text of each variant. */
  function Display(e: AppError): (d: string)
    ensures e.Config? || e.Reqwest? || e.SerdeJson? || e.Io? ==>
              |e.detail| < |d| && d[|d| - |e.detail|..] == e.detail
    ensures e.LlmApiError? || e.Internal? ==> |e.message| < |d| && d[|d| - |e.message|..] == e.message
    ensures e.MissingHomeDir? ==> |d| > 0
  {
    match e
    case Config(d) => "Configuration error: " + d
    case Reqwest(d) => "Network request error: " + d
    case SerdeJson(d) => "JSON serialization/deserialization error: " + d
    case LlmApiError(m) => "LLM API returned an error: " + m
    case Io(d) => "IO Error: " + d
    case MissingHomeDir => "Could not determine home directory"
    case Internal(m) => "Internal Server Error: " + m
  }

  /** The status half of the `match` in `into_response`. */
  function Status(e: AppError): (s: u16)
    ensures s == BAD_GATEWAY <==> IsUpstream(e)
    ensures s == BAD_GATEWAY || s == INTERNAL_SERVER_ERROR
  {
    match e
    case Config(_) => INTERNAL_SERVER_ERROR
    case Reqwest(_) => BAD_GATEWAY
    case SerdeJson(_) => INTERNAL_SERVER_ERROR
    case LlmApiError(_) => BAD_GATEWAY
    case Io(_) => INTERNAL_SERVER_ERROR
    case MissingHomeDir => INTERNAL_SERVER_ERROR
    case Internal(_) => INTERNAL_SERVER_ERROR
  }

  /** The message half of the `match` in `into_response`. */
  function Message(e: AppError): (m: string)
    ensures e.LlmApiError? || e.Internal? ==> m == e.message
    ensures e.Config? || e.Reqwest? || e.SerdeJson? || e.Io? ==>
              |e.detail| <= |m| && m[|m| - |e.detail|..] == e.detail
  {
    match e
    case Config(d) => "Configuration error: " + d
    case Reqwest(d) => "LLM request failed: " + d
    case SerdeJson(d) => "JSON processing error: " + d
    case LlmApiError(m) => m
    case Io(d) => "IO error: " + d
    case MissingHomeDir => Display(e)
    case Internal(m) => m
  }

  /** `{"error": message}`. */
  function ErrorBody(message: string): Json {
    JObj(map["error" := JStr(message)])
  }

  /** `AppError::into_response`: 502 for upstream failures, 500 otherwise, always an `{"error": ...}` body. */
  function IntoResponse(e: AppError): (r: HttpResponse)
    ensures r.status == BAD_GATEWAY <==> IsUpstream(e)
    ensures r.status == INTERNAL_SERVER_ERROR <==> !IsUpstream(e)
    ensures r.body.JObj? && r.body.fields.Keys == {"error"}
    ensures Get(r.body, "error") == Some(JStr(Message(e)))
  {
    HttpResponse(Status(e), ErrorBody(Message(e)))
  }

  /** The client reads the message back out of the error body, verbatim for the variants that carry one. */
  lemma ErrorTextReadsBack(e: AppError)
    requires e.LlmApiError? || e.Internal?
    ensures AsStr(Get(IntoResponse(e).body, "error")) == Some(e.message)
  {
  }
}
