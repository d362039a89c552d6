/**
 * The service configuration record, as the handler and the LLM client read
 * it. It carries the cache settings next to the LLM settings.
 */
module Config {
  import opened Wrappers
  import opened RustCore
  import opened Json
  import Cache

  datatype AppConfig = AppConfig(
    port: u16,
    llmUrl: string,
    modelName: string,
    llmParams: Option<Json>,
    promptTemplate: Option<string>,
    openaiApiKey: Option<string>,
    openaiOrgId: Option<string>,
    openaiProjectId: Option<string>,
    cache: Cache.CacheConfig)
}
