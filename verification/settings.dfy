/**
 The configuration values the pipeline reads (`deepwiki/config.py`). The
 environment is an input: a `Config` value stands for whatever it held when
 the process started, and `Default` for the values used when it sets nothing.
 */
module Settings {
  import opened Wrappers

  datatype Config = Config(
    chunkSize: int,
    chunkOverlap: int,
    topK: int,
    llmProvider: string,
    openaiKey: Option<string>,
    anthropicKey: Option<string>)

  /** `CHUNK_SIZE` 1000, `CHUNK_OVERLAP` 200, `TOP_K` 5, `LLM_PROVIDER` "openai", no API keys. */
  const Default: Config := Config(1000, 200, 5, "openai", None, None)

  /** Python's `x or d` for an optional integer: `None` and `0` are falsy. */
  function OrDefault(x: Option<int>, d: int): int {
    if x.Some? && x.value != 0 then x.value else d
  }

  /** Python's truthiness of an optional string: `None` and `""` are falsy. */
  predicate IsSet(x: Option<string>) {
    x.Some? && x.value != ""
  }
}
