/** `M3U8Builder` (src/builder.rs): the settings read from `config.toml`,
    or the built-in defaults, and the base-URL normalisation that `build`
    applies before handing them to the downloader. The HTTP client and
    its default headers are not part of this model. */
module Builder {
  import opened Text

  /** The builder's settings; `header_map` only configures the HTTP client. */
  datatype M3U8Builder = M3U8Builder(masterUrl: string, indexUrl: string, baseUrl: string, outputDir: string)

  const DEFAULT_OUTPUT_DIR: string := "m3mu"

  /** `M3U8Builder::new`: the parsed configuration when `config.toml` could
      be opened (`config` is `Some`), otherwise the defaults. */
  function New(config: Option<M3U8Builder>): (b: M3U8Builder)
    ensures config.Some? ==> b == config.value
    ensures config.None? ==> b.masterUrl == [] && b.indexUrl == [] && b.baseUrl == []
    ensures config.None? ==> b.outputDir == DEFAULT_OUTPUT_DIR
  {
    match config
    case Some(c) => c
    case None => M3U8Builder("", "", "", DEFAULT_OUTPUT_DIR)
  }

  /** The base URL as `build` stores it: a `/` is appended unless the
      string already ends with one. */
  function NormalizeBaseUrl(url: string): (r: string)
    ensures EndsWith(r, "/")
    ensures StartsWith(r, url) && |url| <= |r| <= |url| + 1
    ensures EndsWith(url, "/") <==> r == url
  {
    if EndsWith(url, "/") then url else url + "/"
  }

  lemma NormalizeIdempotent(url: string)
    ensures NormalizeBaseUrl(NormalizeBaseUrl(url)) == NormalizeBaseUrl(url)
  {
  }

  /** Without a configuration file the downloader fetches from the base
      URL `/` and writes into `m3mu`. */
  lemma DefaultSettings()
    ensures NormalizeBaseUrl(New(None).baseUrl) == "/"
    ensures New(None).outputDir == "m3mu"
  {
  }
}
