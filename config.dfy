/** Field names of the intermediary record format and the run
    configuration constants. */
module Config {

  // Field names of the intermediary format.
  const ID := "id"
  const CONTENT := "content"
  const PLAINTEXT := "plain-text"
  const TOKENS := "plain-text-tokens"
  const SENTENCES := "plain-text-sentences"
  const URLKEY := "urlkey"
  const URL := "url"
  const MIMETYPE := "mime-type"
  const RESPONSECODE := "response-code"
  const WARCOFFSET := "warc-offset"
  const WARCFILENAME := "warc-filename"
  const RECHEADERS := "rec-headers"
  const HTTPHEADERS := "http-headers"
  const TITLE := "title"
  const HEADLINES := "headlines"
  const LINKS := "links"
  const LANGUAGE := "language"
  const WEBPAGETYPE := "web-page-type"
  const TOPICS := "topics"
  const SENTIMENT := "sentiment"
  const REFERSTO := "refers-to"
  const HARVESTID := "harvest-id"
  /** The field for auxiliary output that the schema does not cover. */
  const EXTRA := "extra"

  // Storage address and tables.
  const HBASE_HOST := ""
  const HBASE_PORT := 9099
  const HBASE_MAIN_TABLE := "main"
  const HBASE_HARV_TABLE := "harvest"
  const HBASE_CONF_TABLE := "config"
  const HBASE_PROC_TABLE := "processes"

  // Run status values.
  const PROC_STATUS_RUNNING := "running"
  const PROC_STATUS_FINISHED := "finished"
  const PROC_STATUS_FAILED := "failed"

  /** WARC-Type values of the records that are processed. */
  const RECORD_TYPES: seq<string> := ["response", "revisit"]

  /** MIME-type groups and the pattern each group's MIME types match. */
  const RECORD_MIME_TYPES: map<string, string> :=
    map["HTML" := "(text/html|application/xhtml\\+xml)",
        "PDF" := "application/pdf",
        "IMG" := "image/*"]

  /** Metadata filters: each field's value must match its pattern. */
  const RECORD_FILTERS: seq<(string, string)> := [(RESPONSECODE, "^2\\d\\d$")]

  const MAX_ALLOWED_HTML_CONTENT_SIZE := 20000000
  const MAX_ALLOWED_WARC_CONTENT_SIZE := 100000000

  /** The keyword arguments handed to jusText. */
  datatype JustextSetting = JustextSetting(
    lengthLow: int, lengthHigh: int,
    stopwordsLow: real, stopwordsHigh: real,
    maxLinkDensity: real, maxGoodDistance: int,
    maxHeadingDistance: int, noHeadings: bool)

  /** One `dict(...)` of the fall-back list: the keyword it overrides. */
  datatype SettingUpdate = SetMaxLinkDensity(density: real) | SetMaxGoodDistance(distance: int)

  const JUSTEXT_BASE_SETTING := JustextSetting(70, 140, 0.2, 0.3, 0.4, 5, 150, true)
  const JUSTEXT_FALLBACK_SETTING: seq<SettingUpdate> := [SetMaxLinkDensity(1.0), SetMaxGoodDistance(20)]

  /** Stoplist file of each language, in declaration order. */
  const STOPLISTS: seq<(string, string)> :=
    [("cs", "stoplists/cs.txt"), ("sk", "stoplists/sk.txt"), ("en", "stoplists/en.txt"),
     ("de", "stoplists/de.txt"), ("pl", "stoplists/pl.txt"), ("ru", "stoplists/ru.txt"),
     ("fr", "stoplists/fr.txt")]

  /** Fields dropped from the record before it is saved. */
  const UNNECESSARY_FIELDS: seq<string> := [CONTENT, TOKENS, SENTENCES]

  /** Fields saved in columns of their own, in column order. */
  const OUTPUT_SEPARATE_COLS: seq<string> :=
    [URLKEY, REFERSTO, HARVESTID, TITLE, PLAINTEXT, LANGUAGE, SENTIMENT, HEADLINES, TOPICS, LINKS, WEBPAGETYPE]
}
