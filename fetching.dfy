/**
 * Exporter configuration and fetchData (cmd/custom-exporter/main.go:145-166):
 * read the payload from the source the exporter's type names, then hand it
 * to parseData. An unknown type and a failing source both give the value 0
 * with their error, and the payload is then never parsed.
 */
module Fetching {
  import opened Wrappers
  import opened Errors
  import Parsing

  /**
   * One configured exporter. `kind` is the configured type text ("command",
   * "http" or "file"), `interval` the refresh interval in seconds and
   * `metricType` the configured metric type text.
   */
  datatype Exporter = Exporter(
    name: string,
    kind: string,
    command: string,
    url: string,
    filePath: string,
    interval: int,
    metricType: string,
    parser: Parsing.Parser,
    labels: map<string, string>,
    description: string)

  /**
   * The three sources, taken as given: `runCommand` is executeCommand (sh -c
   * with a 30-second timeout, standard output and standard error together),
   * `httpGet` is fetchHTTP (a GET with a 10-second timeout, the whole body),
   * `readFile` reads a whole file. Err carries the failure's message.
   */
  datatype Sources = Sources(
    runCommand: string -> Result<string, string>,
    httpGet: string -> Result<string, string>,
    readFile: string -> Result<string, string>)

  predicate SupportedKind(kind: string) {
    kind == "command" || kind == "http" || kind == "file"
  }

  /** What the source of a supported exporter type returns. */
  function Retrieve(e: Exporter, src: Sources): (r: Result<string, string>)
    requires SupportedKind(e.kind)
    ensures r == src.runCommand(e.command) || r == src.httpGet(e.url) || r == src.readFile(e.filePath)
  {
    if e.kind == "command" then src.runCommand(e.command)
    else if e.kind == "http" then src.httpGet(e.url)
    else src.readFile(e.filePath)
  }

  /**
   * Only the source the type names is consulted, with the exporter's own
   * command, URL or file path: two sets of sources that agree there give
   * the same payload.
   */
  lemma RetrieveConsultsOneSource(e: Exporter, src: Sources, other: Sources)
    requires SupportedKind(e.kind)
    requires e.kind == "command" ==> other.runCommand(e.command) == src.runCommand(e.command)
    requires e.kind == "http" ==> other.httpGet(e.url) == src.httpGet(e.url)
    requires e.kind == "file" ==> other.readFile(e.filePath) == src.readFile(e.filePath)
    ensures Retrieve(e, other) == Retrieve(e, src)
  {
  }

  /**
   * fetchData: the parsed value of the payload. Every error, from the type
   * dispatch, the source or the parser, comes with the value 0.
   */
  function FetchData(e: Exporter, src: Sources, lib: Parsing.Library): (r: Parsing.Outcome)
    ensures r.err.Some? ==> r.value == 0.0
    ensures r.err.None? ==> SupportedKind(e.kind) && Retrieve(e, src).Ok?
  {
    if !SupportedKind(e.kind) then Parsing.Fail(UnsupportedExporterType(e.kind))
    else
      match Retrieve(e, src)
      case Err(message) => Parsing.Fail(SourceFailed(message))
      case Ok(raw) => Parsing.ParseData(raw, e.parser, lib)
  }

  /** An unsupported exporter type fails without consulting any source. */
  lemma FetchUnsupported(e: Exporter, src: Sources, other: Sources, lib: Parsing.Library)
    requires !SupportedKind(e.kind)
    ensures FetchData(e, src, lib) == Parsing.Fail(UnsupportedExporterType(e.kind))
    ensures FetchData(e, other, lib) == FetchData(e, src, lib)
  {
  }

  /** A failing source gives its own error and value 0; the parser and the library play no part. */
  lemma FetchSourceFailure(e: Exporter, src: Sources, lib: Parsing.Library, p: Parsing.Parser, other: Parsing.Library)
    requires SupportedKind(e.kind) && Retrieve(e, src).Err?
    ensures FetchData(e, src, lib) == Parsing.Fail(SourceFailed(Retrieve(e, src).error))
    ensures FetchData(e.(parser := p), src, other) == FetchData(e, src, lib)
  {
  }

  /** A payload that arrives is parsed with the exporter's own parser, and that is the result. */
  lemma FetchParses(e: Exporter, src: Sources, lib: Parsing.Library)
    requires SupportedKind(e.kind) && Retrieve(e, src).Ok?
    ensures FetchData(e, src, lib) == Parsing.ParseData(Retrieve(e, src).value, e.parser, lib)
  {
  }
}
