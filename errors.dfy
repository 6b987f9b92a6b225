/**
 * The errors the collection pipeline can report for one exporter. Each is
 * logged and then degraded to the value 0; none aborts a scrape. Messages that
 * come from outside the model (a failing command, a regex compile error, a
 * JSON syntax error) are carried as text.
 */
module Errors {

  datatype Error =
    | UnsupportedExporterType(kind: string)
    | SourceFailed(message: string)
    | InvalidRegex(message: string)
    | RegexNoMatch
    | JsonDecodeFailed(message: string)
    | PathNotFound(part: string)
    | InvalidArrayIndex(part: string)
    | ArrayIndexOutOfRange(index: int)
    | CannotNavigate(part: string)
    | LineOutOfRange(lineNum: int)
    | SplitIndexOutOfRange(index: int)
    | NotANumber(text: string)
}
