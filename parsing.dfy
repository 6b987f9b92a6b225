/**
 * parseData (cmd/custom-exporter/main.go:216-271): pick one piece of text
 * out of the raw payload by the parser's kind, then read it as a number.
 * Every failure yields the value 0 together with its error.
 */
module Parsing {
  import opened Wrappers
  import opened Errors
  import Text
  import Json
  import Int64

  /**
   * A parser configuration. `kind` is the configured type text; "regex",
   * "json", "line" and "split" select a strategy and anything else (the
   * empty text included) uses the whole trimmed payload.
   */
  datatype Parser = Parser(
    kind: string,
    pattern: string,
    jsonPath: string,
    lineNum: int,
    split: string,
    index: int)

  /**
   * The library calls parseData makes, taken as given:
   * `submatch(pattern, text)` is regexp.Compile followed by
   * FindStringSubmatch (Err carries the compile error; Ok carries the whole
   * match and its groups, empty when nothing matches), `decodeJson` is
   * json.Unmarshal into an empty interface, `parseFloat` is
   * strconv.ParseFloat at 64 bits and `formatFloat` is "%v" on a float64.
   */
  datatype Library = Library(
    submatch: (string, string) -> Result<seq<string>, string>,
    decodeJson: string -> Result<Json.JsonValue, string>,
    parseFloat: string -> Option<real>,
    formatFloat: real -> string)

  /** A number together with an optional error, as parseData and fetchData return them. */
  datatype Outcome = Outcome(value: real, err: Option<Error>)

  /** The failure outcome: the value is always 0. */
  function Fail(e: Error): (r: Outcome)
    ensures r.value == 0.0 && r.err == Some(e)
  {
    Outcome(0.0, Some(e))
  }

  /**
   * The lines of the trimmed payload: at least one, none holding a newline,
   * and together, joined by newlines, the whole trimmed payload.
   */
  function Lines(raw: string): (r: seq<string>)
    ensures |r| >= 1
    ensures forall line :: line in r ==> !Text.Contains(line, "\n")
    ensures Text.Join(r, "\n") == Text.TrimSpace(raw)
  {
    Text.SplitJoin(Text.TrimSpace(raw), "\n");
    Text.SplitPiecesAvoidSep(Text.TrimSpace(raw), "\n");
    Text.Split(Text.TrimSpace(raw), "\n")
  }

  /**
   * The tokens of the trimmed payload between occurrences of the delimiter:
   * joined by the delimiter they give back the whole trimmed payload, and
   * for a non-empty delimiter there is at least one and none holds it.
   */
  function Tokens(raw: string, delimiter: string): (r: seq<string>)
    ensures delimiter != [] ==> |r| >= 1
    ensures delimiter != [] ==> forall token :: token in r ==> !Text.Contains(token, delimiter)
    ensures Text.Join(r, delimiter) == Text.TrimSpace(raw)
  {
    Text.SplitJoin(Text.TrimSpace(raw), delimiter);
    if delimiter == [] then Text.Split(Text.TrimSpace(raw), delimiter)
    else
      Text.SplitPiecesAvoidSep(Text.TrimSpace(raw), delimiter);
      Text.Split(Text.TrimSpace(raw), delimiter)
  }

  /** The regex parser: the first capture group of the first match. */
  function SelectRegex(raw: string, pattern: string, lib: Library): (r: Result<string, Error>)
    ensures r.Ok? <==> lib.submatch(pattern, raw).Ok? && |lib.submatch(pattern, raw).value| >= 2
    ensures r.Err? ==> r.error.InvalidRegex? || r.error == RegexNoMatch
    ensures r.Err? && r.error.InvalidRegex? <==> lib.submatch(pattern, raw).Err?
  {
    match lib.submatch(pattern, raw)
    case Err(message) => Err(InvalidRegex(message))
    case Ok(matches) =>
      if |matches| < 2 then Err(RegexNoMatch) else Ok(matches[1])
  }

  /** The json parser: the rendering of the value the path leads to. */
  function SelectJson(raw: string, path: string, lib: Library): (r: Result<string, Error>)
    ensures r.Err? ==> r.error.JsonDecodeFailed? || Json.IsWalkError(r.error)
    ensures r.Err? && r.error.JsonDecodeFailed? <==> lib.decodeJson(raw).Err?
    ensures lib.decodeJson(raw).Ok? && path == [] ==> r.Ok?
  {
    match lib.decodeJson(raw)
    case Err(message) => Err(JsonDecodeFailed(message))
    case Ok(data) => Json.Lookup(data, path, lib.formatFloat)
  }

  /** The line parser: the trimmed line at a zero-based index. */
  function SelectLine(raw: string, lineNum: int): (r: Result<string, Error>)
    ensures r.Ok? <==> 0 <= lineNum < |Lines(raw)|
    ensures r.Ok? ==> Text.Trimmed(r.value)
    ensures r.Err? ==> r.error == LineOutOfRange(lineNum)
  {
    var lines := Lines(raw);
    if lineNum >= |lines| || lineNum < 0 then Err(LineOutOfRange(lineNum))
    else Ok(Text.TrimSpace(lines[lineNum]))
  }

  /** The split parser: the trimmed token at a zero-based index. */
  function SelectToken(raw: string, delimiter: string, index: int): (r: Result<string, Error>)
    ensures r.Ok? <==> 0 <= index < |Tokens(raw, delimiter)|
    ensures r.Ok? ==> Text.Trimmed(r.value)
    ensures r.Err? ==> r.error == SplitIndexOutOfRange(index)
  {
    var parts := Tokens(raw, delimiter);
    if index >= |parts| || index < 0 then Err(SplitIndexOutOfRange(index))
    else Ok(Text.TrimSpace(parts[index]))
  }

  /** The selection strategies parseData switches between. */
  datatype Strategy = ByRegex | ByJson | ByLine | BySplit | Whole

  /** The strategy a configured parser type names; every other text, the empty one included, means the whole payload. */
  function StrategyOf(kind: string): (s: Strategy)
    ensures s == ByRegex <==> kind == "regex"
    ensures s == ByJson <==> kind == "json"
    ensures s == ByLine <==> kind == "line"
    ensures s == BySplit <==> kind == "split"
  {
    if kind == "regex" then ByRegex
    else if kind == "json" then ByJson
    else if kind == "line" then ByLine
    else if kind == "split" then BySplit
    else Whole
  }

  /** The text each parser kind selects from the payload, before number conversion. */
  function Select(raw: string, p: Parser, lib: Library): (r: Result<string, Error>)
    ensures StrategyOf(p.kind) == Whole ==> r.Ok?
    ensures StrategyOf(p.kind) in {ByLine, BySplit, Whole} && r.Ok? ==> Text.Trimmed(r.value)
    ensures r.Err? ==> !r.error.UnsupportedExporterType? && !r.error.SourceFailed? && !r.error.NotANumber?
  {
    match StrategyOf(p.kind)
    case ByRegex => SelectRegex(raw, p.pattern, lib)
    case ByJson => SelectJson(raw, p.jsonPath, lib)
    case ByLine => SelectLine(raw, p.lineNum)
    case BySplit => SelectToken(raw, p.split, p.index)
    case Whole => Ok(Text.TrimSpace(raw))
  }

  /**
   * parseData: the selected text read as a number. The result carries no
   * error exactly when a text was selected and it reads as a number, and
   * then the value is that number; on every error the value is 0.
   */
  function ParseData(raw: string, p: Parser, lib: Library): (r: Outcome)
    ensures r.err.Some? ==> r.value == 0.0
    ensures r.err.None? <==> Select(raw, p, lib).Ok? && lib.parseFloat(Select(raw, p, lib).value).Some?
    ensures r.err.None? ==> lib.parseFloat(Select(raw, p, lib).value) == Some(r.value)
  {
    match Select(raw, p, lib)
    case Err(e) => Fail(e)
    case Ok(text) =>
      match lib.parseFloat(text)
      case None => Fail(NotANumber(text))
      case Some(value) => Outcome(value, None)
  }

  /**
   * The error parseData reports: the selection's own error, or, for a
   * selected text that does not read as a number, that text.
   */
  lemma ParseDataErrors(raw: string, p: Parser, lib: Library)
    ensures Select(raw, p, lib).Err? ==> ParseData(raw, p, lib) == Fail(Select(raw, p, lib).error)
    ensures Select(raw, p, lib).Ok? && lib.parseFloat(Select(raw, p, lib).value).None?
            ==> ParseData(raw, p, lib) == Fail(NotANumber(Select(raw, p, lib).value))
  {
  }

  // --------------------------------------------------------------- regex

  /** The regex parser yields the first capture group of the first match, and fails otherwise. */
  lemma RegexSelectsFirstGroup(raw: string, p: Parser, lib: Library)
    requires p.kind == "regex"
    ensures Select(raw, p, lib).Ok? <==> lib.submatch(p.pattern, raw).Ok? && |lib.submatch(p.pattern, raw).value| >= 2
    ensures Select(raw, p, lib).Ok? ==> Select(raw, p, lib).value == lib.submatch(p.pattern, raw).value[1]
    ensures lib.submatch(p.pattern, raw).Err? ==> Select(raw, p, lib) == Err(InvalidRegex(lib.submatch(p.pattern, raw).error))
  {
  }

  // ---------------------------------------------------------------- json

  /** A payload that does not decode fails with the decoder's message, whatever the path. */
  lemma JsonDecodeFailure(raw: string, p: Parser, lib: Library)
    requires p.kind == "json" && lib.decodeJson(raw).Err?
    ensures Select(raw, p, lib) == Err(JsonDecodeFailed(lib.decodeJson(raw).error))
    ensures ParseData(raw, p, lib) == Fail(JsonDecodeFailed(lib.decodeJson(raw).error))
  {
  }

  /** With an empty path, a payload that decodes never fails to select: it yields the whole value. */
  lemma JsonEmptyPath(raw: string, p: Parser, lib: Library)
    requires p.kind == "json" && p.jsonPath == "" && lib.decodeJson(raw).Ok?
    ensures Select(raw, p, lib) == Ok(Json.Render(lib.decodeJson(raw).value, lib.formatFloat))
  {
    Json.LookupEmptyPath(lib.decodeJson(raw).value, lib.formatFloat);
  }

  /**
   * A path of two dot-free segments into a decoded object: the value under
   * the inner key of the object under the outer key, or "path not found" for
   * the first key that is missing. Sibling keys at either level play no part.
   */
  lemma JsonNestedKey(raw: string, p: Parser, lib: Library, outer: string, inner: string,
                      fields: map<string, Json.JsonValue>)
    requires p.kind == "json" && p.jsonPath == outer + "." + inner
    requires '.' !in outer && '.' !in inner
    requires lib.decodeJson(raw) == Ok(Json.Object(fields))
    ensures outer !in fields ==> Select(raw, p, lib) == Err(PathNotFound(outer))
    ensures outer in fields && fields[outer].Object? && inner !in fields[outer].fields
            ==> Select(raw, p, lib) == Err(PathNotFound(inner))
    ensures outer in fields && fields[outer].Object? && inner in fields[outer].fields
            ==> Select(raw, p, lib) == Ok(Json.Render(fields[outer].fields[inner], lib.formatFloat))
  {
    var data := Json.Object(fields);
    TwoSegments(outer, inner);
    assert Select(raw, p, lib) == Json.Lookup(data, p.jsonPath, lib.formatFloat);
    assert [outer, inner][1..] == [inner] && [inner][1..] == [];
    if outer in fields {
      assert Json.Navigate(data, [outer, inner]) == Json.Navigate(fields[outer], [inner]);
      if fields[outer].Object? {
        assert Json.Navigate(fields[outer], [inner]) == Json.StepInto(fields[outer], inner);
      }
    }
  }

  /**
   * A path "key.i" into an array under key selects element i when i is in
   * range and reports i as out of range otherwise, negative i included,
   * whatever other keys the object holds.
   */
  lemma JsonArrayIndex(raw: string, p: Parser, lib: Library, key: string,
                       fields: map<string, Json.JsonValue>, items: seq<Json.JsonValue>, i: int)
    requires p.kind == "json" && p.jsonPath == key + "." + Text.Itoa(i)
    requires '.' !in key && Int64.InRange(i)
    requires lib.decodeJson(raw) == Ok(Json.Object(fields))
    requires key in fields && fields[key] == Json.Array(items)
    ensures 0 <= i < |items| ==> Select(raw, p, lib) == Ok(Json.Render(items[i], lib.formatFloat))
    ensures !(0 <= i < |items|) ==> Select(raw, p, lib) == Err(ArrayIndexOutOfRange(i))
  {
    var data := Json.Object(fields);
    var seg := Text.Itoa(i);
    Text.ItoaHasNoDot(i);
    TwoSegments(key, seg);
    assert Select(raw, p, lib) == Json.Lookup(data, p.jsonPath, lib.formatFloat);
    assert Json.Navigate(data, [key, seg]) == Json.Navigate(Json.Array(items), [seg]) by {
      assert [key, seg][1..] == [seg];
    }
    assert Json.Navigate(Json.Array(items), [seg]) == Json.StepInto(Json.Array(items), seg) by {
      assert [seg][1..] == [];
    }
    if 0 <= i < |items| {
      Json.StepIntoArrayAt(items, i);
    } else {
      Json.StepIntoArrayOutside(items, i);
    }
  }

  /** Splitting "a.b" on "." gives a and b when neither contains a dot. */
  lemma TwoSegments(a: string, b: string)
    requires '.' !in a && '.' !in b
    ensures Text.Split(a + "." + b, ".") == [a, b]
  {
    Text.JoinSplitChar([a, b], '.');
    assert Text.Join([a, b], ".") == a + "." + b by {
      assert [a, b][1..] == [b];
    }
  }

  // ---------------------------------------------------------------- line

  /** Line 0 is always in range, since splitting on a newline yields at least one piece. */
  lemma LineZeroInRange(raw: string, p: Parser, lib: Library)
    requires p.kind == "line" && p.lineNum == 0
    ensures Select(raw, p, lib).Ok?
  {
  }

  /** The line parser accepts exactly the indices of the lines, negative ones never. */
  lemma LineBounds(raw: string, p: Parser, lib: Library)
    requires p.kind == "line"
    ensures Select(raw, p, lib).Ok? <==> 0 <= p.lineNum < |Lines(raw)|
    ensures !(0 <= p.lineNum < |Lines(raw)|) ==> ParseData(raw, p, lib) == Fail(LineOutOfRange(p.lineNum))
  {
  }

  /**
   * A selected line is trimmed and holds no newline, and the lines joined
   * with newlines give back the trimmed payload.
   */
  lemma {:induction false} LineSelected(raw: string, p: Parser, lib: Library)
    requires p.kind == "line" && Select(raw, p, lib).Ok?
    ensures Text.Trimmed(Select(raw, p, lib).value)
    ensures !Text.Contains(Select(raw, p, lib).value, "\n")
    ensures Text.Join(Lines(raw), "\n") == Text.TrimSpace(raw)
  {
    assert Select(raw, p, lib) == SelectLine(raw, p.lineNum);
    Text.TrimmedPiece(Text.TrimSpace(raw), "\n", p.lineNum);
    Text.SplitJoin(Text.TrimSpace(raw), "\n");
  }

  /**
   * A trimmed payload made of lines joined by newlines: the line parser
   * returns the trimmed k-th of those lines, or the out-of-range error.
   */
  lemma LineOfJoined(lines: seq<string>, k: int, lib: Library)
    requires lines != [] && forall i :: 0 <= i < |lines| ==> '\n' !in lines[i]
    requires Text.Trimmed(Text.Join(lines, "\n"))
    ensures SelectLine(Text.Join(lines, "\n"), k)
            == if 0 <= k < |lines| then Ok(Text.TrimSpace(lines[k])) else Err(LineOutOfRange(k))
  {
    assert "\n" == ['\n'];
    TokensOfJoined(lines, '\n');
    LineAt(Text.Join(lines, "\n"), lines, k);
  }

  /** The line parser in terms of the lines it sees. */
  lemma LineAt(raw: string, lines: seq<string>, k: int)
    requires Lines(raw) == lines
    ensures SelectLine(raw, k)
            == if 0 <= k < |lines| then Ok(Text.TrimSpace(lines[k])) else Err(LineOutOfRange(k))
  {
  }

  // --------------------------------------------------------------- split

  /** The split parser accepts exactly the indices of the tokens, negative ones never. */
  lemma SplitBounds(raw: string, p: Parser, lib: Library)
    requires p.kind == "split"
    ensures Select(raw, p, lib).Ok? <==> 0 <= p.index < |Tokens(raw, p.split)|
    ensures !(0 <= p.index < |Tokens(raw, p.split)|) ==> ParseData(raw, p, lib) == Fail(SplitIndexOutOfRange(p.index))
  {
  }

  /**
   * A selected token is trimmed and holds no delimiter, and the tokens
   * joined with the delimiter give back the trimmed payload.
   */
  lemma {:induction false} SplitSelected(raw: string, p: Parser, lib: Library)
    requires p.kind == "split" && p.split != [] && Select(raw, p, lib).Ok?
    ensures Text.Trimmed(Select(raw, p, lib).value)
    ensures !Text.Contains(Select(raw, p, lib).value, p.split)
    ensures Text.Join(Tokens(raw, p.split), p.split) == Text.TrimSpace(raw)
  {
    assert Select(raw, p, lib) == SelectToken(raw, p.split, p.index);
    Text.TrimmedPiece(Text.TrimSpace(raw), p.split, p.index);
    Text.SplitJoin(Text.TrimSpace(raw), p.split);
  }

  /**
   * A trimmed payload made of tokens joined by a one-character delimiter:
   * the split parser returns the trimmed k-th of those tokens, or the
   * out-of-range error.
   */
  lemma TokenOfJoined(tokens: seq<string>, c: char, k: int, lib: Library)
    requires tokens != [] && forall i :: 0 <= i < |tokens| ==> c !in tokens[i]
    requires Text.Trimmed(Text.Join(tokens, [c]))
    ensures SelectToken(Text.Join(tokens, [c]), [c], k)
            == if 0 <= k < |tokens| then Ok(Text.TrimSpace(tokens[k])) else Err(SplitIndexOutOfRange(k))
  {
    TokensOfJoined(tokens, c);
    TokenAt(Text.Join(tokens, [c]), [c], tokens, k);
  }

  /** The split parser in terms of the tokens it sees. */
  lemma TokenAt(raw: string, delimiter: string, tokens: seq<string>, k: int)
    requires Tokens(raw, delimiter) == tokens
    ensures SelectToken(raw, delimiter, k)
            == if 0 <= k < |tokens| then Ok(Text.TrimSpace(tokens[k])) else Err(SplitIndexOutOfRange(k))
  {
  }

  lemma TokensOfJoined(tokens: seq<string>, c: char)
    requires tokens != [] && forall i :: 0 <= i < |tokens| ==> c !in tokens[i]
    requires Text.Trimmed(Text.Join(tokens, [c]))
    ensures Tokens(Text.Join(tokens, [c]), [c]) == tokens
  {
    Text.TrimOfTrimmed(Text.Join(tokens, [c]));
    Text.JoinSplitChar(tokens, c);
  }

  /**
   * With an empty delimiter the tokens are the characters of the trimmed
   * payload, so a blank payload has no token at all and a selected token is
   * at most one character long.
   */
  lemma SplitEmptyDelimiter(raw: string, p: Parser, lib: Library)
    requires p.kind == "split" && p.split == []
    ensures |Tokens(raw, p.split)| == |Text.TrimSpace(raw)|
    ensures Select(raw, p, lib).Ok? ==> |Select(raw, p, lib).value| <= 1
  {
    var t := Text.TrimSpace(raw);
    var parts := Text.Explode(t);
    assert Tokens(raw, p.split) == parts;
    TokenAt(raw, p.split, parts, p.index);
    SelectSplitKind(raw, p, lib);
    if 0 <= p.index < |parts| {
      Text.ExplodedPiece(t, p.index);
    }
  }

  lemma SelectSplitKind(raw: string, p: Parser, lib: Library)
    requires p.kind == "split"
    ensures Select(raw, p, lib) == SelectToken(raw, p.split, p.index)
  {
  }

  // ----------------------------------------------------------------- raw

  /** Any other parser kind, unknown ones included, uses the whole trimmed payload. */
  lemma RawFallback(raw: string, p: Parser, lib: Library)
    requires p.kind != "regex" && p.kind != "json" && p.kind != "line" && p.kind != "split"
    ensures Select(raw, p, lib) == Ok(Text.TrimSpace(raw))
  {
  }
}
