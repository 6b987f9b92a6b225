/**
 * Decoded JSON values and the dot-path walk of extractJSONValue
 * (cmd/custom-exporter/main.go:274-305). The walk splits the path on ".",
 * then takes one step per segment: into an object by key, into an array by an
 * integer index, and nowhere from a scalar. The value reached last is
 * rendered as Go's "%v" verb renders it.
 */
module Json {
  import opened Wrappers
  import opened Errors
  import Text
  import Int64

  /** What json.Unmarshal produces when it decodes into an empty interface. */
  datatype JsonValue =
    | Null
    | Bool(b: bool)
    | Number(n: real)
    | String(s: string)
    | Array(items: seq<JsonValue>)
    | Object(fields: map<string, JsonValue>)

  predicate IsScalar(v: JsonValue) {
    !v.Array? && !v.Object?
  }

  /** The errors a walk can report: a missing key, a bad or out-of-range index, a scalar. */
  predicate IsWalkError(e: Error) {
    e.PathNotFound? || e.InvalidArrayIndex? || e.ArrayIndexOutOfRange? || e.CannotNavigate?
  }

  /**
   * fmt.Sprintf("%v", v): nil as <nil>, strings without quotes, arrays as
   * [a b c], objects as map[k1:v1 k2:v2] with the keys in ascending order.
   * How a float64 is written is left to formatFloat.
   */
  function Render(v: JsonValue, formatFloat: real -> string): (r: string)
    ensures v.Null? ==> r == "<nil>"
    ensures v.Bool? ==> (r == "true" <==> v.b) && (r == "false" <==> !v.b)
    ensures v.Number? ==> r == formatFloat(v.n)
    ensures v.String? ==> r == v.s
    decreases v
  {
    match v
    case Null => "<nil>"
    case Bool(b) => if b then "true" else "false"
    case Number(n) => formatFloat(n)
    case String(s) => s
    case Array(items) =>
      Bracketed("[", Text.Join(seq(|items|, i requires 0 <= i < |items| => Render(items[i], formatFloat)), " "))
    case Object(fields) =>
      var keys := Text.Sorted(fields.Keys);
      Bracketed("map[", Text.Join(seq(|keys|, i requires 0 <= i < |keys| =>
                   keys[i] + ":" + Render(fields[keys[i]], formatFloat)), " "))
  }

  /** The opening text, the contents and a closing bracket. */
  function Bracketed(open: string, contents: string): (r: string)
    ensures |r| == |open| + |contents| + 1
    ensures r[..|open|] == open && r[|r| - 1] == ']'
  {
    open + contents + "]"
  }

  /** One step of the walk: the value that path segment `part` names inside `current`. */
  function StepInto(current: JsonValue, part: string): (r: Result<JsonValue, Error>)
    ensures r.Ok? ==> !IsScalar(current) && r.value < current
    ensures r.Err? ==> IsWalkError(r.error)
    ensures current.Object? ==> (r.Ok? <==> part in current.fields)
  {
    match current
    case Object(fields) =>
      if part in fields then Ok(fields[part]) else Err(PathNotFound(part))
    case Array(items) =>
      (match Text.Atoi(part)
       case None => Err(InvalidArrayIndex(part))
       case Some(index) =>
         if index >= |items| || index < 0 then Err(ArrayIndexOutOfRange(index))
         else Ok(items[index]))
    case _ => Err(CannotNavigate(part))
  }

  /** The walk over all segments, stopping at the first step that fails. */
  function Navigate(current: JsonValue, parts: seq<string>): (r: Result<JsonValue, Error>)
    ensures r.Err? ==> IsWalkError(r.error)
    ensures r.Ok? && parts != [] ==> r.value < current
    decreases |parts|
  {
    if parts == [] then Ok(current)
    else
      match StepInto(current, parts[0])
      case Err(e) => Err(e)
      case Ok(next) => Navigate(next, parts[1..])
  }

  /**
   * The result of extractJSONValue: the rendering of the whole value for an
   * empty path, otherwise the rendering of the value the walk reaches.
   */
  function Lookup(data: JsonValue, path: string, formatFloat: real -> string): (r: Result<string, Error>)
    ensures r.Err? ==> path != [] && IsWalkError(r.error)
    ensures IsScalar(data) && path != [] ==> r == Err(CannotNavigate(Text.Split(path, ".")[0]))
  {
    if path == [] then Ok(Render(data, formatFloat))
    else
      match Navigate(data, Text.Split(path, "."))
      case Err(e) => Err(e)
      case Ok(v) => Ok(Render(v, formatFloat))
  }

  /** extractJSONValue, as the loop that reassigns `current` once per segment. */
  method ExtractJsonValue(data: JsonValue, path: string, formatFloat: real -> string)
    returns (r: Result<string, Error>)
    ensures r == Lookup(data, path, formatFloat)
  {
    if path == [] {
      return Ok(Render(data, formatFloat));
    }
    var parts := Text.Split(path, ".");
    var current := data;
    var i := 0;
    while i < |parts|
      invariant 0 <= i <= |parts|
      invariant Navigate(data, parts) == Navigate(current, parts[i..])
    {
      var part := parts[i];
      assert parts[i..][0] == part && parts[i..][1..] == parts[i + 1..];
      match current {
        case Object(fields) =>
          if part in fields {
            current := fields[part];
          } else {
            return Err(PathNotFound(part));
          }
        case Array(items) =>
          var index := Text.Atoi(part);
          if index.None? {
            return Err(InvalidArrayIndex(part));
          }
          if index.value >= |items| || index.value < 0 {
            return Err(ArrayIndexOutOfRange(index.value));
          }
          current := items[index.value];
        case _ =>
          return Err(CannotNavigate(part));
      }
      i := i + 1;
    }
    return Ok(Render(current, formatFloat));
  }

  /** An array renders between "[" and "]", an object between "map[" and "]". */
  lemma RenderContainers(v: JsonValue, formatFloat: real -> string)
    ensures v.Array? ==> |Render(v, formatFloat)| >= 2 && Render(v, formatFloat)[0] == '['
                         && Render(v, formatFloat)[|Render(v, formatFloat)| - 1] == ']'
    ensures v.Object? ==> |Render(v, formatFloat)| >= 5 && Render(v, formatFloat)[..4] == "map["
                          && Render(v, formatFloat)[|Render(v, formatFloat)| - 1] == ']'
  {
  }

  /** Empty containers render as their brackets alone. */
  lemma RenderEmpty(formatFloat: real -> string)
    ensures Render(Array([]), formatFloat) == "[]"
    ensures Render(Object(map[]), formatFloat) == "map[]"
  {
    assert Text.Sorted({}) == [];
  }

  /** A one-element array renders as that element's rendering between brackets. */
  lemma RenderSingleElement(v: JsonValue, formatFloat: real -> string)
    ensures Render(Array([v]), formatFloat) == "[" + Render(v, formatFloat) + "]"
  {
    var parts := seq(1, i requires 0 <= i < 1 => Render([v][i], formatFloat));
    assert parts == [Render(v, formatFloat)];
  }

  /** A one-key object renders as the key, a colon and its value's rendering, after "map[". */
  lemma RenderSingleKey(k: string, v: JsonValue, formatFloat: real -> string)
    ensures Render(Object(map[k := v]), formatFloat) == "map[" + k + ":" + Render(v, formatFloat) + "]"
  {
    SingleEntry(map[k := v], k, formatFloat);
  }

  /** The entries of a one-key object: just that key and its value. */
  lemma SingleEntry(fields: map<string, JsonValue>, k: string, formatFloat: real -> string)
    requires fields.Keys == {k}
    ensures Render(Object(fields), formatFloat) == Bracketed("map[", k + ":" + Render(fields[k], formatFloat))
  {
    var keys := Text.Sorted(fields.Keys);
    SortedSingleton(k, fields.Keys);
    var parts := seq(|keys|, i requires 0 <= i < |keys| => keys[i] + ":" + Render(fields[keys[i]], formatFloat));
    assert parts == [k + ":" + Render(fields[k], formatFloat)];
  }

  /** The keys of a one-key map, listed. */
  lemma SortedSingleton(k: string, keys: set<string>)
    requires keys == {k}
    ensures Text.Sorted(keys) == [k]
  {
    var r := Text.Sorted(keys);
    assert r[0] in keys;
  }

  // ------------------------------------------------------------- the walk

  /** An empty path never fails: it yields the rendering of the whole value. */
  lemma LookupEmptyPath(data: JsonValue, formatFloat: real -> string)
    ensures Lookup(data, "", formatFloat) == Ok(Render(data, formatFloat))
  {
  }

  /** Walking p and then q is walking p + q; a failure in p is the failure of the whole. */
  lemma {:induction false} NavigateAppend(v: JsonValue, p: seq<string>, q: seq<string>)
    ensures Navigate(v, p + q) ==
              match Navigate(v, p)
              case Err(e) => Err(e)
              case Ok(w) => Navigate(w, q)
    decreases |p|
  {
    if p != [] {
      assert (p + q)[0] == p[0] && (p + q)[1..] == p[1..] + q;
      match StepInto(v, p[0]) {
        case Err(e) =>
        case Ok(next) => NavigateAppend(next, p[1..], q);
      }
    } else {
      assert p + q == q;
    }
  }

  /**
   * The walk reports the error of the first segment that cannot be taken,
   * whatever segments follow it.
   */
  lemma NavigateStopsAtFailure(v: JsonValue, p: seq<string>, part: string, q: seq<string>, w: JsonValue)
    requires Navigate(v, p) == Ok(w) && StepInto(w, part).Err?
    ensures Navigate(v, p + [part] + q) == Err(StepInto(w, part).error)
  {
    NavigateAppend(v, p, [part] + q);
    assert p + [part] + q == p + ([part] + q);
  }

  /** On an object a segment moves to the value under that key, and a missing key is "path not found". */
  lemma StepIntoObject(fields: map<string, JsonValue>, part: string)
    ensures part in fields ==> StepInto(Object(fields), part) == Ok(fields[part])
    ensures part !in fields ==> StepInto(Object(fields), part) == Err(PathNotFound(part))
  {
  }

  /**
   * A successful lookup along a non-empty path took one successful step per
   * segment and rendered the value reached by the last one.
   */
  lemma LookupReachesEnd(data: JsonValue, path: string, formatFloat: real -> string)
    returns (trail: seq<JsonValue>)
    requires path != [] && Lookup(data, path, formatFloat).Ok?
    ensures IsTrail(data, Text.Split(path, "."), trail)
    ensures Lookup(data, path, formatFloat) == Ok(Render(trail[|Text.Split(path, ".")|], formatFloat))
  {
    trail := NavigateHasTrail(data, Text.Split(path, "."));
  }

  /** From a scalar, any remaining segment fails with "cannot navigate" at that segment. */
  lemma NavigateFromScalar(v: JsonValue, parts: seq<string>)
    requires IsScalar(v) && parts != []
    ensures Navigate(v, parts) == Err(CannotNavigate(parts[0]))
  {
  }

  /** The values a walk visits: one per segment, after the starting value. */
  ghost predicate IsTrail(v: JsonValue, parts: seq<string>, trail: seq<JsonValue>) {
    |trail| == |parts| + 1 && trail[0] == v
    && forall i :: 0 <= i < |parts| ==> StepInto(trail[i], parts[i]) == Ok(trail[i + 1])
  }

  /** A successful walk takes exactly one successful step per segment and ends where it stops. */
  lemma {:induction false} NavigateHasTrail(v: JsonValue, parts: seq<string>)
    returns (trail: seq<JsonValue>)
    requires Navigate(v, parts).Ok?
    ensures IsTrail(v, parts, trail) && trail[|parts|] == Navigate(v, parts).value
    decreases |parts|
  {
    if parts == [] {
      trail := [v];
    } else {
      var next := StepInto(v, parts[0]).value;
      var rest := NavigateHasTrail(next, parts[1..]);
      trail := [v] + rest;
      forall i | 0 <= i < |parts|
        ensures StepInto(trail[i], parts[i]) == Ok(trail[i + 1])
      {
        if i > 0 {
          assert trail[i] == rest[i - 1] && trail[i + 1] == rest[i] && parts[i] == parts[1..][i - 1];
        }
      }
    }
  }

  /** Conversely, a chain of successful steps, one per segment, is a successful walk. */
  lemma {:induction false} TrailNavigates(v: JsonValue, parts: seq<string>, trail: seq<JsonValue>)
    requires IsTrail(v, parts, trail)
    ensures Navigate(v, parts) == Ok(trail[|parts|])
    decreases |parts|
  {
    if parts != [] {
      assert StepInto(trail[0], parts[0]) == Ok(trail[1]);
      var rest := trail[1..];
      forall i | 0 <= i < |parts| - 1
        ensures StepInto(rest[i], parts[1..][i]) == Ok(rest[i + 1])
      {
        assert rest[i] == trail[i + 1] && rest[i + 1] == trail[i + 2];
      }
      TrailNavigates(trail[1], parts[1..], rest);
    }
  }

  // ------------------------------------------------------- array segments

  /** The decimal rendering of an in-range index selects that element. */
  lemma StepIntoArrayAt(items: seq<JsonValue>, index: int)
    requires 0 <= index < |items| && Int64.InRange(index)
    ensures StepInto(Array(items), Text.Itoa(index)) == Ok(items[index])
  {
    Text.AtoiItoa(index);
  }

  /** Any other integer, negative ones included, is out of range. */
  lemma StepIntoArrayOutside(items: seq<JsonValue>, index: int)
    requires Int64.InRange(index) && (index < 0 || index >= |items|)
    ensures StepInto(Array(items), Text.Itoa(index)) == Err(ArrayIndexOutOfRange(index))
  {
    Text.AtoiItoa(index);
  }

  /**
   * A segment that strconv.Atoi rejects (empty, a sign alone, a stray
   * character, an overflow) cannot index an array.
   */
  lemma StepIntoArrayNotInteger(items: seq<JsonValue>, part: string)
    requires Text.Atoi(part).None?
    ensures StepInto(Array(items), part) == Err(InvalidArrayIndex(part))
  {
  }

  /**
   * Any segment on an array: it must parse as an integer and lie in
   * [0, |items|); otherwise the error names the segment or the index.
   */
  lemma StepIntoArrayParsed(items: seq<JsonValue>, part: string)
    ensures Text.Atoi(part).None? ==> StepInto(Array(items), part) == Err(InvalidArrayIndex(part))
    ensures Text.Atoi(part).Some? && 0 <= Text.Atoi(part).value < |items|
            ==> StepInto(Array(items), part) == Ok(items[Text.Atoi(part).value])
    ensures Text.Atoi(part).Some? && !(0 <= Text.Atoi(part).value < |items|)
            ==> StepInto(Array(items), part) == Err(ArrayIndexOutOfRange(Text.Atoi(part).value))
  {
  }

  /**
   * Segments that are not canonical renderings: a plus sign or leading
   * zeros still select, while a trailing letter, a sign alone or a number
   * beyond int64 are invalid indices.
   */
  lemma NonCanonicalSegments(a: JsonValue, b: JsonValue)
    ensures StepInto(Array([a, b]), "+1") == Ok(b)
    ensures StepInto(Array([a, b]), "01") == Ok(b)
    ensures StepInto(Array([a, b]), "1a") == Err(InvalidArrayIndex("1a"))
    ensures StepInto(Array([a, b]), "-") == Err(InvalidArrayIndex("-"))
  {
    Text.AtoiExamples();
    StepIntoArrayParsed([a, b], "+1");
    StepIntoArrayParsed([a, b], "01");
    StepIntoArrayParsed([a, b], "1a");
    StepIntoArrayParsed([a, b], "-");
  }
}
