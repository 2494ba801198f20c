/** `Entry` from src/lib.rs and its `FromStr` parser. */
module Entries {
  import opened Wrappers
  import opened Text
  import opened Numbers
  import Chrono
  import Versions
  import E = Errors

  /** One parsed line: when, which version, the maximum, and the values. */
  datatype Entry = Entry(timestamp: Chrono.Timestamp, version: Versions.Version, max: I32, values: seq<I32>)

  /** chrono's `parse_from_str(text, "%F %R")` followed by `Utc.from_utc_datetime`,
      supplied by the caller. */
  type TimestampParser = string -> Option<Chrono.Timestamp>

  /** The top-level separator of a line. */
  const Bar: set<char> := {'|'}

  /** The separator between the maximum and the values. */
  const Colon: set<char> := {':'}

  /** The separator between values. */
  const Comma: set<char> := {','}

  /** `parse_values`: every comma-separated token parsed as `i32`; `collect` stops at the
      first token that fails and returns its error. */
  function ParseValues(s: string): (r: Result<seq<I32>, ParseIntError>)
  {
    ParseAll(Split(s, Comma))
  }

  /** Each token parsed as `i32`, in order, stopping at the first failure. */
  function ParseAll(tokens: seq<string>): (r: Result<seq<I32>, ParseIntError>)
    ensures r.Success? ==> |r.value| == |tokens|
    ensures r.Success? ==> forall k :: 0 <= k < |tokens| ==> ParseI32(tokens[k]) == Success(r.value[k])
    ensures r.Success? <==> forall k :: 0 <= k < |tokens| ==> ParseI32(tokens[k]).Success?
    ensures r.Failure? ==>
      exists k :: (0 <= k < |tokens| && r.error == ParseIntError(tokens[k]) &&
        ParseI32(tokens[k]).Failure? && forall j :: 0 <= j < k ==> ParseI32(tokens[j]).Success?)
    decreases |tokens|
  {
    if |tokens| == 0 then Success([])
    else
      match ParseI32(tokens[0])
      case Failure(e) => Failure(e)
      case Success(x) =>
        match ParseAll(tokens[1..])
        case Failure(e) => Failure(e)
        case Success(xs) => Success([x] + xs)
  }

  /** `Entry::from_str`: the line is split on `|` only. */
  function Parse(line: string, parseTimestamp: TimestampParser): (r: Result<Entry, E.ParseEntryError>)
    ensures r.Failure? && r.error.Format? ==>
      r.error.what in {"version", "missing max/values", "missing values"}
    ensures r.Success? ==> |Split(line, Bar)| >= 3 && |r.value.values| >= 1
  {
    ParseSegments(Split(line, Bar), parseTimestamp)
  }

  /** The body of `Entry::from_str` after the split: each `segments.next()` takes the
      next segment; the third is cut at its first `:` into the maximum and the values;
      segments after the third are never looked at. */
  function ParseSegments(segments: seq<string>, parseTimestamp: TimestampParser): (r: Result<Entry, E.ParseEntryError>)
    ensures r.Failure? && r.error.Format? && |segments| >= 1 ==>
      r.error.what in {"version", "missing max/values", "missing values"}
    ensures r.Success? ==> |segments| >= 3 && |r.value.values| >= 1
  {
    // `split` always yields a first segment, so `Parse` never produces this error.
    if |segments| == 0 then Failure(E.ParseEntryError.Format("timestamp"))
    else
      var timestamp :- match parseTimestamp(segments[0])
        case None => Failure(E.EntryFromTimestamp(Chrono.ParseError(segments[0])))
        case Some(t) => Success(t);
      var versionText :- if |segments| > 1 then Success(segments[1])
        else Failure(E.ParseEntryError.Format("version"));
      var version :- Versions.Parse(versionText).MapFailure(E.EntryFromVersion);
      var maxAndValues :- if |segments| > 2 then Success(segments[2])
        else Failure(E.ParseEntryError.Format("missing max/values"));
      var mid :- match Find(maxAndValues, Colon)
        case None => Failure(E.ParseEntryError.Format("missing values"))
        case Some(i) => Success(i);
      var max :- ParseI32(maxAndValues[..mid]).MapFailure(E.EntryFromInt);
      var values :- ParseValues(maxAndValues[mid + 1..]).MapFailure(E.EntryFromInt);
      Success(Entry(timestamp, version, max, values))
  }

  /** On success there is one value per comma-separated token, that is one more than
      the number of commas, each the token's `i32` value in order. */
  lemma ParseValuesTokens(s: string)
    requires ParseValues(s).Success?
    ensures |ParseValues(s).value| == Occurrences(s, Comma) + 1
    ensures forall k :: 0 <= k < |Split(s, Comma)| ==>
      ParseI32(Split(s, Comma)[k]) == Success(ParseValues(s).value[k])
  {
    SplitCount(s, Comma);
  }

  /** On failure the error is that of the first comma-separated token that is not an
      `i32`; every token before it parsed. */
  lemma ParseValuesFailure(s: string)
    requires ParseValues(s).Failure?
    ensures exists k :: FirstBadToken(Split(s, Comma), k, ParseValues(s).error)
  {
    var tokens := Split(s, Comma);
    var r := ParseAll(tokens);
    assert r == ParseValues(s);
    var k :| 0 <= k < |tokens| && r.error == ParseIntError(tokens[k]) &&
      ParseI32(tokens[k]).Failure? && forall j :: 0 <= j < k ==> ParseI32(tokens[j]).Success?;
    assert FirstBadToken(tokens, k, r.error);
  }

  /** `tokens[k]` is the first token that is not an `i32`, and `error` is its error. */
  predicate FirstBadToken(tokens: seq<string>, k: int, error: ParseIntError) {
    && 0 <= k < |tokens| && error == ParseIntError(tokens[k]) && ParseI32(tokens[k]).Failure?
    && forall j :: 0 <= j < k ==> ParseI32(tokens[j]).Success?
  }

  /** An empty values text is one empty token, which is not an integer. */
  lemma ParseValuesEmpty()
    ensures ParseValues("") == Failure(ParseIntError(""))
  {
    assert Split("", Comma) == [""];
  }

  /** The stages of `Entry::from_str` fail in order: the first stage that fails decides
      the error, whatever the later segments hold, and only a line that passes every
      stage parses, into the values the stages produced. */
  lemma ParseOrder(line: string, parseTimestamp: TimestampParser)
    ensures SegmentsOrder(Split(line, Bar), parseTimestamp, Parse(line, parseTimestamp))
  {
    SegmentsInOrder(Split(line, Bar), parseTimestamp);
  }

  lemma SegmentsInOrder(segments: seq<string>, parseTimestamp: TimestampParser)
    requires |segments| >= 1
    ensures SegmentsOrder(segments, parseTimestamp, ParseSegments(segments, parseTimestamp))
  {
    var r := ParseSegments(segments, parseTimestamp);
    if parseTimestamp(segments[0]).Some? && |segments| >= 3 && Versions.Parse(segments[1]).Success? {
      var third := segments[2];
      match Find(third, Colon)
      case None =>
      case Some(mid) =>
        var maxText, valuesText := third[..mid], third[mid + 1..];
        if ParseI32(maxText).Success? && ParseValues(valuesText).Success? {
          assert r == Success(Entry(parseTimestamp(segments[0]).value, Versions.Parse(segments[1]).value,
                                    ParseI32(maxText).value, ParseValues(valuesText).value));
        }
    }
  }

  /** What each stage's outcome forces on the result `r` of parsing `segments`. */
  ghost predicate SegmentsOrder(segments: seq<string>, parseTimestamp: TimestampParser,
                                r: Result<Entry, E.ParseEntryError>)
    requires |segments| >= 1
  {
    && (parseTimestamp(segments[0]).None? ==>
          r == Failure(E.ParseEntryError.Timestamp(Chrono.ParseError(segments[0]))))
    && (parseTimestamp(segments[0]).Some? ==>
        && (|segments| == 1 ==> r == Failure(E.ParseEntryError.Format("version")))
        && (|segments| >= 2 && Versions.Parse(segments[1]).Failure? ==>
              r == Failure(E.ParseEntryError.Version(Versions.Parse(segments[1]).error)))
        && (|segments| >= 2 && Versions.Parse(segments[1]).Success? ==>
            && (|segments| == 2 ==> r == Failure(E.ParseEntryError.Format("missing max/values")))
            && (|segments| >= 3 ==> CutOrder(segments[2], parseTimestamp(segments[0]).value,
                                             Versions.Parse(segments[1]).value, r))))
  }

  /** The last stages, on the third segment: no `:` fails first, then the maximum, then
      the values; otherwise the entry carries the timestamp, version, maximum and values. */
  ghost predicate CutOrder(third: string, timestamp: Chrono.Timestamp, version: Versions.Version,
                           r: Result<Entry, E.ParseEntryError>)
  {
    match Find(third, Colon)
    case None => r == Failure(E.ParseEntryError.Format("missing values"))
    case Some(mid) =>
      var maxText, valuesText := third[..mid], third[mid + 1..];
      if ParseI32(maxText).Failure? then r == Failure(E.ParseEntryError.Int(ParseIntError(maxText)))
      else if ParseValues(valuesText).Failure? then
        r == Failure(E.ParseEntryError.Int(ParseValues(valuesText).error))
      else
        r == Success(Entry(timestamp, version, ParseI32(maxText).value, ParseValues(valuesText).value))
  }

  /** `Format("timestamp")` is never produced: the timestamp segment always exists. */
  lemma ParseNeverMissingTimestamp(line: string, parseTimestamp: TimestampParser)
    ensures Parse(line, parseTimestamp) != Failure(E.ParseEntryError.Format("timestamp"))
  {
  }

  /** An empty line is one empty segment and fails in timestamp parsing. */
  lemma ParseEmptyLine(parseTimestamp: TimestampParser)
    requires parseTimestamp("").None?
    ensures Parse("", parseTimestamp) == Failure(E.ParseEntryError.Timestamp(Chrono.ParseError("")))
  {
    assert Split("", Bar) == [""];
  }

  /** Whatever follows a third `|` is ignored. */
  lemma ParseIgnoresExtraSegments(line: string, rest: string, parseTimestamp: TimestampParser)
    requires |Split(line, Bar)| >= 3
    ensures Parse(line + "|" + rest, parseTimestamp) == Parse(line, parseTimestamp)
  {
    SplitAppend(line, '|', rest, Bar);
    SegmentsPrefix(Split(line, Bar), Split(rest, Bar), parseTimestamp);
  }

  /** Parsing looks at the first three segments only. */
  lemma SegmentsPrefix(segments: seq<string>, more: seq<string>, parseTimestamp: TimestampParser)
    requires |segments| >= 3
    ensures ParseSegments(segments + more, parseTimestamp) == ParseSegments(segments, parseTimestamp)
  {
    var longer := segments + more;
    assert longer[0] == segments[0] && longer[1] == segments[1] && longer[2] == segments[2];
  }

  /** The values printed as `parse_values` reads them: decimal, comma-separated. */
  function ValuesText(values: seq<I32>): string {
    Join(ValueTexts(values), ',')
  }

  function ValueTexts(values: seq<I32>): (r: seq<string>)
    ensures |r| == |values|
    ensures forall k :: 0 <= k < |values| ==> r[k] == IntText(values[k])
  {
    seq(|values|, k requires 0 <= k < |values| => IntText(values[k]))
  }

  /** A well-formed line: timestamp text, printed version, maximum and values. */
  function LineText(timestampText: string, version: Versions.Version, max: I32, values: seq<I32>): string {
    timestampText + "|" + Versions.Display(version) + "|" + IntText(max) + ":" + ValuesText(values)
  }

  /** A printed line is its first two segments and the third, `|`-separated. */
  lemma LineTextShape(timestampText: string, version: Versions.Version, max: I32, values: seq<I32>)
    ensures LineText(timestampText, version, max, values)
            == timestampText + "|" + Versions.Display(version) + "|" + (IntText(max) + ":" + ValuesText(values))
  {
  }

  /** Printed values parse back to the same values. */
  lemma ParseValuesText(values: seq<I32>)
    requires |values| >= 1
    ensures ParseValues(ValuesText(values)) == Success(values)
  {
    var texts := ValueTexts(values);
    forall k | 0 <= k < |texts|
      ensures NoneOf(texts[k], Comma) && ParseI32(texts[k]) == Success(values[k])
    {
      IntTextNoneOf(values[k], Comma);
      ParseI32IntText(values[k]);
    }
    SplitJoin(texts, ',', Comma);
    assert ParseValues(ValuesText(values)) == ParseAll(texts);
    var r := ParseAll(texts);
    assert r.Success?;
    assert |r.value| == |values|;
    assert forall k :: 0 <= k < |values| ==> r.value[k] == values[k];
    assert r.value == values;
  }

  /** A printed version holds no `|` when its extension holds none. */
  lemma DisplayNoBar(v: Versions.Version)
    requires v.extension.Some? ==> NoneOf(v.extension.value, Bar)
    ensures NoneOf(Versions.Display(v), Bar)
  {
    Versions.DisplayShape(v);
    var a, b, c := NatText(v.major), NatText(v.minor), NatText(v.patch);
    var last := match v.extension case None => c case Some(ext) => c + ['-'] + ext;
    if v.extension.Some? {
      NoneOfAppend(c + ['-'], v.extension.value, Bar);
      NoneOfAppend(c, ['-'], Bar);
    }
    NoneOfAppend(b + ['.'], last, Bar);
    NoneOfAppend(b, ['.'], Bar);
    NoneOfAppend(a + ['.'], b + ['.'] + last, Bar);
    NoneOfAppend(a, ['.'], Bar);
  }

  /** The three segments of a printed line. */
  lemma LineSegments(timestampText: string, version: Versions.Version, max: I32, values: seq<I32>)
    requires NoneOf(timestampText, Bar)
    requires version.extension.Some? ==> NoneOf(version.extension.value, Bar)
    ensures Split(LineText(timestampText, version, max, values), Bar)
      == [timestampText, Versions.Display(version), IntText(max) + [':'] + ValuesText(values)]
  {
    var first, second, third := timestampText, Versions.Display(version), IntText(max) + [':'] + ValuesText(values);
    DisplayNoBar(version);
    ThirdNoBar(max, values);
    LineTextShape(timestampText, version, max, values);
    assert LineText(timestampText, version, max, values) == first + ['|'] + second + ['|'] + third;
    JoinThree(first, second, third, '|');
    SplitJoin([first, second, third], '|', Bar);
  }

  lemma ThirdNoBar(max: I32, values: seq<I32>)
    ensures NoneOf(IntText(max) + [':'] + ValuesText(values), Bar)
  {
    IntTextNoneOf(max, Bar);
    forall k | 0 <= k < |values| ensures NoneOf(ValueTexts(values)[k], Bar) {
      IntTextNoneOf(values[k], Bar);
    }
    JoinNoneOf(ValueTexts(values), ',', Bar);
    NoneOfAppend(IntText(max) + [':'], ValuesText(values), Bar);
    NoneOfAppend(IntText(max), [':'], Bar);
  }

  /** Round trip: a line printed from a parseable timestamp text, a printable version,
      a maximum and at least one value parses back into exactly those fields. */
  lemma ParseLineText(timestampText: string, timestamp: Chrono.Timestamp, version: Versions.Version,
                      max: I32, values: seq<I32>, parseTimestamp: TimestampParser)
    requires parseTimestamp(timestampText) == Some(timestamp) && NoneOf(timestampText, Bar)
    requires Versions.PrintableExtension(version.extension)
    requires version.extension.Some? ==> NoneOf(version.extension.value, Bar)
    requires |values| >= 1
    ensures Parse(LineText(timestampText, version, max, values), parseTimestamp)
            == Success(Entry(timestamp, version, max, values))
  {
    var versionText := Versions.Display(version);
    var third := IntText(max) + [':'] + ValuesText(values);
    LineSegments(timestampText, version, max, values);
    Versions.ParseDisplay(version);
    ThirdCut(max, values);
    SegmentsInOrder([timestampText, versionText, third], parseTimestamp);
  }

  /** The third segment of a printed line cuts back into the maximum and the values. */
  lemma ThirdCut(max: I32, values: seq<I32>)
    requires |values| >= 1
    ensures var third := IntText(max) + [':'] + ValuesText(values);
      && Find(third, Colon) == Some(|IntText(max)|)
      && ParseI32(third[..|IntText(max)|]) == Success(max)
      && ParseValues(third[|IntText(max)| + 1..]) == Success(values)
  {
    var maxText := IntText(max);
    var third := maxText + [':'] + ValuesText(values);
    IntTextNoneOf(max, Colon);
    assert third[..|maxText|] == maxText;
    FindFirst(third, |maxText|, Colon);
    assert third[|maxText| + 1..] == ValuesText(values);
    ParseI32IntText(max);
    ParseValuesText(values);
  }

  /** A line joined from bar-free segments parses as those segments. */
  lemma ParseJoined(first: string, second: string, third: string, parseTimestamp: TimestampParser)
    requires NoneOf(first, Bar) && NoneOf(second, Bar) && NoneOf(third, Bar)
    ensures Parse(first + "|" + second + "|" + third, parseTimestamp)
            == ParseSegments([first, second, third], parseTimestamp)
  {
    JoinThree(first, second, third, '|');
    SplitJoin([first, second, third], '|', Bar);
  }

  /** A line whose third segment has no `:`, after the timestamp and version parsed,
      fails with "missing values". */
  lemma SegmentsNoColon(first: string, second: string, third: string, timestamp: Chrono.Timestamp,
                        version: Versions.Version, parseTimestamp: TimestampParser)
    requires parseTimestamp(first) == Some(timestamp)
    requires Versions.Parse(second) == Success(version)
    requires Find(third, Colon) == None
    ensures ParseSegments([first, second, third], parseTimestamp) == Failure(E.ParseEntryError.Format("missing values"))
  {
    var segments := [first, second, third];
    assert segments[0] == first && segments[1] == second && segments[2] == third;
    SegmentsInOrder(segments, parseTimestamp);
    assert CutOrder(third, timestamp, version, ParseSegments(segments, parseTimestamp));
  }

  /** A line whose values fail after every earlier stage succeeded fails with the
      values' integer error. */
  lemma SegmentsValuesFailure(first: string, second: string, third: string, mid: nat, timestamp: Chrono.Timestamp,
                              version: Versions.Version, max: I32, error: ParseIntError,
                              parseTimestamp: TimestampParser)
    requires parseTimestamp(first) == Some(timestamp)
    requires Versions.Parse(second) == Success(version)
    requires Find(third, Colon) == Some(mid)
    requires ParseI32(third[..mid]) == Success(max)
    requires ParseValues(third[mid + 1..]) == Failure(error)
    ensures ParseSegments([first, second, third], parseTimestamp) == Failure(E.ParseEntryError.Int(error))
  {
    var segments := [first, second, third];
    assert segments[0] == first && segments[1] == second && segments[2] == third;
    SegmentsInOrder(segments, parseTimestamp);
    assert CutOrder(third, timestamp, version, ParseSegments(segments, parseTimestamp));
  }
}
