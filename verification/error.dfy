/** The error taxonomy of the crate: `ParseEntryError` and `ParseVersionError`, their
    `Display` text, `Error::source`, and the `From` conversions that `?` applies. */
module Errors {
  import opened Wrappers
  import Numbers
  import Chrono

  datatype ParseEntryError =
    | Format(what: string)
    | Int(intError: Numbers.ParseIntError)
    | Timestamp(timestampError: Chrono.ParseError)
    | Version(versionError: ParseVersionError)

  datatype ParseVersionError =
    | Format(segment: string)
    | Int(intError: Numbers.ParseIntError)

  /** What `Error::source` hands back, as a value: one of the wrapped errors. */
  datatype ErrorSource =
    | IntSource(Numbers.ParseIntError)
    | TimestampSource(Chrono.ParseError)
    | VersionSource(ParseVersionError)

  /** `Error::source` for `ParseVersionError`. */
  function SourceOfVersionError(e: ParseVersionError): (r: Option<ErrorSource>)
    ensures r.None? <==> e.Format?
    ensures e.Int? ==> r == Some(IntSource(e.intError))
  {
    match e
    case Int(inner) => Some(IntSource(inner))
    case _ => None
  }

  /** `Error::source` for `ParseEntryError`. */
  function SourceOfEntryError(e: ParseEntryError): (r: Option<ErrorSource>)
    ensures r.None? <==> e.Format?
  {
    match e
    case Format(_) => None
    case Int(inner) => Some(IntSource(inner))
    case Timestamp(inner) => Some(TimestampSource(inner))
    case Version(inner) => Some(VersionSource(inner))
  }

  /** The chain of causes reached by following `source()` from `e`, nearest first. */
  function EntryErrorChain(e: ParseEntryError): seq<ErrorSource> {
    match SourceOfEntryError(e)
    case None => []
    case Some(VersionSource(inner)) =>
      [VersionSource(inner)] + (match SourceOfVersionError(inner) case None => [] case Some(s) => [s])
    case Some(s) => [s]
  }

  /** `From<ParseIntError> for ParseVersionError`. */
  function VersionFromInt(e: Numbers.ParseIntError): (r: ParseVersionError)
    ensures SourceOfVersionError(r) == Some(IntSource(e))
  {
    ParseVersionError.Int(e)
  }

  /** `From<chrono::ParseError> for ParseEntryError`. */
  function EntryFromTimestamp(e: Chrono.ParseError): (r: ParseEntryError)
    ensures SourceOfEntryError(r) == Some(TimestampSource(e))
  {
    Timestamp(e)
  }

  /** `From<ParseIntError> for ParseEntryError`. */
  function EntryFromInt(e: Numbers.ParseIntError): (r: ParseEntryError)
    ensures SourceOfEntryError(r) == Some(IntSource(e))
  {
    ParseEntryError.Int(e)
  }

  /** `From<ParseVersionError> for ParseEntryError`: the version error is kept whole. */
  function EntryFromVersion(e: ParseVersionError): (r: ParseEntryError)
    ensures SourceOfEntryError(r) == Some(VersionSource(e))
  {
    Version(e)
  }

  /** `Display` for `ParseVersionError`; the integer error's own text comes from `intText`. */
  function VersionErrorText(e: ParseVersionError, intText: Numbers.ParseIntError -> string): string {
    match e
    case Format(segment) => "missing segment: " + segment
    case Int(inner) => intText(inner)
  }

  /** `Display` for `ParseEntryError`; wrapped errors are displayed as they display themselves. */
  function EntryErrorText(e: ParseEntryError, intText: Numbers.ParseIntError -> string,
                          timestampText: Chrono.ParseError -> string): string
  {
    match e
    case Format(what) => "missing " + what
    case Int(inner) => intText(inner)
    case Timestamp(inner) => timestampText(inner)
    case Version(inner) => VersionErrorText(inner, intText)
  }

  /** Every wrapped error displays exactly as the error it wraps: an entry error made by
      a `From` conversion reads as its integer, chrono or version error. */
  lemma WrappedEntryErrorText(intError: Numbers.ParseIntError, timestampError: Chrono.ParseError,
                              versionError: ParseVersionError, intText: Numbers.ParseIntError -> string,
                              timestampText: Chrono.ParseError -> string)
    ensures EntryErrorText(EntryFromInt(intError), intText, timestampText) == intText(intError)
    ensures EntryErrorText(EntryFromTimestamp(timestampError), intText, timestampText) == timestampText(timestampError)
    ensures EntryErrorText(EntryFromVersion(versionError), intText, timestampText)
            == VersionErrorText(versionError, intText)
  {
  }

  /** A version error made from an integer error reads as the integer error. */
  lemma WrappedVersionIntText(intError: Numbers.ParseIntError, intText: Numbers.ParseIntError -> string)
    ensures VersionErrorText(VersionFromInt(intError), intText) == intText(intError)
  {
  }

  /** A version error inside an entry error reads exactly as it does on its own, and
      its integer cause stays reachable through two `source()` steps. */
  lemma WrappedVersionError(e: ParseVersionError, intText: Numbers.ParseIntError -> string,
                            timestampText: Chrono.ParseError -> string)
    ensures EntryErrorText(EntryFromVersion(e), intText, timestampText) == VersionErrorText(e, intText)
    ensures e.Int? ==> EntryErrorChain(EntryFromVersion(e)) == [VersionSource(e), IntSource(e.intError)]
    ensures e.Format? ==> EntryErrorChain(EntryFromVersion(e)) == [VersionSource(e)]
  {
  }

  /** Entry format errors print as "missing " followed by their message, and two
      different messages never print alike. */
  lemma EntryFormatText(a: string, b: string, intText: Numbers.ParseIntError -> string,
                        timestampText: Chrono.ParseError -> string)
    ensures EntryErrorText(ParseEntryError.Format(a), intText, timestampText) == "missing " + a
    ensures a != b ==> EntryErrorText(ParseEntryError.Format(a), intText, timestampText)
                       != EntryErrorText(ParseEntryError.Format(b), intText, timestampText)
  {
    if a != b {
      assert ("missing " + a)[8..] == a;
      assert ("missing " + b)[8..] == b;
    }
  }

  /** Version format errors print as "missing segment: " followed by the segment name. */
  lemma VersionFormatText(segment: string, intText: Numbers.ParseIntError -> string)
    ensures VersionErrorText(ParseVersionError.Format(segment), intText) == "missing segment: " + segment
  {
  }
}
