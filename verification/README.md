# rollstat parsing core in Dafny

rollstat reads lines that record one measurement run each:

    2024-01-15 09:30|1.2.3-beta|100:5,10,15

A line holds a timestamp, a program version, a maximum and a comma-separated list of
values. This project models the crate's parsing pipeline and proves properties of the
model:

- the `Version` parser (`Version::from_str` with its `read_int`) and its printer (`Display`);
- the `Entry` line parser (`Entry::from_str` with its `parse_values`);
- the error types `ParseEntryError` and `ParseVersionError`, with their `Display` text,
  `Error::source` and the `From` conversions that Rust's `?` applies.

Modules:

| module | file | contents |
|---|---|---|
| `Wrappers` | wrappers.dfy | `Option` and `Result`. `Result` supports `:-`, which plays the role of Rust's `?`, and `MapFailure`, which plays the role of the `From` conversion `?` inserts. |
| `Text` | text.dfy | `str::split` on a set of characters (`Split`), `str::find` (`Find`), and `Join` as their partner |
| `Numbers` | numbers.dfy | `u16` and `i32` parsing (`ParseU16`, `ParseI32`), decimal printing (`NatText`, `IntText`) |
| `Chrono` | chrono.dfy | the timestamp value and chrono's parse error, both as opaque payloads |
| `Errors` | error.dfy | src/error.rs |
| `Versions` | version.dfy | `Version` from src/lib.rs |
| `Entries` | entry.dfy | `Entry` from src/lib.rs |
| `Scenarios` | scenarios.dfy | worked lines and versions, each derived from the general lemmas |

### Behaviour of the code that the model keeps

- A line is split on `|` only; `:` is not a top-level separator. A `:` matters only as the first `:` inside the third segment, where it separates the maximum from the values, so `100:5:6` has maximum 100 and values text `5:6`.
- The entry format messages are the code's own strings: `"version"`, `"missing max/values"` and `"missing values"`.
  - An entry `Format` error displays as "missing " followed by its message, so the second one reads "missing missing max/values".
  - The code never produces `Format("timestamp")`: splitting always yields a first segment, so an empty line fails in timestamp parsing instead. The model keeps that error for an empty list of segments, as the code keeps it, and proves that no line reaches it.
- The version extension is the fourth `.`/`-` token only. Whatever follows it is dropped, so `1.2.3-rc.1` parses with extension `rc`.

## Model

| member | source | states |
|---|---|---|
| Text.Split | src/lib.rs:23 | `split` always yields at least one piece, and no piece contains a separator |
| Text.SplitCount | src/lib.rs:23 | the number of pieces is the number of separators plus one |
| Text.SplitAppend | src/lib.rs:23 | a separator between two texts splits into the pieces of the first followed by the pieces of the second |
| Text.SplitJoin | src/lib.rs:23 | separator-free pieces joined with a separator split back into the same pieces |
| Text.JoinSplit | src/lib.rs:23 | splitting on one character and joining with it gives back the original text |
| Text.Find | src/lib.rs:35 | `find` returns the index of the first separator, and returns nothing exactly when there is none |
| Numbers.ParseU16 | src/lib.rs:77 | an accepted `u16` token is non-empty, starts with a digit or `+` and has only digits after that; a failure carries the rejected token |
| Numbers.ParseI32 | src/lib.rs:43 | an accepted `i32` token is non-empty, starts with a digit, `+` or `-` and has only digits after that, and a negative result comes from a leading `-`; a failure carries the rejected token |
| Numbers.ParseU16Value | src/lib.rs:77 | a `u16` token is accepted exactly when, after one optional `+`, it is a non-empty run of digits whose value is at most 65535, and the result is that value |
| Numbers.ParseI32Value | src/lib.rs:43 | an `i32` token with a leading `-` is accepted exactly when the rest is a non-empty run of digits of value at most 2^31, giving its negation. Any other token is accepted exactly when, after one optional `+`, it is a non-empty run of digits of value below 2^31, giving that value. |
| Numbers.NatText | src/lib.rs:62-63 | the decimal text of a number is digits only, reads back as that number, and has a leading zero only when it is `0` itself |
| Numbers.ParseU16NatText | src/lib.rs:62-63 | every `u16` printed in decimal parses back to itself |
| Numbers.ParseI32IntText | src/lib.rs:43 | every `i32` printed in decimal parses back to itself, negative ones included |
| Numbers.ParseU16Limit | src/lib.rs:53-55 | 65535 is accepted and 65536 is refused |
| Numbers.ParseU16Plus | src/lib.rs:77 | `+007` is accepted as 7 |
| Numbers.ParseU16Rejects | src/lib.rs:77 | the empty token, a lone `+` and `-0` are refused |
| Numbers.ParseI32Bounds | src/lib.rs:11 | -2147483648 and 2147483647, the two ends of the `i32` range, are accepted |
| Numbers.ParseI32Examples | src/lib.rs:43 | `+12` and `-12` are accepted; a lone `-` and `abc` are refused |
| Errors.SourceOfEntryError | src/error.rs:22-31 | an entry error has no source exactly when it is a `Format` error |
| Errors.SourceOfVersionError | src/error.rs:66-73 | a version error has no source exactly when it is a `Format` error; an `Int` error's source is the integer error it wraps |
| Errors.EntryFromTimestamp | src/error.rs:33-37 | a wrapped chrono error is the entry error's source |
| Errors.EntryFromInt | src/error.rs:39-43 | a wrapped integer error is the entry error's source |
| Errors.EntryFromVersion | src/error.rs:45-49 | a wrapped version error is the entry error's source, kept whole |
| Errors.VersionFromInt | src/error.rs:75-79 | a wrapped integer error is the version error's source |
| Errors.WrappedVersionError | src/error.rs:11-31 | a version error wrapped in an entry error displays exactly as it does on its own. Following `source()` from the entry error reaches the version error and then its integer cause, if it has one. |
| Errors.EntryFormatText | src/error.rs:14 | an entry format error displays as "missing " followed by its message, and different messages display differently |
| Errors.VersionFormatText | src/error.rs:60 | a version format error displays as "missing segment: " followed by the segment name |
| Errors.WrappedEntryErrorText | src/error.rs:11-20 | an entry error made from an integer, chrono or version error displays exactly as the error it wraps |
| Errors.WrappedVersionIntText | src/error.rs:57-64 | a version error made from an integer error displays exactly as that integer error |
| Versions.ReadInt | src/lib.rs:72-78 | `read_int` fails with a `Format` error exactly when no segment is left, and that error names the field. An `Int` error arises only when the segment does not parse as a `u16`, and it carries that segment. On success the value is the segment's `u16` value. |
| Versions.Parse | src/lib.rs:68-87 | a missing segment is only ever "minor" or "patch", and a parsed extension never holds a separator |
| Versions.ParseSuccess | src/lib.rs:80-86 | parsing succeeds exactly when there are at least three tokens and the first three are `u16` numbers. The fields are those numbers in order. The extension is absent exactly when there are three tokens, and is otherwise the fourth token. |
| Versions.ParseFormatError | src/lib.rs:76-84 | a `Format` error happens exactly when there are fewer than three tokens and every token present is a number. It names "minor" for one token and "patch" for two, and never "major". |
| Versions.ParseIntFailure | src/lib.rs:77-84 | the integer error comes from the first of the leading three tokens that is not a `u16` |
| Versions.ParseDisplay | src/lib.rs:59-87 | a version whose extension is absent or separator-free, the empty extension included, parses back from its printed text unchanged |
| Versions.ParseDisplayTruncates | src/lib.rs:62 | a printed extension that holds a separator comes back cut at that separator |
| Versions.ParseDisplayParse | src/lib.rs:59-87 | parse, print, parse gives the first parse again |
| Versions.DisplayInjective | src/lib.rs:59-65 | any two versions with the same printed text are equal |
| Versions.DisplayDash | src/lib.rs:61-64 | the printed text holds a `-` exactly when the version has an extension |
| Versions.DisplaySegments | src/lib.rs:59-65 | the printed version splits into the three printed numbers, followed by the pieces of the extension if there is one |
| Entries.ParseAll | src/lib.rs:19-21 | values parse exactly when every token parses; then there is one value per token, in order. Otherwise the error is that of the first bad token. |
| Entries.ParseValuesTokens | src/lib.rs:19-21 | on success the number of values is the number of commas plus one |
| Entries.ParseValuesFailure | src/lib.rs:19-21 | when `parse_values` fails, its error is that of the first comma-separated token that is not an `i32`, and every token before it parsed |
| Entries.ParseValuesEmpty | src/lib.rs:19-21 | an empty values text fails with an integer error |
| Entries.ParseValuesText | src/lib.rs:19-21 | a non-empty list of values printed with commas parses back to itself |
| Entries.Parse | src/lib.rs:18-46 | a `Format` message is one of "version", "missing max/values" and "missing values"; a parsed entry has at least three segments and at least one value |
| Entries.ParseSegments | src/lib.rs:23-45 | given at least one segment, a `Format` message is one of "version", "missing max/values" and "missing values"; success needs three segments and gives at least one value |
| Entries.SegmentsNoColon | src/lib.rs:35-37 | once the timestamp and version have parsed, a third segment without `:` fails with "missing values" |
| Entries.SegmentsValuesFailure | src/lib.rs:44 | once every earlier stage has succeeded, a failing values text fails the line with its integer error |
| Entries.ParseOrder | src/lib.rs:23-45 | errors short-circuit in this order: timestamp, version segment, version, third segment, `:`, maximum, values. A line that passes every stage gives the entry made of the stages' results. |
| Entries.ParseNeverMissingTimestamp | src/lib.rs:25-27 | `Format("timestamp")` is never produced |
| Entries.ParseEmptyLine | src/lib.rs:23-28 | an empty line fails in timestamp parsing, carrying the empty text |
| Entries.ParseIgnoresExtraSegments | src/lib.rs:23-34 | anything after a third `|` does not change the result |
| Entries.SegmentsPrefix | src/lib.rs:23-34 | parsing looks at the first three segments only |
| Entries.ParseLineText | src/lib.rs:18-46 | a line printed from a parseable timestamp text, a printable version, a maximum and at least one value parses back into exactly those fields |
| Scenarios.DisplayExamples | src/lib.rs:59-65 | `1.2.3-rc1`, `1.2.3` and `1.2.3-` are how the corresponding versions print |
| Scenarios.PlainVersion | src/lib.rs:80-86 | `1.2.3` parses with no extension |
| Scenarios.TaggedVersion | src/lib.rs:80-86 | `1.2.3-beta` parses with extension `beta` |
| Scenarios.EmptyExtension | src/lib.rs:85 | `1.2.3-` parses with the empty extension, not without one |
| Scenarios.ExtensionIsFourthToken | src/lib.rs:85 | `1.2.3-rc.1` parses with extension `rc` |
| Scenarios.TwoFieldVersion | src/lib.rs:84 | `1.2` fails with the patch segment missing |
| Scenarios.ValuesFiveTenFifteen | src/lib.rs:19-21 | `5,10,15` parses as the values 5, 10 and 15 |
| Scenarios.ValuesWithBadToken | src/lib.rs:19-21 | `5,x,15` fails with the error of `x` |
| Scenarios.PlainLine | src/lib.rs:18-46 | a well-formed line with an untagged version parses into its fields |
| Scenarios.TaggedLine | src/lib.rs:18-46 | a well-formed line with a tagged version parses into its fields |
| Scenarios.LineWithTwoFieldVersion | src/lib.rs:29-32 | a two-field version in a line fails with the version's own error |
| Scenarios.LineWithBadValue | src/lib.rs:44 | one bad value fails the whole line with that token's error |
| Scenarios.LineWithoutMaxAndValues | src/lib.rs:34 | a line that ends after the version fails with "missing max/values" |
| Scenarios.LineWithoutColon | src/lib.rs:35-37 | a third segment without `:` fails with "missing values" |
| Scenarios.ErrorTexts | src/error.rs:14-17 | those two errors read "missing segment: patch" and "missing missing max/values" |

## Left out

- Timestamp parsing is not modelled. chrono's `parse_from_str` with format `%F %R`, followed by `Utc.from_utc_datetime`, is a foreign calendar library, so it is a parameter of `Entries.Parse` that returns a timestamp or nothing.
- chrono's `ParseError` and std's `ParseIntError` are opaque. Each is modelled as a payload that records the rejected text, not the library's error kind, and that text is what makes "the first bad token" observable. Their `Display` text is a parameter of the error display functions.
- Integer parsing follows a simple rule: an optional sign (`+` for `u16`, `+` or `-` for `i32`), one or more ASCII digits, then a range check. std's error kinds (empty, invalid digit, overflow) are not distinguished.
- The derived `Hash` of `Version` is not modelled. Grouping relies on equality, and datatype equality in Dafny is already structural.
- `fmt::Formatter` plumbing and the `Debug`/`Clone` derives are left out; the printers produce the string directly.
- The placeholder test in src/lib.rs is not modelled.
- Strings are sequences of characters. Rust's `find` reports a byte offset; the model's `Find` reports a character index. The two numbers differ when a multi-byte character comes before the `:`, but slicing at either one cuts the text at the same place, so the maximum and values texts are the same.
