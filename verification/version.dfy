/** `Version` from src/lib.rs: its `FromStr` parser and its `Display` printer. */
module Versions {
  import opened Wrappers
  import opened Text
  import opened Numbers
  import E = Errors

  /** A version is split on both of these characters in one pass. */
  const Separators: set<char> := {'.', '-'}

  /** Major, minor and patch numbers and an optional extension tag. Equality is
      structural, which is what grouping entries by version relies on. */
  datatype Version = Version(major: U16, minor: U16, patch: U16, extension: Option<string>)

  /** `read_int`: the next segment, named `name` when it is absent, parsed as `u16`. */
  function ReadInt(segments: seq<string>, index: nat, name: string): (r: Result<U16, E.ParseVersionError>)
    ensures r.Failure? && r.error.Format? <==> index >= |segments|
    ensures r.Failure? && r.error.Format? ==> r.error.segment == name
    ensures r.Failure? && r.error.Int? ==>
      index < |segments| && ParseU16(segments[index]).Failure? &&
      r.error.intError == ParseIntError(segments[index])
    ensures r.Success? ==> index < |segments| && ParseU16(segments[index]) == Success(r.value)
  {
    if index >= |segments| then Failure(E.ParseVersionError.Format(name))
    else ParseU16(segments[index]).MapFailure(E.VersionFromInt)
  }

  /** `Version::from_str`. A missing segment is only ever the minor or the patch one,
      since splitting always yields a first segment, and a parsed extension never holds
      a separator. */
  function Parse(s: string): (r: Result<Version, E.ParseVersionError>)
    ensures r.Failure? && r.error.Format? ==> r.error.segment in {"minor", "patch"}
    ensures r.Success? ==> PrintableExtension(r.value.extension)
  {
    var segments := Split(s, Separators);
    var major :- ReadInt(segments, 0, "major");
    var minor :- ReadInt(segments, 1, "minor");
    var patch :- ReadInt(segments, 2, "patch");
    Success(Version(major, minor, patch, if |segments| > 3 then Some(segments[3]) else None))
  }

  /** `Display for Version`. */
  function Display(v: Version): string {
    NatText(v.major) + "." + NatText(v.minor) + "." + NatText(v.patch) +
    match v.extension
    case None => ""
    case Some(ext) => "-" + ext
  }

  /** An extension `Display` can print and `Parse` read back: one without separators. */
  predicate PrintableExtension(extension: Option<string>) {
    extension.None? || NoneOf(extension.value, Separators)
  }

  /** Parsing succeeds exactly when there are at least three segments and the first
      three are `u16` numbers; then the fields are those numbers in order, and the
      extension is the fourth segment if there is one. Anything after it is dropped. */
  lemma ParseSuccess(s: string)
    ensures var segments := Split(s, Separators);
      && (Parse(s).Success? <==>
            && |segments| >= 3 && ParseU16(segments[0]).Success?
            && ParseU16(segments[1]).Success? && ParseU16(segments[2]).Success?)
      && (Parse(s).Success? ==>
            && ParseU16(segments[0]) == Success(Parse(s).value.major)
            && ParseU16(segments[1]) == Success(Parse(s).value.minor)
            && ParseU16(segments[2]) == Success(Parse(s).value.patch)
            && (Parse(s).value.extension.None? <==> |segments| == 3)
            && (|segments| > 3 ==> Parse(s).value.extension == Some(segments[3])))
  {
    ParseSteps(s);
  }

  /** `Parse` stops at the first `read_int` that fails, and otherwise assembles the version. */
  lemma ParseSteps(s: string)
    ensures var segments := Split(s, Separators);
      var major, minor, patch :=
        ReadInt(segments, 0, "major"), ReadInt(segments, 1, "minor"), ReadInt(segments, 2, "patch");
      Parse(s) ==
        if major.Failure? then Failure(major.error)
        else if minor.Failure? then Failure(minor.error)
        else if patch.Failure? then Failure(patch.error)
        else Success(Version(major.value, minor.value, patch.value,
                             if |segments| > 3 then Some(segments[3]) else None))
  {
  }

  /** With fewer than three segments the error names the first missing field, unless
      a present segment already failed as a number; "major" is never missing. */
  lemma ParseFormatError(s: string)
    ensures var segments := Split(s, Separators);
      && (Parse(s).Failure? && Parse(s).error.Format? <==>
            |segments| < 3 && forall k :: 0 <= k < |segments| ==> ParseU16(segments[k]).Success?)
      && (Parse(s) == Failure(E.ParseVersionError.Format("minor")) <==>
            |segments| == 1 && ParseU16(segments[0]).Success?)
      && (Parse(s) == Failure(E.ParseVersionError.Format("patch")) <==>
            |segments| == 2 && ParseU16(segments[0]).Success? && ParseU16(segments[1]).Success?)
      && Parse(s) != Failure(E.ParseVersionError.Format("major"))
  {
  }

  /** The integer error comes from the first of the leading three segments that is not
      a `u16`, read in the order major, minor, patch. */
  lemma ParseIntFailure(s: string, k: nat)
    requires var segments := Split(s, Separators);
      k < |segments| && k < 3 && ParseU16(segments[k]).Failure?
      && forall j :: 0 <= j < k ==> ParseU16(segments[j]).Success?
    ensures Parse(s) == Failure(E.ParseVersionError.Int(ParseIntError(Split(s, Separators)[k])))
  {
  }

  lemma DigitsNoneOf(n: nat)
    ensures NoneOf(NatText(n), Separators)
  {
  }

  /** A separator after a separator-free head splits off exactly that head. */
  lemma SplitHead(head: string, sep: char, rest: string)
    requires sep in Separators && NoneOf(head, Separators)
    ensures Split(head + [sep] + rest, Separators) == [head] + Split(rest, Separators)
  {
    SplitAppend(head, sep, rest, Separators);
    SplitNoneOf(head, Separators);
  }

  /** The segments of a printed version: three numbers, then the extension if any. */
  lemma DisplaySegments(v: Version)
    ensures v.extension.None? ==>
      Split(Display(v), Separators) == [NatText(v.major), NatText(v.minor), NatText(v.patch)]
    ensures v.extension.Some? ==>
      Split(Display(v), Separators) ==
        [NatText(v.major), NatText(v.minor), NatText(v.patch)] + Split(v.extension.value, Separators)
  {
    DigitsNoneOf(v.major);
    DigitsNoneOf(v.minor);
    DigitsNoneOf(v.patch);
    DisplayShape(v);
    if v.extension.None? {
      SplitDotted(NatText(v.major), NatText(v.minor), NatText(v.patch));
    } else {
      SplitTagged(NatText(v.major), NatText(v.minor), NatText(v.patch), v.extension.value);
    }
  }

  lemma SplitDotted(a: string, b: string, c: string)
    requires NoneOf(a, Separators) && NoneOf(b, Separators) && NoneOf(c, Separators)
    ensures Split(a + ['.'] + (b + ['.'] + c), Separators) == [a, b, c]
  {
    SplitNoneOf(c, Separators);
    SplitHead(b, '.', c);
    SplitHead(a, '.', b + ['.'] + c);
  }

  lemma SplitTagged(a: string, b: string, c: string, ext: string)
    requires NoneOf(a, Separators) && NoneOf(b, Separators) && NoneOf(c, Separators)
    ensures Split(a + ['.'] + (b + ['.'] + (c + ['-'] + ext)), Separators) == [a, b, c] + Split(ext, Separators)
  {
    var x := Split(ext, Separators);
    var last := c + ['-'] + ext;
    var mid := b + ['.'] + last;
    SplitHead(c, '-', ext);
    assert Split(last, Separators) == [c] + x;
    SplitHead(b, '.', last);
    assert Split(mid, Separators) == [b] + ([c] + x);
    SplitHead(a, '.', mid);
    assert Split(a + ['.'] + mid, Separators) == [a] + ([b] + ([c] + x));
    ConsThree(a, b, c, x);
  }

  lemma ConsThree<T>(a: T, b: T, c: T, x: seq<T>)
    ensures [a] + ([b] + ([c] + x)) == [a, b, c] + x
  {
    assert [a] + ([b] + ([c] + x)) == [a, b, c] + x;
  }

  /** The printed version with its separators made explicit. */
  lemma DisplayShape(v: Version)
    ensures Display(v) == NatText(v.major) + ['.'] + (NatText(v.minor) + ['.'] +
      match v.extension
      case None => NatText(v.patch)
      case Some(ext) => NatText(v.patch) + ['-'] + ext)
  {
  }

  /** Round trip: a version whose extension is absent or separator-free (the empty
      extension included) parses back from its printed form unchanged. */
  lemma ParseDisplay(v: Version)
    requires PrintableExtension(v.extension)
    ensures Parse(Display(v)) == Success(v)
  {
    DisplaySegments(v);
    ParseU16NatText(v.major);
    ParseU16NatText(v.minor);
    ParseU16NatText(v.patch);
    if v.extension.Some? {
      SplitNoneOf(v.extension.value, Separators);
    }
  }

  /** An extension holding a separator does not survive the round trip: only the
      text before its first separator comes back. */
  lemma ParseDisplayTruncates(v: Version, head: string, sep: char, tail: string)
    requires sep in Separators && NoneOf(head, Separators)
    requires v.extension == Some(head + [sep] + tail)
    ensures Parse(Display(v)) == Success(v.(extension := Some(head)))
  {
    DisplaySegments(v);
    SplitAppend(head, sep, tail, Separators);
    SplitNoneOf(head, Separators);
    ParseU16NatText(v.major);
    ParseU16NatText(v.minor);
    ParseU16NatText(v.patch);
  }

  /** A parsed version is in the form its printed text reads back as, so printing is
      a canonical form: parse, print and parse again agrees with the first parse. */
  lemma ParseDisplayParse(s: string)
    requires Parse(s).Success?
    ensures PrintableExtension(Parse(s).value.extension)
    ensures Parse(Display(Parse(s).value)) == Parse(s)
  {
    ParseSuccess(s);
    ParseDisplay(Parse(s).value);
  }

  /** Two versions with the same printed text are the same version: the numbers are
      the first three pieces, and the extension is what follows the third number. */
  lemma DisplayInjective(v: Version, w: Version)
    requires Display(v) == Display(w)
    ensures v == w
  {
    DisplaySegments(v);
    DisplaySegments(w);
    var pieces := Split(Display(v), Separators);
    NatTextInjective(v.major, w.major, pieces[0]);
    NatTextInjective(v.minor, w.minor, pieces[1]);
    NatTextInjective(v.patch, w.patch, pieces[2]);
    if v.extension.Some? && w.extension.Some? {
      var numbers := NatText(v.major) + "." + NatText(v.minor) + "." + NatText(v.patch) + "-";
      DisplayTail(v, numbers);
      DisplayTail(w, numbers);
    }
  }

  lemma NatTextInjective(m: U16, n: U16, text: string)
    requires NatText(m) == text && NatText(n) == text
    ensures m == n
  {
    ParseU16NatText(m);
    ParseU16NatText(n);
  }

  /** The extension is the printed text after the numbers and the `-`. */
  lemma DisplayTail(v: Version, numbers: string)
    requires v.extension.Some?
    requires numbers == NatText(v.major) + "." + NatText(v.minor) + "." + NatText(v.patch) + "-"
    ensures |numbers| <= |Display(v)| && Display(v)[|numbers|..] == v.extension.value
  {
    assert Display(v) == numbers + v.extension.value;
  }

  /** The printed text holds a `-` exactly when the version has an extension. */
  lemma DisplayDash(v: Version)
    ensures v.extension.None? <==> NoneOf(Display(v), {'-'})
  {
    var numbers := NatText(v.major) + "." + NatText(v.minor) + "." + NatText(v.patch);
    DigitsNoneOf(v.major);
    DigitsNoneOf(v.minor);
    DigitsNoneOf(v.patch);
    assert NoneOf(numbers, {'-'});
    if v.extension.Some? {
      assert Display(v) == numbers + "-" + v.extension.value;
      assert Display(v)[|numbers|] == '-';
    }
  }

}
