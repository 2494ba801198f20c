/** Worked lines and versions, each derived from the general lemmas.
    The timestamp text is any bar-free text the timestamp parser accepts, such as
    "2024-01-15 09:30". */
module Scenarios {
  import opened Wrappers
  import opened Text
  import opened Numbers
  import Chrono
  import E = Errors
  import opened Versions
  import opened Entries

  /** `Display` with and without an extension. */
  lemma DisplayExamples()
    ensures Display(Version(1, 2, 3, Some("rc1"))) == "1.2.3-rc1"
    ensures Display(Version(1, 2, 3, None)) == "1.2.3"
    ensures Display(Version(1, 2, 3, Some(""))) == "1.2.3-"
  {
  }

  lemma PlainVersion()
    ensures Versions.Parse("1.2.3") == Success(Version(1, 2, 3, None))
  {
    var v := Version(1, 2, 3, None);
    assert Display(v) == "1.2.3";
    ParseDisplay(v);
  }

  lemma TaggedVersion()
    ensures Versions.Parse("1.2.3-beta") == Success(Version(1, 2, 3, Some("beta")))
  {
    var v := Version(1, 2, 3, Some("beta"));
    assert Display(v) == "1.2.3-beta";
    ParseDisplay(v);
  }

  /** The empty extension survives the round trip as `Some("")`, not as `None`. */
  lemma EmptyExtension()
    ensures Versions.Parse("1.2.3-") == Success(Version(1, 2, 3, Some("")))
  {
    var v := Version(1, 2, 3, Some(""));
    assert Display(v) == "1.2.3-";
    ParseDisplay(v);
  }

  /** A version with a separator inside its extension keeps only the fourth token. */
  lemma ExtensionIsFourthToken()
    ensures Versions.Parse("1.2.3-rc.1") == Success(Version(1, 2, 3, Some("rc")))
  {
    var v := Version(1, 2, 3, Some("rc.1"));
    assert Display(v) == "1.2.3-rc.1";
    assert "rc.1" == "rc" + ['.'] + "1";
    ParseDisplayTruncates(v, "rc", '.', "1");
  }

  /** A two-field version is missing its patch. */
  lemma TwoFieldVersion()
    ensures Versions.Parse("1.2") == Failure(E.ParseVersionError.Format("patch"))
  {
    assert Split("1", Versions.Separators) == ["1"];
    assert Split("2", Versions.Separators) == ["2"];
    SplitHead("1", '.', "2");
    assert "1.2" == "1" + ['.'] + "2";
    assert NatText(1) == "1" && NatText(2) == "2";
    ParseU16NatText(1);
    ParseU16NatText(2);
    ParseFormatError("1.2");
  }

  lemma ValuesFiveTenFifteen()
    ensures ParseValues("5,10,15") == Success([5, 10, 15])
  {
    assert NatText(10) == "10" && NatText(15) == "15";
    assert ValueTexts([5, 10, 15]) == ["5", "10", "15"];
    JoinThree("5", "10", "15", ',');
    assert ValuesText([5, 10, 15]) == "5,10,15";
    ParseValuesText([5, 10, 15]);
  }

  /** One bad token fails the values with that token's error. */
  lemma ValuesWithBadToken()
    ensures ParseValues("5,x,15") == Failure(ParseIntError("x"))
  {
    JoinThree("5", "x", "15", ',');
    assert "5,x,15" == "5" + [','] + "x" + [','] + "15";
    SplitJoin(["5", "x", "15"], ',', Comma);
    assert NatText(5) == "5";
    ParseI32IntText(5);
    assert !AllDigits("x") by { assert !IsDigit("x"[0]); }
    assert ParseI32("x") == Failure(ParseIntError("x"));
    assert ParseAll(["5", "x", "15"]) == Failure(ParseIntError("x")) by {
      assert ["5", "x", "15"][1..] == ["x", "15"];
    }
  }

  lemma CutBadLine()
    ensures Find("100:5,x,15", Colon) == Some(3)
    ensures ParseI32("100:5,x,15"[..3]) == Success(100)
    ensures ParseValues("100:5,x,15"[4..]) == Failure(ParseIntError("x"))
  {
    FindFirst("100:5,x,15", 3, Colon);
    assert "100:5,x,15"[..3] == "100";
    HundredValue();
    assert "100:5,x,15"[4..] == "5,x,15";
    ValuesWithBadToken();
  }

  /** The number 100 reads back from its decimal text. */
  lemma HundredValue()
    ensures ParseI32("100") == Success(100)
  {
    assert NatText(100) == "100";
    ParseI32IntText(100);
  }

  /** The printed form of a line is the text one writes by hand. */
  lemma PrintedPlainLine(stamp: string)
    ensures LineText(stamp, Version(1, 2, 3, None), 100, [5, 10, 15])
            == stamp + "|" + "1.2.3" + "|" + "100:5,10,15"
  {
    PlainText();
    PrintedValues();
    LineTextShape(stamp, Version(1, 2, 3, None), 100, [5, 10, 15]);
  }

  lemma PrintedTaggedLine(stamp: string)
    ensures LineText(stamp, Version(1, 2, 3, Some("beta")), 100, [5, 10, 15])
            == stamp + "|" + "1.2.3-beta" + "|" + "100:5,10,15"
  {
    BetaText();
    PrintedValues();
    LineTextShape(stamp, Version(1, 2, 3, Some("beta")), 100, [5, 10, 15]);
  }

  /** The literal facts below are kept one per lemma so that each line's proof
      sees only the printed texts it needs. */
  lemma PlainText()
    ensures Display(Version(1, 2, 3, None)) == "1.2.3"
  {
  }

  lemma BetaText()
    ensures Display(Version(1, 2, 3, Some("beta"))) == "1.2.3-beta"
  {
  }

  lemma PrintedValues()
    ensures IntText(100) + ":" + ValuesText([5, 10, 15]) == "100:5,10,15"
  {
    HundredText();
    ValueTextsFiveTenFifteen();
    JoinThree("5", "10", "15", ',');
    assert ValuesText([5, 10, 15]) == "5,10,15";
  }

  lemma HundredText()
    ensures IntText(100) == "100"
  {
    assert NatText(100) == "100";
  }

  lemma ValueTextsFiveTenFifteen()
    ensures ValueTexts([5, 10, 15]) == ["5", "10", "15"]
  {
    assert NatText(10) == "10" && NatText(15) == "15";
  }

  lemma BetaPrintable()
    ensures Versions.PrintableExtension(Some("beta")) && NoneOf("beta", Bar)
  {
  }

  /** A well-formed line without an extension. */
  lemma PlainLine(stamp: string, t: Chrono.Timestamp, parseTimestamp: TimestampParser)
    requires parseTimestamp(stamp) == Some(t) && NoneOf(stamp, Bar)
    ensures Entries.Parse(stamp + "|" + "1.2.3" + "|" + "100:5,10,15", parseTimestamp)
            == Success(Entry(t, Version(1, 2, 3, None), 100, [5, 10, 15]))
  {
    PrintedPlainLine(stamp);
    ParseLineText(stamp, t, Version(1, 2, 3, None), 100, [5, 10, 15], parseTimestamp);
  }

  /** A well-formed line whose version has an extension. */
  lemma TaggedLine(stamp: string, t: Chrono.Timestamp, parseTimestamp: TimestampParser)
    requires parseTimestamp(stamp) == Some(t) && NoneOf(stamp, Bar)
    ensures Entries.Parse(stamp + "|" + "1.2.3-beta" + "|" + "100:5,10,15", parseTimestamp)
            == Success(Entry(t, Version(1, 2, 3, Some("beta")), 100, [5, 10, 15]))
  {
    PrintedTaggedLine(stamp);
    BetaPrintable();
    ParseLineText(stamp, t, Version(1, 2, 3, Some("beta")), 100, [5, 10, 15], parseTimestamp);
  }

  /** A two-field version inside a line surfaces as the version's own error. */
  lemma LineWithTwoFieldVersion(stamp: string, t: Chrono.Timestamp, parseTimestamp: TimestampParser)
    requires parseTimestamp(stamp) == Some(t) && NoneOf(stamp, Bar)
    ensures Entries.Parse(stamp + "|" + "1.2" + "|" + "100:5", parseTimestamp)
            == Failure(E.ParseEntryError.Version(E.ParseVersionError.Format("patch")))
  {
    ParseJoined(stamp, "1.2", "100:5", parseTimestamp);
    TwoFieldSegments(stamp, t, parseTimestamp);
  }

  lemma TwoFieldSegments(stamp: string, t: Chrono.Timestamp, parseTimestamp: TimestampParser)
    requires parseTimestamp(stamp) == Some(t)
    ensures ParseSegments([stamp, "1.2", "100:5"], parseTimestamp)
            == Failure(E.ParseEntryError.Version(E.ParseVersionError.Format("patch")))
  {
    TwoFieldVersion();
  }

  /** A bad value fails the whole line with that token's integer error. */
  lemma LineWithBadValue(stamp: string, t: Chrono.Timestamp, parseTimestamp: TimestampParser)
    requires parseTimestamp(stamp) == Some(t) && NoneOf(stamp, Bar)
    ensures Entries.Parse(stamp + "|" + "1.2.3" + "|" + "100:5,x,15", parseTimestamp)
            == Failure(E.ParseEntryError.Int(ParseIntError("x")))
  {
    ParseJoined(stamp, "1.2.3", "100:5,x,15", parseTimestamp);
    BadValueSegments(stamp, t, parseTimestamp);
  }

  lemma BadValueSegments(stamp: string, t: Chrono.Timestamp, parseTimestamp: TimestampParser)
    requires parseTimestamp(stamp) == Some(t)
    ensures ParseSegments([stamp, "1.2.3", "100:5,x,15"], parseTimestamp)
            == Failure(E.ParseEntryError.Int(ParseIntError("x")))
  {
    PlainVersion();
    CutBadLine();
    SegmentsValuesFailure(stamp, "1.2.3", "100:5,x,15", 3, t, Version(1, 2, 3, None), 100, ParseIntError("x"),
                          parseTimestamp);
  }

  /** A line that stops after the version is missing its third segment. */
  lemma LineWithoutMaxAndValues(stamp: string, t: Chrono.Timestamp, parseTimestamp: TimestampParser)
    requires parseTimestamp(stamp) == Some(t) && NoneOf(stamp, Bar)
    ensures Entries.Parse(stamp + "|" + "1.2.3", parseTimestamp)
            == Failure(E.ParseEntryError.Format("missing max/values"))
  {
    SplitTwo(stamp, '|', "1.2.3", Bar);
    TwoSegments(stamp, t, parseTimestamp);
  }

  lemma TwoSegments(stamp: string, t: Chrono.Timestamp, parseTimestamp: TimestampParser)
    requires parseTimestamp(stamp) == Some(t)
    ensures ParseSegments([stamp, "1.2.3"], parseTimestamp)
            == Failure(E.ParseEntryError.Format("missing max/values"))
  {
    PlainVersion();
  }

  /** A third segment without `:` is missing its values, even when it is a number. */
  lemma LineWithoutColon(stamp: string, t: Chrono.Timestamp, parseTimestamp: TimestampParser)
    requires parseTimestamp(stamp) == Some(t) && NoneOf(stamp, Bar)
    ensures Entries.Parse(stamp + "|" + "1.2.3" + "|" + "100", parseTimestamp)
            == Failure(E.ParseEntryError.Format("missing values"))
  {
    ParseJoined(stamp, "1.2.3", "100", parseTimestamp);
    NoColonSegments(stamp, t, parseTimestamp);
  }

  lemma NoColonSegments(stamp: string, t: Chrono.Timestamp, parseTimestamp: TimestampParser)
    requires parseTimestamp(stamp) == Some(t)
    ensures ParseSegments([stamp, "1.2.3", "100"], parseTimestamp)
            == Failure(E.ParseEntryError.Format("missing values"))
  {
    PlainVersion();
    NoColonInHundred();
    SegmentsNoColon(stamp, "1.2.3", "100", t, Version(1, 2, 3, None), parseTimestamp);
  }

  lemma NoColonInHundred()
    ensures Find("100", Colon) == None
  {
  }

  /** How the errors of the two lines above read: the version error as it reads on its
      own, and the entry format error with the word "missing" twice. */
  lemma ErrorTexts(intText: ParseIntError -> string, timestampText: Chrono.ParseError -> string)
    ensures E.EntryErrorText(E.ParseEntryError.Version(E.ParseVersionError.Format("patch")), intText, timestampText)
            == "missing segment: patch"
    ensures E.EntryErrorText(E.ParseEntryError.Format("missing max/values"), intText, timestampText)
            == "missing missing max/values"
  {
  }
}
