/**
 * Worked cases of `parse_host` and of the range expansion in
 * `parse_host_string`, each checked against the model; where they appear,
 * `prefix` and `suffix` stand for any text around the brackets.
 */
module Examples {
  import opened Wrappers
  import opened Text
  import opened Decimal
  import opened HostParse

  /** `host:` has a port, and it is empty, not the default. */
  lemma EmptyPortIsKept(defaultUser: Option<string>, defaultPort: Option<string>)
    ensures ParseHost("host:", defaultUser, defaultPort) == Host("host", Some(""), defaultUser)
  {
    assert Unparse("host", Some(""), None) == "host:";
    UnparseRoundTrip("host", Some(""), None, defaultUser, defaultPort);
  }

  /** `root@db:5432` gives all three fields from the token. */
  lemma FullToken(defaultUser: Option<string>, defaultPort: Option<string>)
    ensures ParseHost("root@db:5432", defaultUser, defaultPort) == Host("db", Some("5432"), Some("root"))
  {
    assert Unparse("db", Some("5432"), Some("root")) == "root@db:5432";
    UnparseRoundTrip("db", Some("5432"), Some("root"), defaultUser, defaultPort);
  }

  /** `[5:5]`: start equal to stop is an invalid range. */
  lemma EqualEnds(prefix: string, suffix: string, defaultUser: Option<string>, defaultPort: Option<string>)
    requires ']' !in suffix
    ensures ExpandToken(prefix + "[" + "5" + ":" + "5" + "]" + suffix, defaultUser, defaultPort) == Failure(InvalidRange)
  {
    ExpandBracketed(prefix, "5", "5", suffix, defaultUser, defaultPort);
    assert IsDecimal("5");
    ExpandSidesErrors(prefix, "5", "5", suffix, defaultUser, defaultPort);
  }

  /** `[9:2]`: a descending range is invalid. */
  lemma Descending(prefix: string, suffix: string, defaultUser: Option<string>, defaultPort: Option<string>)
    requires ']' !in suffix
    ensures ExpandToken(prefix + "[" + "9" + ":" + "2" + "]" + suffix, defaultUser, defaultPort) == Failure(InvalidRange)
  {
    ExpandBracketed(prefix, "9", "2", suffix, defaultUser, defaultPort);
    assert IsDecimal("9") && IsDecimal("2") && Value("9") == 9 && Value("2") == 2;
    ExpandSidesErrors(prefix, "9", "2", suffix, defaultUser, defaultPort);
  }

  /** `[01:003]`: padding is on and the sides differ in length. */
  lemma PaddedLengthsDiffer(prefix: string, suffix: string, defaultUser: Option<string>, defaultPort: Option<string>)
    requires ']' !in suffix
    ensures ExpandToken(prefix + "[" + "01" + ":" + "003" + "]" + suffix, defaultUser, defaultPort) == Failure(AmbiguousPadding)
  {
    ExpandBracketed(prefix, "01", "003", suffix, defaultUser, defaultPort);
    PaddedValues();
    ExpandSidesErrors(prefix, "01", "003", suffix, defaultUser, defaultPort);
  }

  /** `[0:10]`: a lone "0" turns padding on, so the sides' lengths must agree, and they do not. */
  lemma LoneZeroPads(prefix: string, suffix: string, defaultUser: Option<string>, defaultPort: Option<string>)
    requires ']' !in suffix
    ensures ExpandToken(prefix + "[" + "0" + ":" + "10" + "]" + suffix, defaultUser, defaultPort) == Failure(AmbiguousPadding)
  {
    ExpandBracketed(prefix, "0", "10", suffix, defaultUser, defaultPort);
    LoneZeroValues();
    ExpandSidesErrors(prefix, "0", "10", suffix, defaultUser, defaultPort);
  }

  /** `[:3]`: a range with an empty side is dropped, with no error. */
  lemma EmptySideDropped(prefix: string, suffix: string, defaultUser: Option<string>, defaultPort: Option<string>)
    requires ']' !in suffix
    ensures ExpandToken(prefix + "[" + "" + ":" + "3" + "]" + suffix, defaultUser, defaultPort) == Success([])
  {
    ExpandBracketed(prefix, "", "3", suffix, defaultUser, defaultPort);
    ExpandSidesErrors(prefix, "", "3", suffix, defaultUser, defaultPort);
  }

  /** The byte 0x1c is not whitespace in a byte string, so `a\x1cb` is a single field. */
  lemma ControlByteIsNotSpace()
    ensures Split("a\U{1c}b") == ["a\U{1c}b"]
  {
    SplitWord("a\U{1c}b");
  }

  /** `web[1:3]` expands to web1, web2, web3, each with the default user and port. */
  lemma PlainRange(defaultUser: Option<string>, defaultPort: Option<string>)
    ensures ExpandToken("web[1:3]", defaultUser, defaultPort)
         == Success([Host("web1", defaultPort, defaultUser), Host("web2", defaultPort, defaultUser), Host("web3", defaultPort, defaultUser)])
  {
    PlainExpansion(defaultUser, defaultPort);
    PlainRangeHosts(defaultUser, defaultPort);
  }

  lemma PlainExpansion(defaultUser: Option<string>, defaultPort: Option<string>)
    ensures ExpandToken("web[1:3]", defaultUser, defaultPort)
         == Success(ParseAll(RangeTokens("web", 1, 3, 0, ""), defaultUser, defaultPort))
  {
    assert "web[1:3]" == "web" + "[" + "1" + ":" + "3" + "]" + "";
    PlainValues();
    ExpandRangeToken("web", "1", "3", "", defaultUser, defaultPort);
  }

  lemma PlainRangeHosts(defaultUser: Option<string>, defaultPort: Option<string>)
    ensures ParseAll(RangeTokens("web", 1, 3, 0, ""), defaultUser, defaultPort)
         == [Host("web1", defaultPort, defaultUser), Host("web2", defaultPort, defaultUser), Host("web3", defaultPort, defaultUser)]
  {
    PlainTokens();
    NamedHosts("web1", "web2", "web3", defaultUser, defaultPort);
  }

  /** `web[01:03]` expands to web01, web02, web03: the leading zero pads every index to width 2. */
  lemma PaddedRange(defaultUser: Option<string>, defaultPort: Option<string>)
    ensures ExpandToken("web[01:03]", defaultUser, defaultPort)
         == Success([Host("web01", defaultPort, defaultUser), Host("web02", defaultPort, defaultUser), Host("web03", defaultPort, defaultUser)])
  {
    PaddedExpansion(defaultUser, defaultPort);
    PaddedRangeHosts(defaultUser, defaultPort);
  }

  lemma PaddedExpansion(defaultUser: Option<string>, defaultPort: Option<string>)
    ensures ExpandToken("web[01:03]", defaultUser, defaultPort)
         == Success(ParseAll(RangeTokens("web", 1, 3, 2, ""), defaultUser, defaultPort))
  {
    assert "web[01:03]" == "web" + "[" + "01" + ":" + "03" + "]" + "";
    PaddedEndValues();
    ExpandRangeToken("web", "01", "03", "", defaultUser, defaultPort);
  }

  lemma PaddedRangeHosts(defaultUser: Option<string>, defaultPort: Option<string>)
    ensures ParseAll(RangeTokens("web", 1, 3, 2, ""), defaultUser, defaultPort)
         == [Host("web01", defaultPort, defaultUser), Host("web02", defaultPort, defaultUser), Host("web03", defaultPort, defaultUser)]
  {
    PaddedTokens();
    NamedHosts("web01", "web02", "web03", defaultUser, defaultPort);
  }

  lemma PlainValues()
    ensures IsDecimal("1") && IsDecimal("3") && Value("1") == 1 && Value("3") == 3
    ensures PadWidth("1", "3") == 0
  {
  }

  lemma PaddedEndValues()
    ensures IsDecimal("01") && IsDecimal("03") && Value("01") == 1 && Value("03") == 3
    ensures PadWidth("01", "03") == 2
  {
    assert "01"[..1] == "0" && "03"[..1] == "0";
  }

  lemma DigitTexts()
    ensures ToDecimal(1) == "1" && ToDecimal(2) == "2" && ToDecimal(3) == "3"
  {
    assert DigitChar(1) == '1' && DigitChar(2) == '2' && DigitChar(3) == '3';
  }

  lemma PlainTokens()
    ensures RangeTokens("web", 1, 3, 0, "") == ["web1", "web2", "web3"]
  {
    ThreeTokens("web", 1, 0, "");
    DigitTexts();
    assert IndexText(1, 0) == "1" && IndexText(2, 0) == "2" && IndexText(3, 0) == "3";
    assert "web" + "1" + "" == "web1" && "web" + "2" + "" == "web2" && "web" + "3" + "" == "web3";
  }

  lemma PaddedTokens()
    ensures RangeTokens("web", 1, 3, 2, "") == ["web01", "web02", "web03"]
  {
    ThreeTokens("web", 1, 2, "");
    DigitTexts();
    assert Zeros(1) == "0";
    assert IndexText(1, 2) == "01" && IndexText(2, 2) == "02" && IndexText(3, 2) == "03";
    assert "web" + "01" + "" == "web01" && "web" + "02" + "" == "web02" && "web" + "03" + "" == "web03";
  }

  /** A range of three indices from `a` on, token by token. */
  lemma ThreeTokens(prefix: string, a: nat, width: nat, suffix: string)
    ensures RangeTokens(prefix, a, 3, width, suffix)
         == [prefix + IndexText(a, width) + suffix, prefix + IndexText(a + 1, width) + suffix,
             prefix + IndexText(a + 2, width) + suffix]
  {
  }

  /** Three plain names, none holding '@' or ':', parse to themselves with the defaults. */
  lemma NamedHosts(n1: string, n2: string, n3: string, defaultUser: Option<string>, defaultPort: Option<string>)
    requires '@' !in n1 && ':' !in n1 && '@' !in n2 && ':' !in n2 && '@' !in n3 && ':' !in n3
    ensures ParseAll([n1, n2, n3], defaultUser, defaultPort)
         == [Host(n1, defaultPort, defaultUser), Host(n2, defaultPort, defaultUser), Host(n3, defaultPort, defaultUser)]
  {
    UnparseRoundTrip(n1, None, None, defaultUser, defaultPort);
    UnparseRoundTrip(n2, None, None, defaultUser, defaultPort);
    UnparseRoundTrip(n3, None, None, defaultUser, defaultPort);
  }

  lemma PaddedValues()
    ensures IsDecimal("01") && IsDecimal("003") && Value("01") == 1 && Value("003") == 3
  {
    assert "01"[..1] == "0";
    assert "003"[..2] == "00" && "00"[..1] == "0";
  }

  lemma LoneZeroValues()
    ensures IsDecimal("0") && IsDecimal("10") && Value("0") == 0 && Value("10") == 10
  {
    assert "10"[..1] == "1";
  }

  /** With width 2, index 1 is written "01" and index 10 "10". */
  lemma PaddedIndices()
    ensures IndexText(1, 2) == "01" && IndexText(10, 2) == "10"
  {
    assert ToDecimal(1) == "1";
    assert Zeros(1) == "0";
    assert ToDecimal(10) == "10";
  }
}
