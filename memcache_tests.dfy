/** The expected outcomes of the unit tests in lib/parser/src/memcache.rs,
    proved from the general lemmas of module Memcache. A test buffer is
    written line by line: a line of words as the words joined by single
    spaces, each line followed by CRLF. Next to each such test a lemma ending
    in `Buffer` proves that the buffer so written is the string literal the
    unit test passes. The two are kept apart because a `Parse` applied to a
    literal makes the verifier evaluate the whole classifier on it. Tests that
    repeat one shape over several tokens take the token as a parameter
    ranging over the tested values. */
module MemcacheTests {
  import opened RustStr
  import opened RustNum
  import opened Memcache

  // test_parse_incomplete

  /** The buffers of test_parse_incomplete that stop before a final CRLF. */
  const Unterminated: seq<string> := [
    "0", "STOR", "STORED", "STORED\r", "VERSION ", "VERSION 1.2.3",
    "VERSION 1.2.3\r", "CLIENT_ERROR", "SERVER_ERROR error msg",
    "VALUE key 0 10\r\n0123456789\r\nEND\r",
    "VALUE key 0 10\r\nEND\r\nEND\r\n\r\nEND"
  ]

  lemma ParseUnterminatedCases()
    ensures forall k :: 0 <= k < |Unterminated| ==>
              !Panics(Unterminated[k]) && Parse(Unterminated[k]) == Incomplete
  {
    forall k | 0 <= k < |Unterminated|
      ensures !Panics(Unterminated[k]) && Parse(Unterminated[k]) == Incomplete
    {
      IncompleteUntilTerminated(Unterminated[k]);
    }
  }

  /** The buffer of the test below, as the unit test spells it. */
  lemma HeaderOnlyBuffer()
    ensures JoinSpaces(["VALUE", "key", "0", "1", "0"]) + CRLF
            == "VALUE key 0 1 0\r\n"
  {
  }

  /** A VALUE header line alone, cas included, is still incomplete. */
  lemma ParseValueHeaderOnly()
    ensures var response := JoinSpaces(["VALUE", "key", "0", "1", "0"]) + CRLF;
            !Panics(response) && Parse(response) == Incomplete
  {
    var tokens := ["VALUE", "key", "0", "1", "0"];
    JoinSpacesNoCr(tokens);
    WordsJoinSpaces(tokens);
    MultiTokenLine(JoinSpaces(tokens) + CRLF, JoinSpaces(tokens));
  }

  /** The VALUE headers and payloads of the tests. */
  const HeaderLen10: seq<string> := ["VALUE", "key", "0", "10"]
  const HeaderLenNaN: seq<string> := ["VALUE", "key", "0", "NaN"]
  const HeaderFlagsNaN: seq<string> := ["VALUE", "key", "NaN", "10"]
  const Payload10: string := "0123456789"
  const Payload16: string := Payload10 + "ABCDEF"

  /** The header words of the VALUE tests. */
  lemma TestHeaderWords()
    ensures forall k :: 0 <= k < |HeaderLen10| ==> IsWord(HeaderLen10[k])
    ensures forall k :: 0 <= k < |HeaderLenNaN| ==> IsWord(HeaderLenNaN[k])
    ensures forall k :: 0 <= k < |HeaderFlagsNaN| ==> IsWord(HeaderFlagsNaN[k])
  {
    assert IsWord("VALUE") && IsWord("key") && IsWord("0") && IsWord("10") && IsWord("NaN");
  }

  /** The numeric fields of the VALUE test headers. */
  lemma TestHeaderFields()
    ensures ValueHeaderOk(HeaderLen10) && ValueHeaderOk(HeaderLenNaN)
    ensures |HeaderFlagsNaN| >= 4 && !ValueHeaderOk(HeaderFlagsNaN)
    ensures ParseUnsigned(HeaderLen10[3], USIZE_MAX) == Some(10)
    ensures ParseUnsigned(HeaderLenNaN[3], USIZE_MAX).None?
  {
    DecimalRoundTrip(0, U32_MAX);
    DecimalRoundTrip(10, USIZE_MAX);
    assert Decimal(0) == "0" && Decimal(10) == "10";
  }

  lemma Payload10Length()
    ensures ByteLen(Payload10) == 10
  {
  }

  /** The shorter payload is a single line. */
  lemma Payload10OneLine()
    ensures SplitCrlf(Payload10) == [Payload10]
  {
    SplitNoCrlf(Payload10);
  }

  lemma Payload16Length()
    ensures ByteLen(Payload16) == 16
  {
    Payload10Length();
    ByteLenConcat(Payload10, "ABCDEF");
    assert ByteLen("ABCDEF") == 6;
  }

  /** The header lines of the VALUE tests, spelled out. */
  lemma HeaderLines()
    ensures JoinSpaces(HeaderLen10) == "VALUE key 0 10"
    ensures JoinSpaces(HeaderLenNaN) == "VALUE key 0 NaN"
    ensures JoinSpaces(HeaderFlagsNaN) == "VALUE key NaN 10"
  {
    assert JoinSpaces(["10"]) == "10" && JoinSpaces(["NaN"]) == "NaN";
    assert JoinSpaces(["0", "10"]) == "0 10" && JoinSpaces(["0", "NaN"]) == "0 NaN";
    assert JoinSpaces(["NaN", "10"]) == "NaN 10";
    assert HeaderLen10[1..] == ["key", "0", "10"] && HeaderLen10[1..][1..] == ["0", "10"];
    assert HeaderLenNaN[1..] == ["key", "0", "NaN"] && HeaderLenNaN[1..][1..] == ["0", "NaN"];
    assert HeaderFlagsNaN[1..] == ["key", "NaN", "10"] && HeaderFlagsNaN[1..][1..] == ["NaN", "10"];
  }

  /** The buffer of the test below, as the unit test spells it. */
  lemma WithoutEndBuffer()
    ensures JoinSpaces(HeaderLen10) + CRLF + Payload10 + CRLF
            == "VALUE key 0 10\r\n0123456789\r\n"
  {
    HeaderLines();
  }

  /** A VALUE block whose END line has not arrived is incomplete. */
  lemma ParseValueWithoutEnd()
    ensures var response := JoinSpaces(HeaderLen10) + CRLF + Payload10 + CRLF;
            !Panics(response) && Parse(response) == Incomplete
  {
    TestHeaderWords();
    TestHeaderFields();
    Payload10OneLine();
    ValueBlockUnfinished(JoinSpaces(HeaderLen10) + CRLF + Payload10 + CRLF, HeaderLen10, Payload10);
  }

  // test_parse_invalid

  /** The buffer of the test below, as the unit test spells it. */
  lemma LongPayloadBuffer()
    ensures JoinSpaces(HeaderLen10) + CRLF + Payload16 + CRLF + "END" + CRLF
            == "VALUE key 0 10\r\n0123456789ABCDEF\r\nEND\r\n"
  {
    HeaderLines();
  }

  /** A payload longer than the declared length is invalid. */
  lemma ParseLongPayloadInvalid()
    ensures var response := JoinSpaces(HeaderLen10) + CRLF + Payload16 + CRLF + "END" + CRLF;
            !Panics(response) && Parse(response) == Invalid
  {
    TestHeaderWords();
    TestHeaderFields();
    Payload16Length();
    ValueBlock(JoinSpaces(HeaderLen10) + CRLF + Payload16 + CRLF + "END" + CRLF,
               HeaderLen10, Payload16);
  }

  /** The buffer of the test below, as the unit test spells it. */
  lemma BadLengthBuffer()
    ensures JoinSpaces(HeaderLenNaN) + CRLF + Payload16 + CRLF + "END" + CRLF
            == "VALUE key 0 NaN\r\n0123456789ABCDEF\r\nEND\r\n"
  {
    HeaderLines();
  }

  /** A length field that is not a number is invalid. */
  lemma ParseBadLengthInvalid()
    ensures var response := JoinSpaces(HeaderLenNaN) + CRLF + Payload16 + CRLF + "END" + CRLF;
            !Panics(response) && Parse(response) == Invalid
  {
    TestHeaderWords();
    TestHeaderFields();
    Payload16Length();
    ValueBlock(JoinSpaces(HeaderLenNaN) + CRLF + Payload16 + CRLF + "END" + CRLF,
               HeaderLenNaN, Payload16);
  }

  /** The buffer of the test below, as the unit test spells it. */
  lemma BadFlagsBuffer()
    ensures JoinSpaces(HeaderFlagsNaN) + CRLF + Payload10 + CRLF + "END" + CRLF
            == "VALUE key NaN 10\r\n0123456789\r\nEND\r\n"
  {
    HeaderLines();
  }

  /** A flags field that is not a number is invalid. */
  lemma ParseBadFlagsInvalid()
    ensures var response := JoinSpaces(HeaderFlagsNaN) + CRLF + Payload10 + CRLF + "END" + CRLF;
            !Panics(response) && Parse(response) == Invalid
  {
    TestHeaderWords();
    TestHeaderFields();
    Payload10Length();
    ValueBlock(JoinSpaces(HeaderFlagsNaN) + CRLF + Payload10 + CRLF + "END" + CRLF,
               HeaderFlagsNaN, Payload10);
  }

  // test_parse_ok: the VALUE block

  /** The buffer of the test below, as the unit test spells it. */
  lemma HitBuffer()
    ensures JoinSpaces(HeaderLen10) + CRLF + Payload10 + CRLF + "END" + CRLF
            == "VALUE key 0 10\r\n0123456789\r\nEND\r\n"
  {
    HeaderLines();
  }

  /** A VALUE block of exactly the declared length is a Hit. */
  lemma ParseHitCase()
    ensures var response := JoinSpaces(HeaderLen10) + CRLF + Payload10 + CRLF + "END" + CRLF;
            !Panics(response) && Parse(response) == Hit
  {
    TestHeaderWords();
    TestHeaderFields();
    Payload10Length();
    ValueBlock(JoinSpaces(HeaderLen10) + CRLF + Payload10 + CRLF + "END" + CRLF,
               HeaderLen10, Payload10);
  }

  /** The single-token decisions for a test token alone on its line. */
  lemma TokenLine(token: string)
    requires IsWord(token)
    ensures var r := Parse(token + CRLF);
            && !Panics(token + CRLF)
            && (r == Ok <==> IsAck(token) || IsCounter(token))
            && (r == Miss <==> IsMissToken(token))
            && (r == Error(token + CRLF) <==> token == "ERROR")
  {
    JoinSpacesNoCr([token]);
    WordsJoinSpaces([token]);
    assert JoinSpaces([token]) == token;
    SingleTokenLine(token + CRLF, token);
  }

  // test_parse_ok

  lemma ParseOkCases(token: string)
    requires token in {"OK", "STORED", "DELETED"}
    ensures !Panics(token + CRLF) && Parse(token + CRLF) == Ok
  {
    assert IsWord(token);
    TokenLine(token);
  }

  /** The reply to incr/decr. */
  lemma ParseCounterCase()
    ensures !Panics("12345" + CRLF) && Parse("12345" + CRLF) == Ok
  {
    assert Decimal(12345) == "12345";
    CounterReply("12345" + CRLF, 12345);
  }

  // test_parse_miss

  lemma ParseMissCases(token: string)
    requires token in {"EXISTS", "NOT_FOUND", "NOT_STORED"}
    ensures !Panics(token + CRLF) && Parse(token + CRLF) == Miss
  {
    assert IsWord(token);
    TokenLine(token);
  }

  // test_parse_error

  lemma ParseBareError()
    ensures !Panics("ERROR" + CRLF) && Parse("ERROR" + CRLF) == Error("ERROR" + CRLF)
  {
    assert IsWord("ERROR");
    TokenLine("ERROR");
  }

  /** The buffers of the test below, as the unit test spells them. */
  lemma ErrorMessageBuffer(kind: string)
    ensures JoinSpaces([kind, "some", "message"]) + CRLF
            == kind + " some message\r\n"
  {
    assert JoinSpaces(["message"]) == "message";
    assert JoinSpaces(["some", "message"]) == "some message";
  }

  lemma ParseErrorWithMessage(kind: string)
    requires kind in {"CLIENT_ERROR", "SERVER_ERROR"}
    ensures var response := JoinSpaces([kind, "some", "message"]) + CRLF;
            !Panics(response) && Parse(response) == Error(response)
  {
    var tokens := [kind, "some", "message"];
    assert IsWord(kind) && IsWord("some") && IsWord("message");
    JoinSpacesNoCr(tokens);
    WordsJoinSpaces(tokens);
    MultiTokenLine(JoinSpaces(tokens) + CRLF, JoinSpaces(tokens));
  }

  // test_parse_version

  /** The buffer of the test below, as the unit test spells it. */
  lemma VersionBuffer()
    ensures JoinSpaces(["VERSION", "1.2.3"]) + CRLF
            == "VERSION 1.2.3\r\n"
  {
  }

  lemma ParseVersionCase()
    ensures var response := JoinSpaces(["VERSION", "1.2.3"]) + CRLF;
            !Panics(response) && Parse(response) == Version("1.2.3")
  {
    var tokens := ["VERSION", "1.2.3"];
    JoinSpacesNoCr(tokens);
    WordsJoinSpaces(tokens);
    assert tokens[1..] == ["1.2.3"];
    assert JoinSpaces(["1.2.3"]) == "1.2.3";
    MultiTokenLine(JoinSpaces(tokens) + CRLF, JoinSpaces(tokens));
  }
}
