/** The memcached ASCII-protocol response classifier (`Response::parse` in
    lib/parser/src/memcache.rs): given the bytes received so far for one
    response, decide whether it is complete and, if so, what kind of reply it
    is. No I/O, no state: a decision tree over the CRLF-delimited lines of the
    buffer and the whitespace-separated tokens of its first line. */
module Memcache {
  import opened RustStr
  import opened RustNum

  /** The eight outcomes of a parse. */
  datatype ParsedResponse =
    | Incomplete                 // wait for more bytes
    | Ok                         // stored, deleted, or a counter value
    | Miss                       // no such item, or a store condition failed
    | Hit                        // a complete VALUE block of the declared length
    | Error(message: string)     // a server-reported error, verbatim
    | Version(version: string)   // the server's version string
    | Invalid                    // a recognised shape with a bad field
    | Unknown                    // an unrecognised shape

  /** Single-token acknowledgements. */
  predicate IsAck(token: string) {
    token == "OK" || token == "STORED" || token == "DELETED"
  }

  /** Single-token negative replies. */
  predicate IsMissToken(token: string) {
    token == "END" || token == "EXISTS" || token == "NOT_FOUND" || token == "NOT_STORED"
  }

  /** A numeric `incr`/`decr` reply: a token that parses as `u64`. */
  predicate IsCounter(token: string) {
    ParseUnsigned(token, U64_MAX).Some?
  }

  /** The source indexes the first line and its first token without checking
      that they exist: it panics on a buffer that ends in CRLF but has no
      line, or whose first line has no token. */
  predicate Panics(response: string) {
    var pieces := SplitCrlf(response);
    pieces[|pieces| - 1] == "" && (|pieces| == 1 || Words(pieces[0]) == [])
  }

  /** The payload of a VALUE block: the lines strictly between the header and
      the final line, joined back with the CRLFs the split removed. */
  function Payload(lines: seq<string>): string
    requires |lines| >= 2
  {
    JoinCrlf(lines[1..|lines| - 1])
  }

  /** The header checks of a multi-line VALUE reply, all of which come before
      the END check: at least four tokens, a `u64` cas when there are exactly
      five, and `u32` flags. */
  predicate ValueHeaderOk(tokens: seq<string>) {
    && |tokens| >= 4
    && tokens[0] == "VALUE"
    && (|tokens| == 5 ==> ParseUnsigned(tokens[4], U64_MAX).Some?)
    && ParseUnsigned(tokens[2], U32_MAX).Some?
  }

  /** `Response::parse`. */
  function Parse(response: string): (r: ParsedResponse)
    requires !Panics(response)
    ensures r.Error? ==> r.message == response
  {
    var pieces := SplitCrlf(response);
    if pieces[|pieces| - 1] != "" then Incomplete
    else
      var lines := pieces[..|pieces| - 1];
      var tokens := Words(lines[0]);
      if |lines| == 1 then SingleLine(response, lines[0], tokens)
      else MultiLine(lines, tokens)
  }

  /** A buffer holding exactly one line and its CRLF. */
  function SingleLine(response: string, line: string, tokens: seq<string>): (r: ParsedResponse)
    requires |tokens| >= 1
    ensures r.Error? ==>
              && r.message == response
              && ((|tokens| == 1 && tokens[0] == "ERROR")
                  || (|tokens| >= 2 && (tokens[0] == "CLIENT_ERROR" || tokens[0] == "SERVER_ERROR")))
    ensures r.Version? ==> |tokens| >= 2 && tokens[0] == "VERSION"
    ensures r == Ok ==> |tokens| == 1 && (IsAck(tokens[0]) || IsCounter(tokens[0]))
    ensures r == Miss ==> |tokens| == 1 && IsMissToken(tokens[0])
    ensures r != Hit && r != Invalid
  {
    if ByteLen(line) + 2 != ByteLen(response) then Incomplete
    else if |tokens| == 1 then
      var token := tokens[0];
      if IsAck(token) then Ok
      else if IsMissToken(token) then Miss
      else if token == "VALUE" then Incomplete
      else if token == "ERROR" then Error(response)
      else if IsCounter(token) then Ok
      else Unknown
    else
      var token := tokens[0];
      if token == "VALUE" then Incomplete
      else if token == "VERSION" then Version(JoinSpaces(tokens[1..]))
      else if token == "CLIENT_ERROR" || token == "SERVER_ERROR" then Error(response)
      else Unknown
  }

  /** A buffer holding two or more lines: only a VALUE block is recognised. */
  function MultiLine(lines: seq<string>, tokens: seq<string>): (r: ParsedResponse)
    requires |lines| >= 2 && |tokens| >= 1
    ensures !r.Error? && !r.Version? && r != Ok && r != Miss
    ensures r == Hit ==>
              && ValueHeaderOk(tokens)
              && lines[|lines| - 1] == "END"
              && ParseUnsigned(tokens[3], USIZE_MAX) == Some(ByteLen(Payload(lines)))
  {
    if tokens[0] != "VALUE" then Unknown
    else if |tokens| < 4 then Incomplete
    else if |tokens| == 5 && ParseUnsigned(tokens[4], U64_MAX).None? then Invalid
    else if ParseUnsigned(tokens[2], U32_MAX).None? then Invalid
    else if lines[|lines| - 1] != "END" then Incomplete
    else
      var measured := ByteLen(Payload(lines));
      match ParseUnsigned(tokens[3], USIZE_MAX)
      case None => Invalid
      case Some(declared) =>
        if measured == declared then Hit
        else if measured > declared then Invalid
        else Incomplete
  }

  // ---------------------------------------------------------------------------
  // Framing
  // ---------------------------------------------------------------------------

  /** A buffer that does not end in CRLF is never complete. */
  lemma IncompleteUntilTerminated(response: string)
    requires response != "" && !EndsWithCrlf(response)
    ensures !Panics(response) && Parse(response) == Incomplete
  {
    LastPieceEmpty(response);
  }

  /** Exactly the inputs on which the source panics: the empty buffer, and a
      CRLF-terminated buffer whose first line is empty or all whitespace. */
  lemma PanicCondition(response: string)
    ensures var first := SplitCrlf(response)[0];
            Panics(response) <==>
              || response == ""
              || (EndsWithCrlf(response) && forall i :: 0 <= i < |first| ==> IsWhitespace(first[i]))
  {
    var pieces := SplitCrlf(response);
    LastPieceEmpty(response);
    WordsEmpty(pieces[0]);
    JoinSplit(response);
    assert |pieces| == 1 ==> response == pieces[0];
  }

  /** Every CRLF-terminated buffer is its lines joined with CRLF plus a final
      CRLF, and no line contains CRLF: the lemmas below, stated over such
      lines, cover every complete buffer. */
  lemma LinesOfTerminated(response: string)
    requires EndsWithCrlf(response)
    ensures var pieces := SplitCrlf(response);
            var lines := pieces[..|pieces| - 1];
            && |lines| >= 1
            && (forall k :: 0 <= k < |lines| ==> NoCrlf(lines[k]))
            && response == JoinCrlf(lines) + CRLF
  {
    var pieces := SplitCrlf(response);
    var lines := pieces[..|pieces| - 1];
    LastPieceEmpty(response);
    JoinSplit(response);
    SplitPiecesNoCrlf(response);
    var first := pieces[0];
    assert |pieces| == 1 ==> response == first;
    assert pieces == lines + [""];
    JoinSnoc(lines, "");
  }

  /** The buffer built from lines splits back into those lines and an empty
      last piece. */
  lemma LinesFrame(lines: seq<string>)
    requires |lines| >= 1
    requires forall k :: 0 <= k < |lines| ==> NoCrlf(lines[k])
    ensures SplitCrlf(JoinCrlf(lines) + CRLF) == lines + [""]
  {
    JoinSnoc(lines, "");
    CrlfEnding(JoinCrlf(lines));
    AllNoCrlfSnoc(lines, "");
    SplitJoin(lines + [""]);
  }

  /** `Parse` on a CRLF-terminated buffer given by its lines: one line goes
      to the single-line decisions, several to the multi-line ones. */
  lemma ParseOfLines(response: string, lines: seq<string>)
    requires |lines| >= 1 && forall k :: 0 <= k < |lines| ==> NoCrlf(lines[k])
    requires response == JoinCrlf(lines) + CRLF && Words(lines[0]) != []
    ensures !Panics(response)
    ensures |lines| == 1 ==> Parse(response) == SingleLine(response, lines[0], Words(lines[0]))
    ensures |lines| >= 2 ==> Parse(response) == MultiLine(lines, Words(lines[0]))
  {
    LinesFrame(lines);
    assert (lines + [""])[..|lines|] == lines;
  }

  /** The single-line length check can never fail: a one-line buffer is that
      line plus CRLF, two bytes longer. */
  lemma LengthCheckRedundant(response: string)
    requires var pieces := SplitCrlf(response);
             |pieces| == 2 && pieces[1] == ""
    ensures response == SplitCrlf(response)[0] + CRLF
    ensures ByteLen(SplitCrlf(response)[0]) + 2 == ByteLen(response)
  {
    var pieces := SplitCrlf(response);
    JoinSplit(response);
    assert JoinCrlf(pieces) == pieces[0] + CRLF + JoinCrlf(pieces[1..]);
    ByteLenConcat(pieces[0], CRLF);
  }

  // ---------------------------------------------------------------------------
  // One-line replies
  // ---------------------------------------------------------------------------

  /** A one-line reply of a single token: the acknowledgement words and
      counter values give Ok, the negative words give Miss, a bare VALUE is
      still incomplete, ERROR is an error carrying the whole buffer, and any
      other token (a bare CLIENT_ERROR, SERVER_ERROR or VERSION among them) is
      Unknown. */
  lemma SingleTokenLine(response: string, line: string)
    requires response == line + CRLF && NoCrlf(line) && |Words(line)| == 1
    ensures var token := Words(line)[0];
            && !Panics(response)
            && (Parse(response) == Ok <==> IsAck(token) || IsCounter(token))
            && (Parse(response) == Miss <==> IsMissToken(token))
            && (Parse(response) == Incomplete <==> token == "VALUE")
            && (Parse(response) == Error(response) <==> token == "ERROR")
            && (Parse(response) == Unknown <==>
                  !IsAck(token) && !IsMissToken(token) && !IsCounter(token)
                  && token != "VALUE" && token != "ERROR")
  {
    assert JoinCrlf([line]) == line;
    ParseOfLines(response, [line]);
    ByteLenConcat(line, CRLF);
    OneTokenDecisions(response, line, Words(line));
  }

  /** The single-token decisions of `SingleLine` once the length check has
      passed. */
  lemma OneTokenDecisions(response: string, line: string, tokens: seq<string>)
    requires |tokens| == 1 && ByteLen(line) + 2 == ByteLen(response)
    ensures var r := SingleLine(response, line, tokens);
            var token := tokens[0];
            && (r == Ok <==> IsAck(token) || IsCounter(token))
            && (r == Miss <==> IsMissToken(token))
            && (r == Incomplete <==> token == "VALUE")
            && (r == Error(response) <==> token == "ERROR")
            && (r == Unknown <==>
                  !IsAck(token) && !IsMissToken(token) && !IsCounter(token)
                  && token != "VALUE" && token != "ERROR")
  {
  }

  /** The reply to incr/decr: every `u64` written in decimal, alone on its
      line, is Ok. */
  lemma CounterReply(response: string, n: nat)
    requires response == Decimal(n) + CRLF && n <= U64_MAX
    ensures !Panics(response) && Parse(response) == Ok
  {
    var token := Decimal(n);
    DecimalRoundTrip(n, U64_MAX);
    assert JoinSpaces([token]) == token;
    WordsJoinSpaces([token]);
    JoinSpacesNoCr([token]);
    SingleTokenLine(response, token);
  }

  /** A one-line reply of two or more tokens: VALUE is still incomplete,
      VERSION gives the remaining tokens joined by single spaces (which
      tokenise back to exactly those tokens), CLIENT_ERROR and SERVER_ERROR
      are errors carrying the whole buffer, and anything else is Unknown. */
  lemma MultiTokenLine(response: string, line: string)
    requires response == line + CRLF && NoCrlf(line) && |Words(line)| >= 2
    ensures var tokens := Words(line);
            && !Panics(response)
            && (tokens[0] == "VALUE" ==> Parse(response) == Incomplete)
            && (tokens[0] == "VERSION" ==>
                  && Parse(response) == Version(JoinSpaces(tokens[1..]))
                  && Words(Parse(response).version) == tokens[1..])
            && (tokens[0] == "CLIENT_ERROR" || tokens[0] == "SERVER_ERROR" ==>
                  Parse(response) == Error(response))
            && (tokens[0] !in {"VALUE", "VERSION", "CLIENT_ERROR", "SERVER_ERROR"} ==>
                  Parse(response) == Unknown)
  {
    var tokens := Words(line);
    assert JoinCrlf([line]) == line;
    ParseOfLines(response, [line]);
    ByteLenConcat(line, CRLF);
    WordsJoinSpaces(tokens[1..]);
  }

  // ---------------------------------------------------------------------------
  // Multi-line replies
  // ---------------------------------------------------------------------------

  /** Only a VALUE block may span several lines. */
  lemma MultiLineNotValue(lines: seq<string>)
    requires |lines| >= 2 && forall k :: 0 <= k < |lines| ==> NoCrlf(lines[k])
    requires Words(lines[0]) != [] && Words(lines[0])[0] != "VALUE"
    ensures !Panics(JoinCrlf(lines) + CRLF) && Parse(JoinCrlf(lines) + CRLF) == Unknown
  {
    ParseOfLines(JoinCrlf(lines) + CRLF, lines);
  }

  /** The VALUE header checks, made before the END line is looked at: fewer
      than four tokens is incomplete, a fifth (cas) token that is not a `u64`
      is invalid, and a flags token that is not a `u32` is invalid. */
  lemma ValueHeaderChecks(lines: seq<string>)
    requires |lines| >= 2 && forall k :: 0 <= k < |lines| ==> NoCrlf(lines[k])
    requires Words(lines[0]) != [] && Words(lines[0])[0] == "VALUE"
    ensures var tokens := Words(lines[0]);
            var response := JoinCrlf(lines) + CRLF;
            && !Panics(response)
            && (|tokens| < 4 ==> Parse(response) == Incomplete)
            && (|tokens| == 5 && ParseUnsigned(tokens[4], U64_MAX).None? ==>
                  Parse(response) == Invalid)
            && ((&& |tokens| >= 4
                 && (|tokens| == 5 ==> ParseUnsigned(tokens[4], U64_MAX).Some?)
                 && ParseUnsigned(tokens[2], U32_MAX).None?)
                ==> Parse(response) == Invalid)
            && (Parse(response) == Hit ==> ValueHeaderOk(tokens))
  {
    ParseOfLines(JoinCrlf(lines) + CRLF, lines);
  }

  /** With a good header, the END line and the length field decide: no END
      line yet is incomplete; a length that is not a `usize` is invalid;
      otherwise the payload's byte length against the declared length gives
      Hit when equal, Invalid when longer and Incomplete when shorter. */
  lemma ValuePayload(lines: seq<string>)
    requires |lines| >= 2 && forall k :: 0 <= k < |lines| ==> NoCrlf(lines[k])
    requires ValueHeaderOk(Words(lines[0]))
    ensures var tokens := Words(lines[0]);
            var response := JoinCrlf(lines) + CRLF;
            var declared := ParseUnsigned(tokens[3], USIZE_MAX);
            var measured := ByteLen(Payload(lines));
            && !Panics(response)
            && (lines[|lines| - 1] != "END" ==> Parse(response) == Incomplete)
            && (lines[|lines| - 1] == "END" && declared.None? ==> Parse(response) == Invalid)
            && (lines[|lines| - 1] == "END" && declared.Some? ==>
                  && (Parse(response) == Hit <==> measured == declared.value)
                  && (Parse(response) == Invalid <==> measured > declared.value)
                  && (Parse(response) == Incomplete <==> measured < declared.value))
  {
    ParseOfLines(JoinCrlf(lines) + CRLF, lines);
  }

  /** The wire-level statement: a VALUE header line, then any payload (CRLFs
      inside it included), then END. Short headers are incomplete, bad cas,
      flags or length fields invalid; with a good header the reply is a Hit
      exactly when the payload's byte length is the declared one, so a payload
      one byte short is still Incomplete and one byte long is Invalid. */
  lemma ValueBlock(response: string, header: seq<string>, data: string)
    requires response == JoinSpaces(header) + CRLF + data + CRLF + "END" + CRLF
    requires |header| >= 1 && header[0] == "VALUE"
    requires forall k :: 0 <= k < |header| ==> IsWord(header[k])
    ensures !Panics(response)
    ensures |header| < 4 ==> Parse(response) == Incomplete
    ensures |header| >= 4 && !ValueHeaderOk(header) ==> Parse(response) == Invalid
    ensures ValueHeaderOk(header) && ParseUnsigned(header[3], USIZE_MAX).None? ==>
              Parse(response) == Invalid
    ensures ValueHeaderOk(header) && ParseUnsigned(header[3], USIZE_MAX).Some? ==>
              var declared := ParseUnsigned(header[3], USIZE_MAX).value;
              && (Parse(response) == Hit <==> ByteLen(data) == declared)
              && (Parse(response) == Invalid <==> ByteLen(data) > declared)
              && (Parse(response) == Incomplete <==> ByteLen(data) < declared)
  {
    var h := JoinSpaces(header);
    WordsJoinSpaces(header);
    JoinSpacesNoCr(header);
    var lines := ValueBlockLines(h, data);
    assert lines[0] == h;
  }

  /** The lines of a VALUE block: the header line, the payload's own pieces,
      and END; the payload rejoins to the data. */
  lemma ValueBlockLines(h: string, data: string) returns (lines: seq<string>)
    requires NoCrlf(h)
    ensures var pieces := SplitCrlf(h + CRLF + data + CRLF + "END" + CRLF);
            && |lines| >= 2
            && pieces == lines + [""]
            && lines[0] == h
            && lines[|lines| - 1] == "END"
            && Payload(lines) == data
  {
    var response := h + CRLF + data + CRLF + "END" + CRLF;
    SplitNoCrlf(h);
    SplitNoCrlf("END");
    SplitAround("END", "");
    assert "END" + CRLF + "" == "END" + CRLF;
    SplitAround(data, "END" + CRLF);
    assert response == h + CRLF + (data + CRLF + ("END" + CRLF));
    SplitAround(h, data + CRLF + ("END" + CRLF));
    var body := SplitCrlf(data);
    lines := [h] + body + ["END"];
    assert SplitCrlf(response) == lines + [""];
    assert lines[1..|lines| - 1] == body;
    JoinSplit(data);
  }

  /** A VALUE header with a good header and payload lines but no END line
      yet is incomplete, however long the payload already is. */
  lemma ValueBlockUnfinished(response: string, header: seq<string>, data: string)
    requires response == JoinSpaces(header) + CRLF + data + CRLF
    requires forall k :: 0 <= k < |header| ==> IsWord(header[k])
    requires ValueHeaderOk(header)
    requires var pieces := SplitCrlf(data); pieces[|pieces| - 1] != "END"
    ensures !Panics(response) && Parse(response) == Incomplete
  {
    var h := JoinSpaces(header);
    WordsJoinSpaces(header);
    JoinSpacesNoCr(header);
    var lines := UnfinishedLines(h, data);
    ParseOfLines(response, lines);
    MultiLineWithoutEnd(lines, header);
  }

  /** The lines of a buffer holding a header line and payload lines but no
      END line: the header, then the payload's own pieces. */
  lemma UnfinishedLines(h: string, data: string) returns (lines: seq<string>)
    requires NoCrlf(h)
    ensures |lines| >= 2 && lines[0] == h
    ensures forall k :: 0 <= k < |lines| ==> NoCrlf(lines[k])
    ensures JoinCrlf(lines) + CRLF == h + CRLF + data + CRLF
    ensures var pieces := SplitCrlf(data); lines[|lines| - 1] == pieces[|pieces| - 1]
  {
    var body := SplitCrlf(data);
    SplitPiecesNoCrlf(data);
    JoinSplit(data);
    lines := [h] + body;
    JoinCons(h, body);
    AllNoCrlfCons(h, body);
    assert lines[|lines| - 1] == body[|body| - 1];
  }

  /** A well-formed VALUE header with no END line yet is incomplete. */
  lemma MultiLineWithoutEnd(lines: seq<string>, tokens: seq<string>)
    requires |lines| >= 2 && ValueHeaderOk(tokens) && lines[|lines| - 1] != "END"
    ensures MultiLine(lines, tokens) == Incomplete
  {
  }

  // ---------------------------------------------------------------------------
  // What each terminal outcome implies
  // ---------------------------------------------------------------------------

  /** Hit only for a multi-line VALUE block with a good header, a final END
      line, and a payload whose byte length equals the declared length. */
  lemma HitShape(response: string)
    requires !Panics(response) && Parse(response) == Hit
    ensures var pieces := SplitCrlf(response);
            var lines := pieces[..|pieces| - 1];
            && EndsWithCrlf(response)
            && |lines| >= 2
            && ValueHeaderOk(Words(lines[0]))
            && lines[|lines| - 1] == "END"
            && ParseUnsigned(Words(lines[0])[3], USIZE_MAX) == Some(ByteLen(Payload(lines)))
  {
    LastPieceEmpty(response);
    var pieces := SplitCrlf(response);
    var lines := pieces[..|pieces| - 1];
    assert |lines| >= 2 && Parse(response) == MultiLine(lines, Words(lines[0]));
  }

  /** Error only for a one-line reply that is a bare ERROR, or CLIENT_ERROR or
      SERVER_ERROR followed by a message; it carries the whole buffer. */
  lemma ErrorShape(response: string)
    requires !Panics(response) && Parse(response).Error?
    ensures var pieces := SplitCrlf(response);
            var tokens := Words(pieces[0]);
            && Parse(response).message == response
            && EndsWithCrlf(response)
            && |pieces| == 2
            && ((|tokens| == 1 && tokens[0] == "ERROR")
                || (|tokens| >= 2 && (tokens[0] == "CLIENT_ERROR" || tokens[0] == "SERVER_ERROR")))
  {
    LastPieceEmpty(response);
  }

  /** Version only for a one-line reply starting with VERSION and at least
      one more token; the version string tokenises back to those tokens. */
  lemma VersionShape(response: string)
    requires !Panics(response) && Parse(response).Version?
    ensures var pieces := SplitCrlf(response);
            var tokens := Words(pieces[0]);
            && EndsWithCrlf(response)
            && |pieces| == 2
            && |tokens| >= 2 && tokens[0] == "VERSION"
            && Words(Parse(response).version) == tokens[1..]
  {
    LastPieceEmpty(response);
    var pieces := SplitCrlf(response);
    WordsJoinSpaces(Words(pieces[0])[1..]);
  }
}
