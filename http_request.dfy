/**
  The HTTP server's request-line reader: a tokenizer that cuts the bytes of
  a connection into CRLF-terminated lines (section 3 of RFC 7230), and the
  extraction of the request-target from a GET request line (section 3.1.1 of
  RFC 7230).

  The connection is the complete sequence of bytes the client sends; the line
  scanner sees it all at once, as it does once the client has finished
  sending.
*/
module HttpRequest {
  import opened Wrappers
  import opened Text

  type byte = bv8

  const CR: byte := 13
  const LF: byte := 10
  const Space: byte := 32
  /** The bytes of "GET ". */
  const GetPrefix: seq<byte> := [71, 69, 84, 32]

  // ---------------------------------------------------------------------------
  // The line tokenizer
  // ---------------------------------------------------------------------------

  /** What the tokenizer returns: how many bytes to consume, and the token if there is one. */
  datatype Step = Step(advance: int, token: Option<seq<byte>>)

  /**
    One call of the tokenizer on the buffered bytes. Only the first CR is
    looked at: when a LF follows it, the bytes before it are a line and the
    CRLF is consumed too. Otherwise at the end of input all of the data is the
    last line, and before it more data is asked for.
  */
  function SplitCarriageReturn(data: seq<byte>, atEOF: bool): (s: Step)
    ensures 0 <= s.advance <= |data|
    ensures s.token.Some? ==> s.advance > 0 && HasPrefix(data, s.token.value)
    ensures s.token.None? ==> s.advance == 0
    ensures atEOF && |data| > 0 ==> s.token.Some?
  {
    if atEOF && |data| == 0 then Step(0, None)
    else
      var r := IndexOf(data, CR);
      var n := IndexOf(data[r + 1..], LF);
      if r >= 0 && n == 0 then Step(r + 2, Some(data[..r]))
      else if atEOF then Step(|data|, Some(data))
      else Step(0, None)
  }

  /** A line without CR followed by CRLF is cut off as the first token, with the CRLF consumed, at the end of input or not. */
  lemma SplitCarriageReturnLine(line: seq<byte>, rest: seq<byte>, atEOF: bool)
    requires CR !in line
    ensures SplitCarriageReturn(line + [CR, LF] + rest, atEOF) == Step(|line| + 2, Some(line))
  {
    var data := line + [CR, LF] + rest;
    assert data[|line|] == CR;
    assert data[..|line|] == line;
    assert data[|line| + 1..][0] == LF;
  }

  /** Data without a CRLF pair gives no token until the end of input, and then the whole data. */
  lemma SplitCarriageReturnNoCrlf(data: seq<byte>, atEOF: bool)
    requires |data| > 0
    requires forall k | 0 <= k < |data| - 1 :: data[k] == CR ==> data[k + 1] != LF
    requires data[|data| - 1] != CR
    ensures SplitCarriageReturn(data, atEOF) == if atEOF then Step(|data|, Some(data)) else Step(0, None)
  {
    var r := IndexOf(data, CR);
    if r >= 0 {
      assert r + 1 < |data|;
      assert data[r + 1..][0] != LF;
    }
  }

  /**
    Only the first CR is looked at: when it is not followed by LF, a later
    CRLF is not found, so before the end of input no token is returned and at
    the end of input the whole data is the last line.
  */
  lemma SplitCarriageReturnFirstCr(a: seq<byte>, x: byte, b: seq<byte>, atEOF: bool)
    requires CR !in a && x != LF
    ensures SplitCarriageReturn(a + [CR, x] + b, atEOF)
      == if atEOF then Step(|a| + 2 + |b|, Some(a + [CR, x] + b)) else Step(0, None)
  {
    var data := a + [CR, x] + b;
    assert data == a + [CR] + ([x] + b);
    IndexOfAfter(a, CR, [x] + b);
    assert data[|a| + 1..] == [x] + b;
  }

  /** Data whose only CR is its last byte give no token before the end of input, and the whole data at the end. */
  lemma SplitCarriageReturnEndsInCr(a: seq<byte>, atEOF: bool)
    requires CR !in a
    ensures SplitCarriageReturn(a + [CR], atEOF)
      == if atEOF then Step(|a| + 1, Some(a + [CR])) else Step(0, None)
  {
    var data := a + [CR];
    assert data == a + [CR] + [];
    IndexOfAfter(a, CR, []);
    assert data[|a| + 1..] == [];
  }

  /**
    The tokens the line scanner produces from a complete input: tokens are
    taken until no data is left.
  */
  function Lines(data: seq<byte>): seq<seq<byte>>
    decreases |data|
  {
    if |data| == 0 then []
    else
      var (token, advance) := ScanAtEnd(data);
      [token] + Lines(data[advance..])
  }

  /** The tokenizer's call on the remaining input once all of it has been read. */
  function ScanAtEnd(data: seq<byte>): (t: (seq<byte>, int))
    requires |data| > 0
    ensures 0 < t.1 <= |data| && HasPrefix(data, t.0)
  {
    var s := SplitCarriageReturn(data, true);
    (s.token.value, s.advance)
  }

  /** A CRLF-terminated line is the first token, the rest of the input is scanned after it. */
  lemma LinesCons(line: seq<byte>, rest: seq<byte>)
    requires CR !in line
    ensures Lines(line + [CR, LF] + rest) == [line] + Lines(rest)
  {
    SplitCarriageReturnLine(line, rest, true);
    var data := line + [CR, LF] + rest;
    assert data[|line| + 2..] == rest;
  }

  /** The header lines: the tokens before the first empty one. */
  function HeaderLines(lines: seq<seq<byte>>): (h: seq<seq<byte>>)
    ensures |h| <= |lines| && h == lines[..|h|]
    ensures forall k | 0 <= k < |h| :: h[k] != []
    ensures |h| < |lines| ==> lines[|h|] == []
  {
    if |lines| == 0 || lines[0] == [] then []
    else [lines[0]] + HeaderLines(lines[1..])
  }

  // ---------------------------------------------------------------------------
  // The request line
  // ---------------------------------------------------------------------------

  /** The white space of the regular expression class \s: tab, line feed, form feed, carriage return and space. */
  predicate IsRegexSpace(b: byte)
  {
    b == 9 || b == 10 || b == 12 || b == 13 || b == 32
  }

  /**
    The request-target of a line matching ^GET ([^\s]+) .*$ : after "GET " a
    non-empty run of non-white-space bytes, then a space, then anything but a
    line feed up to the end.
  */
  function MatchGetPath(line: seq<byte>): Option<seq<byte>>
  {
    if !HasPrefix(line, GetPrefix) then None
    else
      var rest := line[4..];
      var n := WordLength(rest, IsRegexSpace);
      if n == 0 || n == |rest| || rest[n] != Space || LF in rest[n + 1..] then None
      else Some(rest[..n])
  }

  /** A matched target is non-empty and free of white space, and the line is "GET ", the target, a space and a tail without line feeds. */
  lemma MatchGetPathSound(line: seq<byte>)
    requires MatchGetPath(line).Some?
    ensures var p := MatchGetPath(line).value;
      && IsWord(p, IsRegexSpace)
      && |line| > |p| + 4
      && line == GetPrefix + p + [Space] + line[|p| + 5..]
      && LF !in line[|p| + 5..]
  {
    var rest := line[4..];
    var n := WordLength(rest, IsRegexSpace);
    assert line == line[..4] + rest[..n] + [rest[n]] + rest[n + 1..];
    assert rest[n + 1..] == line[n + 5..];
  }

  /** Every line of that shape matches, with its target. */
  lemma MatchGetPathComplete(p: seq<byte>, tail: seq<byte>)
    requires IsWord(p, IsRegexSpace) && LF !in tail
    ensures MatchGetPath(GetPrefix + p + [Space] + tail) == Some(p)
  {
    var line := GetPrefix + p + [Space] + tail;
    var rest := line[4..];
    assert line[..4] == GetPrefix;
    assert rest == p + [Space] + tail;
    assert WordLength(rest, IsRegexSpace) == |p| by {
      WordLengthOfWordThen(p, [Space] + tail, IsRegexSpace);
      assert rest == p + ([Space] + tail);
    }
    assert rest[..|p|] == p;
    assert rest[|p| + 1..] == tail;
  }

  datatype PathError = NoHeader | NoPath

  /** The request-target of the first header line, or the reason there is none. */
  function PathOf(connection: seq<byte>): Result<seq<byte>, PathError>
  {
    var header := HeaderLines(Lines(connection));
    if |header| == 0 then Err(NoHeader)
    else
      match MatchGetPath(header[0])
      case None => Err(NoPath)
      case Some(p) => Ok(p)
  }

  /** A request that starts with a GET request line yields that line's target. */
  lemma PathOfRequest(p: seq<byte>, tail: seq<byte>, more: seq<byte>)
    requires IsWord(p, IsRegexSpace) && LF !in tail && CR !in tail
    ensures PathOf(GetPrefix + p + [Space] + tail + [CR, LF] + more) == Ok(p)
  {
    var line := GetPrefix + p + [Space] + tail;
    assert CR !in p by {
      assert forall k | 0 <= k < |p| :: p[k] != CR;
    }
    assert CR !in line;
    LinesCons(line, more);
    MatchGetPathComplete(p, tail);
  }

  /** A target found is non-empty and free of white space, and the connection begins with "GET ", the target and a space. */
  lemma PathOfSound(connection: seq<byte>)
    requires PathOf(connection).Ok?
    ensures var p := PathOf(connection).value;
      IsWord(p, IsRegexSpace) && HasPrefix(connection, GetPrefix + p + [Space])
  {
    var line := Lines(connection)[0];
    assert HasPrefix(connection, line);
    MatchGetPathSound(line);
    var p := PathOf(connection).value;
    assert HasPrefix(line, GetPrefix + p + [Space]) by {
      assert line[..|p| + 5] == GetPrefix + p + [Space];
    }
    assert connection[..|p| + 5] == line[..|p| + 5];
  }

  /**
    Reads header lines from the connection until an empty line or the end of
    input, then takes the target from the first line.
  */
  method GetPath(connection: seq<byte>) returns (r: Result<seq<byte>, PathError>)
    ensures r == PathOf(connection)
  {
    var header: seq<seq<byte>> := [];
    var rest := connection;
    while |rest| > 0
      invariant HeaderLines(Lines(connection)) == header + HeaderLines(Lines(rest))
      decreases |rest|
    {
      var (line, advance) := ScanAtEnd(rest);
      if line == [] {
        assert HeaderLines(Lines(rest)) == [];
        break;
      }
      header := header + [line];
      rest := rest[advance..];
    }
    assert HeaderLines(Lines(connection)) == header;
    if |header| == 0 {
      return Err(NoHeader);
    }
    var m := MatchGetPath(header[0]);
    if m.None? {
      return Err(NoPath);
    }
    r := Ok(m.value);
  }
}
