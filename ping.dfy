/**
  The ping server that runs beside each HTTP replica: it reads client
  addresses, one per line, from the DNS server's connection, pings each
  address and answers with the address and the average round-trip time taken
  from the summary line of ping's output.

  Parsing an address and running the ping command are parameters: `parseIp`
  gives the canonical text of a valid address, and `ping` the output of the
  command for that address (None when the command fails).

  The server code cuts the summary field holding the four times at white
  space, which it does not contain, so as written it never replies
  (ReplyAsWritten, RepliesAsWritten). Reply, Answer, Replies and the serving
  loop Start model the evidently intended program, which cuts that field at
  its slashes.
*/
module Ping {
  import opened Wrappers
  import opened Text
  import Router

  type byte = bv8

  const LF: byte := 10
  const Space: byte := 32
  const Slash: byte := 47

  /** The white space bytes.Fields splits ASCII text on: tab, line feed, vertical tab, form feed, carriage return and space. */
  predicate IsAsciiSpace(b: byte)
  {
    b == 9 || b == 10 || b == 11 || b == 12 || b == 13 || b == 32
  }

  // ---------------------------------------------------------------------------
  // The summary line of ping's output
  // ---------------------------------------------------------------------------

  /**
    The summary line as the server inspects it: the piece of the output before
    its last line feed, cut into white-space-separated fields; None unless
    there are exactly seven. With preload on Linux that line reads
    "rtt min/avg/max/mdev = 1.0/2.0/3.0/0.5 ms, pipe 3", whose fourth field
    holds the four times.
  */
  function SummaryFields(out: seq<byte>): (r: Option<seq<seq<byte>>>)
    ensures r.Some? ==> |r.value| == 7
    ensures r.Some? ==> forall k | 0 <= k < 7 :: IsWord(r.value[k], IsAsciiSpace)
    ensures |Split(out, LF)| < 2 ==> r.None?
  {
    var lines := Split(out, LF);
    if |lines| < 2 then None
    else
      var fields := Fields(lines[|lines| - 2], IsAsciiSpace);
      if |fields| != 7 then None else Some(fields)
  }

  /**
    The reply as the server forms it: the fourth summary field is cut into
    fields again, and four of them are required, the second being the
    average.
  */
  function ReplyAsWritten(ip: seq<byte>, out: seq<byte>): Option<seq<byte>>
  {
    match SummaryFields(out)
    case None => None
    case Some(fields) =>
      var times := Fields(fields[3], IsAsciiSpace);
      if |times| != 4 then None
      else Some(ip + [Space] + times[1] + [LF])
  }

  /** The fourth summary field is itself a field, so cutting it again gives one piece and no reply is ever formed. */
  lemma ReplyAsWrittenNever(ip: seq<byte>, out: seq<byte>)
    ensures ReplyAsWritten(ip, out) == None
  {
    var summary := SummaryFields(out);
    if summary.Some? {
      FieldsOfWord(summary.value[3], IsAsciiSpace);
    }
  }

  /**
    The average round-trip time: the fourth summary field cut at its slashes
    must give four times, and the second is the average.
  */
  function Average(out: seq<byte>): (r: Option<seq<byte>>)
    ensures r.Some? ==> SummaryFields(out).Some?
    ensures r.Some? ==> Slash !in r.value
    ensures r.Some? ==> forall k | 0 <= k < |r.value| :: !IsAsciiSpace(r.value[k])
  {
    match SummaryFields(out)
    case None => None
    case Some(fields) =>
      var times := Split(fields[3], Slash);
      if |times| != 4 then None
      else
        assert forall k | 0 <= k < |times[1]| :: times[1][k] in fields[3] by {
          assert Join(times, Slash) == fields[3];
          JoinPartIn(times, Slash, 1);
        }
        Some(times[1])
  }

  /** The reply line: the address, a space, the average and a line feed. */
  function Reply(ip: seq<byte>, out: seq<byte>): (r: Option<seq<byte>>)
    ensures r.Some? <==> Average(out).Some?
    ensures r.Some? ==> r.value == ip + [Space] + Average(out).value + [LF]
  {
    match Average(out)
    case None => None
    case Some(avg) => Some(ip + [Space] + avg + [LF])
  }

  /**
    A reply for an address without white space and a non-empty average is one
    line whose two fields are the address and the average.
  */
  lemma ReplyFields(ip: seq<byte>, out: seq<byte>)
    requires IsWord(ip, IsAsciiSpace)
    requires Average(out).Some? && |Average(out).value| > 0
    ensures Reply(ip, out).Some?
    ensures var m := Reply(ip, out).value;
      && |m| > 0 && m[|m| - 1] == LF && LF !in m[..|m| - 1]
      && Fields(m, IsAsciiSpace) == [ip, Average(out).value]
  {
    TwoFieldLine(ip, Average(out).value);
  }

  /** Two words, a space between them and a line feed after them make one line with those two fields. */
  lemma TwoFieldLine(a: seq<byte>, b: seq<byte>)
    requires IsWord(a, IsAsciiSpace) && IsWord(b, IsAsciiSpace)
    ensures var m := a + [Space] + b + [LF];
      && m[|m| - 1] == LF && LF !in m[..|m| - 1]
      && Fields(m, IsAsciiSpace) == [a, b]
  {
    TwoFields(a, b);
    var m := a + [Space] + b + [LF];
    assert m[..|m| - 1] == a + [Space] + b;
    NoLineFeed(a, b);
  }

  /** The fields of two words, a space between them and a line feed after them are the two words. */
  lemma TwoFields(a: seq<byte>, b: seq<byte>)
    requires IsWord(a, IsAsciiSpace) && IsWord(b, IsAsciiSpace)
    ensures Fields(a + [Space] + b + [LF], IsAsciiSpace) == [a, b]
  {
    var tail := [Space] + (b + [LF]);
    assert a + [Space] + b + [LF] == a + tail;
    FieldsOfWordThen(a, tail, IsAsciiSpace);
    SpacedLastField(b);
  }

  /** A space, a word and a line feed have that word as their only field. */
  lemma SpacedLastField(b: seq<byte>)
    requires IsWord(b, IsAsciiSpace)
    ensures Fields([Space] + (b + [LF]), IsAsciiSpace) == [b]
  {
    assert ([Space] + (b + [LF]))[1..] == b + [LF];
    FieldsOfWordThen(b, [LF], IsAsciiSpace);
    assert [LF][1..] == [];
  }

  /** Two words and a space between them hold no line feed. */
  lemma NoLineFeed(a: seq<byte>, b: seq<byte>)
    requires IsWord(a, IsAsciiSpace) && IsWord(b, IsAsciiSpace)
    ensures LF !in a + [Space] + b
  {
    assert forall k | 0 <= k < |a| :: (a + [Space] + b)[k] == a[k];
    assert forall k | |a| < k < |a| + 1 + |b| :: (a + [Space] + b)[k] == b[k - |a| - 1];
  }

  /** Every element of the i-th part of a join occurs in the join. */
  lemma {:induction false} JoinPartIn<T>(parts: seq<seq<T>>, sep: T, i: nat)
    requires i < |parts|
    ensures forall k | 0 <= k < |parts[i]| :: parts[i][k] in Join(parts, sep)
    decreases |parts|
  {
    if |parts| > 1 && i > 0 {
      JoinPartIn(parts[1..], sep, i - 1);
    }
  }

  /**
    Output whose last line is preceded by a summary line of seven fields, the
    fourth four slash-separated times, yields the second time as the average.
  */
  lemma AverageOfSummary(lines: seq<seq<byte>>, fields: seq<seq<byte>>, times: seq<seq<byte>>, last: seq<byte>)
    requires forall k | 0 <= k < |lines| :: LF !in lines[k]
    requires LF !in last
    requires |fields| == 7 && forall k | 0 <= k < 7 :: IsWord(fields[k], IsAsciiSpace)
    requires |times| == 4 && forall k | 0 <= k < 4 :: Slash !in times[k]
    requires fields[3] == Join(times, Slash)
    ensures Average(Join(lines + [Join(fields, Space), last], LF)) == Some(times[1])
  {
    var out := Join(lines + [Join(fields, Space), last], LF);
    SummaryFieldsOf(lines, fields, last);
    SplitJoin(times, Slash);
    assert Split(SummaryFields(out).value[3], Slash) == times;
  }

  /** The summary fields of such output are the seven fields of its summary line. */
  lemma SummaryFieldsOf(lines: seq<seq<byte>>, fields: seq<seq<byte>>, last: seq<byte>)
    requires forall k | 0 <= k < |lines| :: LF !in lines[k]
    requires LF !in last
    requires |fields| == 7 && forall k | 0 <= k < 7 :: IsWord(fields[k], IsAsciiSpace)
    ensures SummaryFields(Join(lines + [Join(fields, Space), last], LF)) == Some(fields)
  {
    var summary := Join(fields, Space);
    SummaryLineFree(fields);
    SplitSummary(lines, summary, last);
    FieldsOfJoin(fields, Space, IsAsciiSpace);
  }

  /** Fields joined by spaces hold no line feed. */
  lemma SummaryLineFree(fields: seq<seq<byte>>)
    requires forall k | 0 <= k < |fields| :: IsWord(fields[k], IsAsciiSpace)
    ensures LF !in Join(fields, Space)
  {
    JoinFree(fields, Space, LF);
  }

  /** Of lines joined by line feeds, the summary before the last line is the second-to-last piece. */
  lemma SplitSummary(lines: seq<seq<byte>>, summary: seq<byte>, last: seq<byte>)
    requires forall k | 0 <= k < |lines| :: LF !in lines[k]
    requires LF !in summary && LF !in last
    ensures var pieces := Split(Join(lines + [summary, last], LF), LF);
      |pieces| >= 2 && pieces[|pieces| - 2] == summary
  {
    var all := lines + [summary, last];
    assert forall k | 0 <= k < |all| :: LF !in all[k];
    SplitJoin(all, LF);
    assert all[|all| - 2] == summary;
  }

  // ---------------------------------------------------------------------------
  // Serving a connection
  // ---------------------------------------------------------------------------

  /** The reply to one request line (its line feed included), if any. */
  function Answer(line: seq<byte>, parseIp: seq<byte> -> Option<seq<byte>>, ping: seq<byte> -> Option<seq<byte>>): (r: Option<seq<byte>>)
    ensures parseIp(RemoveAll(line, LF)).None? ==> r.None?
    ensures r.Some? ==> var ip := parseIp(RemoveAll(line, LF)).value;
      ping(ip).Some? && Reply(ip, ping(ip).value) == r
    ensures var ip := parseIp(RemoveAll(line, LF));
      ip.Some? && ping(ip.value).Some? ==> r == Reply(ip.value, ping(ip.value).value)
  {
    match parseIp(RemoveAll(line, LF))
    case None => None
    case Some(ip) =>
      match ping(ip)
      case None => None
      case Some(out) => Reply(ip, out)
  }

  /**
    The replies written while serving a connection on which the client sent
    `lines`, each as the reader returns it (up to and including its line
    feed): one reply per line that is answered, in order.
  */
  function Replies(lines: seq<seq<byte>>, parseIp: seq<byte> -> Option<seq<byte>>, ping: seq<byte> -> Option<seq<byte>>): seq<seq<byte>>
    decreases |lines|
  {
    if |lines| == 0 then []
    else
      var reply := Answer(lines[|lines| - 1], parseIp, ping);
      Replies(lines[..|lines| - 1], parseIp, ping) + (if reply.Some? then [reply.value] else [])
  }

  /** Serving one more line adds its reply, if any, after the replies so far. */
  lemma RepliesSnoc(lines: seq<seq<byte>>, line: seq<byte>, parseIp: seq<byte> -> Option<seq<byte>>, ping: seq<byte> -> Option<seq<byte>>)
    ensures var reply := Answer(line, parseIp, ping);
      Replies(lines + [line], parseIp, ping) == Replies(lines, parseIp, ping) + (if reply.Some? then [reply.value] else [])
  {
    assert (lines + [line])[..|lines|] == lines;
  }

  /** A line that is not an address gets no reply: the replies are those to the other lines. */
  lemma {:induction false} RepliesSkipInvalid(before: seq<seq<byte>>, line: seq<byte>, after: seq<seq<byte>>, parseIp: seq<byte> -> Option<seq<byte>>, ping: seq<byte> -> Option<seq<byte>>)
    requires LF !in line && parseIp(line).None?
    ensures Replies(before + [line + [LF]] + after, parseIp, ping) == Replies(before + after, parseIp, ping)
    decreases |after|
  {
    if |after| == 0 {
      NoAnswerToInvalid(line, parseIp, ping);
      RepliesSnoc(before, line + [LF], parseIp, ping);
      assert before + [line + [LF]] + after == before + [line + [LF]];
      assert before + after == before;
    } else {
      var front := after[..|after| - 1];
      var last := after[|after| - 1];
      RepliesSkipInvalid(before, line, front, parseIp, ping);
      RepliesSnoc(before + [line + [LF]] + front, last, parseIp, ping);
      RepliesSnoc(before + front, last, parseIp, ping);
      assert before + [line + [LF]] + after == (before + [line + [LF]] + front) + [last];
      assert before + after == (before + front) + [last];
    }
  }

  /** A line that is not an address, ended by a line feed, gets no answer. */
  lemma NoAnswerToInvalid(line: seq<byte>, parseIp: seq<byte> -> Option<seq<byte>>, ping: seq<byte> -> Option<seq<byte>>)
    requires LF !in line && parseIp(line).None?
    ensures Answer(line + [LF], parseIp, ping) == None
  {
    RemoveAllAbsent(line, LF);
    RemoveAllSnoc(line, LF);
  }

  /** Handles one request line: parses the address, runs ping and forms the reply. */
  method AnswerLine(line: seq<byte>, parseIp: seq<byte> -> Option<seq<byte>>, ping: seq<byte> -> Option<seq<byte>>)
    returns (reply: Option<seq<byte>>)
    ensures reply == Answer(line, parseIp, ping)
  {
    var ip := parseIp(RemoveAll(line, LF));
    if ip.None? {
      return None;
    }
    var out := ping(ip.value);
    if out.None? {
      return None;
    }
    reply := Reply(ip.value, out.value);
  }

  /**
    The serving loop, with the average cut at slashes: takes the lines read
    from the connection one at a time, answers each when the address parses
    and ping succeeds, and skips it otherwise.
  */
  method Start(lines: seq<seq<byte>>, parseIp: seq<byte> -> Option<seq<byte>>, ping: seq<byte> -> Option<seq<byte>>)
    returns (written: seq<seq<byte>>)
    ensures written == Replies(lines, parseIp, ping)
  {
    written := [];
    for k := 0 to |lines|
      invariant written == Replies(lines[..k], parseIp, ping)
    {
      var reply := AnswerLine(lines[k], parseIp, ping);
      assert lines[..k + 1][..k] == lines[..k];
      if reply.Some? {
        written := written + [reply.value];
      }
    }
    assert lines[..|lines|] == lines;
  }

  // ---------------------------------------------------------------------------
  // The serving loop as written
  // ---------------------------------------------------------------------------

  /** The reply to one request line as the server code forms it, with the summary field cut again at white space. */
  function AnswerAsWritten(line: seq<byte>, parseIp: seq<byte> -> Option<seq<byte>>, ping: seq<byte> -> Option<seq<byte>>): (r: Option<seq<byte>>)
    ensures parseIp(RemoveAll(line, LF)).None? ==> r.None?
  {
    match parseIp(RemoveAll(line, LF))
    case None => None
    case Some(ip) =>
      match ping(ip)
      case None => None
      case Some(out) => ReplyAsWritten(ip, out)
  }

  /** The replies the server code writes for the lines read, in order. */
  function RepliesAsWritten(lines: seq<seq<byte>>, parseIp: seq<byte> -> Option<seq<byte>>, ping: seq<byte> -> Option<seq<byte>>): seq<seq<byte>>
    decreases |lines|
  {
    if |lines| == 0 then []
    else
      var reply := AnswerAsWritten(lines[|lines| - 1], parseIp, ping);
      RepliesAsWritten(lines[..|lines| - 1], parseIp, ping) + (if reply.Some? then [reply.value] else [])
  }

  /** As written, the serving loop writes nothing back, whatever the lines and whatever ping prints. */
  lemma {:induction false} RepliesAsWrittenEmpty(lines: seq<seq<byte>>, parseIp: seq<byte> -> Option<seq<byte>>, ping: seq<byte> -> Option<seq<byte>>)
    ensures RepliesAsWritten(lines, parseIp, ping) == []
    decreases |lines|
  {
    if |lines| > 0 {
      RepliesAsWrittenEmpty(lines[..|lines| - 1], parseIp, ping);
      var ip := parseIp(RemoveAll(lines[|lines| - 1], LF));
      if ip.Some? && ping(ip.value).Some? {
        ReplyAsWrittenNever(ip.value, ping(ip.value).value);
      }
    }
  }

  // ---------------------------------------------------------------------------
  // What the DNS server makes of a reply
  // ---------------------------------------------------------------------------

  /** Bytes below 128 read as text. */
  predicate IsAscii(b: seq<byte>)
  {
    forall k | 0 <= k < |b| :: (b[k] as int) < 128
  }

  /** ASCII bytes as the characters they encode. */
  function AsText(b: seq<byte>): (s: string)
    requires IsAscii(b)
    ensures |s| == |b|
    ensures forall k | 0 <= k < |b| :: s[k] as int == b[k] as int
  {
    seq(|b|, k requires 0 <= k < |b| => (b[k] as int) as char)
  }

  /** An ASCII field stays a field when read as text. */
  lemma AsTextWord(w: seq<byte>)
    requires IsAscii(w) && IsWord(w, IsAsciiSpace)
    ensures IsWord(AsText(w), Router.IsUnicodeSpace)
  {
    var s := AsText(w);
    forall k | 0 <= k < |s|
      ensures !Router.IsUnicodeSpace(s[k])
    {
      assert !IsAsciiSpace(w[k]);
    }
  }

  /** The text of a reply line is the texts of its parts. */
  lemma AsTextReply(ip: seq<byte>, avg: seq<byte>)
    requires IsAscii(ip) && IsAscii(avg)
    ensures IsAscii(ip + [Space] + avg + [LF])
    ensures AsText(ip + [Space] + avg + [LF]) == AsText(ip) + " " + AsText(avg) + "\n"
  {
    AsTextConcat(ip, [Space]);
    AsTextConcat(ip + [Space], avg);
    AsTextConcat(ip + [Space] + avg, [LF]);
    assert AsText([Space]) == " ";
    assert AsText([LF]) == "\n";
  }

  /** Reading bytes as text commutes with concatenation. */
  lemma AsTextConcat(a: seq<byte>, b: seq<byte>)
    requires IsAscii(a) && IsAscii(b)
    ensures IsAscii(a + b) && AsText(a + b) == AsText(a) + AsText(b)
  {
    assert forall k | 0 <= k < |a| + |b| :: (a + b)[k] == if k < |a| then a[k] else b[k - |a|];
  }

  /**
    A reply for an ASCII address with a non-empty ASCII average is a line the
    DNS server accepts, giving that address and the average's value.
  */
  lemma ReplyAccepted(ip: seq<byte>, out: seq<byte>, parseFloat: string -> Option<real>)
    requires IsAscii(ip) && IsWord(ip, IsAsciiSpace)
    requires Average(out).Some? && IsAscii(Average(out).value) && |Average(out).value| > 0
    requires parseFloat(AsText(Average(out).value)).Some?
    ensures IsAscii(Reply(ip, out).value)
    ensures Router.PingSample(AsText(Reply(ip, out).value), parseFloat)
      == Some((AsText(ip), parseFloat(AsText(Average(out).value)).value))
  {
    var avg := Average(out).value;
    var line := Reply(ip, out).value;
    AsTextWord(ip);
    AsTextWord(avg);
    AsTextReply(ip, avg);
    Router.PingSampleOfReply(AsText(ip), AsText(avg), parseFloat);
  }
}
