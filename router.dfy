/**
  The DNS server's router: which edge server a client is sent to, and the
  table of round-trip times the edge servers report for each client.

  Round-trip times are real numbers; the rounding of 64-bit floats is not
  modelled. Decimal-to-float parsing is a parameter (a function from text to
  an optional number), and the geographic fallback for clients without
  measurements is a parameter too: the address of the closest server.
  Text is a sequence of characters.
*/
module Router {
  import opened Wrappers
  import opened Text
  import DnsWire

  // ---------------------------------------------------------------------------
  // Dotted-quad text to a number
  // ---------------------------------------------------------------------------

  const MinInt32: int := -0x8000_0000
  const MaxInt32: int := 0x7FFF_FFFF

  /** Go's strconv.ParseInt(s, 10, 32): an optional sign, one or more decimal digits, a value in the 32-bit range. */
  function ParseInt32(s: string): (r: Option<int>)
    ensures r.Some? ==> MinInt32 <= r.value <= MaxInt32
    ensures r.Some? ==> |s| > 0 && (AllDigits(s) || ((s[0] == '+' || s[0] == '-') && AllDigits(s[1..])))
    ensures r.Some? && s[0] == '-' ==> r.value == -(DecimalValue(s[1..]) as int)
    ensures r.Some? && s[0] == '+' ==> r.value == DecimalValue(s[1..])
    ensures r.Some? && s[0] != '-' && s[0] != '+' ==> r.value == DecimalValue(s)
  {
    if |s| == 0 then None
    else
      var negative := s[0] == '-';
      var digits := if s[0] == '+' || s[0] == '-' then s[1..] else s;
      if |digits| == 0 || !AllDigits(digits) then None
      else
        var v: int := if negative then -(DecimalValue(digits) as int) else DecimalValue(digits);
        if MinInt32 <= v <= MaxInt32 then Some(v) else None
  }

  /** A plain run of digits within range parses to its value. */
  lemma ParseInt32OfDigits(p: string)
    requires |p| > 0 && AllDigits(p) && DecimalValue(p) <= MaxInt32
    ensures ParseInt32(p) == Some(DecimalValue(p))
  {
    assert IsDigit(p[0]);
  }

  /** A minus sign before digits whose value is at most 2^31 parses to the negated value. */
  lemma ParseInt32OfNegative(p: string)
    requires |p| > 0 && AllDigits(p) && DecimalValue(p) <= -MinInt32
    ensures ParseInt32("-" + p) == Some(-(DecimalValue(p) as int))
  {
    assert ("-" + p)[1..] == p;
  }

  /**
    The number the location lookup uses for a client address: 0 for the empty
    text, -1 unless there are exactly four dot-separated parts that each parse
    as a 32-bit decimal integer, and otherwise a*2^24 + b*2^16 + c*2^8 + d.
    The sum is exact: each part is below 2^31 in magnitude, so the 64-bit
    shifts and additions of the source cannot overflow.
  */
  function IpStringToInt(ipstr: string): (r: int)
    ensures ipstr == "" ==> r == 0
    ensures ipstr != "" && |Split(ipstr, '.')| != 4 ==> r == -1
  {
    if ipstr == "" then 0
    else
      var parts := Split(ipstr, '.');
      if |parts| != 4 then -1
      else
        var first, second, third, fourth := ParseInt32(parts[0]), ParseInt32(parts[1]), ParseInt32(parts[2]), ParseInt32(parts[3]);
        if first.None? || second.None? || third.None? || fourth.None? then -1
        else first.value * 0x100_0000 + second.value * 0x1_0000 + third.value * 0x100 + fourth.value
  }

  /** An address with four parts, one of which does not parse as a 32-bit integer, is mapped to -1. */
  lemma IpStringToIntRejects(s: string, k: int)
    requires s != "" && |Split(s, '.')| == 4
    requires 0 <= k < 4 && ParseInt32(Split(s, '.')[k]).None?
    ensures IpStringToInt(s) == -1
  {
    var parts := Split(s, '.');
    assert ParseInt32(parts[0]).None? || ParseInt32(parts[1]).None? || ParseInt32(parts[2]).None? || ParseInt32(parts[3]).None? by {
      assert parts[k] in {parts[0], parts[1], parts[2], parts[3]};
    }
  }

  /** For an IPv4 address the number is the address read as a big-endian 32-bit unsigned integer. */
  lemma IpStringToIntOfAddress(s: string)
    requires DnsWire.ParseIpv4(s).Some?
    ensures var b := DnsWire.ParseIpv4(s).value;
      IpStringToInt(s) == b[0] as int * 0x100_0000 + b[1] as int * 0x1_0000 + b[2] as int * 0x100 + b[3] as int
    ensures 0 <= IpStringToInt(s) < 0x1_0000_0000
  {
    var parts := Split(s, '.');
    assert Split("", '.') == [""];
    OctetsParse(parts);
    AddressValueRange(DnsWire.ParseIpv4(s).value);
  }

  /** Each of the four parts of a dotted-decimal address parses as a 32-bit integer, to its octet. */
  lemma OctetsParse(parts: seq<string>)
    requires DnsWire.Octets(parts).Some?
    ensures |parts| == 4
    ensures forall k | 0 <= k < 4 :: ParseInt32(parts[k]) == Some(DnsWire.Octets(parts).value[k] as int)
  {
    forall k | 0 <= k < 4
      ensures ParseInt32(parts[k]) == Some(DecimalValue(parts[k]))
    {
      ParseInt32OfDigits(parts[k]);
    }
  }

  /** Four bytes read as one big-endian number lie in [0, 2^32). */
  lemma AddressValueRange(b: seq<DnsWire.byte>)
    requires |b| == 4
    ensures 0 <= b[0] as int * 0x100_0000 + b[1] as int * 0x1_0000 + b[2] as int * 0x100 + b[3] as int < 0x1_0000_0000
  {
    DnsWire.ByteRoundTrip(b[0]);
    DnsWire.ByteRoundTrip(b[1]);
    DnsWire.ByteRoundTrip(b[2]);
    DnsWire.ByteRoundTrip(b[3]);
  }

  // ---------------------------------------------------------------------------
  // Hosts-file lines
  // ---------------------------------------------------------------------------

  /** What a line of the hosts file yields. */
  datatype HostLine =
    | Skipped              // a comment or the origin server's line
    | IndexOutOfRange      // fewer than five '-'-separated pieces: the source indexes past the end and panics
    | HostIp(ip: string)   // the address rebuilt from the host name

  /**
    A line mentioning "Origin" or starting with '#' is skipped. Otherwise the
    first tab-separated field is a host name like ec2-54-210-1-206.compute-1.amazonaws.com,
    and the address is its '-'-separated pieces 1, 2 and 3 and piece 4 up to
    its first '.', joined with '.'.
  */
  function HostLineAddress(text: string): (r: HostLine)
    ensures Contains(text, "Origin") || HasPrefix(text, "#") <==> r == Skipped
  {
    if Contains(text, "Origin") || HasPrefix(text, "#") then Skipped
    else
      var line := Split(text, '\t');
      var url := Split(line[0], '-');
      if |url| < 5 then IndexOutOfRange
      else HostIp(Join([url[1], url[2], url[3], Split(url[4], '.')[0]], '.'))
  }

  /** A host-name line of the usual shape yields the address spelled inside the host name. */
  lemma HostLineOfEc2Name(a: string, b: string, c: string, d: string, domain: string, rest: string)
    requires AllDigits(a) && AllDigits(b) && AllDigits(c) && AllDigits(d)
    requires '\t' !in domain
    requires !Contains("ec2-" + a + "-" + b + "-" + c + "-" + d + "." + domain + "\t" + rest, "Origin")
    ensures HostLineAddress("ec2-" + a + "-" + b + "-" + c + "-" + d + "." + domain + "\t" + rest)
      == HostIp(a + "." + b + "." + c + "." + d)
  {
    var host := "ec2-" + a + "-" + b + "-" + c + "-" + d + "." + domain;
    var text := host + "\t" + rest;
    assert text == "ec2-" + a + "-" + b + "-" + c + "-" + d + "." + domain + "\t" + rest;
    assert text[0] == 'e';
    assert !HasPrefix(text, "#");
    FirstTabField(a, b, c, d, domain, rest);
    assert Split(text, '\t')[0] == host;
    DashPieces(a, b, c, d, domain);
    var url := Split(host, '-');
    PieceFourHead(d, domain, url[4]);
    JoinFour(a, b, c, d, '.');
    assert [url[1], url[2], url[3], Split(url[4], '.')[0]] == [a, b, c, d];
  }

  /** The first tab-separated field of such a line is the host name. */
  lemma FirstTabField(a: string, b: string, c: string, d: string, domain: string, rest: string)
    requires AllDigits(a) && AllDigits(b) && AllDigits(c) && AllDigits(d)
    requires '\t' !in domain
    ensures var host := "ec2-" + a + "-" + b + "-" + c + "-" + d + "." + domain;
      Split(host + "\t" + rest, '\t')[0] == host
  {
    var host := "ec2-" + a + "-" + b + "-" + c + "-" + d + "." + domain;
    DigitsFree(a);
    DigitsFree(b);
    DigitsFree(c);
    DigitsFree(d);
    assert '\t' !in host;
    SplitCons(host, '\t', rest);
  }

  /** The '-'-separated pieces of such a host name: "ec2", a, b, c, then a piece that starts with d and '.'. */
  lemma DashPieces(a: string, b: string, c: string, d: string, domain: string)
    requires AllDigits(a) && AllDigits(b) && AllDigits(c) && AllDigits(d)
    ensures var url := Split("ec2-" + a + "-" + b + "-" + c + "-" + d + "." + domain, '-');
      |url| >= 5 && url[1] == a && url[2] == b && url[3] == c && HasPrefix(url[4], d + ".")
  {
    DigitsFree(a);
    DigitsFree(b);
    DigitsFree(c);
    DigitsFree(d);
    var four: seq<string> := ["ec2", a, b, c];
    var last := d + "." + domain;
    JoinFour("ec2", a, b, c, '-');
    assert "ec2-" + a + "-" + b + "-" + c + "-" + d + "." + domain == Join(four, '-') + ['-'] + last;
    SplitJoinThen(four, '-', last);
    assert '-' !in d + ".";
    SplitHeadPrefix(last, '-', d + ".");
  }

  /** A piece that starts with digits d and '.' has d as its first '.'-separated part. */
  lemma PieceFourHead(d: string, domain: string, p4: string)
    requires AllDigits(d) && HasPrefix(p4, d + ".")
    ensures Split(p4, '.')[0] == d
  {
    DigitsFree(d);
    assert p4 == d + "." + p4[|d| + 1..] by {
      assert p4[..|d| + 1] == d + ".";
    }
    SplitCons(d, '.', p4[|d| + 1..]);
  }

  /** A run of digits holds no separator. */
  lemma DigitsFree(s: string)
    requires AllDigits(s)
    ensures '-' !in s && '.' !in s && '\t' !in s
  {
  }

  lemma JoinFour(a: string, b: string, c: string, d: string, sep: char)
    ensures Join([a, b, c, d], sep) == a + [sep] + b + [sep] + c + [sep] + d
  {
    assert [c, d][1..] == [d];
    assert Join([c, d], sep) == c + [sep] + d;
    assert [b, c, d][1..] == [c, d];
    assert Join([b, c, d], sep) == b + [sep] + (c + [sep] + d);
    assert [a, b, c, d][1..] == [b, c, d];
    assert Join([a, b, c, d], sep) == a + [sep] + (b + [sep] + (c + [sep] + d));
  }

  // ---------------------------------------------------------------------------
  // Ping-response lines
  // ---------------------------------------------------------------------------

  /** Go's unicode.IsSpace: the ASCII spaces, NEL, NO-BREAK SPACE and the other Unicode white-space characters. */
  predicate IsUnicodeSpace(c: char)
  {
    c == '\t' || c == '\n' || c == '\U{0B}' || c == '\U{0C}' || c == '\r' || c == ' '
    || c == '\U{85}' || c == '\U{A0}' || c == '\U{1680}'
    || ('\U{2000}' <= c <= '\U{200A}')
    || c == '\U{2028}' || c == '\U{2029}' || c == '\U{202F}' || c == '\U{205F}' || c == '\U{3000}'
  }

  /** The whitespace-separated fields of a response line once every newline is removed. */
  function PingLineFields(line: string): (fs: seq<string>)
    ensures forall k | 0 <= k < |fs| :: IsWord(fs[k], IsUnicodeSpace)
  {
    Fields(RemoveAll(line, '\n'), IsUnicodeSpace)
  }

  /**
    The (client address, round-trip time) a response line reports: exactly two
    fields, the second a number; None when the line is not accepted.
  */
  function PingSample(line: string, parseFloat: string -> Option<real>): (r: Option<(string, real)>)
    ensures r.Some? ==> IsWord(r.value.0, IsUnicodeSpace)
    ensures r.Some? <==> |PingLineFields(line)| == 2 && parseFloat(PingLineFields(line)[1]).Some?
    ensures r.Some? ==> r.value == (PingLineFields(line)[0], parseFloat(PingLineFields(line)[1]).value)
  {
    var fields := PingLineFields(line);
    if |fields| != 2 then None
    else
      match parseFloat(fields[1])
      case None => None
      case Some(rtt) => Some((fields[0], rtt))
  }

  /** A line made of an address, a space, a time and a newline is accepted with that address and time. */
  lemma PingSampleOfReply(ip: string, avg: string, parseFloat: string -> Option<real>)
    requires IsWord(ip, IsUnicodeSpace) && IsWord(avg, IsUnicodeSpace)
    requires parseFloat(avg).Some?
    ensures PingSample(ip + " " + avg + "\n", parseFloat) == Some((ip, parseFloat(avg).value))
  {
    var line := ip + " " + avg + "\n";
    assert '\n' !in ip + " " + avg by {
      assert forall k | 0 <= k < |ip| :: (ip + " " + avg)[k] == ip[k];
      assert forall k | |ip| + 1 <= k < |ip| + 1 + |avg| :: (ip + " " + avg)[k] == avg[k - |ip| - 1];
    }
    assert line == (ip + " " + avg) + ['\n'] + [];
    RemoveAllSnoc(ip + " " + avg, '\n');
    RemoveAllAbsent(ip + " " + avg, '\n');
    assert Join([ip, avg], ' ') == ip + " " + avg by {
      assert [ip, avg][1..] == [avg];
    }
    FieldsOfJoin([ip, avg], ' ', IsUnicodeSpace);
  }

  /**
    An accepted line reports the same sample as the canonical line made of its
    two fields, a space and a newline: spacing and newlines do not matter.
  */
  lemma PingSampleCanonical(line: string, parseFloat: string -> Option<real>)
    requires PingSample(line, parseFloat).Some?
    ensures var fields := PingLineFields(line);
      |fields| == 2 && PingSample(fields[0] + " " + fields[1] + "\n", parseFloat) == PingSample(line, parseFloat)
  {
    var fields := PingLineFields(line);
    PingSampleOfReply(fields[0], fields[1], parseFloat);
  }

  // ---------------------------------------------------------------------------
  // The round-trip-time table
  // ---------------------------------------------------------------------------

  /** Every recorded round-trip time of a client is positive. */
  predicate AllPositive(servers: map<string, real>)
  {
    forall s | s in servers :: servers[s] > 0.0
  }

  /** Every recorded round-trip time of every client is positive. */
  predicate TablePositive(table: map<string, map<string, real>>)
  {
    forall c | c in table :: AllPositive(table[c])
  }

  /** server has a minimal round-trip time among the client's servers. */
  predicate IsFastest(servers: map<string, real>, server: string)
  {
    server in servers && forall s | s in servers :: servers[server] <= servers[s]
  }

  /**
    The table after a sample rtt from server for client: an unseen client
    gets an empty row first; a time already recorded is averaged with the
    sample, a new one is the sample.
  */
  function Record(table: map<string, map<string, real>>, client: string, server: string, rtt: real): (t: map<string, map<string, real>>)
    ensures t.Keys == table.Keys + {client}
    ensures forall c | c in table && c != client :: t[c] == table[c]
    ensures t[client].Keys == (if client in table then table[client].Keys else {}) + {server}
    ensures client in table && server in table[client] ==> t[client][server] == (table[client][server] + rtt) / 2.0
    ensures client !in table || server !in table[client] ==> t[client][server] == rtt
    ensures forall s | s in t[client] && s != server :: t[client][s] == table[client][s]
  {
    var row := if client in table then table[client] else map[];
    table[client := row[server := if server in row then (row[server] + rtt) / 2.0 else rtt]]
  }

  /** A positive sample keeps every recorded time positive, and an averaged time lies between the old time and the sample. */
  lemma RecordKeepsPositive(table: map<string, map<string, real>>, client: string, server: string, rtt: real)
    requires TablePositive(table) && rtt > 0.0
    ensures TablePositive(Record(table, client, server, rtt))
    ensures client in table && server in table[client] ==>
      var old_ := table[client][server];
      var new_ := Record(table, client, server, rtt)[client][server];
      (old_ <= new_ <= rtt) || (rtt <= new_ <= old_)
  {
    var t := Record(table, client, server, rtt);
    forall c | c in t
      ensures AllPositive(t[c])
    {
      if c == client {
        forall s | s in t[c]
          ensures t[c][s] > 0.0
        {
          if s != server {
            assert t[c][s] == table[c][s];
          }
        }
      }
    }
  }

  /** The router's state: for each client, the averaged round-trip time from each edge server. */
  class Router {
    var clients: map<string, map<string, real>>

    /** An empty table. */
    constructor ()
      ensures clients == map[]
    {
      clients := map[];
    }

    /**
      The server a client is sent to. A client without measurements goes to
      the closest server. Otherwise the answer is one of its measured servers,
      and a fastest one whenever all its times are positive (the loop reads a
      time of 0 as "no minimum yet"); among equally fast servers the map's
      iteration order decides.
    */
    method GetServer(ip: string, closest: string) returns (result: string)
      ensures ip !in clients || |clients[ip]| == 0 ==> result == closest
      ensures ip in clients && |clients[ip]| > 0 ==> result in clients[ip]
      ensures ip in clients && AllPositive(clients[ip]) && |clients[ip]| > 0 ==> IsFastest(clients[ip], result)
    {
      if ip !in clients || |clients[ip]| == 0 {
        return closest;
      }
      var servers := clients[ip];
      result := "";
      var minRtt: real := 0.0;
      var remaining := servers.Keys;
      while remaining != {}
        invariant remaining <= servers.Keys
        invariant remaining == servers.Keys ==> minRtt == 0.0
        invariant remaining != servers.Keys ==> result in servers && minRtt == servers[result]
        invariant AllPositive(servers) ==>
          forall s | s in servers && s !in remaining :: minRtt <= servers[s]
        decreases |remaining|
      {
        var server :| server in remaining;
        var rtt := servers[server];
        if minRtt == 0.0 || rtt < minRtt {
          minRtt := rtt;
          result := server;
        }
        remaining := remaining - {server};
      }
    }

    /**
      Records one response line from server: a line that does not carry
      exactly an address and a number is ignored; otherwise the sample is
      entered with Record.
    */
    method RecordPingResponse(server: string, line: string, parseFloat: string -> Option<real>)
      modifies this
      ensures PingSample(line, parseFloat).None? ==> clients == old(clients)
      ensures PingSample(line, parseFloat).Some? ==>
        var sample := PingSample(line, parseFloat).value;
        clients == Record(old(clients), sample.0, server, sample.1)
    {
      var splitLine := Fields(RemoveAll(line, '\n'), IsUnicodeSpace);
      if |splitLine| != 2 {
        return;
      }
      var clientIp := splitLine[0];
      var rtt := parseFloat(splitLine[1]);
      if rtt.None? {
        return;
      }
      if clientIp !in clients {
        clients := clients[clientIp := map[]];
      }
      if server in clients[clientIp] {
        clients := clients[clientIp := clients[clientIp][server := (clients[clientIp][server] + rtt.value) / 2.0]];
      } else {
        clients := clients[clientIp := clients[clientIp][server := rtt.value]];
      }
    }
  }
}
