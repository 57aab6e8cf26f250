# CDN core in Dafny

A model of the core of a small content delivery network made of three
programs:

- a **DNS server** (`dnsserver`). It answers A queries for the single domain
  it serves. Each answer points the client at the replica server whose
  measured round-trip time to that client is lowest.
- a **router** inside the DNS server. It reads the list of replica hosts
  from the hosts file and keeps a table from client address to replica
  address to a smoothed round-trip time. It picks the fastest replica for a
  client.
- an **HTTP replica server** (`httpserver`) with:
  - a two-tier response cache, one tier in memory and one on disk;
  - a reader that takes the request target from the request line;
  - a ping service. It reads client addresses one line at a time and
    replies with the address and the average round-trip time that `ping`
    reported.

There is also a small script that turns a saved "most popular pages" HTML
listing into a `path count` text list.

Layout:

| file | module | contents |
|---|---|---|
| `wrappers.dfy` | `Wrappers` | `Option` and `Result` |
| `text.dfy` | `Text` | Go's `strings.Split`, `strings.Join`, `bytes.Fields`/`strings.Fields`, `strings.Replace`, ASCII lower-casing and decimal digits, as functions on sequences, with their laws |
| `dns_wire.dfy` | `DnsWire` | the DNS message format of RFC 1035 section 4.1 as the server reads and writes it: header, names, question, answer, the whole reply; dotted-decimal IPv4 text |
| `dns_packet.dfy` | `DnsPacket` | the packet object the server fills in place; the request handler |
| `router.dfy` | `Router` | address parsing, host-file lines, ping-response lines, the round-trip-time table and replica choice |
| `cache.dfy` | `Cache` | the two-tier cache object with its size accounting and the file store it writes to |
| `http_request.dfy` | `HttpRequest` | the CRLF line splitter and the request-target reader |
| `ping.dfy` | `Ping` | the ping service's reply to one line and its serving loop |
| `popular.dfy` | `Popular` | the popular-pages conversion |

The source changes state in two places:
- the DNS packet, whose fields the parser and the answer builder update;
- the cache and the router, whose maps the methods update.

Those are classes (`DnsPacket.Packet`, `Cache.Cache`, `Router.Router`) with
`modifies` frames. Their methods are proved against functions on values
(`DnsWire.DecodeHeader`, `DnsWire.EncodeMessage`, `Router.Record`,
`Cache.Lookup`). The cursor loops are methods with loop invariants, proved
equal to the recursive function that specifies them:
- `ParseQuestion`, `NameToBytes`, `ByteArraysToDomain`;
- `GetPath`;
- `Start`, `WritePopular`.

The loop of `GetServer` is proved against the predicate `IsFastest`: the
replica it returns has the least time.

The ping service as written never replies (see Findings). `Ping.Reply`,
`Ping.Answer`, `Ping.AnswerLine` and `Ping.Start` model the evidently
intended service, which cuts the summary field at its slashes.
`Ping.RepliesAsWritten` is the serving loop as written, and
`Ping.RepliesAsWrittenEmpty` proves that it writes nothing.

## Model

| member | source | states |
|---|---|---|
| DnsWire.BoolToByte | src/cdn/dnsserver/dnsserver.go:99-105 | the byte is 1 exactly when the flag is true and 0 otherwise |
| DnsWire.BigEndian16 | src/cdn/dnsserver/dnsserver.go:242-246 | two bytes that read back, high byte first, as the value |
| DnsWire.BigEndian16OfUint16 | src/cdn/dnsserver/dnsserver.go:194-197 | reading two bytes as a big-endian number and writing it back gives the same two bytes |
| DnsWire.BigEndian32 | src/cdn/dnsserver/dnsserver.go:267-268 | four bytes that read back, most significant first, as the 32-bit TTL |
| DnsWire.FlagFieldsDisjoint | src/cdn/dnsserver/dnsserver.go:204-206 | the sums that form header bytes 2 and 3 equal bitwise ORs, so no flag carries into its neighbour |
| DnsWire.FlagsByteFields | src/cdn/dnsserver/dnsserver.go:204-205 | header byte 2 gives back QR, the low four bits of OPCODE, AA, TC and RD at the bit positions the parser reads them from |
| DnsWire.RcodeByteFields | src/cdn/dnsserver/dnsserver.go:206 | header byte 3 gives back RA and the low four bits of RCODE, and its three Z bits are zero |
| DnsWire.EncodeHeader | src/cdn/dnsserver/dnsserver.go:202-208 | twelve bytes that decode to the header with OPCODE and RCODE cut to four bits; ANCOUNT at bytes 6-7, Z bits zero, NSCOUNT and ARCOUNT zero |
| DnsWire.DecodeHeaderIgnoresZ | src/cdn/dnsserver/dnsserver.go:149-157 | the parsed header does not depend on the Z bits of byte 3 |
| DnsWire.EncodeLabels | src/cdn/dnsserver/dnsserver.go:229-236 | the encoded labels take one length byte plus the label bytes per label |
| DnsWire.EncodeLabelsSnoc | src/cdn/dnsserver/dnsserver.go:229-236 | one more label appends its length byte and its bytes: the loop step of the name writer |
| DnsWire.EncodeName | src/cdn/dnsserver/dnsserver.go:227-239 | a name can be written exactly when every label is shorter than 256 bytes; the result is the labels' size plus one and ends with the zero byte |
| DnsWire.NameToBytes | src/cdn/dnsserver/dnsserver.go:227-239 | the label loop computes EncodeName, including its error on a long label |
| DnsWire.EncodeQuestion | src/cdn/dnsserver/dnsserver.go:249-257 | a question can be written exactly when its name can; it takes the name plus four bytes |
| DnsWire.WriteQuestion | src/cdn/dnsserver/dnsserver.go:249-257 | the byte writer computes EncodeQuestion |
| DnsWire.EncodeAnswer | src/cdn/dnsserver/dnsserver.go:260-273 | an answer can be written exactly when its name can; it takes the name plus ten bytes plus the record data |
| DnsWire.WriteAnswer | src/cdn/dnsserver/dnsserver.go:260-273 | the byte writer computes EncodeAnswer |
| DnsWire.ParseQuestion | src/cdn/dnsserver/dnsserver.go:176-198 | the cursor loop computes DecodeQuestion: the labels, QTYPE and QCLASS, or the error for bytes that run out |
| DnsWire.DecodeLabelsOfEncoding | src/cdn/dnsserver/dnsserver.go:180-191 | reading the encoding of a well-formed name gives back its labels and leaves the cursor just past the zero byte, whatever follows |
| DnsWire.DecodeLabelsSound | src/cdn/dnsserver/dnsserver.go:180-191 | labels that were read successfully are well-formed, and the bytes consumed are exactly their encoding and the zero byte |
| DnsWire.QuestionRoundTrip | src/cdn/dnsserver/dnsserver.go:176-198 | parsing a written question followed by any bytes gives back the question and those bytes |
| DnsWire.DecodeQuestionSound | src/cdn/dnsserver/dnsserver.go:176-198 | a parsed question has a well-formed name, and the input is its encoding followed by the rest |
| DnsWire.EncodeMessage | src/cdn/dnsserver/dnsserver.go:201-224 | a written reply is the header, question and answer bytes in that order, at most 512 bytes; it fails only for a name that cannot be written or a reply over 512 bytes |
| DnsWire.OctetByte | src/cdn/dnsserver/dnsserver.go:121 | an octet's text becomes the byte of its decimal value |
| DnsWire.Octets | src/cdn/dnsserver/dnsserver.go:121 | four dot-separated pieces give an address exactly when each is a decimal number up to 255, and byte k is the value of piece k |
| DnsWire.Ipv4RoundTrip | src/cdn/dnsserver/dnsserver.go:121 | parsing the dotted-decimal text of any four-byte address gives back the address |
| DnsPacket.Packet.constructor | src/cdn/dnsserver/dnsserver.go:278 | a new packet has a zero header, no question and no answer |
| DnsPacket.Packet.ParseHeader | src/cdn/dnsserver/dnsserver.go:149-157 | the header fields become the header decoded from the first twelve bytes; nothing else changes |
| DnsPacket.Packet.ParseDns | src/cdn/dnsserver/dnsserver.go:139-173 | too short input is refused and changes nothing; otherwise the header is decoded, and when QDCOUNT is not zero the question is parsed from byte 12 on, or the parse error is returned |
| DnsPacket.Packet.QueryToAnswer | src/cdn/dnsserver/dnsserver.go:120-136 | a server address that does not parse is an error and changes nothing; otherwise QR and AA are set, ANCOUNT becomes 1 and the answer is a class-IN A record for the question's name holding the address |
| DnsPacket.Packet.DnsToBytes | src/cdn/dnsserver/dnsserver.go:201-224 | the bytes written are EncodeMessage of the packet's fields |
| DnsPacket.ByteArraysToDomain | src/cdn/dnsserver/dnsserver.go:108-117 | the loop joins the labels with dots |
| DnsPacket.HandleRequest | src/cdn/dnsserver/dnsserver.go:276-295 | corrected handler: it sends the reply Respond describes, or nothing, and sends nothing for a query without a question, where the source crashes |
| DnsPacket.RespondReplies | src/cdn/dnsserver/dnsserver.go:276-295 | a reply is sent only to a query with a question for the served name; the reply is at most 512 bytes, has the query's header with QR and AA set and ANCOUNT 1, repeats the question, and ends with the server address |
| DnsPacket.ReplyMessage | src/cdn/dnsserver/dnsserver.go:286-290 | a reply message has the answer header, ANCOUNT 1, a question that reads back unchanged, and ends with the four address bytes |
| DnsPacket.RespondToQuery | src/cdn/dnsserver/dnsserver.go:276-295 | any twelve header bytes with a non-zero QDCOUNT (ANCOUNT, NSCOUNT, ARCOUNT and the Z bits are free), then a well-formed question for the served name and any further bytes, get exactly the reply with the answer header, ANCOUNT 1, the question and the server address, whenever it fits in 512 bytes |
| DnsPacket.ReplyToAddress | src/cdn/dnsserver/dnsserver.go:120-136 | an answer can be built for any well-formed question and any dotted-decimal server address when the reply fits |
| DnsPacket.QueryHeader | src/cdn/dnsserver/dnsserver.go:149-157 | the server reads back the header a client wrote, with OPCODE and RCODE cut to four bits |
| DnsPacket.RespondAsWrittenCrashes | src/cdn/dnsserver/dnsserver.go:282 | the handler as written dereferences a nil question exactly for queries of at least 12 bytes whose QDCOUNT is zero, and otherwise agrees with Respond |
| DnsPacket.ZeroHeaderCrashes | src/cdn/dnsserver/dnsserver.go:282 | twelve zero bytes make the handler as written dereference a nil question |
| Router.ParseInt32 | src/cdn/dnsserver/router.go:133-136 | a parsed number is a signed 32-bit value spelled as optionally signed decimal digits, and its value is the digits' decimal value, negated after a minus sign |
| Router.ParseInt32OfNegative | src/cdn/dnsserver/router.go:133-136 | a minus sign before digits whose value is at most 2^31 parses to the negated value |
| Router.ParseInt32OfDigits | src/cdn/dnsserver/router.go:133-136 | decimal digits whose value fits in 32 bits parse to that value |
| Router.IpStringToInt | src/cdn/dnsserver/router.go:124-141 | the empty string maps to 0, and text without exactly four dot-separated parts maps to -1 |
| Router.IpStringToIntRejects | src/cdn/dnsserver/router.go:133-138 | text whose dot-separated parts include one that is not a 32-bit number maps to -1 |
| Router.IpStringToIntOfAddress | src/cdn/dnsserver/router.go:124-141 | a dotted-decimal address maps to its four bytes read as a big-endian unsigned 32-bit number |
| Router.HostLineAddress | src/cdn/dnsserver/router.go:56-61 | a hosts-file line is skipped exactly when it mentions "Origin" or starts with '#' |
| Router.HostLineOfEc2Name | src/cdn/dnsserver/router.go:56-61 | a line whose first tab-separated field is ec2-a-b-c-d.domain yields the address a.b.c.d |
| Router.PingLineFields | src/cdn/dnsserver/router.go:180 | the fields of a ping response line contain no white space and none is empty |
| Router.PingSampleCanonical | src/cdn/dnsserver/router.go:180-189 | an accepted line has two fields, and the canonical line made of them, a space and a newline reports the same sample: spacing and newlines do not matter |
| Router.PingSampleOfReply | src/cdn/dnsserver/router.go:180-189 | the line "address average" plus a line feed gives back the address and the parsed average |
| Router.Record | src/cdn/dnsserver/router.go:192-199 | the client's entry gains the replica; a known time is averaged with the new one, a new time is taken as it is, and every other entry is unchanged |
| Router.RecordKeepsPositive | src/cdn/dnsserver/router.go:192-199 | recording a positive time keeps every time in the table positive |
| Router.Router.constructor | src/cdn/dnsserver/router.go:40 | a new router has an empty client table |
| Router.Router.GetServer | src/cdn/dnsserver/router.go:73-92 | an unknown client gets the closest replica; a known one gets one of its replicas with the least positive time |
| Router.Router.RecordPingResponse | src/cdn/dnsserver/router.go:176-200 | a response line that does not give a sample changes nothing; otherwise the table becomes Record of the old one |
| Cache.Int64OfUint64 | src/cdn/httpserver/cache.go:52 | Go's int(u) on a 64-bit uint: the same value below 2^63, and the value minus 2^64 above it |
| Cache.TotalSizeAdd | src/cdn/httpserver/cache.go:55-56 | storing a new path adds its response's length to the tier's total size |
| Cache.AccountedAdd | src/cdn/httpserver/cache.go:51-58 | a new entry that fits in the room left keeps a tier's usage equal to its total size and within its capacity |
| Cache.CacheFileNameAsWritten | src/cdn/httpserver/cache.go:66 | the file name as the source forms it, with every '/' replaced by '_' |
| Cache.AsWrittenFileNamesCollide | src/cdn/httpserver/cache.go:66 | the two paths "/wiki/ac/dc" and "/wiki/ac_dc" are given the same file name |
| Cache.CollidingStoreOverwrites | src/cdn/httpserver/cache.go:66-118 | with the source's file names, storing a second path whose name collides with a stored path's makes the first path read the second path's response |
| Cache.AsWrittenLookupOverwritten | src/cdn/httpserver/cache.go:66-118 | with the source's file names, once "/wiki/ac_dc" is stored after "/wiki/ac/dc", a lookup of "/wiki/ac/dc" gives the response of "/wiki/ac_dc" |
| Cache.Escape | src/cdn/httpserver/cache.go:66 | an escaped path contains no '/' |
| Cache.UnescapeEscape | src/cdn/httpserver/cache.go:66 | unescaping an escaped path gives back the path |
| Cache.CacheFileName | src/cdn/httpserver/cache.go:66 | the file name has the form ".cache/" + name + ".cache" with no '/' inside the name |
| Cache.CacheFileNameInjective | src/cdn/httpserver/cache.go:66 | different paths get different file names |
| Cache.FilesMatchInsert | src/cdn/httpserver/cache.go:66-81 | writing a new path's file keeps every disk-tier path naming its own file with its response |
| Cache.FilesMatchRemove | src/cdn/httpserver/cache.go:71-77 | removing a failed write's file keeps the disk tier and the files in agreement |
| Cache.LookupAfterInsert | src/cdn/httpserver/cache.go:46-48 | after a path is inserted in either tier, it looks up to its response and every other path looks up as before |
| Cache.Cache.Init | src/cdn/httpserver/cache.go:24-32 | both tiers empty with zero usage, the given capacities, not built |
| Cache.Cache.AddToMemCache | src/cdn/httpserver/cache.go:51-58 | succeeds exactly when the path is new to memory and the response fits the room left as the source computes it; adds the entry and its size; the disk tier is unchanged |
| Cache.Cache.AddToDiskCache | src/cdn/httpserver/cache.go:60-83 | succeeds exactly when the path is new to disk, fits, and the file is written; then records the path, its file and its size; a failed write removes the file; the memory tier is unchanged |
| Cache.Cache.AddToCache | src/cdn/httpserver/cache.go:34-49 | for the lower-cased path: succeeds exactly when the path is not cached and fits memory, or else fits disk and is written; it then stores the response, memory first, and, with the injective file name, no other path's lookup changes |
| Cache.Cache.GetFromCache | src/cdn/httpserver/cache.go:95-119 | an uncached path is an error, a memory hit returns its bytes, and for a consistent cache, whose files have the injective names, the result is the stored response of the lower-cased path |
| Cache.ContainsPathIffStored | src/cdn/httpserver/cache.go:87-92 | a path is contained exactly when a response is stored for its lower-cased form, whatever its case |
| HttpRequest.SplitCarriageReturn | src/cdn/httpserver/httpserver.go:40-53 | the token found is a prefix of the data (empty for a blank line), the data consumed are within the data, and at end of input some token is always returned |
| HttpRequest.SplitCarriageReturnLine | src/cdn/httpserver/httpserver.go:44-48 | data with a CRLF give the line before it and consume the CRLF |
| HttpRequest.SplitCarriageReturnFirstCr | src/cdn/httpserver/httpserver.go:44-52 | only the first CR is examined: when it is not followed by LF, a later CRLF is not found, and the data give no token before the end of input and all of the data at the end |
| HttpRequest.SplitCarriageReturnEndsInCr | src/cdn/httpserver/httpserver.go:44-52 | data whose only CR is the last byte give no token before the end of input and all of the data at the end |
| HttpRequest.SplitCarriageReturnNoCrlf | src/cdn/httpserver/httpserver.go:49-52 | data without a CRLF give everything at end of input and otherwise ask for more |
| HttpRequest.LinesCons | src/cdn/httpserver/httpserver.go:74-76 | the scanner's first line is the text up to the first CRLF, and the rest follow |
| HttpRequest.HeaderLines | src/cdn/httpserver/httpserver.go:74-81 | the lines read are the leading non-empty lines, stopping at the first empty one |
| HttpRequest.MatchGetPathSound | src/cdn/httpserver/httpserver.go:84-89 | a matched line is "GET ", a non-empty target without white space, and a space, with no line feed after it |
| HttpRequest.MatchGetPathComplete | src/cdn/httpserver/httpserver.go:84-89 | every such line matches, with that target |
| HttpRequest.PathOfRequest | src/cdn/httpserver/httpserver.go:70-90 | a request whose first line is "GET target ..." yields the target |
| HttpRequest.PathOfSound | src/cdn/httpserver/httpserver.go:70-90 | a target found has no white space, and the connection begins with "GET ", the target and a space |
| HttpRequest.GetPath | src/cdn/httpserver/httpserver.go:70-90 | the scanning loop computes PathOf |
| Ping.SummaryFields | src/cdn/httpserver/ping.go:36-47 | the summary line, the one before the last line break, is used only when it has seven fields, none empty or containing white space; output with fewer than two lines is refused |
| Ping.ReplyAsWrittenNever | src/cdn/httpserver/ping.go:48-54 | the source re-splits the fourth field on white space, which it cannot contain, so no reply is ever written |
| Ping.Average | src/cdn/httpserver/ping.go:48-53 | an average found comes from a valid summary line and contains neither '/' nor white space |
| Ping.ReplyFields | src/cdn/httpserver/ping.go:54 | with the corrected average: for an address without white space and a non-empty average, the reply is one line ending in its only line feed, and its fields are exactly the address and the average |
| Ping.AverageOfSummary | src/cdn/httpserver/ping.go:36-53 | for output whose summary line has seven fields and whose fourth field is min/avg/max/mdev, the average found is the second of those times |
| Ping.SummaryFieldsOf | src/cdn/httpserver/ping.go:36-47 | the fields found are the summary line's fields |
| Ping.Answer | src/cdn/httpserver/ping.go:25-54 | with the corrected average: a line whose address does not parse gets no reply; a line whose address parses and whose ping run succeeds gets exactly the Reply for that address and output, and every reply is of that form |
| Ping.RepliesSnoc | src/cdn/httpserver/ping.go:19-55 | one more line adds its reply, if any, after the replies so far |
| Ping.RepliesSkipInvalid | src/cdn/httpserver/ping.go:25-29 | a line whose address does not parse is skipped without changing what the other lines get |
| Ping.AnswerLine | src/cdn/httpserver/ping.go:25-54 | with the corrected average: the handling of one line computes Answer |
| Ping.Start | src/cdn/httpserver/ping.go:17-56 | with the corrected average: the serving loop writes Replies of the lines read, in order |
| Ping.AnswerAsWritten | src/cdn/httpserver/ping.go:25-54 | as written: a line whose address does not parse gets no reply |
| Ping.RepliesAsWrittenEmpty | src/cdn/httpserver/ping.go:17-56 | as written, the serving loop writes nothing back for any lines and any ping output |
| Ping.ReplyAccepted | src/cdn/httpserver/ping.go:54 | a reply the corrected ping service writes is a line the router accepts as a sample with that address and average |
| Popular.MatchCount | popular_to_text.py:3-4 | the two patterns are disjoint: a line that matches the count pattern does not match the href pattern |
| Popular.MatchHrefSound | popular_to_text.py:3 | a matched path is non-empty, contains no '"', and the line starts with the href pattern around it |
| Popular.MatchHrefComplete | popular_to_text.py:3 | every line that starts with the href pattern around such a path matches, with that path |
| Popular.MatchCountSound | popular_to_text.py:4 | a matched count is a non-empty run of digits and commas, and the line starts with the count pattern around it |
| Popular.MatchCountComplete | popular_to_text.py:4 | every line that starts with the count pattern around such a run matches, with that run |
| Popular.Emit | popular_to_text.py:9-15 | a path line gives the path and a space; a count line gives the count's digits without commas and a line feed; any other line gives nothing |
| Popular.ConvertAppend | popular_to_text.py:8-15 | the output for two runs of lines is the output of the first followed by that of the second |
| Popular.ConvertSnoc | popular_to_text.py:8-15 | one more line adds its emitted text at the end |
| Popular.WritePopular | popular_to_text.py:8-15 | the loop writes Convert of the lines |

## Left out

- Sockets, goroutines, `main` functions and program start-up of all three programs: the models take the bytes received and return the bytes sent.
- `fmt` logging to standard output and standard error: it has no effect on the results.
- Go's `intToString` (dnsserver.go:94): nothing calls it.
- The geographic part of the router is not modelled: looking up latitude and longitude, the haversine distance and `getClosestServer`. The closest replica is a parameter of `Router.Router.GetServer`.
- DnsPacket.Packet.QueryToAnswer: the replica the router picks for the client's address is the parameter `server`. The router's choice itself is `Router.Router.GetServer`.
- Router.Router.GetServer: Go visits a map in an unspecified order, so ties between replicas with equal times may go either way. The contract says only that the result is one of the fastest, and only when every time is positive, because the source's loop treats a time of 0 as "none yet".
- Router's `sendPingRequests`, its TCP connections to the replicas and its mutex: there is no concurrency in the model. `Router.Router.RecordPingResponse` takes one response line at a time.
- Router.PingSample: Go's `strconv.ParseFloat` is a parameter, and round-trip times are `real`. float64 rounding is not modelled.
- DnsWire.ParseIpv4: only dotted-decimal IPv4 text is accepted. Go's `net.ParseIP` also accepts IPv6 and IPv4-in-IPv6 forms, which `To4` then maps back or rejects.
- Ping.Average: it cuts the summary field at '/', the correction of the ping.go:48 finding. The source cuts it at white space, which gives one piece, so it never reaches ping.go:54 (`Ping.ReplyAsWritten`, `Ping.ReplyAsWrittenNever`).
- Ping.Reply: it is built on the corrected `Ping.Average`. The source's reply is `Ping.ReplyAsWritten`, which is never formed.
- DnsPacket.HandleRequest: it is the corrected handler of the dnsserver.go:282 finding, and sends nothing for a query of 12 or more bytes whose QDCOUNT is 0. The source dereferences a nil question there and panics. That behaviour is `DnsPacket.RespondAsWritten`, and `DnsPacket.RespondAsWrittenCrashes` proves exactly when it happens.
- Ping.Answer: it uses the corrected `Ping.Reply`. The source's step is `Ping.AnswerAsWritten`, which never gives a reply.
- Ping.AnswerLine: it computes the corrected `Ping.Answer`, not the source's step, which never replies.
- Ping.Start: it writes the corrected replies. The source's loop writes nothing, as `Ping.RepliesAsWrittenEmpty` proves.
- Ping.Answer: `net.ParseIP(...).String()` and the `ping` command are parameters (`parseIp`, `ping`). A failed `ping` run is `None`.
- Ping.Start: the model takes the complete lines the reader returns. A last line without a line feed, which `ReadString` reports together with an error, ends the loop and gets no reply.
- HttpRequest.PathOf: the connection is complete input. The scanner's 64 KiB token limit and reading in chunks are not modelled.
- The HTTP server's request forwarding to the origin (`client.Get`), `resp.Write` and `http.ReadResponse`: responses are their serialised bytes.
- `buildCache` (cache.go:121-176) is not modelled. It fetches the popular pages over HTTP at start-up, so it is network I/O.
- Cache.Cache.AddToDiskCache: `os.Create` and `f.Write` succeeding or failing is the parameter `write`. The file store's starting contents are whatever the caller gives.
- Cache.Cache.AddToDiskCache: it names files with the injective `Cache.CacheFileName` ('%' is escaped to "%25" and '/' to "%2F"), not with the source's colliding '/'→'_' name. The source's name is `Cache.CacheFileNameAsWritten` (see Findings).
- Cache.Cache.AddToCache: "no other path's lookup changes" rests on the injective file name. With the source's name, storing "/wiki/ac_dc" on disk overwrites the file of "/wiki/ac/dc", whose lookup then changes (`Cache.AsWrittenLookupOverwritten`).
- Cache.Cache.GetFromCache: "a consistent cache gives the stored response" rests on the injective file name. With the source's name, a disk path can be served another path's response (`Cache.AsWrittenLookupOverwritten`).
- Text.ToLower: only ASCII letters are lower-cased. Go's `strings.ToLower` also maps non-ASCII letters.
- Router.PingLineFields: the Unicode white space of `strings.Fields` is listed as characters.
- Ping.SummaryFields: only the ASCII white space bytes split fields. `bytes.Fields` also splits at the UTF-8 encodings of Unicode spaces such as U+0085 and U+00A0, and invalid UTF-8 is not modelled.
- DnsWire.IsOctetText: an octet may have leading zeros ("01.2.3.4" parses). `net.ParseIP` rejects them since Go 1.17.
- DnsPacket.Packet.ParseDns: when a question fails to parse, the source leaves a question holding the labels read so far. The model sets the question to one with no labels and QTYPE and QCLASS zero. The handler sends no reply either way.
- Router.IpStringToInt: its contract covers the empty string and the wrong number of parts. The case of a part that is not a 32-bit number is stated by `Router.IpStringToIntRejects`, and the value of a valid address by `Router.IpStringToIntOfAddress`.
- Popular file I/O (`open`, iterating over the file): the model takes the list of lines and returns the text written.
- The Python test client for the ping service is not part of this model.

## Findings

| source | as written | input that shows it | evidently intended | confidence | as-written member | corrected member |
|---|---|---|---|---|---|---|
| src/cdn/dnsserver/dnsserver.go:282 | the handler reads the question's name even when the parser skipped the question because QDCOUNT is zero, so the question pointer is nil | a UDP payload of twelve zero bytes | a query without a question gets no reply | not executed | DnsPacket.ZeroHeaderCrashes | DnsPacket.RespondReplies |
| src/cdn/httpserver/ping.go:48 | the fourth field of ping's summary line is split with `bytes.Fields`, but a field has no white space, so it never has four parts and no reply is ever written | ping output ending "rtt min/avg/max/mdev = 0.045/0.058/0.071/0.010 ms, pipe 3" and a line feed | split the field on '/' and reply with the average 0.058 | not executed | Ping.RepliesAsWrittenEmpty | Ping.AverageOfSummary |
| src/cdn/httpserver/cache.go:66 | the cache file name replaces every '/' with '_', so different paths can share a file and one path's response is served for the other | the paths "/wiki/ac/dc" and "/wiki/ac_dc" | a distinct file per path | not executed | Cache.AsWrittenLookupOverwritten | Cache.CacheFileNameInjective |
