# cppsong, verified

cppsong is a rule-based proxy. It accepts SOCKS5 and HTTP clients, sniffs the server
name of TLS sessions, chooses an outbound by routing rules, and relays bytes to a VLESS
server or directly; beside that it resolves domains through configured DNS servers with
a cache. This project models the parts that are state and arithmetic, in the shape the
program has them, and proves what they guarantee.

`dafny verify dfyconfig.toml` checks everything.

| file | program part |
|---|---|
| `Bytes.dfy`, `Address.dfy` | octets, big-endian integers, substring search, addresses |
| `Sniff.dfy` | the TLS ClientHello sniffer |
| `DnsName.dfy`, `DnsMessage.dfy` | DNS names, queries and responses |
| `IpNet.dfy`, `Rules.dfy`, `Builder.dfy` | CIDR networks, domain rules, routing, rule flattening |
| `Connection.dfy`, `Relay.dfy` | byte-stream connections and the two-way relay |
| `Socks5.dfy`, `Http.dfy`, `Vless.dfy` | the two front ends and the VLESS outbound |
| `Session.dfy` | a whole session, from the client's first octet to the end of the relay |
| `AsyncQueue.dfy`, `ConnectRace.dfy` | the coroutine queue and the connect race |
| `DnsCache.dfy`, `DnsCenter.dfy` | the DNS cache with its sweeper, and interleaved resolves |

How the program becomes a model:

- Loops and objects stay loops and objects. Each method is proved equal to a function
  of its inputs or of the old state, and the theorems are about those functions.
- All code runs on one thread, so each stretch between two suspensions is one atomic
  step. Where steps interleave, a run is any sequence of events, and theorems hold for
  every sequence.
- A connection's `stream` is what its peer will still deliver, in the pieces it will
  arrive in. `Pending` are the bytes of it, together with those a WebSocket connection
  holds back. A theorem about every wire is a theorem about every segmentation.
- A step function that a method is proved equal to is tied down by theorems that do not
  use it: wire formats have their own serialisers with the numbers of the standards, runs
  are told by their events, and rules by the lists they hold.
- A schedule says which reads and writes of the relay complete. It is fair to a direction
  if no write of it fails and reads and writes take turns often enough.
- Thrown exceptions are `Err` values. The clock, the random query id, URL parsing,
  address parsing and regular expressions are parameters.

Where the program does something other than its evident purpose, the model follows the
program, and a theorem says exactly when the two agree:

- `contains` never looks at its argument, only at its family. It is right for every
  address if and only if the prefix is empty (`IpNet.RightExactlyForEmptyPrefix`), and
  so the router sends all addresses of one family the same way
  (`Rules.RouteSeesOnlyTheFamily`).
- A CONNECT is served completely if and only if it has a header line and one of the
  client's reads ends where the request does (`Http.TunnelConserves`). Bytes read
  together with the end of the head are lost, for one, all of a payload that arrives in
  the same segment (`Http.PayloadInTheSameSegmentIsLost`). Without a header line the
  search for the blank line runs past the end of the head, into the payload
  (`Http.HeadEndIsRightExactly`).
- VLESS host names are understood if and only if they have at most 255 octets
  (`Vless.RoundTripExactly`). SOCKS5 names always do; host names from HTTP requests and
  sniffed names need not (`Sessions.ServerReadsBackExactly`). A TLS client whose first
  record carries a longer server name is misread (`Sessions.ServerNameDecides`), and such
  records arrive in one read (`Sessions.NamedHelloFits`).
- The sniffer compares the declared lengths with what was delivered, not with each
  other: sniffing the record alone gives the same answer if and only if the hello and the
  extension block end within it (`Sniff.AnswerIsInTheRecordExactly`), and behind a hello
  without extensions any bytes that look like an extension block give a name
  (`Sniff.DeclaredLengthIsNoBound`).
- Encoded DNS names keep to 255 octets if and only if the domain has at most 253
  (`DnsName.EncodedLength`); up to two trailing dots are dropped
  (`DnsName.AcceptedExactly`).
- A sniffed name replaces the address only if the first read brings the whole record
  (`Sessions.DestinationNeedsTheWholeRecord`).
- The length in front of a server name list is compared with the extension only:
  `Sniff.SnifferIsComplete` covers every value up to the real one, and the declared list
  holds the answer if and only if the host name ends within it
  (`Sniff.NameIsInTheListExactly`).
- A forwarded request line keeps verb, path and version for its reader if and only if the
  path has no whitespace and no word is missing in front of another
  (`Http.RewrittenReadsBackExactly`). For a target such as "http://host" the path is
  empty, and the version is read as the target (`Http.EmptyPathIsMisread`).
- When every connection attempt fails, the caller is never told
  (`ConnectRace.NoSuccessNoReturn`).

## Model

| member | source | states |
|---|---|---|
| Bytes.ReadsBigEndian | src/utils/bytes.cpp:9-13 | two octets read as a number are the number they spell, the most significant first |
| Bytes.U16IsBigEndian | src/utils/bytes.cpp:34-45 | two octets written spell the number |
| Sniff.FindExtensions | src/sniff/sniff.cpp:3-79 | the header checks find the extension block, every read in range |
| Sniff.ScanNames | src/sniff/sniff.cpp:95-122 | the inner loop is the walk over server names up to the end of the extension |
| Sniff.SniffDomain | src/sniff/sniff.cpp:2-129 | the two loops terminate, read in range, and compute the specified walk |
| Sniff.SnifferIsComplete | src/sniff/sniff.cpp:2-129 | for every single-record ClientHello, with anything behind it, the answer is the first host_name of the first server_name extension, or empty |
| Sniff.KnownHello | src/sniff/sniff.cpp:2-129 | the octets of a small hello with any random value give the name in it |
| Sniff.SnifferIsSound | src/sniff/sniff.cpp:81-128 | for all bytes, a non-empty answer is the host name of the first server_name extension, behind well-formed extensions and names |
| Sniff.RangeIsHeader | src/sniff/sniff.cpp:3-79 | an accepted header is laid out as its length fields say |
| Sniff.AnswerIsFinal | src/sniff/sniff.cpp:27-119 | for all bytes, a non-empty answer does not change when more bytes follow |
| Sniff.AnswerChangesOnce | src/sniff/sniff.cpp:9-12 | while a record arrives the answer is empty up to its last byte and the server name from then on |
| Sniff.AnswerIsInTheRecordExactly | src/sniff/sniff.cpp:9-75 | for all bytes, the record alone gives the same non-empty answer if and only if its extension block and its hello end within it |
| Sniff.DeclaredLengthIsNoBound | src/sniff/sniff.cpp:9-75 | a hello whose headers declare only a front part of it is answered all the same, from bytes behind the record |
| Sniff.NameIsInTheListExactly | src/sniff/sniff.cpp:95-120 | wherever the answer was found, the names of the list as declared give it if and only if the host name ends within the declared length, and nothing otherwise |
| DnsName.EncodeQname | src/dns/message.cpp:18-56 | the label loop computes the specified encoding or its error |
| DnsName.SpelledIsEncoded | src/dns/message.cpp:25-55 | a spelled label list with up to two trailing dots encodes to its labels and the root |
| DnsName.AcceptedExactly | src/dns/message.cpp:18-56 | the accepted domains are exactly the spelled ones of at most 255 octets |
| DnsName.TwoLabelOctets | src/dns/message.cpp:18-56 | octet by octet, what any two labels with a dot between encode to |
| DnsName.EncodedLength | src/dns/message.cpp:22-55 | the encoding has two octets more than the domain without trailing dots; the 255-octet limit holds exactly up to 253 |
| DnsName.EncodedNameCanExceedTheLimit | src/dns/message.cpp:22-24 | a domain that passes the check and encodes to 257 octets |
| DnsName.SkipName | src/dns/message.cpp:57-77 | the skipping loop terminates and computes the offset behind a name |
| DnsName.NameIsSkipped | src/dns/message.cpp:57-77 | every label list ended by the root or a pointer is skipped to its last octet |
| DnsName.SkippedIsName | src/dns/message.cpp:57-77 | conversely, whatever is skipped is such a name |
| DnsMessage.ParseDnsResponse | src/dns/message.cpp:98-141 | both loops together compute the specified reading of a response |
| DnsMessage.ResponseIsExact | src/dns/message.cpp:98-141 | every serialised message gives exactly the class IN A and AAAA addresses of its answers, in order, whatever follows |
| DnsMessage.EachAnswerCounts | src/dns/message.cpp:113-140 | in any message, one answer contributes its four octets for type 1 and class 1, its sixteen for type 28 and class 1, nothing otherwise, between those before and after it |
| DnsMessage.KnownResponse | src/dns/message.cpp:98-141 | the octets of a compressed response with one A record give that address |
| DnsMessage.AcceptedIsMessage | src/dns/message.cpp:98-141 | an accepted packet is a serialised message holding the returned addresses |
| DnsMessage.MessagesExactly | src/dns/message.cpp:98-141 | the accepted packets are exactly the serialised messages |
| DnsMessage.ResponseFits | src/dns/message.cpp:105-140 | 12 + 5 per question + 11 per answer + 4 per address is at most the packet length |
| DnsMessage.BuildDnsQuery | src/dns/message.cpp:79-97 | the packet written octet by octet is header, name, type and class |
| DnsMessage.QueryOctets | src/dns/message.cpp:79-97 | the twelve octets in front of the encoded name and the four behind it |
| DnsMessage.ParseDnsQuery | src/dns/message.cpp:142-166 | the loop computes the specified reading of the first name |
| DnsMessage.QueriesExactly | src/dns/message.cpp:142-166 | the accepted queries are exactly those with labels of up to 255 octets behind the header, and these are read with dots between |
| DnsMessage.QueryIsAMessage | src/dns/message.cpp:79-97 | a built query is a well-formed message with that one question |
| DnsMessage.QueryRoundTrip | src/dns/message.cpp:79-97 | parsing a built query gives the domain without trailing dots; skipping its name lands four octets before the end |
| DnsMessage.QueryRoundTripExact | src/dns/message.cpp:142-166 | a domain without a trailing dot comes back unchanged |
| IpNet.CompareWords | src/router/ipnet.cpp:6-17 | the 32-bit mask comparison decides agreement on the first prefix bits |
| IpNet.CompareOctets | src/router/ipnet.cpp:18-32 | the octet loop and the partial mask decide the same for 128 bits |
| IpNet.WordPrefix | src/router/ipnet.cpp:15-16 | a shifted all-ones mask selects exactly the leading bits |
| IpNet.Contains | src/router/ipnet.cpp:2-33 | as written, membership is equality of families |
| IpNet.ContainsIntended | src/router/ipnet.cpp:2-33 | with `ipAddr` read from the argument, membership is agreement on the prefix |
| IpNet.CoversByDigits | src/router/ipnet.cpp:2-33 | the intended meaning on octets as numbers: the first prefix binary digits are equal |
| IpNet.RightExactlyForEmptyPrefix | src/router/ipnet.cpp:7-19 | the code is right for all addresses if and only if the prefix is empty |
| IpNet.NestedOrDisjoint | src/router/ipnet.hpp:7-11 | two networks of one family are nested or disjoint in their intended meaning |
| IpNet.ParseCidr | src/router/ipnet.cpp:35-54 | a parsed network has a prefix within its family's width |
| IpNet.ParsedCidr | src/router/ipnet.cpp:35-54 | an address behind no slash has the full prefix; one before a slash has the parsed prefix if that is at most 32 or 128 |
| Rules.MatchDomain | src/router/rule.cpp:6-32 | the four loops decide whether some domain, suffix, keyword or regex matches |
| Rules.SuffixIsOnLabels | src/router/rule.cpp:12-20 | for all texts, the suffix test holds exactly when the item's labels are the last labels of the domain |
| Rules.DomainMatchesExactly | src/router/rule.cpp:6-32 | a name matches if and only if it is a domain item, ends in the labels of a suffix, contains a keyword, or matches a regex |
| Rules.MatchRule | src/router/rule.cpp:39-54 | domain conditions for names, networks for addresses |
| Rules.RuleMatchesExactly | src/router/rule.cpp:39-54 | names are matched by the domain lists alone, addresses by the family of some network |
| Rules.MatchRoute | src/router/router.cpp:4-13 | the nested loops return the outbound of the first matching group |
| Rules.RouteIsFirstMatch | src/router/router.cpp:5-12 | the outbound by position of the first matching group, else the final one |
| Rules.RouteSeesOnlyTheFamily | src/router/rule.cpp:46-51 | two addresses of one family always take the same route |
| Builder.BuildRouteRule | src/common/builder.cpp:141-151 | the own rule and then the rules of all named sets, or an error if one is unknown |
| Builder.BuildRoutes | src/common/builder.cpp:159-165 | the groups in order, or an error if any set is unknown |
| Builder.BuildDnsRules | src/common/builder.cpp:41-53 | the flattened DNS rules in order, or an error if any set is unknown |
| Builder.MatchServer | src/dns/dns.cpp:63-70 | the scan returns the server of the first matching rule |
| Builder.FlatRoutesMean | src/common/builder.cpp:141-151 | routing over flattened groups is the first configured rule with a match of its own or in its sets |
| Builder.FlatDnsMeans | src/common/builder.cpp:41-54 | the flattened DNS list gives the server of the first configured rule with a match of its own or in its sets |
| Builder.SetOrderIsIrrelevant | src/common/builder.cpp:43-51 | reordering the rule sets of a DNS rule changes no answer |
| Builder.GroupOrderIsIrrelevant | src/router/router.cpp:5-11 | permuting the rules of a route group changes no answer |
| AsyncQueues.RunsAreMatched | src/utils/asyncqueue.hpp:13-34 | every interleaving of puts, gets and resumptions keeps the matching invariant |
| AsyncQueues.KthGetReceivesKthPut | src/utils/asyncqueue.hpp:13-34 | with puts and gets counted off the events, the k-th get to start gets the k-th value put, unmatched ones are queued or wait in order, and never both |
| AsyncQueues.RunsCountEvents | src/utils/asyncqueue.hpp:13-34 | the values put and the gets started in a run are those of its events |
| AsyncQueues.ReturnedExactly | src/utils/asyncqueue.hpp:24-34 | exactly which gets have returned: those that started behind their put, or were resumed behind it |
| AsyncQueues.AsyncQueue.Put | src/utils/asyncqueue.hpp:13-23 | a put serves the oldest waiter or joins the queue, as the step says |
| AsyncQueues.AsyncQueue.StartGet | src/utils/asyncqueue.hpp:24-32 | a get takes the oldest value or parks a new waiter, as the step says; every get parked before stays parked |
| AsyncQueues.AsyncQueue.FinishGet | src/utils/asyncqueue.hpp:32-33 | a completed waiter holds a value, and it is the put with the get's number |
| AsyncQueues.Interleave | src/utils/asyncqueue.hpp:13-34 | any schedule of puts, gets and resumptions on one queue object is the run of the steps, and returns what the run returns |
| AsyncQueues.GetWaiter.Complete | src/utils/asyncqueue.hpp:48-54 | a waiter is done afterwards, and only its first completion cancels the timer |
| Connections.Connection.Read | src/connections/wss.cpp:6-19 | buffer first, else the next message; text is an error |
| Connections.Connection.ReadMessages | src/connections/wss.cpp:20-33 | the filling loop, its errors, and what stays buffered |
| Connections.Connection.ReadSegments | src/connections/tcp.cpp:14-18 | an exact read over segments |
| Connections.RechunkingConserves | src/connections/wss.cpp:6-33 | for every sequence of calls, delivered, buffered and unread bytes make up the binary messages |
| Connections.SegmentationIsInvisible | src/connections/ws.cpp:22-35 | two deliveries of the same bytes answer every sequence of exact reads alike |
| Connections.ExactByStream | src/connections/wss.cpp:20-33 | an exact read is a function of the pending bytes |
| Connections.ReadConserves | src/connections/ws.cpp:8-21 | a read delivers the next pending bytes, a failed one none |
| Connections.ReadsArePieces | src/connections/wss.cpp:6-19 | successive reads deliver what is held back, then one message or segment each, an error for each text message, then the end |
| Connections.LongSegmentIsCut | src/connections/tcp.cpp:7-13 | a read of n octets cuts a longer segment after n |
| Connections.TextStopsExactRead | src/connections/wss.cpp:20-33 | an exact read fails at the first text message it has to pass and holds back what came before |
| Connections.ExactInTwo | src/connections/tcp.cpp:14-18 | two exact reads leave a socket where one of both sizes does |
| Connections.BinaryRead | src/connections/wss.cpp:6-19 | on binary messages a read fails only when nothing is left, and else takes something off |
| Socks5.NegotiateMethod | src/inbounds/mixed.cpp:49-59 | method 0 is accepted if offered, else refused and closed |
| Socks5.ReadRequest | src/inbounds/mixed.cpp:80-107 | the request read under any segmentation is the parsed one, and nothing behind it is consumed |
| Socks5.HandleSocks5 | src/inbounds/mixed.cpp:48-112 | replies, error or session as the handshake in the client's bytes says; the first data are one read behind it |
| Socks5.ServeByStream | src/inbounds/mixed.cpp:48-112 | first data and pending bytes are exactly what follows the handshake; it fails only on the handshake or when nothing follows |
| Socks5.FirstDataIsOneRead | src/inbounds/mixed.cpp:108-110 | the first data are the rest of the handshake's segment, or the next segment of up to 4096 octets |
| Socks5.RepliesExactly | src/inbounds/mixed.cpp:51-108 | the reply octets for every client, served or refused |
| Socks5.NoMethodIsRefused | src/inbounds/mixed.cpp:49-59 | a greeting without method 0 is refused, whatever follows |
| Socks5.OtherRequestsAreRefused | src/inbounds/mixed.cpp:80-105 | any other version, command or address type is refused |
| Socks5.CutHandshakeIsEof | src/inbounds/mixed.cpp:80-107 | a client that stops in the middle of a handshake is at the end of its stream |
| Socks5.HandshakeRoundTrip | src/inbounds/mixed.cpp:80-107 | every greeting offering method 0 with a CONNECT of any address type yields that address and port and exactly its octets |
| Socks5.AcceptedIsSerialised | src/inbounds/mixed.cpp:80-107 | conversely, an accepted handshake is a serialised one |
| Http.ReadUntil | src/inbounds/mixed.cpp:120-131 | the reading loop ends once the pattern is in the buffer or the client stops |
| Http.FillByStream | src/inbounds/mixed.cpp:120-131 | whether and where the pattern is found depends on the bytes alone, and none is lost |
| Http.HandleHttp | src/inbounds/mixed.cpp:113-181 | the handler is the specified function of the client's wire |
| Http.AddressIsByStream | src/inbounds/mixed.cpp:125-146 | the address of a served request does not depend on segmentation |
| Http.AddressIsRequested | src/inbounds/mixed.cpp:132-150 | every served request goes to the port its URL names, else 443 for CONNECT and 80 otherwise, and to the host's literal address or name |
| Http.RepliesExactly | src/inbounds/mixed.cpp:120-166 | for all bytes, why the front end fails and what the client sees of it |
| Http.LineOfSpacedWords | src/inbounds/mixed.cpp:129 | any three words apart by any whitespace are method, target and version |
| Http.ForwardConserves | src/inbounds/mixed.cpp:167-180 | first data and later reads are the rewritten line, without query and fragment, and every byte behind the client's line |
| Http.ForwardTakesSegment | src/inbounds/mixed.cpp:171-178 | the first data are the new line and the rest of the line's segment, or if there is none the next segment |
| Http.OpenTunnel | src/inbounds/mixed.cpp:147-166 | the CONNECT branch, including the bytes it drops |
| Http.TunnelConserves | src/inbounds/mixed.cpp:151-166 | for every served CONNECT, dropped and tunnelled bytes make up what follows the program's end of the head; everything behind the request is tunnelled if and only if there is a header line and a read ends where the request does |
| Http.SearchFindsHeadEnd | src/inbounds/mixed.cpp:151-157 | behind a header line the blank-line search finds the end of the head that reading line by line finds, or neither finds one |
| Http.HeadEndIsRightExactly | src/inbounds/mixed.cpp:126-157 | the search is right about the line-by-line end of the head exactly when there is a header line |
| Http.PayloadInTheSameSegmentIsLost | src/inbounds/mixed.cpp:151-166 | for every target, header line and payload in one segment, the payload is dropped and the first data are the next segment |
| Http.RewrittenReadsBackExactly | src/inbounds/mixed.cpp:171-172 | for every request line and URL, reading the rewritten line gives verb, path and version if and only if the path has no whitespace and no word is missing in front of another |
| Http.EmptyPathIsMisread | src/inbounds/mixed.cpp:171-172 | with an empty path and a version, the version is read as the target |
| Vless.Connect | src/outbounds/vless.cpp:17-43 | the request written piece by piece, and the reply taken as exactly two octets |
| Vless.ReplyByStream | src/outbounds/vless.cpp:38-42 | on binary messages or segments the connection is accepted if and only if the server's bytes start with two zeros, which are taken off |
| Vless.RoundTripExactly | src/outbounds/vless.cpp:17-37 | a server reads back user, address, port and payload if and only if the name has at most 255 octets |
| Vless.Socks5HostsAreEncodable | src/inbounds/mixed.cpp:93-96 | every host a SOCKS5 handshake yields meets that bound |
| Relay.RunConserves | src/connections/relay.cpp:12-34 | in every interleaving, with failures anywhere, each direction writes a prefix of what it carries; the timer is cancelled exactly when one has ended |
| Relay.LiveLosesNothing | src/connections/relay.cpp:16-19 | a running direction has written, holds or has yet to read every byte |
| Relay.DirectionsAreIndependent | src/connections/relay.cpp:30-31 | each direction's course depends on its own events alone |
| Relay.EverythingArrives | src/connections/relay.cpp:15-23 | a direction without failed writes and with rounds enough writes every byte, and has ended after one more |
| Relay.FairDirectionsArrive | src/connections/relay.cpp:26-34 | in any interleaving, each direction that is treated so gets everything across, whatever happens to the other |
| Relay.WritesGoOut | src/connections/relay.cpp:18 | a completed write puts the whole chunk out, a failed one what was accepted of it |
| Relay.Forwarder.Resume | src/connections/relay.cpp:15-23 | one resumption of the loop on the two connections is the step |
| Relay.RunRelay | src/connections/relay.cpp:26-34 | the relay over a whole schedule is the run of the step system |
| Sessions.HandleSession | src/common/app.cpp:47-67 | sniffed destination, routed outbound, and which bytes reach server and client, all of them under a fair schedule; served exactly when the outbound is known and connects, else the client gets nothing, and the server nothing or the front and the first data |
| Sessions.ConnectOutbound | src/outbounds/direct.cpp:5-10 | what either outbound writes first, whether it connects, and what it leaves of the server's bytes |
| Sessions.RelayAll | src/connections/relay.cpp:26-34 | whatever the schedule, each side gets a prefix of the other side's pending bytes, and all of them if its direction is treated fairly |
| Sessions.ServeClient | src/inbounds/mixed.cpp:39-46 | the run as the two wires determine it, and in terms of the client's bytes for SOCKS5, plain HTTP and CONNECT: the front and a prefix of what is behind the handshake, the request line, or the point where the tunnel starts; the fixed replies and a prefix of the server's answer; everything under a fair schedule; a run that fails leaves the replies alone, and fails only on a bad front end, a client that stops, or an outbound that is unknown or refuses |
| Sessions.SniffedNameIsRouted | src/common/app.cpp:49-56 | a session whose first data hold a record that names a host goes to the outbound of the first group matching that name |
| Sessions.UnsniffedAddressIsRouted | src/common/app.cpp:49-56 | a session without a sniffed name goes to the outbound of the first group matching its address |
| Sessions.ReachedExactly | src/common/app.cpp:59-62 | a session is served if and only if its outbound is known and is direct or its server's bytes start with two zeros |
| Sessions.ServedSessionsMean | src/common/app.cpp:60-63 | a direct server gets the client's bytes and the client its answer; a VLESS server decodes user, destination and the same bytes, and the client gets its answer without two octets |
| Sessions.DestinationNeedsTheWholeRecord | src/common/app.cpp:49-55 | the server name replaces the address exactly when the first read holds the whole record and names a host |
| Sessions.ServerReadsBackExactly | src/outbounds/vless.cpp:21-37 | for every session, a VLESS server understands it exactly when the sniffed name, or without one the requested host name, has at most 255 octets |
| Sessions.ServerNameDecides | src/common/app.cpp:49-55 | for every hello that names a host, with anything behind its record, a VLESS server understands the session exactly when the name has at most 255 octets |
| Sessions.NamedHelloFits | src/inbounds/mixed.cpp:108-111 | every name up to 4000 octets occurs in a hello that arrives in one read |
| DnsCache.Cache.Lookup | src/dns/cache.cpp:11-20 | a hit returns the list and refreshes the entry |
| DnsCache.Cache.Store | src/dns/cache.cpp:21-24 | the entry is replaced |
| DnsCache.Cache.Sweep | src/dns/cache.cpp:31-39 | erasing while iterating leaves exactly the fresh entries |
| DnsCache.LookupIsLastStored | src/dns/cache.cpp:11-24 | over all runs a lookup answers nothing or the last list stored |
| DnsCache.PresentExactly | src/dns/cache.cpp:26-41 | exactly which entries are present after any run |
| DnsCache.NotSweptEarly | src/dns/cache.cpp:33-36 | no entry is swept within the expiry time of its last use |
| DnsCache.IdleEntriesGo | src/dns/cache.cpp:27-39 | with sweeps at most g apart, a present entry was used less than expiry + g ago |
| DnsCenter.Center.ChooseServer | src/dns/dns.cpp:43-50 | the server is chosen by the domain inside the query |
| DnsCenter.Center.BeginResolve | src/dns/dns.cpp:15-20 | cache hit, or a query to send |
| DnsCenter.Center.FinishResolve | src/dns/dns.cpp:21-24 | the parsed response is stored and returned |
| DnsCenter.ResolveReachesItsServer | src/dns/dns.cpp:14-50 | a resolve reaches the server the configuration names for its domain without trailing dots |
| DnsCenter.EveryAnswerWasObtained | src/dns/dns.cpp:14-25 | over all interleavings every answer parses from a response obtained for that domain |
| DnsCenter.TableIsCacheRun | src/dns/dns.cpp:14-25 | over all interleavings the cache is as after the lookups, stores and sweeps among them, so every theorem about cache runs applies |
| DnsCenter.ProjectionKeepsTime | src/dns/dns.cpp:14-25 | those cache events are in order of time when the run is |
| DnsCenter.HitExactly | src/dns/dns.cpp:15-20 | over all interleavings, exactly when a resolve is answered without asking, and with which list |
| DnsCenter.HitIsAnswered | src/dns/dns.cpp:16-19 | a resolve that hits is answered at once with the cached list |
| DnsCenter.AskedResolveIsAnswered | src/dns/dns.cpp:20-24 | whatever happens between a resolve that asks and its response, the response's addresses answer it and become the entry |
| DnsCenter.Interleave | src/dns/dns.cpp:14-25 | any schedule of resolves and sweeps on one center object is the run of the steps, answers included |
| DnsCenter.EmptyAnswersAreAskedAgain | src/dns/dns.cpp:16-19 | over all interleavings no answer from the cache is empty, and a domain whose last list was empty is asked for again |
| ConnectRace.FirstSuccessWins | src/tcp/tcpclient.cpp:11-27 | for every order of completions the first success is handed over, later ones are discarded, and the caller is released if and only if one succeeded |
| ConnectRace.NoSuccessNoReturn | src/tcp/tcpclient.cpp:51-55 | without a success the caller waits for ever |
| ConnectRace.Interleave | src/tcp/tcpclient.cpp:11-57 | any schedule of completions and wake-ups on one race object is the run of the steps |
| ConnectRace.Race.Complete | src/tcp/tcpclient.cpp:17-23 | only the attempt that finds the result empty keeps its socket |
| ConnectRace.Race.Resume | src/tcp/tcpclient.cpp:51-56 | the released caller takes the held socket and leaves the result non-empty |

## Left out

- Sockets, TLS and WebSocket handshakes, acceptors, listeners and transports: connections begin once they are up.
- JSON and configuration parsing, file reading, logging, the command line, and loading rule sets: rules arrive as values.
- The SOCKS5 user and password branch (src/inbounds/mixed.cpp:60-79): the builder never passes users.
- UUID parsing (src/common/builder.cpp:103-113): the uuid is a parameter.
- 32- and 64-bit integers and writes at a position (src/utils/bytes.cpp:14-66): nothing calls them.
- The HTTPS and UDP DNS servers: a response is any octet sequence.
- The resolver of the operating system (src/dns/dns.cpp:26-34), used only without a DNS center.
- Connecting to a literal address (src/tcp/tcpclient.cpp:29-35): one attempt without a race.
- A write that fails during a handshake: writes fail only inside the relay, where every prefix may go out.
- An unknown outbound tag is an error here; the program dereferences a null pointer.
- Sessions.ServeClient: hands the session over directly; the queue between front end and application is `AsyncQueues`.
- Relay.Forwarder.Resume: a read that brings an empty message goes on without its empty write.
- Connections.Connection.ReadSegments: bytes gathered before the stream ends are lost with the error, as in the library.
