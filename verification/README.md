# VStream: a verified model

This project models, in Dafny, the two programs of the VStream repository: the DNS name server that
spreads clients over video servers, and the adaptive HTTP proxy that requests the video from them.
The theorems are about every input, every network, every way a byte stream is cut into reads and
partial sends, and every run of a connection or of a server.

`dafny verify dfyconfig.toml` checks the whole project.

## How it is organised

| file | what it holds |
|---|---|
| `Text.dfy` | substring search, decimal printing, integer extraction from streams, `stoi` |
| `Address.dfy` | dotted quads and 32-bit addresses |
| `Graph.dfy` | links, adjacency lists, walks, costs |
| `Search.dfy`, `SearchRuns.dfy` | the nearest-server search on values, and its invariants, order, length and sums |
| `SearchTies.dfy` | which of several nearest servers it returns |
| `Geography.dfy` | the class with its maps and its answer cache; from the network file to the answer |
| `RoundRobin.dfy` | the rotating list and its fairness |
| `Codec.dfy` | the text form of DNS headers, questions and records |
| `Wire.dfy` | byte streams, length prefixes, send and receive loops |
| `NameServer.dfy` | one connection of the name server, and whole runs of queries |
| `Exchange.dfy` | the proxy's DNS client, and the exchange as a whole |
| `Response.dfy`, `Chunk.dfy`, `Manifest.dfy`, `Bitrate.dfy` | response framing, chunk requests, manifests, throughput and choice of bitrate |
| `ProxyRules.dfy` | rates, content types and the second manifest request, in terms of the texts themselves |
| `Proxy.dfy` | one proxied connection, as functions on its state and as a class |
| `ProxyRuns.dfy`, `ProxyStreams.dfy` | runs of a connection, and the bitrates chosen in them |
| `ProxyLockstep.dfy` | requests and responses in turn, and whole sessions |

State that the programs update in place is a class (`Geography`, `RoundRobin`, `Server`, `Pipe`,
`Connection`). Each method is proved equal to a function of the old state, and the properties are
lemmas about that function. A walk starts at the client and then enters declared switches and servers
only; its cost is the sum of its link costs.

## What the model shows about the code

- The nearest-server search returns a nearest server for all non-negative costs. Which one of several is
  decided by the ids on the last stretch of cost 0 of the walks to them: of those ids, the ones that no later
  id exceeds make the key of a walk, and the server with the least key in lexicographic order is returned
  (`SearchTies.NearestIsFavoured`, `SearchTies.TieBreakExactly`). When every link into a server has a positive
  cost this is the least id; a link of cost 0 into a server can break that (`SearchTies.TieBreakFails`), while
  links of cost 0 between switches cannot.
- When the frontier becomes empty, nameserver/utils.cpp:265 dereferences `min_element` of an empty map before
  the loop ends. The value is never used, and the model keeps the old node instead.
- The proxy and the server send each 4-byte length prefix with a single `send` (miProxy/miProxy.cpp:229 and
  236, nameserver/nameserver.cpp:158, 181 and 215) and, but for the record's, do not look at how much of it
  was accepted; the loops behind them cope with every partial send. Whatever memory held, the proxy gets an
  address exactly when there is one, the header's prefix and both prefixes of the reply are accepted whole,
  and at most one byte of the question's prefix is lost, and the address is then the chosen one
  (`Exchange.ExchangeEnds`). With one byte of the question's prefix lost, the server takes the digit behind it
  as the size, 49, which still covers the whole name (`Exchange.RequestRead`). In all other cases a side exits
  or goes beyond one of its buffers, after which the model says nothing.
- The check of a chunk request subtracts unsigned positions, which wrap around, so a request whose last `/`
  comes after `Seg`, or whose `-Frag` comes before it, passes it (`Chunk.CheckWrapsAround`). Over all requests
  that pass: the rewritten one parses again to the chosen bitrate, the same segment and the same fragment
  exactly when the last `/` comes before `Seg` with no `-Frag` in between (`Chunk.RewriteReparses`); rewriting
  twice is rewriting once exactly when the last `/` comes before `Seg` (`Chunk.RewriteTwice`), and otherwise
  every pass doubles the text between them again (`Chunk.RewriteDoubles`, `Chunk.RewriteGrows`).
- Reading a manifest sets the estimate to 1.5 times the lowest bitrate (miProxy/miProxy.cpp:435), while
  README.md:71 says the lowest bitrate itself. The model follows the code: this is what makes the first chunk
  go out at the lowest bitrate as a supported one.
- A node without an address is refused when an earlier node has the address 0.0.0.0, but not the other way
  round (`Geography.ClashIsOneWay`).
- A server that disconnects in the middle of a response leaves that part in the buffer
  (miProxy/miProxy.cpp:344-352). Bytes are still conserved, but the next response is then not forwarded as it
  is (`ProxyLockstep.DisconnectSpoils`): every response, chunks included, is forwarded as it is exactly when
  the buffer was empty (`ProxyLockstep.ForwardedExactly`).

Assumptions, where the text of the programs leaves the matter to the system: `send` accepts some positive part
of what is offered; `recv` delivers the requested number of bytes unless the stream ends earlier; the steady clock
advances between the start of a message and its end; connections to the server succeed; floats are reals.

## Model

| member | source | states |
|---|---|---|
| Text.PrintDecimal | miProxy/miProxy.cpp:318 | numbers are printed in decimal, most significant digit first, behind a minus sign if negative |
| Text.ScanForm | nameserver/DNSHeader.h:58-59 | white space, at most one sign and digits are read as that number, up to the first other character |
| Text.ValueDecimal | nameserver/DNSHeader.h:58-59 | the value of a text of digits, leading zeros included |
| Text.StoIForm | miProxy/miProxy.cpp:430 | a number within 32 bits is converted whatever stands behind it, any other throws, and so does no number |
| Address.AddressRoundTrip | nameserver/utils.cpp:103-125 | every 32-bit address survives the trip through its text |
| Address.TextRoundTrip | nameserver/utils.cpp:103-125 | a text survives the trip through an address exactly when it is a canonical dotted quad, malformed texts included |
| Address.UintIpParts | nameserver/utils.cpp:115-125 | the pieces between the dots of an address are the decimal forms of its bytes, most significant first |
| Address.IpUintDots | nameserver/utils.cpp:103-113 | of four numbers between dots the first is the most significant byte, and numbers that are no bytes wrap around |
| Address.IpUintOverflow | nameserver/utils.cpp:103-113 | a first number beyond 32 bits is read as 255.0.0.0, whatever follows it |
| Address.TakeNegative | nameserver/utils.cpp:103-113 | a negative number wraps around |
| Graph.EdgesAreLinks | nameserver/utils.cpp:165-182 | the adjacency lists hold each link once in each direction, with parallel links kept, and nothing else |
| Graph.EdgesAreSymmetric | nameserver/utils.cpp:165-182 | the multigraph is symmetric, with multiplicities and costs |
| Graph.WalkIsLinkWalk | nameserver/utils.cpp:249-262 | a walk of the search is exactly a walk over undirected links through declared non-clients |
| Graph.SimpleWalkInside | nameserver/utils.cpp:249-262 | a simple walk costs at most the links among its vertices |
| Search.RelaxedImproves | nameserver/utils.cpp:249-262 | after the loop over the neighbours the tentative distances are the old ones lowered by exactly what the unvisited non-client neighbours offer |
| Search.ExpandShape | nameserver/utils.cpp:230-266 | every turn keeps the frontier closed around the visited nodes and every tentative distance the cost of a simple walk, whatever the costs |
| Search.ExpandInv | nameserver/utils.cpp:230-266 | with non-negative costs every turn keeps the distances of visited nodes settled below the frontier |
| Search.WalkBound | nameserver/utils.cpp:230-266 | no walk beats the recorded distances and the frontier |
| Search.NearestComplete | nameserver/utils.cpp:230-269 | for any costs, negative ones included, the search fails exactly when no server can be reached without passing another client |
| Search.NearestIsNearest | nameserver/utils.cpp:224-266 | with non-negative costs the server found is at the least distance of all reachable servers |
| SearchTies.NearestIsFavoured | nameserver/utils.cpp:224-266 | with non-negative costs a server is returned exactly when a walk to it has the least cost of all walks to servers and, at that cost, the least key; this decides every tie |
| SearchTies.TieBreakExactly | nameserver/utils.cpp:127-129 | the least (distance, id) is returned exactly when a walk to it has the least key of all walks to nearest servers |
| SearchTies.NearestIsFirst | nameserver/utils.cpp:127-129 | when every link into a server has a positive cost it has the least (distance, id), although distances alone are compared |
| SearchTies.TieBreakFails | nameserver/utils.cpp:265 | with a link of cost 0 into a server the tie-break by id fails, on a concrete network |
| SearchRuns.ExpandedOnce | nameserver/utils.cpp:230-266 | whatever the costs, each node is expanded at most once, all of them lie in the universe of the origin and the non-clients, and there are no more expansions than nodes in it |
| SearchRuns.SearchOrder | nameserver/utils.cpp:230-266 | with non-negative costs the search starts at the client and expands non-clients at their exact distance, in order of distance |
| SearchRuns.SearchEnds | nameserver/utils.cpp:230-266 | the loop ends after at most as many turns as there are nodes to visit |
| SearchRuns.SumsFit | nameserver/utils.cpp:257-261 | at any moment of the search every sum lies between 0 and the cost of all links, so no 32-bit addition overflows if that total fits |
| Geography.Geography.Load | nameserver/utils.cpp:131-185 | the file is accepted exactly when no two lines clash and every type is one of the three words, and the nodes are then those of the lines, with the type each line names, and the links those of the file |
| Geography.AcceptedMaps | nameserver/utils.cpp:81-97 | every accepted line's node is found again in the maps, with the id, the address and the type that the line names |
| Geography.ClashIsOneWay | nameserver/utils.cpp:149-160 | a node without an address is refused behind a node with the address 0.0.0.0 and accepted in front of it |
| Geography.IpMapInverse | nameserver/utils.cpp:150-153 | the address map is an exact inverse of the addresses of the declared nodes |
| Geography.Geography.FindServer | nameserver/utils.cpp:204-270 | every reply is that of the search on the network as loaded: neither the cache, of at most 32 entries and evicted arbitrarily, nor the defaults that lookups insert ever change an answer |
| Geography.Geography.Remember | nameserver/utils.cpp:234-239 | eviction keeps the cache within 32 entries, keeps no wrong entry, and adds the new one |
| Geography.Geography.Traverse | nameserver/utils.cpp:224-269 | the traversal over the mutable maps finds the server of the search on values |
| Geography.KindsAreWords | nameserver/utils.cpp:86-97 | the servers of the loaded network are the ids on lines marked SERVER, and the nodes that can be walked through those on lines marked SWITCH or SERVER |
| Geography.FileComplete | nameserver/utils.cpp:230-269 | a declared client gets an empty reply exactly when no line marked SERVER is reachable over the links of the file through lines marked SWITCH or SERVER |
| Geography.FileUnknown | nameserver/utils.cpp:208-218 | any other address gets an empty reply |
| Geography.FileNearest | nameserver/utils.cpp:224-266 | from file to answer, by the words on the lines: with non-negative costs the reply is the address on a line marked SERVER that is nearest over the links, the one with the least key; when every link that touches such a line has a positive cost, the one with the least id |
| RoundRobin.RoundRobin.Next | nameserver/utils.cpp:73-78 | the host at the index, and the index moves on by one, modulo the number of hosts |
| RoundRobin.PositionAt | nameserver/utils.cpp:73-78 | the k-th request uses position k modulo the number of hosts |
| RoundRobin.RoundRobinFair | nameserver/utils.cpp:73-78 | in any window of requests two positions are used equally often give or take one, and any n in a row use each position exactly once |
| Codec.HeaderRoundTrip | nameserver/DNSHeader.h:29-68 | decoding an encoded header gives the same header, with signed OPCODE, Z and RCODE, whatever the variables held before |
| Codec.HeaderWidth | nameserver/DNSHeader.h:29-42 | an encoded header has at most 61 characters |
| Codec.HeaderWords | nameserver/DNSHeader.h:37-39 | the thirteen words of an encoded header are the fields in this order, ID, QR, OPCODE, AA, TC, RD, RA, Z, RCODE and the four counts, in decimal |
| Codec.HeaderFields | nameserver/DNSHeader.h:53-65 | which word is read into which field, for any numbers that fit, with Z and RCODE cut to a byte |
| Codec.TakeNumber | nameserver/DNSHeader.h:58-59 | what a variable of each type takes from a number in and out of its range |
| Codec.TakeOther | nameserver/DNSHeader.h:58-59 | what a variable takes from a text that is no number, or from none |
| Codec.QuestionRoundTrip | nameserver/DNSQuestion.h:24-61 | the same for questions, with any name, colons and NULs included, and any bytes behind the text |
| Codec.QuestionLayout | nameserver/DNSQuestion.h:32-36 | an encoded question is QTYPE and QCLASS as words, a colon, and the name |
| Codec.QuestionWidth | nameserver/DNSQuestion.h:24-37 | an encoded question has between 104 and 112 characters |
| Codec.RecordRoundTrip | nameserver/DNSRecord.h:28-67 | the same for records, with any name and data |
| Codec.RecordLayout | nameserver/DNSRecord.h:36-41 | an encoded record is TYPE, CLASS, TTL and RDLENGTH as words, a colon, the name and the data |
| Codec.RecordWidth | nameserver/DNSRecord.h:28-42 | an encoded record has at most 224 characters |
| Codec.FieldRoundTrip | nameserver/nameserver.cpp:206-207 | a string copied into a fixed field is read back up to its NUL |
| Wire.PrefixRoundTrip | miProxy/miProxy.cpp:228 | a 32-bit length survives the trip through its prefix |
| Wire.PrefixOrder | miProxy/miProxy.cpp:228 | prefixes are in network byte order: they compare as their numbers do |
| Wire.SendAll | miProxy/helpers.h:92-101 | whatever the partial sends, exactly the message is sent |
| Wire.SendAtLeastOnce | nameserver/nameserver.cpp:251-265 | the same for the server's loop |
| Wire.ReceiveAll | nameserver/nameserver.cpp:270-297 | the text received, padded with NULs; the size must leave room in the buffer for the terminator |
| NameServer.Server.Resolve | nameserver/nameserver.cpp:151-171 | only a query for video.cse.umich.edu gets an answer or consumes a round-robin slot |
| NameServer.Server.RunServer | nameserver/nameserver.cpp:87-108 | over every run of queries each answer is the host at the query's position, or the answer of the search on the network as loaded |
| NameServer.SlotIsMod | nameserver/nameserver.cpp:151-171 | the k-th query for the video name gets position k modulo the number of hosts, whatever other names are asked in between |
| NameServer.RunIsFair | nameserver/nameserver.cpp:151-171 | fairness over every run of queries: any window of queries for the video name uses two positions equally often give or take one, and any n of them use each position exactly once |
| NameServer.SizesRead | nameserver/nameserver.cpp:120-147 | a request is read exactly when both its sizes are below 256 |
| NameServer.HeaderMeans | nameserver/nameserver.cpp:152-155 | however it is decoded, the header of a reply is that of the query with AA set, and RCODE 3 when there is no answer |
| NameServer.RecordMeans | nameserver/nameserver.cpp:201-209 | however it is decoded, the record of a reply has type 1, class 1, TTL 0, the length of the address, the video name and the address |
| NameServer.Server.HandleConnection | nameserver/nameserver.cpp:116-246 | for any bytes on a connection and any memory: what is read, the answer to it, what the bytes that are sent decode to for every pattern of partial sends, and no reply and no slot used when the server exits or leaves its buffer |
| Exchange.RequestRead | miProxy/miProxy.cpp:222-240 | for every pattern of accepted prefix bytes and any memory, what the server reads of a request: the query that was meant exactly when the header's prefix was whole and at most one byte of the question's was lost, else an empty name or an access beyond its buffer, with the exact cases of each |
| Exchange.ReplyRead | nameserver/nameserver.cpp:195-237 | the proxy gets the address back exactly when both prefixes of the reply were accepted whole; otherwise it exits or leaves its buffer, with the exact cases of each |
| Exchange.NotFoundReply | nameserver/nameserver.cpp:174-191 | without an answer the proxy never gets an address, whatever header the reply carries, with the exact cases of exit and overrun |
| Exchange.ExchangeEnds | miProxy/miProxy.cpp:217-268 | an exchange gives the proxy an address exactly when one was chosen and no byte of a prefix was lost but at most one of the question's, and it is then the chosen one |
| Exchange.RequestSent | miProxy/miProxy.cpp:270-294 | the request of the proxy, character by character |
| Exchange.ReplySent | nameserver/nameserver.cpp:151-239 | the reply to it with an answer and without one, character by character |
| Exchange.ReplySizes | miProxy/miProxy.cpp:242-268 | a reply goes beyond the buffer of the proxy exactly when one of its sizes is above 256, but for an address without an end |
| Exchange.RequestDns | miProxy/miProxy.cpp:217-268 | end to end, with the server run on the bytes that were sent: the characters in both directions for every pattern of partial sends, and the same condition for getting the chosen address |
| Response.PrefixScan | miProxy/miProxy.cpp:439-458 | every part of a response that holds its whole header gives the same length, and a shorter part gives none |
| Response.ResponseFormat | miProxy/miProxy.cpp:439-458 | header lines, one of them the length of the body, a blank line and the body make a response (item 5 of section 3.3.3 of RFC 7230) |
| Response.HeaderRead | miProxy/miProxy.cpp:439-458 | what a header with a length line says: nothing before its blank line, an exception for a text that is no number, else the length of the message |
| Response.HeaderMissing | miProxy/miProxy.cpp:439-450 | without a length line or a blank line a header says nothing yet |
| ProxyRuns.SegmentationIndependent | miProxy/miProxy.cpp:327-371 | every split of a response into reads ends in handling it exactly once, on exactly its bytes, timed from the first read |
| ProxyRuns.ReadBeyond | miProxy/miProxy.cpp:354-371 | a read that goes beyond the end of a response is handled with it, as one message with the announced length |
| ProxyRuns.RequestSegmentation | miProxy/miProxy.cpp:142-149 | the same for a request of the client |
| ProxyRuns.RequestBeyond | miProxy/miProxy.cpp:142-149 | a read that goes beyond the end of a request is handled with it, as one message |
| ProxyRuns.RunConserves | miProxy/miProxy.cpp:354-390 | over any run the bytes read from the server are, in order, the forwarded messages and the swallowed manifests, followed by the buffer |
| ProxyRules.NextRequestText | miProxy/miProxy.cpp:175-180 | the second request of a manifest exchange has big_buck_bunny_nolist.f4m in place of the first big_buck_bunny.f4m, and is otherwise the same |
| ProxyRules.RateMeans | miProxy/miProxy.cpp:402 | a sample times the elapsed time is the number of kilobits |
| Proxy.IsVideoExactly | miProxy/miProxy.cpp:394-398 | a response is sampled exactly when its header, up to the blank line, holds the content type video/f4f |
| ProxyLockstep.RequestSent | miProxy/miProxy.cpp:155-189 | a request goes out exactly when it is for no chunk or some bitrate is known; the connection is then connected and the second request is noted |
| ProxyLockstep.ManifestReceived | miProxy/miProxy.cpp:417-437 | an awaited list manifest is read exactly when it is announced as text/xml, its attributes can be read and some bitrate is known in the end |
| ProxyLockstep.ManifestExchange | miProxy/miProxy.cpp:174-188 | in lockstep a manifest request yields exactly one forwarded response, the one to the request without a list, and sets the list and the estimate |
| ProxyLockstep.ForwardedExactly | miProxy/miProxy.cpp:344-389 | a response, chunks included, is forwarded unchanged, with nothing left over, exactly when the buffer was empty before it; the estimate then takes in the exact sample of a chunk |
| ProxyLockstep.ChunkMeasured | miProxy/miProxy.cpp:392-404 | with alpha 1 the estimate after a chunk times its time is its number of kilobits |
| ProxyLockstep.DisconnectSpoils | miProxy/miProxy.cpp:344-352 | after a response that breaks off, its part is in the buffer and the response to the next request is not forwarded as it is |
| ProxyLockstep.Session | miProxy/miProxy.cpp:155-390 | any sequence of exchanges, of manifests, chunks and others in any number of reads, gives exactly the messages of each in turn, with each chunk requested at the bitrate chosen at that point, and the exact list and estimate at the end |
| ProxyLockstep.SessionAnswers | miProxy/miProxy.cpp:373-390 | the client of a session receives exactly one response to each request, unchanged and in order |
| ProxyStreams.ChoiceIsBest | miProxy/miProxy.cpp:307-316 | at any moment of any run a chunk is requested at the largest listed bitrate with 1.5 times it at most the estimate, else at the lowest |
| ProxyStreams.RunKeepsSorted | miProxy/miProxy.cpp:434 | the list is sorted whenever it is used |
| ProxyStreams.FirstChunksLowest | miProxy/miProxy.cpp:435 | from a manifest to the first sample every chunk is requested at the lowest bitrate |
| ProxyStreams.NoChunkBelow | miProxy/miProxy.cpp:404 | once the estimate supports a listed bitrate, and while the samples do, no chunk is requested below it until the next manifest |
| ProxyStreams.RunAverages | miProxy/miProxy.cpp:392-404 | between manifests the estimate is the moving average of the samples of the run |
| ProxyStreams.ChunkRequestRewritten | miProxy/miProxy.cpp:317-319 | in any run the request that goes out for a chunk request with its marks apart differs in the chosen bitrate only, parses again to it, and its file name is the one logged |
| Bitrate.AverageClosedForm | miProxy/miProxy.cpp:404 | the estimate is the weighted sum of the initial value and all the samples |
| Bitrate.WeightsSumToOne | miProxy/miProxy.cpp:404 | these weights add up to one |
| Bitrate.AverageBounded | miProxy/miProxy.cpp:404 | the estimate stays within the range of the initial value and the samples |
| Bitrate.AverageContracts | miProxy/miProxy.cpp:404 | for a constant sample the distance to it shrinks by exactly 1 - alpha per step |
| Bitrate.ChooseIsBest | miProxy/miProxy.cpp:307-316 | the loop that stops at the first bitrate above the cap picks the best of a sorted list |
| Bitrate.SortSorts | miProxy/miProxy.cpp:434 | the sorted list is in order and holds the same numbers |
| Chunk.ChunkAccepted | miProxy/miProxy.cpp:298-306 | exactly which requests pass the check, in terms of where the last `/`, `Seg` and `-Frag` stand before ` HTTP/1.1` |
| Chunk.ChunkFormat | miProxy/miProxy.cpp:298-306 | the documented form of a chunk path passes the check, with its parts found where they stand, exactly when it has a bitrate and a segment number |
| Chunk.RewriteReparses | miProxy/miProxy.cpp:299-318 | for every request that passes the check, the rewritten one parses again to the chosen bitrate, with the path, segment and fragment where they were, exactly when the last slash comes before `Seg` and `-Frag` is not between them |
| Chunk.FragmentLost | miProxy/miProxy.cpp:304-318 | when `-Frag` is between them the rewritten request passes the check only if another one stands before the slash |
| Chunk.RewriteName | miProxy/miProxy.cpp:319 | the logged name is the bitrate with the text from `Seg` on, and it is the new file name exactly when the last slash comes before `Seg` |
| Chunk.RewriteTwice | miProxy/miProxy.cpp:304-318 | for every request that passes the check, rewriting again with the same bitrate changes nothing exactly when the last slash comes before `Seg` |
| Chunk.RewriteSettles | miProxy/miProxy.cpp:317-318 | any number of further passes then changes nothing |
| Chunk.RewriteDoubles | miProxy/miProxy.cpp:317-318 | otherwise a pass puts the text between `Seg` and the last slash there twice |
| Chunk.RewriteGrows | miProxy/miProxy.cpp:317-318 | and each of any number of passes makes the request longer by the same amount |
| Chunk.CheckWrapsAround | miProxy/miProxy.cpp:304-306 | concrete requests with the last slash behind `Seg`, and with `-Frag` in front of it, pass the check |
| Manifest.ManifestExact | miProxy/miProxy.cpp:425-433 | erasing attributes one by one yields exactly the listed bitrates in document order together with exactly the joined rest of the text, exactly when that rest holds no attribute; the bitrates alone, which are all the program keeps, can be right in other cases too |
| Manifest.ManifestThrows | miProxy/miProxy.cpp:425-433 | attributes whose values hold no quote are read exactly when every value is a number |
| Proxy.Connection.HandleClientRead | miProxy/miProxy.cpp:142-149 | a read from the client has exactly the effect of the function on states |
| Proxy.Connection.HandleRequestMessage | miProxy/miProxy.cpp:155-189 | the same for a complete request |
| Proxy.Connection.PickBitrate | miProxy/miProxy.cpp:309-316 | the same for the loop over the bitrates |
| Proxy.Connection.HandleServerRead | miProxy/miProxy.cpp:324-371 | the same for a read from the server, disconnection included |
| Proxy.Connection.HandleResponseMessage | miProxy/miProxy.cpp:373-390 | the same for a complete response |
| Proxy.Connection.MeasureThroughput | miProxy/miProxy.cpp:392-404 | the same for the sample and the average |
| Proxy.Connection.ReadAttributes | miProxy/miProxy.cpp:426-433 | the loop that finds, keeps and erases attributes, in place |

## Left out

- The select loops, sockets, accept and connect, host name lookup and the disconnection of the client: system calls around the connections that are modelled.
- Reading and splitting files, command lines, process exits, console output and the two log files; networks start from lines already split into tokens.
- Exchange.RequestDns: says nothing of what follows once the server is beyond its buffer; the exchange then ends as an overrun.
- NameServer.ReadRequest: a copy from behind the end of a text gives arbitrary bytes, and a name without a terminator is cut after its field.
- Several queries over one DNS connection: the server closes it after each reply.
- Several clients of one proxy at once: their connections share no state but the DNS socket.
- Floating-point rounding of the throughput: reals.
- Proxy.ParseXml: gives no result for an attribute whose quote is not closed, where the program throws, cuts the text, or loops.
- The demo client and server, the topology script, the makefiles and the starter files.
