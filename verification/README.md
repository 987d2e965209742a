# corosio in Dafny

A Dafny 4.11 model of the parts of corosio, a C++20 coroutine networking library, where the
reasoning is: the text forms of addresses and endpoints, the worker pool of the TCP server,
the OpenSSL stream's orchestration of the TLS engine, the composed connect, and a delimiter
scan that resumes. `dafny verify dfyconfig.toml` checks the whole project.

## What is modelled

**Address text.** `Ipv4Address` has the parser and printer of dotted decimal. `Ipv6Grammar`
writes out the nine alternatives of IPv6address in section 3.2.2 of RFC 3986 and the value each
derivation denotes (section 2.2 of RFC 4291). `Ipv6Scan` is the parser as a step function on the
remaining text, proved sound and complete for that grammar; `Ipv6Parser` is the C++ code with its
counters, its rewind into an embedded IPv4 address and the in-place expansion of `::` in a byte
array, proved to follow the step function. `Ipv6Printer` has the search for a run of zero words
and the writer. The printer elides a run of one zero word too, so the text is not the canonical
form of section 4.2.2 of RFC 5952; only the leftmost longest choice of section 4.2.3 is made.
`Endpoint` puts addresses and ports together.

**TCP server.** `WorkerPool` is the protocol as atomic steps on one serial executor: accept loops,
sessions, start, stop and the stop coroutine over an idle list, an active list and a stack of
waiting loops. `TcpServer` is the same on the heap, with intrusive linked lists and a linked stack;
every method refines one step, so every whole-run theorem about steps holds for the objects.
`WorkerSteps` says what the steps do to lists and loops.

**OpenSSL stream.** `Alpn` is the wire form and the server's choice. `TlsPump` puts the engine
behind two byte queues; engine and network are arbitrary lists of replies, so a list that runs out
stands for an operation still suspended and every finite prefix of every run is covered.
`TlsSession` adds hostname, reset and handshake attempts, over every sequence of calls.
`TlsReports` says which status each operation reports. `OpensslStream` is the object with the loops
of its operations, refining the two.

**Connect and ReadUntil.** `Connect` has both overloads against one description of a run, over a
condition that answers from all of its calls so far and a network that answers from all attempts.
`ReadUntil` has the resumed scan and the server loop of the HTTP benchmark.

## What is assumed

- The TCP server's steps run on one serial executor; `worker_base::run` invokes or drops its
  launcher before it returns; `set_workers` is called while no loop and no session lives, with
  workers that are distinct and on no active list; `bind` is called while no loop lives.
- An accept that completes after stop was requested reports an error, as the acceptor's awaitable does.
- Reading a non-empty BIO pair yields between one byte and the number asked for.
- TLS operations on one stream do not overlap; the engine holds a session only once it was asked to
  handshake; the native context does not change during a stream's life.

## Where the code and its documentation part

Each of these has a lemma with an input, and a lemma with the exact condition.

- Stop coverage. `start` looks at the accept count alone, so after stop, join and start a stop coroutine may run
  in the new session; a session launched after it is not told to stop (`WorkerPool.LateStop`).
  `WorkerPool.StopCoverage`: until the next start every active worker is told to stop and none enters the active
  list if and only if, when the coroutine ran, the server was not running with a live loop and a worker.
- Drain. A loop that waits for a worker when there is none is never woken (`WorkerPool.NoWorkersNoDrain`).
  `WorkerPool.DrainExact`: every run to rest after stop drains the server if and only if there is a worker, or no
  loop waits.
- `tls_stream::alpn_protocol` is documented as empty while the handshake has not completed. A handshake
  whose engine settled on a protocol and whose final flush failed reports that protocol
  (`TlsSession.ProtocolOfFailedHandshake`); `TlsSession.ProtocolAfterFailure` shows that this is the only case.
- An engine call that fails with an empty error queue makes an error code of value zero, which is no error. So a
  handshake or write that fails in any way, a shutdown (after SSL_ERROR_SYSCALL on purpose), and a read that ends
  in a plain failure, then with zero bytes, report success (`TlsPump.SilentFailure`). `TlsPump.Succeeds` states
  for all four operations when success is reported, `TlsPump.FinalFlush` what is then left to send.
- `tls_stream::reset` is documented to discard pending TLS data. It discards the outgoing direction. Input that
  the engine has not read stays queued and goes to the engine in the next handshake
  (`TlsSession.InputOfEarlierAttempt`). `TlsSession.ResetKeepsInput`: the next attempt starts without an earlier
  byte if and only if none was queued at the reset.
- `tls_stream::set_hostname` promises that the next handshake uses the name. For a client with a name that is so
  if and only if the name holds no NUL (`TlsSession.NameIsUsed`). Address literals stay out of the server name
  except after a name with an embedded NUL whose first part is a literal (`TlsSession.LiteralsStayOut`,
  `TlsSession.LiteralBeforeNul`).

## Model

| member | source | states |
|---|---|---|
| `Ipv4Address.PackUnpack` | src/corosio/src/ipv4_address.cpp:19-43 | splitting the packed number gives back the four bytes |
| `Ipv4Address.UnpackPack` | src/corosio/src/ipv4_address.cpp:19-43 | packing the bytes of a 32-bit number gives back the number |
| `Ipv4Address.NetworkOrder` | src/corosio/src/ipv4_address.cpp:19-25 | the first byte is the most significant: a*2^24 + b*2^16 + c*2^8 + d |
| `Ipv4Address.OctetTextOfValue` | src/corosio/src/ipv4_address.cpp:95-171 | the canonical text of a dec-octet's value is that dec-octet |
| `Ipv4Address.OctetValueOfText` | src/corosio/src/ipv4_address.cpp:95-171 | the canonical text of a byte is a dec-octet with that value |
| `Ipv4Address.GrammarIsPrintedTexts` | src/corosio/src/ipv4_address.cpp:94-206 | the strings of four dec-octets and three dots are exactly the printed texts |
| `Ipv4Address.ParseDecOctet` | src/corosio/src/ipv4_address.cpp:127-171 | succeeds exactly when an octet starts there and no digit follows it, and then consumes exactly its canonical text |
| `Ipv4Address.ParseIpv4Address` | src/corosio/src/ipv4_address.cpp:175-206 | accepts exactly the IPv4address strings; a.b.c.d gives a*2^24 + b*2^16 + c*2^8 + d; unchanged on failure |
| `Ipv4Address.WriteOctet` | src/corosio/src/ipv4_address.cpp:98-112 | writes the canonical text of a byte behind what was written before |
| `Ipv4Address.PrintImpl` | src/corosio/src/ipv4_address.cpp:94-121 | writes the dotted text of the number, at most 15 characters |
| `Ipv4Address.PrintingIsInjective` | src/corosio/src/ipv4_address.cpp:94-121 | equal texts come from equal addresses |
| `Ipv4Address.TextDeterminesNumber` | src/corosio/src/ipv4_address.cpp:19-121 | equal texts come from equal 32-bit numbers |
| `Ipv4Address.PrintThenParse` | src/corosio/src/ipv4_address.cpp:94-206 | parse after print is the identity on all 32-bit numbers |
| `Ipv6Grammar.DerivationFits` | src/corosio/src/ipv6_address.cpp:290-415 | a derivation is a list of groups of exactly eight words, or of at most seven around an elision, and conversely |
| `Ipv6Grammar.HexDigits` | src/corosio/src/ipv6_address.cpp:222-232 | the values of the hexadecimal digits, in both cases |
| `Ipv6Grammar.HighByteFirst` | src/corosio/src/ipv6_address.cpp:262-263 | each word is stored with its high byte first |
| `Ipv6Grammar.OctetsRoundTrip` | src/corosio/src/ipv6_address.cpp:262-263 | splitting sixteen bytes into words loses nothing |
| `Ipv6Grammar.WordsRoundTrip` | src/corosio/src/ipv6_address.cpp:174-196 | joining the bytes of eight words gives back the words |
| `Ipv6Scan.OctetReadsAsWord` | src/corosio/src/ipv6_address.cpp:268-280 | the hexadecimal reading of any octet's decimal text passes the octet filter |
| `Ipv6Scan.DottedStart` | src/corosio/src/ipv6_address.cpp:268-280 | a dotted address starts with a word that passes the octet filter, and a dot follows |
| `Ipv6Scan.TakeDottedSound` | src/corosio/src/ipv6_address.cpp:350-390 | a rewind that succeeds turns the tree read so far into a derivation of the whole string |
| `Ipv6Scan.CompleteDotted` | src/corosio/src/ipv6_address.cpp:350-390 | the filters before the rewind lose no valid dotted tail |
| `Ipv6Scan.StepSound` | src/corosio/src/ipv6_address.cpp:297-415 | every step keeps a tree whose text is what was read |
| `Ipv6Scan.RunSound` | src/corosio/src/ipv6_address.cpp:297-419 | an accepted string has a derivation with the words found |
| `Ipv6Scan.RunComplete` | src/corosio/src/ipv6_address.cpp:297-419 | from any state, every completion of the tree read so far is accepted with its words |
| `Ipv6Scan.RunIsGrammar` | src/corosio/src/ipv6_address.cpp:284-451 | the scan accepts exactly the IPv6address strings |
| `Ipv6Scan.ValueIsUnique` | src/corosio/src/ipv6_address.cpp:284-451 | two derivations of one string denote the same words |
| `Ipv6Parser.ParseH16` | src/corosio/src/ipv6_address.cpp:236-265 | takes the longest run of one to four hex digits, and its two bytes are the value |
| `Ipv6Parser.ParseDottedTail` | src/corosio/src/ipv6_address.cpp:362-383 | once the first IPv4 parse succeeds, the re-scan ends at the end and the second parse gives the same address |
| `Ipv6Parser.ExpandElision` | src/corosio/src/ipv6_address.cpp:427-447 | all three cases give prefix words, zeros, suffix words, and every move and fill stays inside the sixteen bytes |
| `Ipv6Parser.ReadWord` | src/corosio/src/ipv6_address.cpp:336-344 | a word read is stored at the next free place and counted |
| `Ipv6Parser.ReadDotted` | src/corosio/src/ipv6_address.cpp:350-390 | the rewind overwrites the last word with the address bytes, or fails when the scan does |
| `Ipv6Parser.ReadColon` | src/corosio/src/ipv6_address.cpp:310-348 | the colon cases follow the scan; words stored, words needed and the elision add up to eight |
| `Ipv6Parser.ReadFirstWord` | src/corosio/src/ipv6_address.cpp:392-414 | the word cases follow the scan, with the same sum |
| `Ipv6Parser.ParseIpv6Address` | src/corosio/src/ipv6_address.cpp:284-451 | accepts exactly the IPv6address strings; the bytes are the value of every derivation; unchanged on failure |
| `Ipv6Printer.HexTextReads` | src/corosio/src/ipv6_address.cpp:114-145 | the printed word is an h16 with that value |
| `Ipv6Printer.PrintHex` | src/corosio/src/ipv6_address.cpp:114-145 | writes the printed text of the word, which is its shortest lower-case one (`Ipv6Printer.HexTextShortest`) |
| `Ipv6Printer.FourDigits` | src/corosio/src/ipv6_address.cpp:250-260 | four hexadecimal digits read as their positional value |
| `Ipv6Printer.HexTextShortest` | src/corosio/src/ipv6_address.cpp:114-145 | the printed text of a word has no leading zero and no upper-case digit |
| `Ipv6Printer.ShortestIsPrinted` | src/corosio/src/ipv6_address.cpp:114-145 | a text without leading zero or upper-case digit is the printed text of its value, so that text is unique |
| `Ipv6Printer.BestRunUnique` | src/corosio/src/ipv6_address.cpp:147-169 | there is one leftmost longest run of zero words |
| `Ipv6Printer.BestRunMeans` | src/corosio/src/ipv6_address.cpp:147-169 | any other run of zero words is shorter, or as long and further right |
| `Ipv6Printer.CountZeroes` | src/corosio/src/ipv6_address.cpp:101-112 | counts the zero words from a place up to the first other word |
| `Ipv6Printer.FindBestRun` | src/corosio/src/ipv6_address.cpp:147-169 | finds the leftmost longest run, over six words when v4-mapped |
| `Ipv6Printer.PrintWords` | src/corosio/src/ipv6_address.cpp:171-199 | writes the groups around the elided run |
| `Ipv6Printer.PrintImpl` | src/corosio/src/ipv6_address.cpp:98-217 | writes the canonical text inside the buffer: shortest lower-case texts of the words outside the best run, `::` exactly when a word is zero, the dotted quad exactly for images of IPv4 addresses |
| `Ipv6Printer.PrintedIsCanonical` | src/corosio/src/ipv6_address.cpp:98-217 | the printed tree has that form, group by group |
| `Ipv6Printer.CanonicalIsUnique` | src/corosio/src/ipv6_address.cpp:98-217 | that form leaves one tree for each address |
| `Ipv6Printer.MappedIsImage` | src/corosio/src/ipv6_address.cpp:73-80 | the v4-mapped addresses are exactly the images of IPv4 addresses |
| `Ipv6Printer.PrintedTreeDenotes` | src/corosio/src/ipv6_address.cpp:98-217 | that tree is a derivation and denotes the address, v4-mapped or not |
| `Ipv6Printer.PrintedLength` | include/boost/corosio/ipv6_address.hpp:75 | at most 39 characters, at most 22 when v4-mapped |
| `Ipv6Printer.MappedText` | src/corosio/src/ipv6_address.cpp:24-29 | the v4-mapped address of a dotted quad prints as `::ffff:` and the quad |
| `Ipv6Printer.PrintThenParse` | src/corosio/src/ipv6_address.cpp:98-451 | parse after print is the identity on all sixteen-byte addresses |
| `Ipv6Printer.TextDeterminesAddress` | src/corosio/src/ipv6_address.cpp:98-217 | equal texts come from equal addresses |
| `Endpoint.FromChars` | src/corosio/src/endpoint.cpp:55-58 | reads the longest digit prefix, or reports overflow of the type |
| `Endpoint.ParsePort` | src/corosio/src/endpoint.cpp:45-64 | accepts exactly the decimal texts of 0 to 65535 without leading zeros |
| `Endpoint.DecimalPositions` | src/corosio/src/endpoint.cpp:55-58 | decimal reading is positional |
| `Endpoint.DetectEndpointFormat` | src/corosio/src/endpoint.cpp:16-39 | the format by bracket and number of colons |
| `Endpoint.FormatOfForm` | src/corosio/src/endpoint.cpp:16-39 | no string of a documented form is routed to another parser |
| `Endpoint.ParsePlainV4` | src/corosio/src/endpoint.cpp:78-86 | succeeds exactly on the address form, with port 0 |
| `Endpoint.ParsePortV4` | src/corosio/src/endpoint.cpp:88-109 | succeeds exactly on address, colon, port |
| `Endpoint.ParsePlainV6` | src/corosio/src/endpoint.cpp:111-119 | succeeds exactly on the address form, with port 0 |
| `Endpoint.ParseBracketed` | src/corosio/src/endpoint.cpp:121-152 | succeeds exactly on a bracketed address with or without port |
| `Endpoint.ParseEndpoint` | src/corosio/src/endpoint.cpp:68-157 | accepts exactly the union of the documented forms; family, address and port are those of the form, field by field, port 0 where none is written; unchanged on failure |
| `Endpoint.PrintThenParseV4` | src/corosio/src/endpoint.cpp:68-157 | a printed IPv4 address and port parse back to an IPv4 endpoint with that address and port |
| `Endpoint.PrintThenParseV6` | src/corosio/src/endpoint.cpp:68-157 | a bracketed printed IPv6 address and port parse back to an IPv6 endpoint with that address and port |
| `WorkerPool.StepKeeps` | include/boost/corosio/tcp_server.hpp:373-448 | every step keeps each worker in exactly one place, the waiter stack in step with the waiting loops, and the count of live loops |
| `WorkerPool.AcceptKeeps` | src/corosio/src/tcp_server.cpp:82-91 | so does an accept that fails, is launched, dropped or cannot be set up |
| `WorkerSteps.EntersActive` | src/corosio/src/tcp_server.cpp:84-90 | a worker enters the active list exactly when its accept succeeds before stop and it launches a session; then it is last and not told to stop |
| `WorkerSteps.LeavesActive` | include/boost/corosio/tcp_server.hpp:373-377 | it leaves exactly by the push at the end of its session, and the others keep their order |
| `WorkerSteps.AcceptFails` | src/corosio/src/tcp_server.cpp:84-89 | a failed accept, and any accept after stop, changes the loop alone, which keeps the worker to push it back |
| `WorkerSteps.LoopReturns` | include/boost/corosio/tcp_server.hpp:520-568 | a worker pushed back, dropped or not set up goes to the top waiter, or to the front of the idle list when nobody waits |
| `WorkerSteps.SessionReturns` | include/boost/corosio/tcp_server.hpp:373-390 | so does a worker whose session ended |
| `WorkerSteps.FailedAcceptReturns` | src/corosio/src/tcp_server.cpp:84-89 | over every run, the worker of a failed accept stays with its loop until the loop pushes it, and then goes there |
| `WorkerSteps.Takes` | src/corosio/src/tcp_server.cpp:80-83 | a loop ends once stop is requested, else takes the front of the idle list, else goes on top of the stack |
| `WorkerSteps.Resumes` | include/boost/corosio/tcp_server.hpp:417-421 | a woken loop accepts with the worker it was handed |
| `WorkerSteps.Starts` | src/corosio/src/tcp_server.cpp:116-142 | one loop for each port, or no effect |
| `WorkerSteps.Stops` | src/corosio/src/tcp_server.cpp:144-157 | the token is set and a stop coroutine can run |
| `WorkerSteps.Flags` | src/corosio/src/tcp_server.cpp:116-157 | the server runs from a start that takes effect until a stop, and the token is set in between |
| `WorkerSteps.StopRequests` | src/corosio/src/tcp_server.cpp:166-174 | stop is requested of exactly the active workers by the stop coroutine and withdrawn from exactly the worker that is launched |
| `WorkerSteps.NewWorkers` | include/boost/corosio/tcp_server.hpp:664-679 | new workers are idle, the last first to be taken |
| `WorkerSteps.PortsAreBinds` | src/corosio/src/tcp_server.cpp:94-106 | over every run the ports are the successful binds |
| `WorkerPool.Safety` | src/corosio/src/tcp_server.cpp:74-174 | in every reachable state each worker is idle, active or in the hands of one loop, once; loops wait only while none is idle |
| `WorkerPool.LateStop` | src/corosio/src/tcp_server.cpp:116-174 | a run with stop, join and start in which the stop coroutine comes late and a session started after it is not told to stop |
| `WorkerPool.SomeLaunch` | src/corosio/src/tcp_server.cpp:74-92 | wherever the workers are, a running server with a live loop and a worker has a run that starts a session not told to stop |
| `WorkerPool.StopCoverage` | src/corosio/src/tcp_server.cpp:144-174 | from the stop coroutine to the next start, every active worker has stop requested and none enters the active list, if and only if the server was not running with a live loop and a worker when it ran |
| `WorkerPool.StoppingStep` | src/corosio/src/tcp_server.cpp:74-92 | once stopping, every step of the executor makes the measure smaller |
| `WorkerPool.NotStuck` | src/corosio/src/tcp_server.cpp:74-92 | with a worker in the pool, no state with a live loop or an active worker is stuck |
| `WorkerPool.QuietMeansNoStep` | src/corosio/src/tcp_server.cpp:74-92 | the states at rest are exactly those without a possible step |
| `WorkerPool.QuietIsDrained` | src/corosio/src/tcp_server.cpp:159-164 | with a worker, rest after stop means no live loop and every worker idle, and conversely |
| `WorkerPool.Drain` | src/corosio/src/tcp_server.cpp:144-164 | a run after stop is no longer than the measure; where it rests, the count is zero and every worker idle exactly when at the start there was a worker or nobody waited |
| `WorkerPool.NoWorkersNoDrain` | src/corosio/src/tcp_server.cpp:80-81 | a run without workers in which the count never reaches zero |
| `WorkerPool.RestIsDrained` | src/corosio/src/tcp_server.cpp:144-164 | at rest after stop, drained if and only if there is a worker or nobody waits |
| `WorkerPool.Rests` | src/corosio/src/tcp_server.cpp:144-164 | from every state after stop there is a run to rest |
| `WorkerPool.DrainExact` | src/corosio/src/tcp_server.cpp:144-164 | all runs to rest after stop drain the server if and only if there is a worker or no loop waits |
| `TcpServer.LinkIdle` | include/boost/corosio/tcp_server.hpp:182-186 | the pointer stores of a push make the idle chain one longer at the front and keep the active list |
| `TcpServer.LinkActive` | include/boost/corosio/tcp_server.hpp:202-211 | the pointer stores of an append keep next, prev, head and tail consistent |
| `TcpServer.UnlinkActive` | include/boost/corosio/tcp_server.hpp:213-227 | unlinking at any position keeps the order of the rest and all links |
| `TcpServer.TcpServer.GuardIsAbsence` | include/boost/corosio/tcp_server.hpp:215-217 | the guard of the removal is true exactly for the workers outside the active list |
| `TcpServer.TcpServer.IdlePush` | include/boost/corosio/tcp_server.hpp:182-186 | the idle list gains the worker at the front |
| `TcpServer.TcpServer.IdlePop` | include/boost/corosio/tcp_server.hpp:188-194 | takes the front, or returns null exactly on the empty list |
| `TcpServer.TcpServer.ActivePush` | include/boost/corosio/tcp_server.hpp:202-211 | the active list gains the worker at the end |
| `TcpServer.TcpServer.ActiveRemove` | include/boost/corosio/tcp_server.hpp:213-227 | takes the worker out wherever it is, or leaves the list alone |
| `TcpServer.TcpServer.Wake` | include/boost/corosio/tcp_server.hpp:378-385 | the top waiter leaves the stack with the worker in its slot |
| `TcpServer.TcpServer.Deliver` | include/boost/corosio/tcp_server.hpp:378-389 | a worker goes to the top waiter, or to the idle list when nobody waits |
| `TcpServer.TcpServer.PushSync` | include/boost/corosio/tcp_server.hpp:433-448 | refines the return of a worker |
| `TcpServer.TcpServer.Suspend` | include/boost/corosio/tcp_server.hpp:406-415 | the loop's waiter, empty, goes on top of the stack |
| `TcpServer.TcpServer.Pop` | include/boost/corosio/tcp_server.hpp:401-423 | the worker taken is never null; a loop waits exactly when none is idle |
| `TcpServer.TcpServer.Test` | src/corosio/src/tcp_server.cpp:80-83 | refines the top of the accept loop; the count goes down once per ended loop |
| `TcpServer.TcpServer.Resume` | include/boost/corosio/tcp_server.hpp:417-421 | the worker in the slot is never null and is the one handed over |
| `TcpServer.TcpServer.LaunchSession` | include/boost/corosio/tcp_server.hpp:548-580 | launched, the worker is last on the active list with a fresh stop source; a failed setup brings it back |
| `TcpServer.TcpServer.CompleteAccept` | src/corosio/src/tcp_server.cpp:84-90 | refines the end of an accept: error, launch, drop or failed setup |
| `TcpServer.TcpServer.PushBack` | src/corosio/src/tcp_server.cpp:85-89 | refines the push after a failed accept |
| `WorkerPool.SessionsReturn` | include/boost/corosio/tcp_server.hpp:340-343 | over every run, a worker's ended sessions and its pushes at their end match one for one, with at most one outstanding |
| `TcpServer.TcpServer.ReturnSession` | include/boost/corosio/tcp_server.hpp:373-390 | refines the push at the end of a session |
| `TcpServer.TcpServer.Bind` | src/corosio/src/tcp_server.cpp:94-106 | one more port, or an error and no change |
| `TcpServer.TcpServer.SetWorkers` | include/boost/corosio/tcp_server.hpp:664-679 | the pool is exactly the new workers, idle, last first, stop requests they bring along kept |
| `TcpServer.TcpServer.Start` | src/corosio/src/tcp_server.cpp:116-142 | no effect while running; fails exactly when loops of the session before live; else one loop per port |
| `TcpServer.TcpServer.Stop` | src/corosio/src/tcp_server.cpp:144-157 | no effect unless running; else the token is set and one stop coroutine is launched |
| `TcpServer.TcpServer.DoStop` | src/corosio/src/tcp_server.cpp:166-174 | every active worker, and no other, gets stop requested |
| `TcpServer.TcpServer.constructor` | include/boost/corosio/tcp_server.hpp:172-179 | starts in the initial state |
| `Alpn.OfferedReads` | src/openssl/src/openssl_stream.cpp:305-317 | every input is the wire form of its entries and a remainder that holds none |
| `Alpn.ReadingIsUnique` | src/openssl/src/openssl_stream.cpp:305-317 | and has no other such reading |
| `Alpn.BuildAlpnWire` | src/openssl/src/openssl_stream.cpp:125-140 | decoding the result gives exactly the protocols of 1 to 255 bytes, in order; it is empty exactly when there is none |
| `Alpn.OfferableOrder` | src/openssl/src/openssl_stream.cpp:129-139 | what is offered of a list is what is offered of its parts, in order |
| `Alpn.FindEntry` | src/openssl/src/openssl_stream.cpp:305-317 | finds the first entry of the well-formed prefix that equals the preference, exactly when there is one |
| `Alpn.AlpnSelect` | src/openssl/src/openssl_stream.cpp:291-323 | for any bytes: a slice of the input that equals the earliest preference on offer; fatal exactly when none is; no acknowledgement exactly without preferences |
| `Alpn.Negotiation` | src/openssl/src/openssl_stream.cpp:125-323 | on an encoded offer the server picks its first preference the client can offer, and refuses exactly when there is none |
| `TlsPump.FlushDelivers` | src/openssl/src/openssl_stream.cpp:746-775 | a flush sends the queue in order; what an error leaves unsent is the next part |
| `TlsReports.FlushReports` | src/openssl/src/openssl_stream.cpp:746-775 | a flush succeeds exactly when the network completes all its writes, and else reports the error of the first that fails |
| `TlsReports.FlushSends` | src/openssl/src/openssl_stream.cpp:746-775 | it sends exactly what the network takes, also when it fails |
| `TlsReports.WritesIs` | src/openssl/src/openssl_stream.cpp:750-759 | it makes one write for each started buffer of 16384 bytes |
| `TlsReports.NetworkRead` | src/openssl/src/openssl_stream.cpp:777-795 | a network read reports the network's error, or a full queue exactly when the data do not fit |
| `TlsReports.EngineCall` | src/openssl/src/openssl_stream.cpp:808-811 | an engine call takes from the front of the input, adds its output at the end and leaves its session |
| `TlsReports.DriveProduces` | src/openssl/src/openssl_stream.cpp:797-1100 | the output of an operation is that of its engine calls, in order |
| `TlsPump.DriveDelivers` | src/openssl/src/openssl_stream.cpp:797-1100 | for every operation, engine and network, bytes sent are the engine's output in order, without gap or repetition, up to the first failed flush |
| `TlsPump.DriveFeeds` | src/openssl/src/openssl_stream.cpp:777-1100 | the engine is fed the bytes of the network in order up to the first read its queue cannot take whole |
| `TlsPump.DriveReads` | src/openssl/src/openssl_stream.cpp:797-1100 | every network read starts with nothing left to send; success means one read for each request |
| `TlsPump.DriveEnds` | src/openssl/src/openssl_stream.cpp:797-1100 | the call that ends a successful operation and what it leaves queued |
| `TlsPump.FinalFlush` | src/openssl/src/openssl_stream.cpp:880-1100 | exactly when a successful handshake, write or shutdown leaves nothing to send |
| `TlsPump.DriveByEnding` | src/openssl/src/openssl_stream.cpp:797-1100 | the result of an operation is decided by its ending reply and the flush after it |
| `TlsPump.Succeeds` | src/openssl/src/openssl_stream.cpp:797-1100 | exactly when each of the four operations reports success |
| `TlsReports.ReadReports` | src/openssl/src/openssl_stream.cpp:797-878 | exactly when a read reports end of file, a truncated stream, any other error, and success |
| `TlsReports.ShutdownReports` | src/openssl/src/openssl_stream.cpp:142-156 | a shutdown turns a closed or broken connection into a truncated stream and reports any other error as it is |
| `TlsReports.OthersReport` | src/openssl/src/openssl_stream.cpp:880-1033 | a handshake or write reports every error as it is |
| `TlsPump.SilentFailure` | src/openssl/src/openssl_stream.cpp:179-186 | for each operation, the failing calls that an empty error queue turns into success, their output unsent |
| `TlsSession.StepKeeps` | src/openssl/src/openssl_stream.cpp:712-1003 | every call keeps what `Safety` needs |
| `TlsSession.Safety` | src/openssl/src/openssl_stream.cpp:712-1003 | over every run: settings at the engine call depend on role and hostname alone, no session is carried in, the reported protocol is that of the latest completed attempt; since the last reset, output is sent in order until an operation goes on after a flush that left bytes unsent, and input is what the reset left queued and then what was received, in order |
| `TlsSession.HandshakeOutcome` | src/openssl/src/openssl_stream.cpp:941-1033 | exactly when a whole handshake succeeds, in terms of context, role, name and the library calls; before the engine every failure is an invalid argument and touches neither engine nor network |
| `TlsSession.HostnamePersists` | include/boost/corosio/tls_stream.hpp:161-190 | over every run the current hostname is the last one set, across resets and handshakes |
| `TlsSession.OrderKept` | src/openssl/src/openssl_stream.cpp:746-795 | the order of bytes is given up only after a failure |
| `TlsSession.QueuedInput` | src/openssl/src/openssl_stream.cpp:941-997 | the engine is given the role, name, settings and offer of this handshake, and exactly the input that was queued before it, reset or not |
| `TlsSession.ResetKeepsInput` | include/boost/corosio/tls_stream.hpp:136-159 | after a reset, the next attempt starts without an earlier byte if and only if none was queued |
| `TlsSession.InputOfEarlierAttempt` | include/boost/corosio/tls_stream.hpp:136-159 | a run in which a byte received in one attempt goes to the engine in the next |
| `TlsSession.PrepareKeeps` | src/openssl/src/openssl_stream.cpp:941-988 | an attempt reaches the engine only with every setting applied |
| `TlsSession.HandshakeSucceeds` | src/openssl/src/openssl_stream.cpp:990-1032 | exactly when the handshake loop reports success |
| `TlsSession.ProtocolAfterFailure` | include/boost/corosio/tls_stream.hpp:219-235 | exactly when a failed handshake leaves a protocol to report |
| `TlsSession.ProtocolOfFailedHandshake` | include/boost/corosio/tls_stream.hpp:219-235 | an input for which it does |
| `TlsSession.LiteralsStayOut` | src/openssl/src/openssl_stream.cpp:97-105 | exactly when the server name is an address literal |
| `TlsSession.LiteralBeforeNul` | src/openssl/src/openssl_stream.cpp:95-105 | a hostname for which it is |
| `TlsSession.LiteralHasNoNul` | src/openssl/src/openssl_stream.cpp:81-87 | no string the address parsers accept holds a NUL |
| `TlsSession.NameIsUsed` | include/boost/corosio/tls_stream.hpp:161-190 | a client handshake uses the given name if and only if it holds no NUL |
| `TlsSession.NamesApplied` | src/openssl/src/openssl_stream.cpp:89-116 | the settings for no name, an address literal and any other name |
| `TlsSession.SettleStops` | src/openssl/src/openssl_stream.cpp:104-115 | the settings calls stop at the first that fails |
| `OpensslStream.IsIpLiteralText` | src/openssl/src/openssl_stream.cpp:81-87 | true exactly for the strings of the two address grammars |
| `OpensslStream.OpensslStream.TakeOutput` | src/openssl/src/openssl_stream.cpp:750-759 | however short each read comes up, the buffer gets the front of the queue, as much as fits |
| `OpensslStream.OpensslStream.FlushOutput` | src/openssl/src/openssl_stream.cpp:746-775 | refines the flush |
| `OpensslStream.OpensslStream.ReadInput` | src/openssl/src/openssl_stream.cpp:777-795 | refines the network read |
| `OpensslStream.OpensslStream.DoReadSome` | src/openssl/src/openssl_stream.cpp:797-878 | refines the read whose report `TlsReports.ReadReports` states; the first buffer with room gets the engine's plain data, all or as much as fits, and nothing else changes in any buffer |
| `OpensslStream.OpensslStream.DoWriteSome` | src/openssl/src/openssl_stream.cpp:880-939 | refines the write operation; the engine took exactly the reported bytes, from the front of the first buffer that has some, even when the flush after it fails |
| `OpensslStream.OpensslStream.DoShutdown` | src/openssl/src/openssl_stream.cpp:1035-1100 | refines the shutdown whose report `TlsReports.ShutdownReports` states |
| `OpensslStream.OpensslStream.Reset` | src/openssl/src/openssl_stream.cpp:712-734 | no session, no queued output, no protocol, unused; unread input stays |
| `OpensslStream.OpensslStream.CaptureAlpn` | src/openssl/src/openssl_stream.cpp:736-744 | records a protocol if there is one |
| `OpensslStream.OpensslStream.ApplyHostnameVerification` | src/openssl/src/openssl_stream.cpp:89-116 | refines the settings calls, stopping at the first that fails |
| `OpensslStream.OpensslStream.DoHandshake` | src/openssl/src/openssl_stream.cpp:941-1033 | refines the handshake whose outcome `TlsSession.HandshakeOutcome` states |
| `OpensslStream.OpensslStream.SetHostname` | src/openssl/src/openssl_stream.cpp:1210-1214 | changes the hostname alone |
| `Connect.RunIsUnique` | include/boost/corosio/connect.hpp:182-307 | candidates, condition and network determine the run |
| `Connect.TcpSocket.Connect` | include/boost/corosio/tcp_socket.hpp:379-384 | opens in the endpoint's family only if closed, else keeps the descriptor |
| `Connect.TryCandidate` | include/boost/corosio/connect.hpp:190-201 | an accepted candidate is tried on a socket closed first, a rejected one leaves the socket alone |
| `Connect.ConnectRange` | include/boost/corosio/connect.hpp:182-214 | performs the run; attempts are the accepted candidates up to the one that ends it, each on a socket reopened in its family; error and endpoint as documented |
| `Connect.ConnectIterators` | include/boost/corosio/connect.hpp:275-307 | performs the same run; error and position as documented |
| `Connect.OverloadsAgree` | include/boost/corosio/connect.hpp:182-307 | same questions, same attempts, same error, same endpoint |
| `Connect.LastAttemptDecides` | include/boost/corosio/connect.hpp:182-214 | every attempt but the last was refused, and the result is the endpoint or the error of the last; no device without an attempt |
| `Connect.CandidateIsTried` | include/boost/corosio/connect.hpp:188-207 | a candidate is tried exactly when the condition accepts it, asked with the error of the latest attempt |
| `Connect.EveryCandidate` | include/boost/corosio/connect.hpp:139-148 | without a condition the attempts are the candidates up to the one that ends it |
| `ReadUntil.NothingBefore` | perf/bench/corosio/http_server_bench.cpp:53-56 | no delimiter starts before the place where the scan resumes |
| `ReadUntil.ReadUntil` | perf/bench/corosio/http_server_bench.cpp:44-64 | the end found is the first in the whole stream for every chunking; an error wins over a delimiter in the same read |
| `ReadUntil.ServerTask` | perf/bench/corosio/http_server_bench.cpp:67-87 | one response for each left-to-right non-overlapping delimiter read without error, until a write fails |

## Left out

- Socket, acceptor, file, resolver, timer and signal front ends and all backends: they forward to services that are not part of this model.
- Building the OpenSSL context, its callbacks, and WolfSSL: calls into foreign code.
- Byte order under overlapping TLS reads and writes: the output buffer is filled outside the lock, so none is promised.
- OpensslStream.OpensslStream.TakeOutput: does not model a BIO read that fails although bytes are pending, which a BIO pair does not do.
- Alpn.AlpnSelect: does not model wrap-around of the 32-bit position; a protocol list is shorter than 65536 bytes.
- OpensslStream.OpensslStream.ReadInput: the receive buffer is a value, not an array.
- FIFO fairness among waiting accept loops: the waiter list is a stack.
- TcpServer.TcpServer.CompleteAccept: an exception that escapes `worker_base::run` is not modelled, only one that its caller sees as a failed setup.
- Blocking in `join`: it waits for the count to be zero, which `WorkerPool.Drain` is about.
- Move construction and assignment of the server, and destroying it with live loops.
- Ipv6Printer.PrintImpl: positions are counted in words where the code counts bytes.
- Comparison and ordering of endpoints, address classification, timed running of the io_context: easy members.
- `std::from_chars` beyond unsigned decimal numbers: the width of `unsigned long` is a parameter of at least 16 bits.
