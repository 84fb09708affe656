# Verified models from the network programming exercises

This project models the self-contained algorithms and protocols of the repository: the
address conversions, the Internet checksum and its use on raw UDP datagrams, the preforked
and prethreaded servers, the reliable UDP client, the signal-driven echo server, the
nonblocking clients, the address list of getaddrinfo(), the line readers and the locked
shared-memory writer. `dafny verify dfyconfig.toml` checks all of it.

Each component is one module. Code that works by changing variables, buffers, list nodes or
shared fields is a method or a class with those fields and loops; it is proved against a
function or step relation on values, and what the code is for is proved about that function
or relation in lemmas. Protocols with several parties are step systems: a run is any
sequence of enabled steps, and the classes are shown to take only such steps. What the
system decides (the result of select(), the size of a partial read or write, EINTR, which
thread a signal wakes, when a signal handler runs, what the network does with a datagram,
clock readings, the descriptor that socket() returns) is a parameter or a nondeterministic
choice, so each result holds for all of it.

| module | what it models |
|---|---|
| Base, Text, Numerals | bytes, splitting text at a separator, the numerals of sprintf() |
| Inet4, Inet6Parse, Inet6Grammar, Inet6Print | IPv4 and IPv6 addresses as text, both ways |
| Checksum, Udp | the one's-complement checksum; UDP datagrams written raw and checked |
| Prefork | the server that passes descriptors to its children |
| Rtt, SendRecv | the round-trip estimator and the request-reply client over a bad network |
| SigioEcho | the ring between a signal handler and the main loop |
| Copier, WebFetch | the full-duplex copier and the parallel fetcher |
| Ring, CondVar, BoundedBuffer, ThreadPool | rings between threads with condition variables |
| AddrInfo | the linked list that ga_port() grows while it walks it |
| ReadLine | the buffered and the byte-at-a-time line reader |
| SharedWriter | processes that alternate characters under a file lock |

Conventions: a C string is the text before its NUL. Words of 16 and 32 bits are integers with
their wrap-around written out; `|` and `<<` on disjoint bits are sums and products. Floats are
reals. A critical section under a mutex or file lock is one step.

Where the code and its comments or documents differ, the model follows the code:

- inet_pton.c:134 says that "::" in a full address is silently ignored. The code clears the
  bytes after it (`Inet6Parse.ShiftGap`), so `1:2:3:4:5:6:7::8` loses its last group.
- A single colon after the last group is accepted, which RFC 4291 does not allow, and a group
  or an octet may have any number of leading zeros. `Inet6Grammar.AgreesWithRfc` says exactly when the two
  agree, and `Inet6Grammar.DiffersFromRfc` shows texts on which they do not.
- The size of `tmp` in inet_ntop6 allows for 45 characters; no address needs more than 39.
- ga_port.c:24-26 says that the algorithm handles any number of socket types. It does, but from
  the third on they come out in reverse order after the first (`AddrInfo.BlockEntry`).
- The handler of dgecho01.c reports an overflow as soon as the eighth datagram is queued, also
  when nothing more is waiting, so seven is the most that can be queued safely.
- A datagram that arrives before dgecho01.c:48 raises no SIGIO, and the server sleeps on it
  until another one comes (`SigioEcho.Server.AwaitDatagram`).
- The counters that serv08.c prints are incremented after the unlock, so they can be short of
  the connections handed out (`ThreadPool.RunIsSafe`).
- The ring of serv08.c holds 31 descriptors, not the 32 it has slots for.
- At end of file with nothing read, lib/readline.c stores a NUL in the caller's buffer and
  server/readline.c stores nothing, so what was in the buffer stays there
  (`ReadLine.SideBySide`).
- The read-ahead buffer of lib/readline.c is shared by all descriptors: what was read ahead
  from one is delivered to the next call for any other (`ReadLine.Reader.MyRead`).
- server/readline.c counts a partial line at end of file one too long
  (`ReadLine.ReturnValuesAgree`), and both readers count a line cut short for want of room
  one too long.
- The capacity check of incr.c is made before the wait for the other process and not after it,
  so the counter can pass SIZE - 1: `SharedWriter.PassesTheLimit` says when, and
  `SharedWriter.BoundIsReached` how far.
- The sequence number of dg_send_recv.c has 32 bits and is never reset: replies are the call's
  own exactly as long as there have been at most 2^32 calls (`SendRecv.OnlyOwnEchoesMatch`).

## Model
| member | source | states |
|---|---|---|
| Inet4.QuadGrammar | network-programming-2013/exercise5/unpv13e/libfree/inet_pton.c:95-124 | Both directions, for texts of any length: the dotted quads are p0.p1.p2.p3 for four nonempty digit groups, and byte k of the address is the value of group k, so at most 255 |
| Inet4.ScanMeaning | network-programming-2013/exercise5/unpv13e/libfree/inet_pton.c:98-119 | The character loop, started from what any prefix of the text means, ends in what the whole text means |
| Inet4.ScanQuad | network-programming-2013/exercise5/unpv13e/libfree/inet_pton.c:95-121 | The loop over `saw_digit`, `octets` and `tmp` accepts what the scan accepts and leaves the octets in `tmp` |
| Inet4.InetPton4 | network-programming-2013/exercise5/unpv13e/libfree/inet_pton.c:86-125 | Accepts exactly the dotted quads, stores the four bytes and touches nothing else; a refusal leaves the whole buffer alone |
| Inet4.QuadRoundTrip | network-programming-2013/exercise5/unpv13e/libfree/inet_ntop.c:91-99 | Parsing what `inet_ntop4` prints gives back the four bytes |
| Inet4.QuadTextShape | network-programming-2013/exercise5/unpv13e/libfree/inet_ntop.c:91-94 | The printed quad has 7 to 15 characters, digits and dots only |
| Inet4.AtonMeaning | network-programming-2013/exercise5/unpv13e/libfree/inet_aton.c:28-62 | The shift-and-or loop, from any prefix, computes the number that the parts of the whole text stand for, or refuses when a part is over 255 or there are more than four |
| Inet4.AtonPlaces | network-programming-2013/exercise5/unpv13e/libfree/inet_aton.c:64-72 | After the normalising shift and `htonl`, part k is byte k of the address and missing parts are zero, for 32-bit and 64-bit `unsigned long` |
| Inet4.AtonGrammar | network-programming-2013/exercise5/unpv13e/libfree/inet_aton.c:22-75 | Both directions: the texts that inet_aton takes are one to four digit groups, any of them empty, with dots between; byte k is the value of group k modulo 2^32 or 2^64, and bytes without a group are 0 |
| Inet4.InetAton | network-programming-2013/exercise5/unpv13e/libfree/inet_aton.c:22-75 | The do-while loop accepts exactly one to four possibly empty digit parts whose accumulated values are at most 255, and returns the bytes of the address |
| Inet4.QuadImpliesAton | network-programming-2013/exercise5/unpv13e/libfree/inet_aton.c:28-74 | Whatever `inet_pton4` accepts, `inet_aton` accepts with the same address |
| Inet4.AtonIsLenient | network-programming-2013/exercise5/unpv13e/libfree/inet_aton.c:28-74 | Of the texts that inet_aton accepts, inet_pton4 accepts exactly those with four parts, none of them empty and none of a value that an unsigned long cannot hold, and with the same address |
| Inet4.OnlyAton | network-programming-2013/exercise5/unpv13e/libfree/inet_aton.c:42-57 | Witnesses for each way to differ: the empty text, "10", and a first part 7 past the largest unsigned long, which is taken for 7 |
| Inet4.WrappedIsModulo | network-programming-2013/exercise5/unpv13e/libfree/inet_aton.c:42 | For every digit string, accumulating in an unsigned long of either width gives the value modulo its size |
| Numerals.DecRoundTrip | network-programming-2013/exercise5/unpv13e/libfree/inet_ntop.c:91-94 | `%u` writes digits without a leading zero that read back as the number |
| Numerals.HexRoundTrip | network-programming-2013/exercise5/unpv13e/libfree/inet_ntop.c:181-182 | `%x` writes lower-case digits without leading zeros that read back as the number (sections 4.1 and 4.3 of RFC 5952) |
| Numerals.DigitIsIndex | network-programming-2013/exercise5/unpv13e/libfree/inet_pton.c:145-146 | A character is a hexadecimal digit exactly if it is in "0123456789abcdef" or in "0123456789ABCDEF", and its value is its index in either; the decimal digits are the first ten |
| Numerals.OneMorePlace | network-programming-2013/exercise5/unpv13e/libfree/inet_pton.c:165-169 | One more digit at the end of a numeral multiplies its value by 10 or 16 and adds the digit's index |
| Inet6Parse.ScanMeaning | network-programming-2013/exercise5/unpv13e/libfree/inet_pton.c:162-204 | The character loop of `inet_pton6` (value, `saw_xdigit`, `curtok`, `colonp`) computes from any token boundary what the colon-separated tokens mean one by one |
| Inet6Parse.ScanTooBig | network-programming-2013/exercise5/unpv13e/libfree/inet_pton.c:167-171 | A group over 0xffff ends in refusal, and no reading of the same characters as a dotted quad is lost by that |
| Inet6Parse.ScanDotLast | network-programming-2013/exercise5/unpv13e/libfree/inet_pton.c:191-196 | At a dot, the text from `curtok` on is exactly the last token, and its dotted quad is the tail |
| Inet6Parse.ScanText | network-programming-2013/exercise5/unpv13e/libfree/inet_pton.c:152-204 | The loop fills `tmp` from the front with the bytes the scan describes, leaves zeros behind them and remembers where the gap is |
| Inet6Parse.ShiftGap | network-programming-2013/exercise5/unpv13e/libfree/inet_pton.c:205-218 | The overlapping in-place shift turns prefix ++ suffix ++ zeros into prefix ++ zeros ++ suffix; when all 16 bytes were spelled out it clears everything after the gap |
| Inet6Parse.InetPton6 | network-programming-2013/exercise5/unpv13e/libfree/inet_pton.c:140-224 | Accepts exactly the texts that denote an address, stores its 16 bytes, and a refusal leaves `dst` untouched on every path; which texts and bytes these are is stated without the parser in the rows from EightGroups to AcceptedPieces |
| Inet6Parse.CaseDoesNotMatter | network-programming-2013/exercise5/unpv13e/libfree/inet_pton.c:145-169 | Two texts of any length that differ only in the case of the letters a to f denote the same address, or both none |
| Inet6Grammar.ValidFormsAreAccepted | network-programming-2013/exercise5/unpv13e/libfree/inet_pton.c:152-223 | Every form of section 2.2 of RFC 4291 (leading zeros, one "::" for at least one group, optional dotted-quad tail) is accepted with the value its groups and octets have |
| Inet6Grammar.AcceptedLanguage | network-programming-2013/exercise5/unpv13e/libfree/inet_pton.c:152-223 | The exact language, both directions: the texts of forms that spell at most 16 bytes (exactly 16 without a gap), and these with one colon after a last group |
| Inet6Grammar.AgreesWithRfc | network-programming-2013/exercise5/unpv13e/libfree/inet_pton.c:152-223 | An accepted text is a form of RFC 4291 with the address the RFC gives it if and only if it does not end in a lone colon, its "::" leaves bytes to fill, its groups have at most four digits and its octets at most three |
| Inet6Grammar.DiffersFromRfc | network-programming-2013/exercise5/unpv13e/libfree/inet_pton.c:175-218 | Two concrete texts on which they differ: "::1:" is accepted, and "::1:1:1:1:1:1:1:1" is read as the all-zero address |
| Inet6Grammar.EightGroups | network-programming-2013/exercise5/unpv13e/libfree/inet_pton.c:152-223 | Eight groups of hexadecimal digits with colons between are the eight words of the address, high byte first |
| Inet6Grammar.GroupsAroundGap | network-programming-2013/exercise5/unpv13e/libfree/inet_pton.c:205-218 | With a "::" between at most seven groups, those before it are the first words, those after it the last, and all bytes between are zero |
| Inet6Grammar.QuadAtTheEnd | network-programming-2013/exercise5/unpv13e/libfree/inet_pton.c:191-196 | A dotted quad after "::" is the last four bytes, with zeros between it and the groups before the "::" |
| Inet6Grammar.FullGapClears | network-programming-2013/exercise5/unpv13e/libfree/inet_pton.c:205-218 | A "::" among eight groups, wherever it stands, clears all groups after it |
| Inet6Grammar.TrailingColon | network-programming-2013/exercise5/unpv13e/libfree/inet_pton.c:175-190 | A colon after a last group changes nothing |
| Inet6Grammar.AcceptedPieces | network-programming-2013/exercise5/unpv13e/libfree/inet_pton.c:162-204 | Nothing but groups of value at most 0xffff stands between the colons of an accepted text, a dotted quad only at its end, and nothing at all between two colons at most once |
| Inet6Print.PackWords | network-programming-2013/exercise5/unpv13e/libfree/inet_ntop.c:132-134 | The shift-and-or loop packs byte pairs into words, high byte first |
| Inet6Print.FindBest | network-programming-2013/exercise5/unpv13e/libfree/inet_ntop.c:135-156 | The one-pass search finds the leftmost of the longest runs of zero words, and none if that has fewer than two (section 4.2 of RFC 5952) |
| Inet6Print.BestIsUnique | network-programming-2013/exercise5/unpv13e/libfree/inet_ntop.c:135-156 | There is only one such run |
| Inet6Print.FormatIsRender | network-programming-2013/exercise5/unpv13e/libfree/inet_ntop.c:158-187 | What the formatting loop writes turn by turn, its break for an embedded IPv4 address and the check for a trailing run is the text of the form: the groups with the run left out |
| Inet6Print.FormatWord | network-programming-2013/exercise5/unpv13e/libfree/inet_ntop.c:162-183 | One turn of the formatting loop appends its part of the text at the cursor: a colon and the group, the first colon of the run, or the dotted quad of the last four bytes and the break |
| Inet6Print.FormatWords | network-programming-2013/exercise5/unpv13e/libfree/inet_ntop.c:161-183 | The formatting loop writes the text up to the closing colon of a trailing run |
| Inet6Print.Format | network-programming-2013/exercise5/unpv13e/libfree/inet_ntop.c:161-187 | Loop, trailing-run check and NUL together write text and NUL with every store inside the 46 bytes of `tmp` |
| Inet6Print.PrintFormIsValid | network-programming-2013/exercise5/unpv13e/libfree/inet_ntop.c:132-187 | The form printed for any address is a valid RFC form whose value is the address, for leading, middle, trailing and no runs and for the embedded-IPv4 forms |
| Inet6Print.PrintFormIsShort | network-programming-2013/exercise5/unpv13e/libfree/inet_ntop.c:174-182 | Its groups have at most four digits and its octets at most three |
| Inet6Print.PrintIsShort | network-programming-2013/exercise5/unpv13e/libfree/inet_ntop.c:122-187 | No address takes more than 39 characters, so `tmp` never overflows |
| Inet6Print.LongestText | network-programming-2013/exercise5/unpv13e/libfree/inet_ntop.c:122-187 | Some address takes all 39 |
| Inet6Print.RoundTrip | network-programming-2013/exercise5/unpv13e/libfree/inet_ntop.c:132-187 | For every 16-byte address, parsing the printed text succeeds and gives back exactly the address |
| Inet6Print.PrintedTextIsCanonical | network-programming-2013/exercise5/unpv13e/libfree/inet_ntop.c:132-187 | Two addresses are equal if and only if their printed texts are |
| Inet6Print.InetNtop6 | network-programming-2013/exercise5/unpv13e/libfree/inet_ntop.c:109-198 | Stores the text and a NUL if `size` bytes are enough, and otherwise refuses and leaves `dst` alone; the text is stated from the bytes alone in DottedText, UngappedText and GappedText |
| Inet6Print.DottedText | network-programming-2013/exercise5/unpv13e/libfree/inet_ntop.c:173-179 | The text of an address has a dot if and only if its first ten bytes are zero and the next two are ff ff, or zero with the two after them not both zero; it is then "::ffff:" or "::" and the last four bytes in decimal |
| Inet6Print.UngappedText | network-programming-2013/exercise5/unpv13e/libfree/inet_ntop.c:161-183 | Without two zero words in a row the text is the eight words in hexadecimal with colons between |
| Inet6Print.GappedText | network-programming-2013/exercise5/unpv13e/libfree/inet_ntop.c:135-187 | Otherwise, unless it has a dot, it is the words before the leftmost of the longest runs of zero words, "::", and the words after that run |
| Checksum.Sum1IsResidue | network-programming-2013/exercise5/unpv13e/libfree/in_cksum.c:11-15 | The end-around-carry sum of any words (section 1 of RFC 1071) as a residue of their plain sum |
| Checksum.FoldIsResidue | network-programming-2013/exercise5/unpv13e/libfree/in_cksum.c:27-29 | Two folds always suffice for a 32-bit accumulator |
| Checksum.InCksum | network-programming-2013/exercise5/unpv13e/libfree/in_cksum.c:3-32 | The loop over 16-bit host words, the odd byte and the wrapping 32-bit accumulator compute the checksum function |
| Checksum.FoldDown | network-programming-2013/exercise5/unpv13e/libfree/in_cksum.c:28-31 | The two folds, the complement and the truncation to 16 bits |
| Checksum.CksumIsOnesComplement | network-programming-2013/exercise5/unpv13e/libfree/in_cksum.c:16-31 | For every length an int can hold, the result is the complement of the end-around-carry sum of all words, the odd byte padded with zero, if and only if the words add up to less than 2^32 |
| Checksum.NoOverflow | network-programming-2013/exercise5/unpv13e/libfree/in_cksum.c:7-19 | That holds for up to 65537 words whatever they contain, and 65538 words of 0xffff break it |
| Checksum.ByteOrderIndependent | network-programming-2013/exercise5/unpv13e/libfree/in_cksum.c:8-31 | Summing a byte string of any length in either byte order gives one's-complement checksums that are byte swaps of each other (item (B) of section 2 of RFC 1071) |
| Checksum.StoredBytesAgree | network-programming-2013/exercise5/unpv13e/udpcksum/udpwrite.c:51 | So the host-order result, stored without `htons`, puts the same two bytes into the buffer on any machine, unless an accumulator overflows |
| Checksum.StoredChecksumVerifies | network-programming-2013/exercise5/unpv13e/udpcksum/udpwrite.c:49-52 | Summing again over data that holds the stored checksum, 0 replaced by 0xffff or not, gives 0 |
| Checksum.CksumFromBytes | network-programming-2013/exercise5/unpv13e/libfree/in_cksum.c:3-32 | From the bytes alone, for every length and both byte orders: with the bytes at even places counted 256 times (big-endian) or those at odd places (little-endian), modulo 2^32, sum and checksum add up to a multiple of 0xffff, and the checksum is 0xffff only for the sum 0 |
| Udp.FillOverlay | network-programming-2013/exercise5/unpv13e/udpcksum/udpwrite.c:35-48 | The overlay of the two headers before the checksum: zeros, protocol, lengths, addresses and ports, user data untouched |
| Udp.FillChecksum | network-programming-2013/exercise5/unpv13e/udpcksum/udpwrite.c:51-52 | The checksum field gets the checksum of the whole buffer, 0xffff instead of 0 |
| Udp.FillIp | network-programming-2013/exercise5/unpv13e/udpcksum/udpwrite.c:58-70 | The rest of the IP header goes over the zeros of the overlay and nothing after it changes |
| Udp.UdpWrite | network-programming-2013/exercise5/unpv13e/udpcksum/udpwrite.c:28-73 | For every length an int can hold, the buffer becomes exactly the datagram: IP header, UDP header, checksum or none, and the user data as it was; the 16-bit length fields keep the low bits |
| Udp.DatagramFields | network-programming-2013/exercise5/unpv13e/udpcksum/udpwrite.c:35-70 | Each field of that datagram at its place: version and header length 0x45, total length 28 + n in network or host order, TTL 64, protocol 17, both addresses, both ports, UDP length 8 + n, a zero checksum if none was asked for, and the data from byte 28 on |
| Udp.WrittenDatagramVerifies | network-programming-2013/exercise5/unpv13e/udpcksum/udpwrite.c:34-52 | The checksum sent is never zero, and the receiver's sum over the pseudo-header built from the packet's own fields, the UDP header and the data gives 0 |
| Udp.UdpCheck | network-programming-2013/exercise5/unpv13e/udpcksum/udpread.c:52-84 | Accepts exactly the packets with version 4, consistent lengths, a header that sums to 0 and protocol UDP; whatever the verdict, the sum replaces `ip_sum` once the lengths are right and nothing else changes |
| Udp.AcceptableInFull | network-programming-2013/exercise5/unpv13e/udpcksum/udpread.c:52-84 | The condition in numbers: 28 bytes at least, version 4, a header length from 20 to 8 less than the packet, a zero sum over it, and protocol 17 |
| Udp.WrittenDatagramIsAccepted | network-programming-2013/exercise5/unpv13e/udpcksum/udpread.c:64-81 | With the header checksum filled in as the kernel does, `udp_check` accepts what `udp_write` wrote |
| Prefork.StepKeepsInv | network-programming-2013/exercise5/unpv13e/server/serv05.c:43-80 | Each step of the parent or of any child keeps the invariant: `navail` counts the free children, a free child is idle with both directions of its pipe empty, a busy one has exactly one of a descriptor in flight, a request in service and a ready byte in flight |
| Prefork.RunKeepsInv | network-programming-2013/exercise5/unpv13e/server/child05.c:40-50 | The invariant holds after every trace of any number of children |
| Prefork.RunIsSafe | network-programming-2013/exercise5/unpv13e/server/serv05.c:50-68 | "no available children" is unreachable, and all connections accepted are together exactly those given to children |
| Prefork.GivenOnce | network-programming-2013/exercise5/unpv13e/server/serv05.c:54-65 | No connection is given to two children |
| Prefork.NeverStuck | network-programming-2013/exercise5/unpv13e/server/serv05.c:43-48 | With at least one child some step is always possible |
| Prefork.Parent.constructor | network-programming-2013/exercise5/unpv13e/server/serv05.c:30-39 | All children start free and `navail` is their number |
| Prefork.Parent.FindFree | network-programming-2013/exercise5/unpv13e/server/serv05.c:54-56 | The search stops at the first child marked free |
| Prefork.Parent.HandOut | network-programming-2013/exercise5/unpv13e/server/serv05.c:60-65 | Marks the child busy, counts, and puts the descriptor into its pipe, and changes no other child: one dispatch step of the protocol |
| Prefork.Parent.TakeReady | network-programming-2013/exercise5/unpv13e/server/serv05.c:73-76 | Reads one ready byte and marks the child free, and changes no other child: one collect step |
| Prefork.Parent.CollectReady | network-programming-2013/exercise5/unpv13e/server/serv05.c:70-80 | With children running in between, the scan collects exactly the children that `select` reported, each once and in the order of the table, although it stops when `nsel` reaches 0 |
| Prefork.Parent.Round | network-programming-2013/exercise5/unpv13e/server/serv05.c:43-81 | One turn of the loop does the dispatch if a connection was reported and then collects exactly the reported children, each once and in order, never quits, and the table agrees with the protocol state |
| Rtt.EstimatesAreBounded | network-programming-2013/exercise5/unpv13e/lib/rtt.c:81-104 | For every run of samples, srtt is in [0, max sample], rttvar in [0, max(0.75, max sample)] and rto in [2, 60] |
| Rtt.ConstantSamplesConverge | network-programming-2013/exercise5/unpv13e/lib/rtt.c:93-94 | With n constant samples R, from any start: the error of srtt is (7/8)^n of what it was, and rttvar is (3/4)^n * rttvar + 2 * |R - srtt| * ((7/8)^n - (3/4)^n) |
| Rtt.PatienceIsBounded | network-programming-2013/exercise5/unpv13e/lib/rtt.c:62-67 | The four alarms of a call that gives up add up to between 30 and 900 seconds |
| Rtt.AlarmsDouble | network-programming-2013/exercise5/unpv13e/lib/rtt.c:110-119 | Alarm j of a call is the whole number of seconds nearest to 2^j times its first timeout |
| Rtt.RttInfo.Init | network-programming-2013/exercise5/unpv13e/lib/rtt.c:22-35 | The estimators start at 0 and 0.75 and the first timeout is 3 seconds |
| Rtt.RttInfo.Start | network-programming-2013/exercise5/unpv13e/lib/rtt.c:62-67 | The alarm is set to the whole number of seconds nearest to the timeout, the larger of two equally near |
| Rtt.SecondsAreNearest | network-programming-2013/exercise5/unpv13e/lib/rtt.c:65 | For every timeout there is exactly one such number, and it is the one that the cast of rto + 0.5 gives |
| Rtt.RttInfo.Stop | network-programming-2013/exercise5/unpv13e/lib/rtt.c:80-102 | srtt moves by an eighth of its distance to the sample, rttvar by a quarter of its distance to the sample's deviation from the old srtt, and rto is srtt + 4 * rttvar kept within [2, 60] |
| Rtt.RttInfo.Timeout | network-programming-2013/exercise5/unpv13e/lib/rtt.c:110-119 | Doubles the timeout and gives up at the fourth one |
| SendRecv.OnlyOwnEchoesMatch | network-programming-2013/exercise5/unpv13e/rtt/dg_send_recv.c:86 | Among everything transmitted so far, the header check lets through echoes of the current call only, if and only if there have been at most 2^32 calls |
| SendRecv.StampsMeasure | network-programming-2013/exercise5/unpv13e/rtt/dg_send_recv.c:90 | The difference of two 32-bit stamps is the time between them modulo 2^32 milliseconds, whatever the base |
| SendRecv.ReplyIsOwn | network-programming-2013/exercise5/unpv13e/rtt/dg_send_recv.c:81-92 | A successful call returns its own payload, the first 4088 bytes at most, and has measured the time since one of its own transmissions |
| SendRecv.StillNoAnswer | network-programming-2013/exercise5/unpv13e/rtt/dg_send_recv.c:56-86 | A datagram the loop has skipped does not become an answer by a later retransmission |
| SendRecv.OwnEchoEnds | network-programming-2013/exercise5/unpv13e/rtt/dg_send_recv.c:81-86 | The echo of any transmission that the call has made by then ends it at once, whatever else has come |
| SendRecv.Client.StartCall | network-programming-2013/exercise5/unpv13e/rtt/dg_send_recv.c:26-63 | Initialises the estimators if needed, takes the next sequence number, transmits once and sets the first alarm |
| SendRecv.Client.OnAlarm | network-programming-2013/exercise5/unpv13e/rtt/dg_send_recv.c:68-79 | A timeout retransmits with a new stamp and twice the timeout, and the fourth one gives up and asks for new estimators |
| SendRecv.Client.OnDatagram | network-programming-2013/exercise5/unpv13e/rtt/dg_send_recv.c:81-92 | A datagram ends the call exactly if it is no shorter than the header and has the sequence number; then the data is delivered and the sample taken |
| SendRecv.Client.DgSendRecv | network-programming-2013/exercise5/unpv13e/rtt/dg_send_recv.c:18-93 | Over a network that loses, repeats and reorders: the call sends its packet once per clock and at most four times, ends with the first answer or the fourth alarm, returns its own payload for up to 2^32 calls (also after one that gave up), starts with a timeout in [2, 60], moves srtt by an eighth and rttvar by a quarter towards what it measured, and a call that gives up has waited 30 to 900 seconds |
| SendRecv.DgCli | network-programming-2013/exercise5/unpv13e/rtt/dg_cli.c:12-19 | Call after call, each line printed is the line sent, cut to 4088 bytes by the echo server's buffer |
| SigioEcho.ReadKeeps | network-programming-2013/exercise5/unpv13e/sigio/dgecho01.c:89-104 | A read into the first free slot puts the oldest datagram of the socket behind those in the ring |
| SigioEcho.SendKeeps | network-programming-2013/exercise5/unpv13e/sigio/dgecho01.c:64-68 | Sending the oldest slot continues the echoes in order, and the ring then starts at the next slot |
| SigioEcho.Server.Recvfrom | network-programming-2013/exercise5/unpv13e/sigio/dgecho01.c:89-99 | Fills one slot with the datagram, its first 4096 bytes if it is longer, and with its sender's address; nothing if there is none |
| SigioEcho.Server.ReadOne | network-programming-2013/exercise5/unpv13e/sigio/dgecho01.c:85-105 | One turn of the handler's loop, with datagrams coming in before its read; only slot `iput` changes |
| SigioEcho.Server.SigIo | network-programming-2013/exercise5/unpv13e/sigio/dgecho01.c:79-108 | The handler drains the socket, leaves every slot in the ring untouched, counts what it read, and quits exactly when the ring is full, even if nothing more is waiting |
| SigioEcho.Server.Unblocked | network-programming-2013/exercise5/unpv13e/sigio/dgecho01.c:61-71 | At any point where SIGIO is deliverable the ring invariant holds before and after any number of handler runs, off by one where iget has moved on and nqueue has not |
| SigioEcho.Server.AwaitDatagram | network-programming-2013/exercise5/unpv13e/sigio/dgecho01.c:58-59 | Main sleeps only with nothing queued in the ring; then nothing waits in the socket and everything that came has been echoed, exactly unless the socket held datagrams before the program asked for SIGIO and none has come since |
| SigioEcho.Server.Sendto | network-programming-2013/exercise5/unpv13e/sigio/dgecho01.c:61-65 | The slot being sent is not overwritten: with SIGIO before, during and after the call, address and data are those of the oldest datagram |
| SigioEcho.Server.Advance | network-programming-2013/exercise5/unpv13e/sigio/dgecho01.c:67-68 | `iget` moves on, and the echo is recorded |
| SigioEcho.Server.Turn | network-programming-2013/exercise5/unpv13e/sigio/dgecho01.c:57-73 | One turn echoes exactly one datagram, or ends asleep or in overflow; echo j goes to the sender of datagram j and has its data, the first 4096 bytes if there are more |
| SigioEcho.DgEcho | network-programming-2013/exercise5/unpv13e/sigio/dgecho01.c:57-73 | The same over any number of turns, any arrival of datagrams and signals, and any datagrams that were there before FIOASYNC |
| SigioEcho.Server.constructor | network-programming-2013/exercise5/unpv13e/sigio/dgecho01.c:38-48 | At FIOASYNC the ring is empty, and the socket may hold datagrams for which no SIGIO will come |
| Copier.Select | network-programming-2013/exercise5/unpv13e/nonblock/strclinonb.c:39 | select is called only with something to wait for, and reports part of it |
| Copier.Source.Read | network-programming-2013/exercise5/unpv13e/nonblock/strclinonb.c:42-62 | A read asks for at least one byte and never follows the end of the stream |
| Copier.Sink.Write | network-programming-2013/exercise5/unpv13e/nonblock/strclinonb.c:105-122 | A write happens only before the FIN |
| Copier.Sink.Shutdown | network-programming-2013/exercise5/unpv13e/nonblock/strclinonb.c:51-53 | The FIN is sent at most once |
| Copier.StrCli.ReadStdin | network-programming-2013/exercise5/unpv13e/nonblock/strclinonb.c:42-62 | The branch for stdin keeps the invariant; at the end of stdin the FIN goes out at once if the buffer is empty |
| Copier.StrCli.ReadSocket | network-programming-2013/exercise5/unpv13e/nonblock/strclinonb.c:64-86 | The branch for the socket; its end is normal only after the end of stdin |
| Copier.StrCli.WriteStdout | network-programming-2013/exercise5/unpv13e/nonblock/strclinonb.c:89-103 | The branch for stdout writes a prefix of what is held; an emptied buffer starts again at its base |
| Copier.StrCli.WriteSocket | network-programming-2013/exercise5/unpv13e/nonblock/strclinonb.c:105-122 | The branch that writes to the socket, with the FIN once stdin has ended and everything is sent |
| Copier.StrCli.SomethingToDo | network-programming-2013/exercise5/unpv13e/nonblock/strclinonb.c:28-39 | Some descriptor is always asked for |
| Copier.StrCli.Turn | network-programming-2013/exercise5/unpv13e/nonblock/strclinonb.c:27-123 | For any readiness and any partial reads and writes: sent ++ buffered = read in both directions, equal cursors are at the base, a read takes what is there and fits in 4096 bytes if its descriptor was asked for and is ready, a write sends what the system has room for if it was ready or something was read just before, and a FIN has been sent exactly if stdin has ended and all of it is sent, with no write after it |
| Copier.StrCli.Run | network-programming-2013/exercise5/unpv13e/nonblock/strclinonb.c:27-123 | The same after any number of turns; a return leaves stdout a prefix of what the socket brought |
| Ring.FifoPut | network-programming-2013/exercise5/unpv13e/threads/example03.c:71-75 | A put into a ring with room overwrites no slot still to be read and queues the item last |
| Ring.FifoGet | network-programming-2013/exercise5/unpv13e/threads/example03.c:92-97 | A get takes out the oldest item |
| Ring.FifoEmpty | network-programming-2013/exercise5/unpv13e/server/serv08.c:40-44 | Equal indices mean an empty or a full ring; with one slot always free, an empty one |
| CondVar.WakeupKeeps | network-programming-2013/exercise5/unpv13e/threads/example03.c:77-78 | A signal makes up for one more item, a spurious wakeup for none |
| CondVar.ResumeKeeps | network-programming-2013/exercise5/unpv13e/threads/example03.c:88-97 | A thread that goes on takes one item with it, and one that blocks has found none |
| BoundedBuffer.StepKeepsInv | network-programming-2013/exercise5/unpv13e/threads/example03.c:62-104 | Every step of any producer or consumer and every spurious wakeup keeps the invariant |
| BoundedBuffer.StepKeepsItems | network-programming-2013/exercise5/unpv13e/threads/example03.c:62-80 | A producer that finds 10 items inside waits with its item, which nobody changes, and puts in that item and no other once there is room |
| BoundedBuffer.RunIsSafe | network-programming-2013/exercise5/unpv13e/threads/example03.c:62-104 | For any threads and schedule: items leave once each in order, at most 10 are inside, and no wakeup is lost, neither for consumers nor for producers |
| BoundedBuffer.NeverAllBlocked | network-programming-2013/exercise5/unpv13e/threads/example03.c:67-68 | Consumers and producers are never all blocked at once with nobody about to run |
| BoundedBuffer.Buffer.Store | network-programming-2013/exercise5/unpv13e/threads/example03.c:70-75 | The new item goes into a free slot, last in the queue |
| BoundedBuffer.Buffer.Fetch | network-programming-2013/exercise5/unpv13e/threads/example03.c:92-97 | The oldest item comes out |
| BoundedBuffer.Buffer.Produce | network-programming-2013/exercise5/unpv13e/threads/example03.c:62-80 | One stretch of produce() under the mutex is one step of the protocol: it stores and signals, or waits exactly when 10 items are inside |
| BoundedBuffer.Buffer.Consume | network-programming-2013/exercise5/unpv13e/threads/example03.c:82-104 | The same for consume(), which waits exactly when the buffer is empty |
| ThreadPool.StepKeepsInv | network-programming-2013/exercise5/unpv13e/server/serv08.c:35-47 | Every step of the main thread and of the pool, the increment of a counter after the unlock included, keeps the invariant |
| ThreadPool.RunIsSafe | network-programming-2013/exercise5/unpv13e/server/pthread08.c:20-31 | For any number of threads and any schedule: descriptors leave once each in order, no wakeup is lost, and the counters fall short of the descriptors taken by exactly the threads between their unlock and their increment |
| ThreadPool.Server.Hand | network-programming-2013/exercise5/unpv13e/server/serv08.c:39-46 | Stores and signals; quits exactly when 31 descriptors are waiting, with no unread slot overwritten before |
| ThreadPool.Server.Take | network-programming-2013/exercise5/unpv13e/server/pthread08.c:21-27 | Under the mutex: takes the oldest descriptor, or waits exactly when there is none |
| ThreadPool.Server.CountOne | network-programming-2013/exercise5/unpv13e/server/pthread08.c:28 | Without the mutex: the thread counts the descriptor it has taken |
| AddrInfo.PassesMakeBlocks | network-programming-2013/exercise5/unpv13e/libgai/ga_port.c:37-64 | Starting from n INET or INET6 entries flagged AI_CLONE, calls for k distinct nonzero socket types leave for each address, in order, its block, and each call finds n |
| AddrInfo.BlockEntry | network-programming-2013/exercise5/unpv13e/libgai/ga_port.c:37-64 | The blocks follow one another in the order of the addresses, and each is t1, tk, ..., t2: the same family, address and protocol, each with its own type and port, only the first still flagged |
| AddrInfo.ServResult | network-programming-2013/exercise5/unpv13e/libgai/ga_serv.c:15-56 | On a list as `ga_aistruct` builds it: without a type from the caller each address becomes a stream and a datagram entry, or one entry if the name has one port only; with a type it gets that type's port; and `ga_serv` fails exactly if there is no port for an allowed type, with the list as it was |
| AddrInfo.GaClone | network-programming-2013/exercise5/unpv13e/libgai/ga_clone.c:13-29 | A new node right after the old one, AI_CLONE off, equal in all else, with a socket address of its own |
| AddrInfo.List.SetType | network-programming-2013/exercise5/unpv13e/libgai/ga_port.c:47-62 | One node gets its type and, for INET and INET6, its port; no other entry changes |
| AddrInfo.List.Pass | network-programming-2013/exercise5/unpv13e/libgai/ga_port.c:38-62 | The loop body for one node: skipped, typed in place, or cloned and the clone typed |
| AddrInfo.VisitInFull | network-programming-2013/exercise5/unpv13e/libgai/ga_port.c:38-62 | What that leaves of the list, case by case: the type and port on a clone after the node, in the node, or nothing; a local address keeps its port |
| AddrInfo.List.GaPort | network-programming-2013/exercise5/unpv13e/libgai/ga_port.c:31-65 | The walk over the growing list terminates, turns the list into what the pass over its entries makes of it and counts the ports set; nodes and socket addresses stay distinct |
| AddrInfo.List.GaAistruct | network-programming-2013/exercise5/unpv13e/libgai/ga_aistruct.c:8-87 | A new entry at the end, flagged exactly if the caller names no socket type |
| AddrInfo.List.GaServ | network-programming-2013/exercise5/unpv13e/libgai/ga_serv.c:8-57 | The sequence of passes for a numeric or named service, with 0, EAI_NONAME or EAI_SERVICE by what they found |
| ReadLine.LineMeaning | network-programming-2013/exercise5/unpv13e/lib/readline.c:35-45 | A line is the one prefix with no newline before its end that stops at a newline, at maxlen - 1 bytes or at end of file |
| ReadLine.Reader.Again | network-programming-2013/exercise5/unpv13e/lib/readline.c:13-19 | read() is repeated after EINTR and loses nothing |
| ReadLine.Reader.MyRead | network-programming-2013/exercise5/unpv13e/lib/readline.c:4-26 | Delivers the next byte of buffered ++ unread and loses only that byte, nothing at end of file and after an error; a buffered byte is delivered whichever descriptor the call names |
| ReadLine.Reader.Readline | network-programming-2013/exercise5/unpv13e/lib/readline.c:28-49 | However read() cuts the stream: stores the next line and a NUL, leaves the rest of the stream to later calls, and returns its length, or one more when it was cut short; for every maxlen, 0 included |
| ReadLine.Reader.ReadlineBuf | network-programming-2013/exercise5/unpv13e/lib/readline.c:51-57 | Shows what has been read ahead |
| ReadLine.ReadlineByByte | network-programming-2013/exercise5/unpv13e/server/readline.c:4-27 | The byte-at-a-time reader stores the same next line and a NUL, but nothing at all at end of file; it takes EINTR for an error |
| ReadLine.ReturnValuesAgree | network-programming-2013/exercise5/unpv13e/server/readline.c:15-26 | The two return the same count if and only if the line was not a partial one at end of file; both counts by what ended the line |
| ReadLine.SideBySide | network-programming-2013/exercise5/unpv13e/lib/readline.c:8-49 | Call after call on the same stream, cut into pieces in any two ways, with any contents of the callers' buffers: both readers store the line that the calls before have left next, and the two buffers end up equal if and only if the call was not at end of file or the first byte was 0 before |
| ReadLine.SameLine | network-programming-2013/exercise5/unpv13e/server/readline.c:15-26 | The same for one call of each, in terms of the buffers the caller gave; and the two counts are equal exactly if the line is empty, ends in a newline or fills the buffer |
| ReadLine.NothingIsLost | network-programming-2013/exercise5/unpv13e/lib/readline.c:8-49 | The lines of any number of calls, one after the other, are the front of the stream |
| WebFetch.StartKeeps | network-programming-2013/exercise5/unpv13e/nonblock/start_connect.c:20-30 | A new descriptor keeps rset = open descriptors, wset = connecting ones, maxfd a bound, and descriptors distinct |
| WebFetch.MoveKeeps | network-programming-2013/exercise5/unpv13e/nonblock/web.c:62-73 | So do the step from connecting to reading and the step to done |
| WebFetch.WaitsOnSomething | network-programming-2013/exercise5/unpv13e/nonblock/web.c:45-47 | select has something to wait for exactly if a file is connecting or being read |
| WebFetch.Web.constructor | network-programming-2013/exercise5/unpv13e/nonblock/web.c:13-29 | At most 20 files, all idle, and counters to match |
| WebFetch.Web.WriteGetCmd | network-programming-2013/exercise5/unpv13e/nonblock/write_get_cmd.c:4-18 | The file is being read from then on and its descriptor in rset |
| WebFetch.Web.StartConnect | network-programming-2013/exercise5/unpv13e/nonblock/start_connect.c:3-31 | The file gets a descriptor that no open file has, and is connecting or already being read |
| WebFetch.Web.FindFile | network-programming-2013/exercise5/unpv13e/nonblock/web.c:35-37 | The first idle file, if there is one |
| WebFetch.Web.FillConnections | network-programming-2013/exercise5/unpv13e/nonblock/web.c:33-43 | Connects idle files until the limit or none is left; "nothing found" is unreachable |
| WebFetch.Web.Handle | network-programming-2013/exercise5/unpv13e/nonblock/web.c:50-78 | What the scan does to one file for what select() reported |
| WebFetch.Web.Scan | network-programming-2013/exercise5/unpv13e/nonblock/web.c:49-79 | The same for every file, each exactly once |
| WebFetch.Web.Turn | network-programming-2013/exercise5/unpv13e/nonblock/web.c:32-80 | One turn of the outer loop keeps nlefttoconn, nconn and nlefttoread equal to the numbers of files in the states they stand for and nconn within maxnconn, and blocks on empty sets if and only if maxnconn is at most 0; a file is read from then on exactly if its connect was ready either way, and done exactly if it was readable and at its end |
| WebFetch.Fetch | network-programming-2013/exercise5/unpv13e/nonblock/web.c:32-80 | The loop ends only when every file is done |
| SharedWriter.StepKeepsInv | network-programming-2013/exercise4/incr.c:70-93 | Every lock and every critical section of any process keeps the invariant and changes no written character, and a character written takes one turn from its process |
| SharedWriter.RunIsSafe | network-programming-2013/exercise4/incr.c:73-91 | For any number N of processes and every interleaving: no two neighbouring characters are equal, written ones never change, each takes one turn of some loop so that counter and turns left add up to the turns at the start, and the counter stays at most 99999 + (N - 1), because the capacity is checked before the spin |
| SharedWriter.BoundIsReached | network-programming-2013/exercise4/incr.c:73-87 | For every N of at least 2 some N processes and some interleaving take the counter to exactly that bound |
| SharedWriter.PassesTheLimit | network-programming-2013/exercise4/incr.c:73-91 | From any state with the counter at SIZE - 1 or beyond, whoever has the lock, some interleaving takes it further if and only if some process is past the check and has a character other than the last one written |
| SharedWriter.Mapping.LockWait | network-programming-2013/exercise4/lock.c:41-54 | The lock goes to a process only when nobody has it |
| SharedWriter.Mapping.Critical | network-programming-2013/exercise4/incr.c:73-91 | From a lock to the next unlock: leave when the counter is at 99999 or more on entering, spin when the last character is the own one, else write it after the last one, move the counter and take one turn |
| SharedWriter.LockGoesOn | network-programming-2013/exercise4/lock.c:41-60 | Whoever has the lock gives it back at its next step; when it is free it can go to every process that spins and to every process that has a turn left, and to no other |
| SharedWriter.Interleave | network-programming-2013/exercise4/incr.c:70-93 | Running the processes by any schedule leads to the state that the step function gives |

## Left out
- Udp.UdpWrite: does not model a negative user length.
- Udp.WrittenDatagramVerifies: is about datagrams of at most 65535 bytes, the longest that IPv4 has.
- Inet6Print.InetNtop6: does not model the size check of the inner inet_ntop4, which the space left in `tmp` always passes.
- SendRecv.Client.DgSendRecv: does not model datagrams of other senders that are as long as the header, because the server is the verbatim echo server of rtt/dg_echo.c; nor the window between alarm() and sigsetjmp(), which is one step here.
- Copier.StrCli.Run: claims only a prefix for stdout, because the code returns at the end of the socket without writing what is still in `fr`.
- Copier.StrCli.Turn: does not model what the bytes of a failed read or write are; an error ends the client.
- WebFetch.Web.WriteGetCmd: does not model a failing writen(), which ends the program; a failed connect is only reported by the code and treated as established, and so it is here.
- ReadLine.Reader.ReadlineBuf: does not model the stale pointer that a caller gets after a failed read.
- SharedWriter.Mapping.Critical: does not model the end of the mapped pages behind the SIZE characters; the cells go on for one more per process.
- SigioEcho.Server.Recvfrom: does not model receive errors other than EWOULDBLOCK, which end the program, or sender addresses longer than the socket's family has.
- Floating-point rounding in rtt.c: the estimators are reals.
- Whether a loop that waits for the network ever gets there: each run is as long as its script, and the results are about what holds meanwhile.
- Sockets, processes, signals, DNS, pcap and libnet themselves: steps with the stated choices.
- malloc() and calloc() failures in libgai, and the host lookup of getaddrinfo(); the list starts as ga_aistruct() builds it. ai_canonname is not modelled.
- Death of a child of serv05.c, which ends the parent, and the counters that SIGINT prints.
- Creation of the file and its lock in incr.c and lock.c, which is not locked; the mapping starts initialised.
- inet_pton(), inet_ntop() and inet_ntop4() as entry points: a dispatch on the family and a length check.
- Printing and debugging output everywhere.
- Wrapper functions, option setters, multicast, daytime and benchmark programs, threads/web02.c and web03.c: code around system calls, not modelled.
- readn() and writen(), which repeat a read or write until a count is reached, tv_sub(), which subtracts two times, and the programs crlf and dowrite: not modelled.
