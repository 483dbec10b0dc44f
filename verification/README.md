# Verification of the A7672S demo code

Dafny models, with proofs, of the parts of the A7672S development-board repository whose logic is
visible in its sources and hard to get right:

- **File receive pipeline** (`ReceiveRing.dfy`, `RingRuns.dfy`, `Transfer.dfy`,
  `TransferSafety.dfy`, `TransferVerdict.dfy`, `TransferProgress.dfy`, `TransferLimit.dfy`). A
  receiving function pushes UART chunks into a 20 KiB ring; a file task, woken by event flags,
  drains the ring into a staging buffer, writes the file and reports. The ring is an object updated in place, proved equal to value functions that
  follow the C branches, and those are related to a byte queue. The two tasks are a state machine
  whose steps are the points where they touch shared data; a run is any sequence of actions, and an
  action carries what the environment decides (UART bytes, `fopen`, `malloc`, `fwrite`). Copies
  without a defined result in C end in a trap state, and the proofs say exactly when it is
  reachable.
- **HTTP firmware download** (`CString.dfy`, `HttpHead.dfy`, `HttpLength.dfy`,
  `HttpDownload.dfy`, `HttpTheorems.dfy`). The response head is scanned with C string functions in
  a 2048-byte buffer that the scanner lowercases in place; the body is copied to the application
  package from whatever fragments the socket delivers, one turn for each read. Scans that run off
  the buffer, and a read of negative size, are modelled as such.
- **URL parsers** (`Decimals.dfy`, `ServerUrl.dfy`, `FtpUrl.dfy`), for HTTP and FTP servers.
- **Deflate symbol statistics and distance codes** (`DeflateTables.dfy`, `Distances.dfy`,
  `Tally.dfy`), with the tables transcribed row by row.
- **ZIP stream cipher** (`Words.dfy`, `ZipCrypto.dfy`), with its keys tied to the CRC-32 register
  bit by bit.

Where the code does not meet what its comments or messages suggest, the model follows the code, and
the exact condition is a theorem:

- some interleaving of every file transfer above 131072 bytes, and of no smaller one, copies outside
  a buffer; the limit is the same when every UART read delivers all it is asked for
  (`TransferLimit.TrapFreeIffFits`);
- a read of a full ring for less than everything is refused after the free count has changed, and a
  read shorter than a wrapped tail leaves the ring (`ReceiveRing.ReadDequeuesIffContract`);
- the content length is read from body bytes, or the scan leaves the buffer, when the head has no
  field or no value (`HttpLength.LengthIsFixedIffInHead`), and from another field when the text
  "content-length:" occurs before the Content-Length field (`HttpLength.FieldIsReadIff`);
- more bytes than announced are stored when more than the body has arrived with the head; some
  fragmentation does that unless the response ends with its body, or head and body fill the receive
  buffer (`HttpTheorems.NeverPassesLengthIff`);
- a port above 32767 does not survive its 16-bit conversion (`ServerUrl.UrlRoundTrip`);
- a head that ends with the second form of the blank line is recognised unless the first form
  follows before the next zero byte (`HttpHead.OddHeadIsFoundIff`);
- an FTP URL with an empty user or password, ':' in the file name, or other marks out of place does
  not give its fields back (`FtpUrl.FtpRoundTrip`, `FtpUrl.AnonymousRoundTrip`); one without a port
  takes its port from the start of the file name (`FtpUrl.PortlessRoundTrip`).

`dafny verify dfyconfig.toml` checks the whole project.

## Model

| member | source | states |
|---|---|---|
| ReceiveRing.WriteAppends | sc_demo/V1/src/demo_file_system.c:174-210 | for every coherent ring and chunk: a write appends the chunk, or returns -1 and changes nothing when room is short; the write index stays (read index + stored) mod 20480; SYNC is raised exactly above 1024 stored bytes |
| ReceiveRing.ReadDequeuesIffContract | sc_demo/V1/src/demo_file_system.c:122-172 | a read returns the oldest bytes and leaves the rest, coherent, if and only if it covers any wrapped tail and, on a full ring, everything |
| ReceiveRing.ReadExactOrNotAtAll | sc_demo/V1/src/demo_file_system.c:122-172 | outside that contract a read never returns wrong bytes: on a full ring it is refused with the free count changed, so that the ring is no longer coherent; on any other it leaves the buffer |
| ReceiveRing.ExtraOneIsUnambiguous | sc_demo/V1/src/demo_file_system.c:167-170 | the result exceeds the request exactly when bytes remain, so the consumer's decrement recovers the number of bytes copied |
| RingRuns.RunRefinesQueue | sc_demo/V1/src/demo_file_system.c:104-232 | over every sequence of writes and reads within that contract the ring gives the answers of a 20480-byte queue with the same content, and ends with its content |
| RingRuns.WholeReadsAreServed | sc_demo/V1/src/demo_file_system.c:131-163 | that contract holds along every run whose reads ask for at least a whole ring, whatever is written between them |
| ReceiveRing.RingBuffer.ReadData | sc_demo/V1/src/demo_file_system.c:104-172 | the read arm on the object: parameter check, new indices and free count, bytes copied into the caller's buffer, result and flag are those of the read function |
| ReceiveRing.RingBuffer.WriteData | sc_demo/V1/src/demo_file_system.c:104-232 | the write arm on the object, likewise |
| TransferSafety.NextKeepsInv | sc_demo/V1/src/demo_file_system.c:240-459 | every step of either task keeps the pipeline invariant; after the report no step changes anything |
| TransferSafety.CopyConserves | sc_demo/V1/src/demo_file_system.c:359-381 | a ring read moves bytes from the ring to the end of the staged bytes without loss or reordering, unless it is refused or has no defined result |
| TransferSafety.SuccessMeansExactFile | sc_demo/V1/src/demo_file_system.c:240-459 | for every total, interleaving and environment: a reported success means the file holds exactly the received bytes, in order, as many as announced |
| TransferSafety.ReceivedBytesAreConserved | sc_demo/V1/src/demo_file_system.c:251-406 | in every reachable state without failure the received bytes are file ++ staging ++ ring ++ chunk in hand |
| TransferSafety.EveryReadDrains | sc_demo/V1/src/demo_file_system.c:344-381 | for totals up to 131072, whenever the file task is about to read, the ring content fits the free staging room; the read meets the ring contract, empties the ring and stays inside the staging buffer |
| TransferSafety.OneVerdictAfterTheLastByte | sc_demo/V1/src/demo_file_system.c:272-289 | at most one report, only after the receiving function returned with every byte; nothing moves after it and the globals are cleared; at all times a file that the transfer did not open is as it was before, and a failed transfer leaves no file it did open |
| TransferSafety.FailureIsFinal | sc_demo/V1/src/demo_file_system.c:409-439 | once the failure flag is set, whatever follows, no success is reported |
| TransferSafety.FailureStopsWork | sc_demo/V1/src/demo_file_system.c:262-334 | from any state with the failure flag set and no tested step pending: whatever follows, no file is opened, no chunk enters the ring and success is not signalled |
| TransferVerdict.VerdictIsExact | sc_demo/V1/src/demo_file_system.c:258-439 | for totals up to 131072 and every run: the report is success if no step failed (no refused chunk, failed open or short file write) and failure if one did |
| TransferProgress.TransfersAreBounded | sc_demo/V1/src/demo_file_system.c:240-459 | for totals up to 131072 no run of moving steps exceeds 100 steps a byte, if the UART delivers and the staging buffer can be allocated |
| TransferProgress.SomeTaskCanMove | sc_demo/V1/src/demo_file_system.c:240-459 | no deadlock: until the report one of the tasks can move |
| TransferProgress.EveryCompleteRunReportsOnce | sc_demo/V1/src/demo_file_system.c:409-457 | every run of moving steps that cannot be prolonged has reported exactly once |
| TransferProgress.NoLostWakeUp | sc_demo/V1/src/demo_file_system.c:222-228 | for transfers of any size: in every reachable state without failure, when the ring holds more than 1024 bytes and the file task is past its read, the SYNC flag is set |
| TransferProgress.PassReachesTheRead | sc_demo/V1/src/demo_file_system.c:334-363 | a pass of the file task that found no failure comes to its ring read with a staging buffer of min(total, 131072) bytes, also when the open fails |
| TransferLimit.TrapFreeIffFits | sc_demo/V1/src/demo_file_system.c:144-156 | no interleaving makes the file task copy outside a buffer if and only if the total is at most READ_FILE_PACKET_SIZE; the same for the interleavings in which every UART read delivers min(50, missing) bytes |
| TransferLimit.Overrun | sc_demo/V1/src/demo_file_system.c:359-406 | the failing runs, all with full UART reads: a request shorter than the wrapped tail, or a repeated pass of the loop through the freed staging buffer |
| CString.StrStrFindsFirst | sc_demo/V1/src/demo_app_download.c:283-288 | the search finds an index if and only if it is the first occurrence before the end of the string |
| HttpHead.GetContentLength | sc_demo/V1/src/demo_app_download.c:296-386 | the scanner's loops on the receive buffer compute head length and content length and leave the lowercased head in place, as the parse function says |
| HttpHead.ParseDependsOnHeadOnly | sc_demo/V1/src/demo_app_download.c:337-378 | with status 200 and a Content-Length value in a complete head, both lengths depend on the head alone and every byte behind it is unchanged |
| HttpHead.HeadEndNotYet | sc_demo/V1/src/demo_app_download.c:279-294 | an incomplete head is never taken for a complete one |
| HttpHead.StatusIsDecimal | sc_demo/V1/src/demo_app_download.c:305-337 | "HTTP/1.1" or "HTTP/1.0", spaces and digits have the status that the digits denote, and with any other than 200 the parse is -1, -1 and an unchanged buffer |
| HttpHead.OtherStartsAreRefused | sc_demo/V1/src/demo_app_download.c:306-313 | so it is for any other start |
| HttpHead.OddHeadIsFoundIff | sc_demo/V1/src/demo_app_download.c:279-294 | a head that ends with the second form of the blank line is found at its end if and only if the first form does not occur before the next zero byte |
| HttpHead.HeadLengthIsDecimal | sc_demo/V1/src/demo_app_download.c:361-371 | the content length is the number, with its sign, behind the first occurrence of the text "content-length:" in the head, wherever it stands |
| HttpHead.NameInAnyCase | sc_demo/V1/src/demo_app_download.c:361-366 | a text is lowered to a name if and only if it has the same bytes but for letters in upper case |
| HttpLength.FieldIsReadIff | sc_demo/V1/src/demo_app_download.c:361-371 | the number read is that of the first Content-Length field of section 6.3 of RFC 9112 (the name at the start of a line) if and only if its text does not occur before that field; otherwise it is taken from an earlier place that is no such field |
| HttpLength.OtherFieldIsRead | sc_demo/V1/src/demo_app_download.c:361-371 | a complete head of status 200 with "X-Old-Content-Length: 9" before "Content-Length: 7": the scanner reads 9 |
| HttpLength.LengthIsFixedIffInHead | sc_demo/V1/src/demo_app_download.c:361-378 | for every complete head of status 200 in the buffer the content length is the same for every arrived part of the body if and only if the head has the field with a value |
| HttpLength.Disagreement | sc_demo/V1/src/demo_app_download.c:361-378 | without one, two bodies of at least 17 bytes behind the same head give a length of at most 0 and a length of 7 |
| HttpDownload.Download | sc_demo/V1/src/demo_app_download.c:813-922 | both loops, on the receive buffer updated in place, end and store as the run of single turns says, for every stream and turn sequence |
| HttpTheorems.SuccessStoresAnnouncedBytes | sc_demo/V1/src/demo_app_download.c:824-922 | for every byte stream, success means that exactly the announced number of bytes behind some received head of status 200 was stored |
| HttpTheorems.PrefixesAgree | sc_demo/V1/src/demo_app_download.c:842-852 | every received prefix yields no head before it is complete, and the same head and content length from then on |
| HttpTheorems.DownloadStoresTheBody | sc_demo/V1/src/demo_app_download.c:824-922 | for every announced response, fragmentation, retry and failure the package holds a beginning of the body; success means exactly the announced number of bytes behind the head (the number the scanner reads); the count passes the length, and a read of negative size follows, if and only if more body bytes than announced had arrived when the head was first complete, and were stored |
| HttpTheorems.NeverPassesLengthIff | sc_demo/V1/src/demo_app_download.c:824-922 | no fragmentation makes the count pass the announced length, or ends in such a read, if and only if the response ends with its body or head and body fill the receive buffer |
| HttpTheorems.GoodTurnsComplete | sc_demo/V1/src/demo_app_download.c:824-922 | a response of exactly the announced size is stored whole by any fragmentation that keeps delivering |
| HttpTheorems.FullTurnsComplete | sc_demo/V1/src/demo_app_download.c:828-915 | with a network that is never short it takes one turn for each 2048 bytes of the response, head included |
| HttpTheorems.RefusedResponsesStoreNothing | sc_demo/V1/src/demo_app_download.c:842-866 | a response with a complete head that is not HTTP of status 200, or gives a length that is not positive, ends with "file does not exist" exactly when its head has arrived, with nothing stored |
| HttpTheorems.LongHeadsRunOff | sc_demo/V1/src/demo_app_download.c:828-852 | when the first 2048 bytes hold no blank line and no zero, the scan leaves the buffer exactly when it is full |
| HttpTheorems.NoLengthRunsOff | sc_demo/V1/src/demo_app_download.c:366-371 | a head without a length, followed by digits that fill the buffer, makes the scan leave it |
| HttpTheorems.EndsOnOneTurn | sc_demo/V1/src/demo_app_download.c:828-918 | every ended download ends on one turn, and no later turn is used: with a receive error if and only if the read of that turn fails (no bytes in the first loop, an error in the second; no retry asked), a write error if and only if that turn comes to its write and the write fails, an open error if and only if that turn finds the head and the open fails |
| HttpTheorems.TurnFails | sc_demo/V1/src/demo_app_download.c:828-918 | conversely a failed read changes nothing when it asks to try again and ends the download otherwise; a failing write and a failing open end it |
| ServerUrl.ParseServerAddr | sc_demo/V1/src/demo_app_download.c:66-195 | the parser's loops on the caller's buffers write each out-parameter exactly when and as the parse function says, also on refusal |
| ServerUrl.UrlRoundTrip | sc_demo/V1/src/demo_app_download.c:90-194 | parsing a printed URL returns scheme, plain or bracketed host, port and path; without a port 80 for http and 443 for https, "/" for an empty path; a port comes back if and only if it is at most 32767 |
| ServerUrl.AcceptedUrlsDecompose | sc_demo/V1/src/demo_app_download.c:90-194 | every accepted URL is scheme, host, optional ':' and digits, rest, with nothing between, and the answers are these parts |
| ServerUrl.WellFormedUrlsAreAccepted | sc_demo/V1/src/demo_app_download.c:90-194 | the other way round, for any digits: every URL of this form is accepted with its parts as the answers |
| ServerUrl.AcceptedIffWellFormed | sc_demo/V1/src/demo_app_download.c:90-194 | exactly the URLs of this form are accepted |
| ServerUrl.HostRefused | sc_demo/V1/src/demo_app_download.c:112-147 | without a usable host (none, too long, unclosed bracket) only the type is written |
| ServerUrl.PortRefused | sc_demo/V1/src/demo_app_download.c:153-183 | without digits behind the colon, or with anything else among them, type and address are written |
| ServerUrl.RestRefused | sc_demo/V1/src/demo_app_download.c:184-190 | with a path above 256 bytes type, address and port are written |
| Decimals.ShortIsCongruent | sc_demo/V1/src/demo_app_download.c:178-184 | the 16-bit conversion of the port is the one short that is congruent to it modulo 65536 |
| FtpUrl.ParseFtpServerAddr | sc_demo/V1/src/demo_app_download.c:198-276 | the parser fills the caller's four buffers with the terminated fields of the parse function |
| FtpUrl.FtpRoundTrip | sc_demo/V1/src/demo_app_download.c:219-275 | for all fields, parsing ftp[s]://user:password@host:port/file gives every field back if and only if user and password are not empty, the user has no ':' or '@', the password no '@', the host no '/', the file name no ':', and all fit their buffers; the port is exact up to 32767 |
| FtpUrl.AnonymousRoundTrip | sc_demo/V1/src/demo_app_download.c:241-275 | for all fields without credentials: every field comes back if and only if the host has no '/', the file name no ':', both fit, and neither has an '@' (or the host is empty or starts with ':') |
| FtpUrl.PortlessRoundTrip | sc_demo/V1/src/demo_app_download.c:241-275 | without a port, host and file name come back if and only if the host has no '/', both fit, and a ':' of the host is made good by one in the file name; the port is the number at the start of the file name |
| FtpUrl.AnonymousPortless | sc_demo/V1/src/demo_app_download.c:241-275 | the same without credentials |
| FtpUrl.UserWithoutPassword | sc_demo/V1/src/demo_app_download.c:233-240 | user@host without a password: the whole text is the user, and user@host the host |
| FtpUrl.RefusedIffOtherScheme | sc_demo/V1/src/demo_app_download.c:219-232 | exactly the URLs that do not start with ftp:// or ftps:// are refused |
| Distances.UnusedSlots | public_libs/zlib/deflate.h:303-308 | slots 256 and 257 of `_dist_code` are never read |
| Distances.CodeCovers | public_libs/zlib/trees.h:73-127 | the code of every distance is the one whose base is the last not above it |
| Distances.CodeIff | public_libs/zlib/trees.h:73-127 | a code stands for the distances from its base up to the next base and for no others |
| Distances.TablesAgree | public_libs/zlib/inffixed.h:87-94 | for every distance the sender's code, base and offset agree with the receiver's entry: five bits, the extra bits hold the offset, base plus offset is the distance |
| Distances.DistancesRoundTrip | public_libs/zlib/trees.h:64-127 | every sequence of distances 1..32768 is decoded from its bits, in order, with the following bits left over |
| Distances.SendUndoesReceive | public_libs/zlib/inffixed.h:87-94 | whatever the receiver accepts is what the sender sends for its distance, which is one of 1 to 32768 |
| Distances.BitAt | public_libs/zlib/deflate.h:255-258 | the bits of a value go out lowest first |
| Distances.LengthCodeCovers | public_libs/zlib/trees.h:102-121 | the length code of every match length covers it with its base and extra bits; the last code belongs to the longest match alone |
| Distances.LengthCodeIff | public_libs/zlib/trees.h:102-121 | a length code stands for exactly the lengths from its base that its extra bits reach, so its base is the smallest; the longest match has its own |
| Tally.BufferDecodes | public_libs/zlib/deflate.h:321-339 | the packed symbol buffer decodes to the tallied literals and matches |
| Tally.CountersAddUp | public_libs/zlib/deflate.h:321-339 | for every symbol sequence the literal/length counts sum to the symbols, the distance counts to the matches, and the end-of-block counter stays zero |
| Tally.CountsLiteral | public_libs/zlib/deflate.h:321-328 | counter b counts the literal b |
| Tally.CountsLengths | public_libs/zlib/deflate.h:329-339 | counter 257 + k counts the matches with the lengths of length code k |
| Tally.CountsDistances | public_libs/zlib/deflate.h:329-339 | distance counter k counts the matches from the base of code k up to the next base |
| Tally.TallyState.TallyLit | public_libs/zlib/deflate.h:321-328 | a literal c adds the bytes 0, 0, c and one to counter c; buffer and counters go on describing the symbols; flush is raised exactly when the buffer is full |
| Tally.TallyState.TallyDist | public_libs/zlib/deflate.h:329-339 | the same for a match with any distance 1..32768: low byte, high byte, length |
| Tally.TallyState.TallyBlock | public_libs/zlib/deflate.h:311-339 | tallying until flush is raised takes exactly as many symbols as there are free slots, in order, or all of them |
| Tally.TallyState.TalliesAreExact | public_libs/zlib/deflate.h:321-339 | after any tallies into at most 65535 slots: the buffer decodes; counter b is the number of literals b, the others the number of matches in the range of their code; sums are sym_next/3 and the match count |
| ZipCrypto.DecodeUndoesEncode | public_libs/zlib/minizip/crypt.h:77-81 | for all keys, tables and byte strings, decoding the cipher text gives the plain text |
| ZipCrypto.EncodeUndoesDecode | public_libs/zlib/minizip/crypt.h:77-81 | and every byte string is the cipher text of its decoding |
| ZipCrypto.KeysAgree | public_libs/zlib/minizip/crypt.h:49-81 | both sides hold the same three keys after every byte |
| ZipCrypto.CryptHead | public_libs/zlib/minizip/crypt.h:91-130 | writes the encoding of the plain header from the password's keys, leaves the keys that follow it, and nothing when the buffer is too small |
| ZipCrypto.DecodeInPlace | public_libs/zlib/minizip/crypt.h:77-78 | running `zdecode` over a buffer leaves the decoding of its old content, and the keys of the decoding side |
| ZipCrypto.EncryptedEntryDecodes | public_libs/zlib/minizip/crypt.h:91-130 | for every password, table, random source, CRC and body: decoding header and body from the password gives the body, the two CRC bytes in place, and ten bytes that decode once more to the random ones |
| ZipCrypto.KeyByte | public_libs/zlib/minizip/crypt.h:36-44 | the key byte is the second lowest byte of (4a + 2)(4a + 3), where a is bits 2 to 15 of the third key |
| ZipCrypto.CrcIsBitwise | public_libs/zlib/minizip/crypt.h:30 | with the CRC-32 table the macro is eight steps of the CRC-32 register |
| ZipCrypto.FirstKeyIsCrc | public_libs/zlib/minizip/crypt.h:49-75 | the first key is the CRC-32 register over the plain bytes |
| ZipCrypto.KnownAnswers | public_libs/zlib/minizip/crypt.h:49-75 | known answers with the CRC-32 table: the keys of the password "a", a cipher text |
| ZipCrypto.KnownKeyBytes | public_libs/zlib/minizip/crypt.h:36-44 | known answers of the key byte, the random byte and the CRC bytes |
| ZipCrypto.AddLowByteIs | public_libs/zlib/minizip/crypt.h:52 | the second key takes in the low byte of the first |
| ZipCrypto.HighByteIs | public_libs/zlib/minizip/crypt.h:55 | the third key takes in the high byte of the second |
| ZipCrypto.RandomByteIs | public_libs/zlib/minizip/crypt.h:118 | the random byte is bits 7 to 14 of the random number |
| ZipCrypto.CrcBytes | public_libs/zlib/minizip/crypt.h:127-128 | the last two header bytes are the third and the fourth byte of the CRC |
| ZipCrypto.StandardTableIsCrc | public_libs/zlib/crc32.h:5-8 | the table of the register's remainders is a table for the macro |

## Left out

- The two transfer tasks are stepped on a value, not on an object: only the ring is modelled with its storage updated in place. Aliasing between the staging buffer, the chunk and the ring is therefore not modelled; freed staging memory is, as a trap.
- A failing allocation of the staging buffer ends a run in a trap state, because the code then clears memory through the null pointer.
- A second transfer, and the staging buffer a first one may leave allocated: the model covers one transfer from its set-up.
- Allocation of the ring, creation of the mutex, the flags and the task in the demo menu; a flag wait that returns without a flag.
- TransferProgress.TransfersAreBounded: assumes that a UART read delivers at least one byte, as `UartRead` does by waiting; without it no bound exists.
- HttpTheorems.GoodTurnsComplete: says nothing about a body loop whose reads keep returning zero bytes; the code then repeats for ever.
- HttpHead.ParseHead: the status code is an unbounded integer, so the overflow of the C `int` on a status of ten and more digits is not modelled; the same holds for `atoi`.
- HTTP logging of the receive buffer with `%s`, address lookup, connecting, TLS and the request text.
- FtpUrl.ParseFtp: a field that does not fit its 256-byte buffer, and a URL without '/', are one outcome without a defined result.
- FTP dialogue, passive-mode address parsing and the FTP download loop: protocol plumbing around unseen servers.
- The end-of-block tally, tree construction, bit-length limits and `compress_block` in `trees.c`: trees.c is not part of this model, nor is the set-up of `sym_end` in `deflate.c`.
- The `lenfix` and `static_ltree` tables: a longer transcription for a claim of the same shape as the distance tables.
- ZipCrypto.CryptHead: the values of `rand()` are a parameter; seeding and the call counter are not modelled; keys are 32 bits wide, as `unsigned long` is on the target.
- UUID formatting, the attribute blob copy and the descriptor bit set: their properties are one loop or one bit each and would only add easy members.
- Prebuilt libraries (cJSON, MIRACL, SM2/SM3, zip and inflate bodies) and all calls into the module firmware: prototypes only.
- Menus, demo loops, Bluetooth, camera, MQTT, NTP and call demos: user interface or wrappers over unseen libraries.
