# Verified models of a shadowsocks client

The repository is a shadowsocks client: SOCKS5 on the near side, encrypted TCP and UDP on the far
side, with the network shell written over libuv. This project models the parts of it that carry
state or arithmetic and proves what they are for.

- **AEAD record layer** (`Aead`, `AeadStream`, `AeadCodec`, `AeadTransfer`, `Replay`): writes become
  `salt | [length][tag][payload][tag]...`; an incremental deframer takes them apart again whatever the
  TCP segmentation. The main theorem is `AeadStream.Session`, and `AeadTransfer.Transfer` carries it over to the
  stateful procedures. `Replay` follows any interleaving of
  connections and packets that share the replay memory.
- **Replay memory** (`Bloom`, `PingPong`): a pair of Bloom filters with an exact sliding-window meaning.
- **Stream ciphers** (`Bitwise`, `Stream`, `StreamSession`, `StreamCodec`, `StreamTransfer`, `StreamReplay`): padding and
  shifting to block boundaries is XOR with the keystream at the byte position, for any split into
  calls on either side, exactly as far as the block counter reaches.
- **Hash table and LRU cache** (`Uthash`, `Lru`, `Cache`): two link systems and bucket doubling over a
  heap of items refine a list of entries ordered by last touch.
- **Argument permutation** (`Rotation`, `Getopt`, `GetoptReports`): block exchange by gcd cycles in place, a
  whole run of `getopt_long` calls as a stable partition of the argument vector, and what each word reports.
- **Codecs and handshake** (`Base64`, `Hkdf`, `Socks5`, `Handshake`): URL-safe base64, HKDF and the
  password digest chain, address parsing and the SOCKS5 request handlers over any split of the input.

`Arithmetic`, `Sequences`, `Bytes`, `Buffers`, `Slicing` and `Wrappers` hold what the others share. Code that updates
state in place is modelled by classes, arrays and loops; each such method is proved against a function,
and the theorems are about the functions. What is sent, written or reported is also stated on its own terms,
without those functions: `Aead.OnTheWire`, `StreamSession.OnTheWire`, `Hkdf.Expanded`, `Base64.IsText`,
`GetoptReports.RunItems`, `Socks5.Format` and `Replay.Accepts`. `dafny verify dfyconfig.toml` checks everything.

Cryptographic primitives, hash functions, random salts and the clock are parameters. What is assumed of
the primitives is in `Aead.ValidSuite`, `Stream.ValidCipher`, `Hkdf.ValidHmac` and `Hkdf.ValidDigest`: the
lengths of their results and that `open` undoes `seal`.

## Where the code differs from what it says

- `src/cache.c:50-51` calls the capacity the number of elements the cache can hold. An insert that brings
  the count to the capacity evicts, so the cache holds at most one fewer (`Lru.RunGood`), and none at
  capacity 1.
- A getopt scan that meets a dash at the end of a short-option cluster returns -1 without moving the
  non-options (`src/win/getopt.c:465-466`). `Getopt.ClosingDash` gives the input `x -: -:-`, after which `x` still
  stands before the option `-:` and optind is behind both; `Getopt.DashFree` proves that every run leaves the
  options first and optind behind them if and only if long options are given or the dash is an option letter;
  `Getopt.ParseAll` states the exact arrangement in either case.
- `ppbloom_check` returns -1 when initialisation failed, and its callers compare with 1. A memory made for
  fewer than 2000 entries therefore rejects nothing: `PingPong.Memory.Check` and `Replay.ReplayedSession`
  state both cases.
- chacha20-ietf passes its block counter as 32 bits (`src/stream.c:167`), and the byte counter of all
  contexts has 64 bits. `StreamSession.ExactSession`: sending and receiving are right for every cipher and
  every segmentation if and only if the text has at most 64 * 2^32 bytes for chacha20-ietf, 2^64 for the
  others. `StreamSession.ExactLimit` is about the sender alone: what it sends is the text XOR keystream if and
  only if every write with bytes starts below that limit and the text ends within the keystream of the nonce,
  which for chacha20-ietf is again that the text has at most 64 * 2^32 bytes. The cipher library is not
  part of the repository: a call that needs a block past the last one (section 2.4 of RFC 8439 has 2^32 of them)
  is taken to end the program, not to wrap.
- The UDP parser masks ATYP with 0xF and the TCP parser does not (`src/UDPRelay.cpp:229`).
  `Socks5.ParsersAgree` says on which bytes they agree: those whose ATYP is below 16, and those that do not begin
  with a header after the mask either. `Socks5.ParsersDiffer` gives a header on which they do not.
- Both address parsers read the name length of a domain before any length test, and the UDP parser also ATYP.
  `Socks5.AddressParse` and `Socks5.ParseUdpHeader` take what memory holds behind the buffer as a parameter and
  show that it does not matter for the result. `Handshake.Client.Connect` always passes at least two bytes, so
  the request handlers stay inside the buffer. The UDP callers do not: `src/UDPRelay.cpp:129-130` passes the length
  less 3 without a test, so the datagram 0, 0, 0, 3 makes the parser read behind it, and a datagram shorter than
  3 bytes makes the length wrap around, which is outside this model.
- A packet with an empty payload is rejected on receipt (`src/aead.c:443-491`, `src/stream.c:453-455`): see
  `Aead.PacketRoundTrip` and `StreamSession.PacketRoundTrip`.
- The left shift of a signed `int` in `base64_decode` overflows after six characters. The model wraps at 32
  bits, which is what two's complement machines do; the result uses only the low twelve bits.

## Model

| member | source | states |
|---|---|---|
| `Rotation.ComputeGcd` | src/win/getopt.c:137-150 | the remainder loop returns the gcd |
| `Rotation.GcdGreatest` | src/win/getopt.c:137-150 | every common divisor divides the gcd |
| `Rotation.OrbitInjective` | src/win/getopt.c:172-186 | steps of different cycles, or different steps of one cycle, are at different positions |
| `Rotation.OrbitCovers` | src/win/getopt.c:172-186 | every position of the segment is on one of the gcd many cycles |
| `Rotation.OrbitCloses` | src/win/getopt.c:172-186 | a cycle is back at its start after exactly cyclelen steps |
| `Rotation.GcdCycles` | src/win/getopt.c:167-186 | the cycles number gcd, have length cyclelen, are disjoint, closed and cover the segment |
| `Rotation.CountCycles` | src/win/getopt.c:167-170 | the computed number and length are those of the cycle decomposition |
| `Rotation.Move` | src/win/getopt.c:174-185 | one swap puts one more word at its final place and keeps the others accounted for |
| `Rotation.WalkDone` | src/win/getopt.c:172-186 | when all cycles are walked, the segment A+B reads B+A |
| `Rotation.WalkCycle` | src/win/getopt.c:173-185 | the inner loop walks one cycle, in bounds |
| `Rotation.WalkAll` | src/win/getopt.c:172-186 | the outer loop leaves B+A and touches nothing outside |
| `Rotation.PermuteArgs` | src/win/getopt.c:157-187 | argv has the two adjacent blocks exchanged, order kept inside each, all other words unchanged |
| `Getopt.FindLong` | src/win/getopt.c:208-243 | the table search finds the exact match, else the only abbreviation up to identical options, else says none or ambiguous |
| `Getopt.Scanner.constructor` | src/win/getopt.c:102-106 | the run invariant holds at the start |
| `Getopt.Scanner.AtEnd` | src/win/getopt.c:362-378 | at the end of the vector all consumed words precede all non-options and optind is at the first of these |
| `Getopt.Scanner.SkipWord` | src/win/getopt.c:399-408 | a non-option is skipped, and the run invariant kept, by an exchange if options lie between |
| `Getopt.Scanner.Terminate` | src/win/getopt.c:419-431 | at `--` the vector is in its final arrangement |
| `Getopt.Scanner.Seek` | src/win/getopt.c:359-433 | the scan reaches the next option word or ends the run, keeping the invariant |
| `Getopt.Scanner.ParseLong` | src/win/getopt.c:194-316 | code, argument and words consumed are those of the reference step for a long option, in every error case |
| `Getopt.Scanner.ParseW` | src/win/getopt.c:474-490 | the same for `-W` |
| `Getopt.Scanner.ParseArg` | src/win/getopt.c:495-509 | the same for an option argument: attached, optional, separate or missing |
| `Getopt.Scanner.ParseShort` | src/win/getopt.c:457-512 | the same for a short option |
| `Getopt.Scanner.ParseOption` | src/win/getopt.c:441-512 | the same for a word that may be either |
| `Getopt.Scanner.Report` | src/win/getopt.c:441-513 | an option call reports the next step of the scan and keeps the invariant, or stops at a closing dash |
| `Getopt.Scanner.Call` | src/win/getopt.c:356-513 | a call of getopt_long reports the next option and keeps the invariant, or ends with the final arrangement |
| `Getopt.ParseAll` | src/win/getopt.c:356-513 | a whole run reports what a single pass over the original vector finds, and leaves program name, consumed words, non-options, rest, with optind at the first non-option; after a closing dash the consumed words behind the last skipped one stay behind all skipped ones, and optind is behind them |
| `Getopt.ScanStable` | src/win/getopt.c:359-433 | the pass labels every word once; consumed words and non-options are the labelled words in original order, and the words counted as consumed before the last skipped one are those labelled so |
| `Getopt.DashFree` | src/win/getopt.c:457-466 | every run leaves options before non-options with optind between, and no scan stops at a closing dash, if and only if long options are given or the dash is an option letter |
| `Getopt.ClosingDash` | src/win/getopt.c:457-466 | otherwise the words `x -: -:-` end with `x` before the option `-:` and optind behind both |
| `Getopt.NoDash` | src/win/getopt.c:441-466 | from any point of a scan, with long options or a dash letter, it does not stop early |
| `GetoptReports.LongWithValue` | src/win/getopt.c:194-316 | a long option given as `--name=value`, through `-W` or abbreviated, reports its code and what follows the first equals sign, or the argument error if it takes none |
| `GetoptReports.LongAlone` | src/win/getopt.c:194-316 | without a value, when none is required, it reports its code and no argument |
| `GetoptReports.LongNext` | src/win/getopt.c:262-276 | a required argument is the next word, which is consumed, whatever it is |
| `GetoptReports.LongMissing` | src/win/getopt.c:278-297 | at the end of the vector a required argument is reported missing, with a colon if the option string starts with one |
| `GetoptReports.LongUnknown` | src/win/getopt.c:237-309 | a name that selects no entry, being unknown or ambiguous, reports a question mark |
| `GetoptReports.SelectsMatch` | src/win/getopt.c:220-243 | a name selects the first entry of that name, else the first it abbreviates if all it abbreviates mean the same |
| `GetoptReports.GivenLong` | src/win/getopt.c:441-490 | `--text`, `-Wtext` and `-W text` come to the same |
| `GetoptReports.WMissing` | src/win/getopt.c:478-484 | `-W` at the end is an argument error |
| `GetoptReports.Cluster` | src/win/getopt.c:457-512 | a cluster of letters reports each in order, unknown ones as a question mark |
| `GetoptReports.Attached` | src/win/getopt.c:495-499 | behind letters, an option with an argument takes the rest of the word |
| `GetoptReports.Separate` | src/win/getopt.c:500-509 | or the next word, if the argument is required and the word ends |
| `GetoptReports.Missing` | src/win/getopt.c:501-506 | or is an argument error at the end |
| `GetoptReports.LeftOut` | src/win/getopt.c:495-509 | an optional argument left out takes no word |
| `GetoptReports.LongInside` | src/win/getopt.c:441-455 | with long options, a dash behind letters begins one |
| `GetoptReports.DashInside` | src/win/getopt.c:457-472 | without them it is an unknown letter |
| `GetoptReports.DashWord` | src/win/getopt.c:457-512 | a single dash is an option if the dash is an option letter |
| `GetoptReports.RunItems` | src/win/getopt.c:356-513 | a run over a vector of such words, skipped words and `--` reports what they report in their order and leaves all options before the skipped words |
| `Bloom.SetBit` | libbloom/bloom.c:24-39 | or-ing the mask into its byte adds exactly that bit index to the set |
| `Bloom.TestBit` | libbloom/bloom.c:24-39 | and-ing the mask tests membership of that bit index |
| `Bloom.Sized` | libbloom/bloom.c:90-107 | bits is the whole part of entries times bits per element, and there is a bit and a hash if and only if that product is at least 1 |
| `Bloom.PositionsAre` | libbloom/bloom.c:51-58 | the bits of an element are the remainders of a + i*b in 32 bits, with the two seeded hashes of the source |
| `Bloom.Filter.constructor` | libbloom/bloom.c:81-114 | the filter has the computed size and is empty; too few entries or no error rate leave it not ready; it can be used if and only if it is not ready or has a bit |
| `Bloom.Filter.TestBitSetBit` | libbloom/bloom.c:24-39 | returns membership and adds the index when asked, in bounds |
| `Bloom.Filter.CheckAdd` | libbloom/bloom.c:42-71 | adding unites the set with the element's positions; the answer is 1 exactly when all were there before the call, also when they collide |
| `Bloom.Filter.Check` | libbloom/bloom.c:117-120 | checking leaves the set as it is |
| `Bloom.Filter.Add` | libbloom/bloom.c:123-126 | adding sets exactly the bits given by that formula |
| `Bloom.Filter.Reset` | libbloom/bloom.c:150-155 | the set becomes empty |
| `PingPong.FillStep` | src/ppbloom.c:76-92 | one add advances the count modulo entries and flips the filter in use when a batch is full |
| `PingPong.RecentSeen` | src/ppbloom.c:61-74 | each of the last min(n, entries + n mod entries) elements added is seen |
| `PingPong.WholeBatch` | src/ppbloom.c:76-92 | what precedes the current fill is nothing or at least a whole batch |
| `PingPong.UnseenIsOld` | src/ppbloom.c:61-92 | an element that is not seen was added more than entries adds ago or never |
| `PingPong.AddWindow` | src/ppbloom.c:76-92 | an add extends the current batch, or completes it and discards the other |
| `PingPong.Contents` | src/ppbloom.c:39-92 | after n adds the counter is n mod entries, the filter in use is the parity of n / entries and has exactly the bits of the last n mod entries elements, the other those of the full batch before |
| `PingPong.Memory.constructor` | src/ppbloom.c:39-59 | the memory starts empty with two filters sized for half of n, ready unless that half is below 1000 or the error rate is 0, and usable if and only if it is not ready or the filters have a bit |
| `PingPong.Memory.Check` | src/ppbloom.c:61-74 | 1 exactly when the window holds all positions of the element, -1 when not ready |
| `PingPong.Memory.Add` | src/ppbloom.c:76-92 | the history grows by the element; counters, parity and both bit sets stay those of the history |
| `Aead.NonceIsCount` | src/aead.c:493-529 | the nonce after k operations is k modulo 256^nonce_len |
| `Aead.NoncesDistinct` | src/aead.c:493-529 | the nonces of different operations below 256^nonce_len differ |
| `Aead.LenRoundTrip` | src/aead.c:493-500 | a length up to 0x3FFF survives its two-byte field and the mask |
| `Aead.LengthField` | src/aead.c:600-601 | a length field is read with the higher byte first and fourteen bits |
| `Aead.OpenPartial` | src/aead.c:581-624 | any proper prefix of a sealed chunk is reported as incomplete |
| `Aead.OpenWhole` | src/aead.c:581-624 | a sealed chunk with anything after it opens to its payload and uses exactly its bytes |
| `Aead.DrainPrefix` | src/aead.c:670-694 | draining any prefix of sealed chunks yields the payloads of the whole ones and keeps the remaining bytes and the nonce |
| `Aead.PacketRoundTrip` | src/aead.c:402-491 | a UDP packet opens to its payload and records its salt, if and only if the payload is not empty and the salt unseen |
| `Aead.WireSealedAt` | src/aead.c:493-529 | chunk j stands at its byte offset: the length in two bytes sealed under nonce 2j, right behind it the payload sealed under nonce 2j+1, modulo 256^nonce_len |
| `Aead.WireOnTheWire` | src/aead.c:531-579 | a session sends the salt and these chunks in order and nothing else |
| `Aead.SealsDiffer` | src/aead.c:493-529 | all seals of a session below the size of the counter have different nonces |
| `AeadStream.DeliverHonest` | src/aead.c:670-711 | what one call delivers from an honest buffer, and when the salt is recorded |
| `AeadStream.EventHonest` | src/aead.c:626-711 | one event of an honest stream never fails and delivers the chunks it completes, wherever it is cut |
| `AeadStream.RunHonest` | src/aead.c:626-711 | the same for any list of events from any point of the stream |
| `Slicing.AllSlicesCover` | src/local_uv.cpp:299-303 | slicing events at 16383 bytes keeps all bytes in order and makes no empty slice |
| `AeadStream.Session` | src/aead.c:531-711 | for all writes and any cut of any prefix of what they send, with slicing: no error, and the delivered bytes are the payloads of the chunks received whole; the salt is recorded with the first of them |
| `AeadStream.RunConcat` | src/local_uv.cpp:290-315 | a run over more events goes on from the state, memory and output of the first ones |
| `AeadStream.StreamEnd` | src/aead.c:531-579 | all bytes of a stream hold all chunks |
| `Buffers.Realloc` | src/crypto.c:62-72 | contents and length stay, and the capacity is at least the demanded size |
| `Buffers.DropFront` | src/aead.c:663-665 | the memmove leaves the data after the dropped bytes |
| `AeadCodec.DecoderCtx.constructor` | src/aead.c:369-379 | a context starts in the fresh state |
| `AeadCodec.DecoderCtx.ChunkDecrypt` | src/aead.c:581-624 | opens the chunk at an offset in place; when incomplete the nonce is as before although the length was opened, when bad it is at the operation that failed |
| `AeadCodec.DecoderCtx.DrainLoop` | src/aead.c:670-694 | the loop, with its running offsets and capacity bounds, drains the buffer; the early return needs no memmove; what a bad chunk leaves behind |
| `AeadCodec.DecoderCtx.Append` | src/aead.c:635-645 | the new bytes follow the buffered ones |
| `AeadCodec.DecoderCtx.TakeSalt` | src/aead.c:650-667 | the salt is stored and checked, then key and state are set and the salt removed from the buffer; a repeated one leaves the buffer |
| `AeadCodec.DecoderCtx.Finish` | src/aead.c:669-710 | delivery with the second salt check before init becomes 2 |
| `AeadCodec.DecoderCtx.Decrypt` | src/aead.c:626-711 | aead_decrypt is the deframer's step on its state, output and memory, errors included |
| `AeadCodec.EncoderCtx.constructor` | src/aead.c:369-379 | nothing sent |
| `AeadCodec.EncoderCtx.ChunkEncrypt` | src/aead.c:493-529 | appends the sealed chunk inside the capacity and advances the nonce twice |
| `AeadCodec.EncoderCtx.Start` | src/aead.c:559-565 | the first call writes the salt, sets the key and records the salt |
| `AeadCodec.EncoderCtx.Seal` | src/aead.c:545-578 | one call produces the sealed chunk, behind the salt the first time, in bounds |
| `AeadCodec.EncoderCtx.Encrypt` | src/aead.c:531-579 | all outputs so far concatenate to the stream of all payloads so far |
| `AeadCodec.EncryptAll` | src/aead.c:402-441 | produces the salt and the payload sealed under nonce 0, and records the salt |
| `AeadCodec.DecryptAll` | src/aead.c:443-491 | opens a packet, rejecting short, repeated and forged ones without recording |
| `AeadCodec.Relay.RemoteRecv` | src/local_uv.cpp:290-315 | the slicing loop writes to the client what the run of slices delivers, and closes exactly on error |
| `AeadTransfer.NonceLockstep` | src/aead.c:493-624 | once the salt is in, each side's nonce is twice the chunks it has completed modulo 256^nonce_len, and they are equal when everything is received |
| `AeadTransfer.SendAll` | src/aead.c:531-579 | the outputs of all calls of a context concatenate to the salt and the sealed lengths and payloads at their offsets, each seal under its own nonce |
| `AeadTransfer.Receive` | src/local_uv.cpp:290-315 | one more event of an honest stream keeps the connection open and extends the run |
| `AeadTransfer.DeliverAll` | src/local_uv.cpp:290-315 | events of any sizes leave the client with the payloads of the chunks received whole |
| `AeadTransfer.Transfer` | src/aead.c:531-711 | a sender's context and a fresh relay put together: for any writes and any event sizes the client has been written exactly the payloads of the chunks received whole, and all text when all bytes have come |
| `Replay.DecryptAdds` | src/aead.c:626-711 | a call records at most one salt, and that one was unseen |
| `Replay.PacketAdds` | src/aead.c:443-491 | the same for a packet |
| `Replay.StepChecked` | src/aead.c:402-711 | every event keeps: accepted salts were unseen when recorded |
| `Replay.AfterChecked` | src/aead.c:402-711 | it holds after every interleaving of connections and packets |
| `Replay.StepUses` | src/aead.c:402-711 | an event adds to the memory exactly the salt it accepts or sends, seen from its outcome and the bytes of the connection, and accepts only unseen ones |
| `Replay.Grows` | src/ppbloom.c:76-92 | the memory grows by the salts used, in their order |
| `Replay.AtMostOncePerWindow` | src/aead.c:402-711 | over any interleaving, between an event that accepts or sends a salt and a later one that accepts it, more than entries events accept or send one |
| `Replay.FreshAccepted` | src/aead.c:626-711 | a whole stream with an unseen salt is accepted on a newly opened connection, at any time |
| `Replay.SeenRejected` | src/aead.c:650-667 | a stream with a seen salt delivers nothing, in any segmentation, and fails once a byte follows the salt |
| `Replay.ReplayedSession` | src/aead.c:626-711 | a session fed again right after is rejected if the memory is ready and accepted if it is not |
| `Bitwise.XorAt` | src/stream.c:156-171 | a bit of the exclusive or is set if and only if the bits of the operands differ |
| `Bitwise.XorZero` | src/stream.c:156-171 | with zero it is the byte, with itself zero |
| `Bitwise.XorTwice` | src/stream.c:156-171 | masking a byte twice restores it |
| `Stream.Sizes` | src/stream.c:148-171 | nonces have 8, 8 and 12 bytes; the limit is 2^38 bytes for chacha20-ietf and 2^64 for the others |
| `Stream.MaskedTwice` | src/stream.c:156-171 | masking at the same offset twice restores the data |
| `Stream.MaskedConcat` | src/stream.c:377-446 | masking a concatenation is masking the parts at their positions |
| `Stream.Position` | src/stream.c:408-420 | block index and padding of the wrapped counter give the position modulo the limit |
| `Stream.Shift` | src/stream.c:408-425 | padding, masking from a block boundary and cutting the padding off is masking at the byte offset, as far as the keystream goes |
| `Stream.CallMasks` | src/stream.c:408-425 | a call at any stream position masks from that position modulo the limit, and ends the program exactly when the keystream runs out |
| `StreamSession.RunCounter` | src/stream.c:391-421 | the counter is the number of bytes sent modulo 2^64 |
| `StreamSession.EncryptAnySplit` | src/stream.c:377-446 | every split into writes that start below the limit, within the keystream, sends the nonce and the text XOR keystream |
| `StreamSession.SentOnTheWire` | src/stream.c:377-446 | whatever the split: the nonce, and then each byte of the text with exactly those bits turned that are set in byte i mod 64 of block i / 64 |
| `StreamSession.ZeroKeystream` | src/stream.c:377-446 | under a keystream of zeros the text itself is sent |
| `StreamSession.PastLimit` | src/stream.c:156-171 | a write past the limit uses other keystream, for some cipher |
| `StreamSession.RunsOut` | src/stream.c:156-171 | writes that start below the limit but end past the keystream are not all sent |
| `StreamSession.ExactLimit` | src/stream.c:156-171 | sending is right for every cipher if and only if every write with bytes starts below the limit and the text ends within the keystream |
| `StreamSession.WithinLimit` | src/stream.c:156-171 | that holds for a text up to the limit, and for chacha20-ietf only then |
| `StreamSession.UnmaskHonest` | src/stream.c:559-612 | masked bytes at their position come out as plaintext; the nonce is recorded with the first |
| `StreamSession.DecryptHonest` | src/stream.c:506-613 | one event of an honest stream, cut anywhere, also inside the nonce |
| `StreamSession.RunConcat` | src/local_uv.cpp:290-315 | a run over more events goes on from the state, memory and output of the first ones |
| `StreamSession.Session` | src/stream.c:377-613 | any writes up to the limit and any segmentation of any prefix of their output: no error, and exactly the plaintext bytes of that prefix |
| `StreamSession.TooLong` | src/stream.c:377-613 | a longer text has a cipher and a segmentation, in one or two events, for which sending or receiving goes wrong |
| `StreamSession.ExactSession` | src/stream.c:377-613 | sessions are right for every cipher and every segmentation if and only if the text is no longer than the limit |
| `StreamSession.PacketRoundTrip` | src/stream.c:327-504 | a packet within the keystream opens to its payload and records its nonce, if and only if the payload is not empty and the nonce unseen |
| `StreamSession.PacketOnTheWire` | src/stream.c:327-375 | a packet is the nonce and the text with those bits turned |
| `StreamSession.SeenRejected` | src/stream.c:551-556 | a stream with a seen nonce delivers nothing and fails once the nonce is complete |
| `StreamSession.AcceptedUnseen` | src/stream.c:597-606 | a context accepts exactly when it records a nonce that was unseen |
| `StreamReplay.StepChecked` | src/stream.c:448-613 | bytes on any connection and any packet keep: recorded nonces were unseen |
| `StreamReplay.StepAccepts` | src/stream.c:448-613 | an event adds to the memory exactly the nonce it accepts, seen from its outcome and the bytes of the connection |
| `StreamReplay.AtMostOncePerWindow` | src/stream.c:448-613 | over any interleaving, between two events that accept one nonce more than entries events accept one |
| `StreamReplay.FreshAccepted` | src/stream.c:506-613 | an unseen nonce with bytes behind it is accepted on a new connection, at any time |
| `StreamCodec.Pad` | src/stream.c:410-414 | room is made and zeros put in front, in bounds |
| `StreamCodec.Mask` | src/stream.c:408-425 | the buffer then holds what the pure call computes, or the library has ended the program |
| `StreamCodec.SenderCtx.constructor` | src/stream.c:615-622 | nothing sent |
| `StreamCodec.SenderCtx.Encrypt` | src/stream.c:377-446 | stream_encrypt is the sender's step, whatever the static buffer held |
| `StreamCodec.ReceiverCtx.Take` | src/stream.c:521-540 | nonce bytes move from the event to the chunk |
| `StreamCodec.ReceiverCtx.Record` | src/stream.c:597-606 | the second check and the recording happen once |
| `StreamCodec.ReceiverCtx.Finish` | src/stream.c:559-612 | the masked part of the receiver's step |
| `StreamCodec.ReceiverCtx.Decrypt` | src/stream.c:506-613 | stream_decrypt is the receiver's step on state, result code, output and memory |
| `StreamCodec.EncryptAll` | src/stream.c:327-375 | produces the packet: the nonce and the text with the bits of the keystream turned |
| `StreamCodec.DecryptAll` | src/stream.c:448-504 | opens a packet, rejecting short and repeated ones without recording |
| `StreamTransfer.SendAll` | src/stream.c:377-446 | the outputs of all calls of a context are those of the run, until the library ends the program; within the limit they are the nonce and the text with the bits of the keystream turned |
| `StreamTransfer.Relay.RemoteRecv` | src/local_uv.cpp:290-315 | the slicing loop writes to the client what the run of slices delivers, and closes exactly when it fails |
| `StreamTransfer.DeliverAll` | src/local_uv.cpp:290-315 | events of any sizes leave the client with the plaintext of the bytes received |
| `StreamTransfer.Transfer` | src/stream.c:377-613 | a sender's context and a fresh relay put together: for any writes up to the limit and any event sizes the client has been written exactly the plaintext of the bytes received, and all text when all bytes have come |
| `Uthash.MaskIsMod` | src/uthash.h:327-330 | masking with a power of two less one is the remainder |
| `Uthash.AppendList` | src/uthash.h:233-239 | the item is linked at the end |
| `Uthash.Unlink` | src/uthash.h:355-365 | the item leaves the order list, head and tail follow |
| `Uthash.PushChain` | src/uthash.h:755-760 | the item is linked at the front of a chain |
| `Uthash.UnlinkChain` | src/uthash.h:767-777 | the item leaves its chain |
| `Uthash.RemoveFrom` | src/uthash.h:767-777 | the buckets hold exactly the other items |
| `Uthash.MoveItem` | src/uthash.h:824-837 | an item moves to its new bucket; the excess count and the bucket's multiplier follow |
| `Uthash.MoveChain` | src/uthash.h:822-838 | so do all items of a chain while its links are overwritten |
| `Uthash.Redistribute` | src/uthash.h:814-839 | all items stand in twice as many buckets, nonideal is the sum of the excesses, and every multiplier is the chain length over the ideal |
| `Uthash.IdealLength` | src/uthash.h:816-820 | shift and mask give the ceiling of items over doubled buckets, at least 1 |
| `Uthash.Table.constructor` | src/uthash.h:292-300 | a null head is a valid empty table |
| `Uthash.Table.Expand` | src/uthash.h:808-850 | twice the buckets, a power of two, hold the same items; ideal length, excess and the noexpand rule as described |
| `Uthash.Table.MakeTable` | src/uthash.h:179-197 | an empty table of 32 empty buckets |
| `Uthash.Table.AddToBucket` | src/uthash.h:752-764 | the bucket invariant holds with the new item; the buckets are doubled if and only if the chain has reached ten times its multiplier and one and the table still expands |
| `Uthash.Table.LinkLast` | src/uthash.h:295-307 | the list invariant holds with the new item last |
| `Uthash.Table.Add` | src/uthash.h:292-320 | the HASH_FSCK invariant is kept and the order grows by the item |
| `Uthash.Table.UnlinkItem` | src/uthash.h:355-365 | the list invariant holds without the item |
| `Uthash.Table.RemoveFromBucket` | src/uthash.h:366-367 | the bucket invariant holds without the item |
| `Uthash.Table.Rebook` | src/uthash.h:233-239 | head, tail and count follow the list |
| `Uthash.Table.DeleteAmong` | src/uthash.h:355-367 | an item leaves both link systems while others remain |
| `Uthash.Table.Delete` | src/uthash.h:344-371 | the HASH_FSCK invariant is kept and the order loses exactly the item |
| `Uthash.Table.Find` | src/uthash.h:126-136 | an item is returned exactly when one with the key is on the order list; of several it is the first in its chain |
| `Lru.ClearIsPrefix` | src/cache.c:125-152 | on a list ordered by touch, clearing removes exactly the prefix of too old entries |
| `Lru.StepGood` | src/cache.c:125-309 | every operation keeps: unique keys, count below the limit, entries ordered by and stamped with their last touch, data of the last insert |
| `Lru.RunGood` | src/cache.c:125-309 | it holds after every run with a non-decreasing clock and inserts of absent keys |
| `Lru.RunRanked` | src/cache.c:125-309 | after every run with inserts of absent keys, whatever the clock, the list is ordered strictly by the last call that touched each key |
| `Lru.EvictsOldest` | src/cache.c:291-306 | a full insert removes exactly the least recently touched entry: every other was touched by a later call |
| `Lru.FoundIsLastInserted` | src/cache.c:213-233 | lookup yields the data last inserted under the key, if the key is there |
| `Lru.Membership` | src/cache.c:125-309 | a key is gone if and only if it was removed, oldest at a full insert, or too old at a clear; it enters by insertion |
| `Lru.InsertUnique` | src/cache.c:270-309 | inserting keeps keys unique if and only if the key is not among the entries that stay |
| `Cache.Cache.constructor` | src/cache.c:55-73 | an empty cache |
| `Cache.Cache.Insert` | src/cache.c:270-309 | refines the list insert with eviction, also for keys that are present |
| `Cache.Cache.MoveUp` | src/cache.c:222-227 | a found entry goes to the end with a new stamp |
| `Cache.Cache.Lookup` | src/cache.c:213-233 | finds an entry exactly when the key is there and moves it up, of several the first in its chain; with unique keys this is the list operation |
| `Cache.Cache.KeyExist` | src/cache.c:235-252 | the same without the data |
| `Cache.Cache.Remove` | src/cache.c:167-191 | removes an entry with the key, if there is one, of several the first in its chain |
| `Cache.Cache.Visit` | src/cache.c:135-149 | one round of the iteration with the saved successor |
| `Cache.Cache.Clear` | src/cache.c:125-152 | iteration with deletion refines the list operation |
| `Cache.Serve` | src/cache.c:125-309 | a cache driven by any run with inserts of absent keys, whatever the clock, refines the list after that run, and all its lookups and existence tests answer as the list does |
| `Base64.Tables` | src/base64.c:37-48 | the decoder's table inverts the encoder's alphabet and accepts nothing else |
| `Base64.Alphabet` | src/base64.c:79 | the characters are the URL-safe alphabet of section 5 of RFC 4648 in its order |
| `Base64.GroupsRoundTrip` | src/base64.c:50-103 | splitting bytes into 6-bit groups and joining them is the identity |
| `Base64.SextetBits` | src/base64.c:88-97 | group j consists of the bits 6j to 6j+5 of the input, the highest first, with zeros after the end |
| `Base64.EncodedIsText` | src/base64.c:77-103 | the text has a character of the alphabet for every such group, and padding to a multiple of four |
| `Base64.RoundTrip` | src/base64.c:50-103 | decoding the encoded, padded, terminated text gives the bytes back |
| `Base64.EncodedSize` | src/base64.h:52 | text, padding and terminator take BASE64_SIZE characters |
| `Base64.EmitRight` | src/base64.c:89-96 | with the 32-bit register as written, each turn emits the next 6-bit group |
| `Base64.PutAll` | src/base64.c:88-97 | the nested loops end and write all groups in order |
| `Base64.Encode` | src/base64.c:77-103 | succeeds exactly within the size guard; writes that text and a terminator and nothing more |
| `Base64.CutRight` | src/base64.c:60-65 | with the wrapped register, each stored byte is the next of the groups |
| `Base64.Decode` | src/base64.c:50-70 | -1 exactly on a bad character before the end of the text; otherwise as many bytes as fit, nothing beyond |
| `Hkdf.OutputPrefix` | src/crypto.c:284-347 | shorter outputs of a block sequence are prefixes of longer ones |
| `Hkdf.OkmPrefix` | src/crypto.c:284-347 | so are shorter HKDF keys |
| `Hkdf.OkmExpanded` | src/crypto.c:325-344 | each block of the output is the HMAC of the block before it in the output, the info and its number |
| `Hkdf.Extract` | src/crypto.c:263-282 | the HMAC of the input under the salt, or under zeros if there is none |
| `Hkdf.WriteBlocks` | src/crypto.c:325-344 | the loop writes T(1), T(2), ... up to the wanted length, in bounds |
| `Hkdf.Expand` | src/crypto.c:284-347 | succeeds exactly up to 255 blocks with a long enough key; the bytes written are the blocks of section 2.3 of RFC 5869, each stated by the one before it |
| `Hkdf.Derive` | src/crypto.c:251-260 | the bytes written expand the HMAC of the input under the salt or under zeros (sections 2.2 and 2.3 of RFC 5869) |
| `Hkdf.CopyDigest` | src/crypto.c:239-243 | a digest is copied until the key is full |
| `Hkdf.DeriveKey` | src/crypto.c:208-248 | each block of the key is the digest of the block before it in the key and the password |
| `Hkdf.KeyPrefix` | src/crypto.c:208-248 | shorter keys are prefixes of longer ones |
| `Socks5.ParseIffHeader` | src/sockaddr_universal.c:17-67 | a buffer parses to an address if and only if it begins with the header of that address (sections 4 and 5 of RFC 1928) |
| `Socks5.Format` | src/sockaddr_universal.c:17-67 | the header byte by byte: type, address or counted name, port with the higher byte first |
| `Socks5.ParseStable` | src/sockaddr_universal.c:17-67 | more bytes do not change a parsed address |
| `Socks5.HeadersPrefixFree` | src/sockaddr_universal.c:17-67 | no header begins another |
| `Socks5.AddressParse` | src/sockaddr_universal.c:17-67 | computes the parse, whatever is behind the buffer; the final offset is the header length, inside the buffer |
| `Socks5.UdpIsMasked` | src/UDPRelay.cpp:223-295 | the UDP parser is the TCP parser with the high half of ATYP cleared |
| `Socks5.ParsersAgree` | src/UDPRelay.cpp:223-295 | the parsers agree if and only if ATYP has no high bits or the bytes begin with no header even without them |
| `Socks5.ParsersDiffer` | src/UDPRelay.cpp:223-295 | a header only the UDP parser accepts |
| `Socks5.ParseUdpHeader` | src/UDPRelay.cpp:223-295 | the header length, which fits the buffer, or 0 exactly when nothing parses, whatever is behind the buffer |
| `Handshake.AnySplit` | src/local_uv.cpp:183-241 | for every split, the command is byte 1 of the concatenation, and the connection is to the address it names, as soon as it names one |
| `Handshake.Requests` | src/local_uv.cpp:183-241 | a request with an address, however it arrives and whatever follows: command 1 connects to that address, command 3 associates, any other closes |
| `Handshake.SplitsAgree` | src/local_uv.cpp:183-241 | two splits of the same bytes have the same outcome and address |
| `Handshake.ConnectsAtFirst` | src/local_uv.cpp:183-241 | CONNECT starts at the first cumulative prefix that parses, and localBuf is that prefix from ATYP on |
| `Handshake.LocalBuffer.constructor` | src/Buffer.cpp:27-35 | an empty buffer of the default capacity |
| `Handshake.LocalBuffer.Realloc` | src/Buffer.cpp:72-79 | contents are kept as far as they fit |
| `Handshake.LocalBuffer.Copy` | src/Buffer.cpp:88-100 | the event is appended, growing the buffer when needed |
| `Handshake.LocalBuffer.CopyFromBegin` | src/Buffer.cpp:116-129 | the contents become the chosen part of the event |
| `Handshake.LocalBuffer.Drop` | src/Buffer.cpp:64-70 | the first bytes go, if there are that many |
| `Handshake.Client.Connect` | src/local_uv.cpp:189-195 | the buffer is parsed with at least two bytes; on success it is cut to start at ATYP |
| `Handshake.Client.ReadAllAddress` | src/local_uv.cpp:183-196 | the handler's step while the address is incomplete |
| `Handshake.Client.Command` | src/local_uv.cpp:205-215 | the command is byte 1 of buffer and event together |
| `Handshake.Client.HandShakeSend` | src/local_uv.cpp:198-241 | the handler's step on the request head |
| `Handshake.Serve` | src/local_uv.cpp:183-241 | a connection driven by any events ends as the concatenated bytes ask |

## Left out

- Cryptographic primitives (AES-GCM, ChaCha20, Salsa20, HMAC, MD5) and their strength: parameters with laws.
- The mbedTLS branch of `src/stream.c` (CFB, CTR, RC4): its cipher state is in foreign code.
- The logarithm of the error rate in `bloom_init`: bits per element are a parameter, and the sizing is on real numbers, since rounding is not the point.
- Filters with less than one bit: the source would take remainders by zero or by a negative number; the constructors state exactly when that is so, and the other members require that it is not.
- False-positive rates.
- The hash functions MurmurHash2 and HASH_JEN: arbitrary functions here.
- What a corrupted or forged stream delivers before the error: it depends on segmentation, so results are for prefixes of honest streams; accepted salts are covered for all input.
- Client bytes that arrive between the start of a connection and stream mode: no listener is registered then.
- `sockStream` passes whole events to `aead_encrypt`, so the bound 0x3FFF on a write is a precondition of `AeadCodec.EncoderCtx.Encrypt`, as the assertion in the source has it.
- getopt modes other than permuting: `+` and `-` prefixes, POSIXLY_CORRECT, getopt_long_only, optreset and optind 0; also optopt and error messages. Configurations with a long option that has no flag and value -1 are excluded, since its report looks like the end of the options.
- uthash features the cache does not use: ordered adds, sorting, selection, the optional HASH_BLOOM, widths of the unsigned counters.
- `cache_delete`, the free callback and null-pointer returns of `src/cache.c`: no list property depends on them. Timestamps are reals, not doubles.
- The static scratch buffers of `src/aead.c` are locals.
- What a stream cipher call past the last block of its nonce does in the library: it is taken to end the program.
- The result of inet_ntop and numeric host names in the UDP header (foreign code), datagrams shorter than 3 bytes, fragments, the UDP socket cache and its timers.
- The greeting before the SOCKS5 request, the UDP ASSOCIATE reply, DNS, the plugin process, Qt, the command line, logging and allocation failure.
