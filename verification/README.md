# Vendored libraries: a verified model

This project models the computational core of the libraries that the repository carries under `lib/`
and proves what they are for. Where the source changes state in place (a sliding window, hash chains, a
token log, a pending buffer, a node's pointers, an input cursor) the model has a class or an array and
methods with loops; each method is proved against a specification function, and the properties are
proved about the functions and the invariants.

**Deflate's LZ77 stage** (`Lz77`, `RollingHash`, `HashChains`, `DeflateState`, `HashTable`, `Window`,
`Matcher`, `Candidates`, `Emit`, `Steps`, `DeflateSlow`, `DeflateFast`, `DeflateRuns`, `Deflate`). The judge is the
decoder: `Lz77.Expand` reads a token log as section 3.2.3 of RFC 1951 does. Positions are absolute stream
positions (a ghost base plus the window index), so nothing about the stream moves when the window slides.
The main result is that over every run of calls, however input and output are cut up, whatever is flushed
and whichever strategy and level are set, the tokens logged so far expand to exactly the input up to the
present position, and the tokens since any completed full flush expand, by themselves, to the input since.
The first rests on the hash-chain invariant, kept through insertions, slides, refills and full flushes,
because `longest_match` never compares a candidate's third byte and relies on equal hash keys. The chains are
exact: every head and every live link is the last string filed before under the same key, so the candidates
visited are the last strings filed, none missed, and what one step of either compression function logs is
determined by the stream and the dictionary alone.

**Checksums** (`Crc32`, `CrcResidue`, `Crc32Combine`, `Adler32`). The table-driven, word-at-a-time, little- and
big-endian CRC loops all equal the shift register; the deferred and divide-free Adler sums equal the
per-byte definition; both combine functions compute the checksum of the concatenation.

**The gzip wrapper** (`GzipWrapper`, `GzipReader`): the resumable header and trailer machine, for any sequence
of output sizes, and a reader of RFC 1952 that finds in its output what the application asked for.

**picojson** (`JsonText`, `JsonGrammar`, `JsonParser`, `JsonRoundTrip`, `JsonLayout`, `JsonKnownAnswers`,
`JsonContexts`): parsing inverts both serializations on every value tree, and any layout of it with white
space; the parse contexts are compared on every text.

**TinyXML** (`XmlNodes`, `XmlText`, `XmlReferences`): the sibling lists under in-place edits, and the exact
condition under which reading gives back what was escaped.

**SafeInt** (`SafeInt`, `SafeIntSubtract`, `SafeIntMultiply`, `SafeIntLaws`) and **fmt** (`IntFormat`,
`IntFormatSamples`): exact checked arithmetic for all 64 pairs of integer types, and exact integer output.

## What the proofs found

- `TiXmlNode::LinkEndChild` asserts `node->parent == 0 || node->parent == this`. The second case is right
  for a node whose parent pointer was merely set beforehand; for a node already in the list the pointers
  it leaves fit no list of children (`XmlNodes.LinkEndFitsExactly`). Nor do its assertions keep a node from
  being linked below itself (`XmlNodes.InsertAcyclic`).
- picojson's `null_parse_context` and `default_parse_context` agree if and only if no number met is too large
  for a double: one throws, the other accepts (`JsonContexts.ContextsAgreeExactly`, `OverflowSeparates`).
- TinyXML's escaping passes `&#x` through. `XmlText.ReadWhatWasEncoded` gives the exact condition: the round
  trip holds if and only if the text has no `&#x` in it and something follows the end tag.
- picojson's `parse` returns an iterator one byte too far behind a number that text follows, since the
  byte given back is not taken off the position (`JsonParser.ParseText`).
- picojson's `deny_parse_context` accepts every number, because the parser ignores what `set_number`
  returns (`JsonContexts.DenyAcceptsNumbersOnly`).
- `NMAX` in adler32.c is the largest block length that cannot overflow 32 bits (`Adler32.NmaxIsLargest`).

## Model

| member | source | states |
|---|---|---|
| Lz77.CopyReproduces | lib/zlib/deflate.h:333-342 | a copy token naming a true repetition appends exactly the next bytes of the stream, overlapping copies included |
| Lz77.ExpandLiteral | lib/zlib/deflate.h:326-332 | logging the next byte as a literal extends the expansion by that byte |
| Lz77.ExpandCopy | lib/zlib/deflate.h:333-342 | logging a true repetition extends the expansion by its length |
| RollingHash.Forgets | lib/zlib/deflate.c:157-163 | three updates shift a byte out of the hash completely: hash_shift * MIN_MATCH >= hash_bits, for every hash width |
| RollingHash.TwoBytesCover | lib/zlib/deflate.h:147-152 | after two updates the register depends on those two bytes only |
| RollingHash.InsertCovers | lib/zlib/deflate.c:182-185 | taking the third byte gives the key of the string and readies the register for the next one |
| RollingHash.KeyFixesThirdByte | lib/zlib/deflate.c:1335-1342 | with 8 or more hash bits, equal keys and equal bytes 0 and 1 force equal bytes 2 |
| HashChains.SlotIsMasked | lib/zlib/deflate.c:183 | str & w_mask is the slot, and the remainder of str by the window size, for every window size from 512 to 32768 |
| HashChains.InsertKeepsChains | lib/zlib/deflate.c:182-185 | overwriting a slot that lies one window back and filing a string keeps every chain, and the old head is the last string filed before under the key, NIL only if there is none above window index 0 |
| HashChains.SlideKeepsChains | lib/zlib/deflate.c:201-225 | subtracting the window size from every entry keeps the chains of the moved window: every head and every live link is still the last string before, and none is missed |
| HashChains.AdvanceKeepsChains | lib/zlib/deflate.c:1889-1900 | moving forward without filing keeps the chains |
| HashChains.ClearedChains | lib/zlib/deflate.c:192-194 | an empty head table is a valid dictionary whatever prev holds |
| DeflateState.ConfigurationTable | lib/zlib/deflate.c:134-146 | every level searches at least four candidates, with max_lazy and nice_length within the match lengths |
| DeflateState.Parameters | lib/zlib/deflate.c:133-150 | the lengths and distances that bound matches, and the four numbers of every level, column by column |
| DeflateState.Sizes | lib/zlib/deflate.c:305-330 | window, hash table and log have power-of-two sizes, each setting doubling the one before |
| DeflateState.MeansGrows | lib/zlib/deflate.c:1482-1528 | reading more input leaves the meaning of the tokens alone |
| DeflateState.State.constructor | lib/zlib/deflate.c:240-351 | a fresh state satisfies every invariant and stands for the empty stream |
| HashTable.UpdateHash | lib/zlib/deflate.c:163 | the rolling update yields the key of the string at str, within the head table |
| HashTable.InsertString | lib/zlib/deflate.c:182-185 | the string is filed under its true key and nothing else is, the chains stay exact, and the result is the last string filed before it under that key, NIL only if there is none above window index 0 |
| HashTable.SlideTable | lib/zlib/deflate.c:208-213 | one loop of slide_hash: every entry becomes max(entry - w_size, 0), in place |
| HashTable.SlideHash | lib/zlib/deflate.c:201-225 | both tables slid, the chain invariant holds for the moved origin |
| HashTable.ClearHash | lib/zlib/deflate.c:192-194 | every head is NIL and nothing is filed any more |
| Window.ReadBuf | lib/zlib/deflate.c:1164-1189 | the bytes taken from the input are appended to the stream and to the window, none lost or reordered |
| Window.SlideWindow | lib/zlib/deflate.c:1510-1518 | the upper half moves down: same stream, same absolute positions, same distance strstart - match_start although match_start may wrap below zero |
| Window.FilePending | lib/zlib/deflate.c:1537-1556 | strings left over from the end of earlier input are filed as soon as they are complete, exactly those and under their keys |
| Window.FillStep | lib/zlib/deflate.c:1491-1561 | one round: room for at least two bytes, slide if needed, read; the window is again the suffix of the stream |
| Window.RaiseHighWater | lib/zlib/deflate.c:1563-1595 | every byte up to WIN_INIT past the input has been written |
| Window.FillWindow | lib/zlib/deflate.c:1482-1599 | on exit enough lookahead or no input, strstart <= window_size - MIN_LOOKAHEAD, readable bytes written, the stream unchanged, the dictionary extended by exactly the waiting strings now complete, and the loop ends |
| Matcher.PickIsLongest | lib/zlib/deflate.c:1283-1373 | the pick is the start value or the first of the longest among the candidates up to where the search stops, which is the end of the chain or a candidate of nice length |
| Matcher.ScanMatch | lib/zlib/deflate.c:1344-1357 | the eight-way unrolled scan returns the length of the common prefix, at most 258 |
| Matcher.ThirdByteAgrees | lib/zlib/deflate.c:1335-1339 | a candidate on the chain that agrees in bytes 0 and 1 agrees in byte 2, which is never compared |
| Matcher.RejectedIsShort | lib/zlib/deflate.c:1330-1333 | a candidate failing one of the four early comparisons cannot beat the best length so far |
| Matcher.ScannedIsTrue | lib/zlib/deflate.c:1344-1376 | the scanned length cut to the lookahead is the true match length, whatever bytes lie beyond the input |
| Matcher.TryCandidate | lib/zlib/deflate.c:1283-1357 | one candidate: 0 if it cannot improve, its true length (cut) otherwise |
| Matcher.WalkChain | lib/zlib/deflate.c:1283-1373 | the do-while loop computes what the plain search over the valid bytes computes |
| Matcher.LongestMatch | lib/zlib/deflate.c:1236-1377 | longest_match refines the plain search over the valid bytes: no candidate visited up to its stop has a longer true match, it stops early only at a nice length, and match_start is the first candidate of the length returned whenever that exceeds prev_length |
| Matcher.SearchIsSound | lib/zlib/deflate.c:1236-1377 | what the search finds beyond its start value is a repetition at most MAX_DIST back |
| Matcher.FindMatch | lib/zlib/deflate.c:1236-1377 | a result above prev_length is the length of a true repetition at distance strstart - match_start |
| Candidates.VisitedIsFiled | lib/zlib/deflate.c:1283-1373 | walking prev from a filed string visits exactly the strings filed before it under its key down to the limit, newest first, and misses none |
| Candidates.NearStringIsFound | lib/zlib/deflate.c:1846-1855 | a string filed under the key above window index 0 and at most MAX_DIST back makes the hash head differ from NIL |
| Candidates.SearchIsOverFiled | lib/zlib/deflate.c:1236-1377 | longest_match from the hash head is the plain search over the last strings filed under the key |
| Candidates.FindBest | lib/zlib/deflate.c:1236-1377 | what longest_match returns is determined by the stream and the dictionary: the longest match among the last strings filed under the key |
| Candidates.RepeatIsFound | lib/zlib/deflate.c:1846-1860 | if the last string filed under the key is near enough and has the same three bytes, a match of at least three bytes is found |
| Emit.TallyLit | lib/zlib/deflate.h:326-332 | the log gains one token and stands for one more byte; the flag says when it is full |
| Emit.TallyDist | lib/zlib/deflate.h:333-342 | the log gains one copy and stands for its length in more bytes |
| Emit.BlockAdded | lib/zlib/deflate.c:1605-1614 | a block whose tokens carry the stream from lo to hi keeps the block list sound |
| Emit.FlushBlockOnly | lib/zlib/deflate.c:1605-1614 | the tokens since the last flush are handed over with exactly the bytes [block_start, strstart), or without bytes if and only if block_start is negative; the log is empty |
| Steps.Refill | lib/zlib/deflate.c:1940-1946 | fill_window when lookahead runs low, and the exits for no input; the meaning of the log is unchanged |
| Steps.InsertHere | lib/zlib/deflate.c:1846-1849 | a complete string at strstart is filed, and the result is the last string filed before it under its key |
| Steps.FlushIfFull | lib/zlib/deflate.c:1617-1620 | a full log is flushed; the caller is to return if and only if that left no output room; otherwise nothing happens |
| Steps.FlushRest | lib/zlib/deflate.c:2042-2048 | behind the loop everything read is handed over in blocks; Z_FINISH gives a last block; the state returned says exactly which flush it was and whether output room is left |
| DeflateSlow.SearchHere | lib/zlib/deflate.c:1956-1982 | the previous match becomes the one to beat; the match at strstart is the longest among the strings filed if that beats it and is worth it, otherwise no improvement |
| DeflateSlow.SearchChain | lib/zlib/deflate.c:1961-1982 | what longest_match finds becomes the match at strstart if it is longer than the previous one, unless it is too short to be worth it |
| DeflateSlow.Decide | lib/zlib/deflate.c:1986-2033 | the lazy rule exactly: the previous match unless the new one is longer, else the pending byte, else nothing yet |
| DeflateSlow.TakePrevious | lib/zlib/deflate.c:1986-2009 | the previous match is logged and all its complete strings are filed; the tokens stand for the stream up to its end |
| DeflateSlow.TakeLiteral | lib/zlib/deflate.c:2013-2025 | the previous byte becomes a literal when the match at strstart is better |
| DeflateSlow.SlowStep | lib/zlib/deflate.c:1948-2033 | one step of lazy matching: what is logged, kept for the next step and filed is exactly what the stream, the dictionary and the pending match determine |
| DeflateSlow.FinishSlow | lib/zlib/deflate.c:2036-2048 | the pending byte is logged and all input is in blocks |
| DeflateSlow.DeflateSlow | lib/zlib/deflate.c:1926-2049 | lazy compression preserves meaning over every run and terminates; need_more only when out of input or output |
| DeflateFast.FileMatch | lib/zlib/deflate.c:1870-1886 | every string inside a short match is filed and the chains stay exact |
| DeflateFast.RestartHash | lib/zlib/deflate.c:1892-1896 | after a jump the rolling hash is that of the two bytes at strstart |
| DeflateFast.TakeMatch | lib/zlib/deflate.c:1864-1900 | a match logged and moved over: the tokens stand for the stream up to its end |
| DeflateFast.TakeGreedy | lib/zlib/deflate.c:1864-1908 | a match is always taken, with its distance and length; otherwise the byte is |
| DeflateFast.FastStep | lib/zlib/deflate.c:1848-1908 | one greedy step logs the longest match among the strings filed if it is at least three long, otherwise a literal, and files exactly the strings it should |
| DeflateFast.RepeatIsCopied | lib/zlib/deflate.c:1848-1862 | a repetition of the last string filed under the same key, near enough, is logged as a copy |
| DeflateFast.DeflateFast | lib/zlib/deflate.c:1824-1918 | greedy compression preserves meaning over every run |
| DeflateRuns.ScanRun | lib/zlib/deflate.c:2081-2091 | the unrolled run scan counts the bytes equal to the previous one |
| DeflateRuns.MatchRun | lib/zlib/deflate.c:2079-2096 | match_length is exactly the length of the run, cut to the lookahead |
| DeflateRuns.RleStep | lib/zlib/deflate.c:2078-2114 | the whole run of the previous byte at distance one if it is at least three long, otherwise one literal |
| DeflateRuns.DeflateRle | lib/zlib/deflate.c:2057-2124 | run-length compression preserves meaning over every run and copies at distance one only |
| DeflateRuns.DeflateHuff | lib/zlib/deflate.c:2130-2163 | literal-only compression preserves meaning over every run and logs no copy |
| Deflate.Compress | lib/zlib/deflate.c:1000-1003 | whichever function strategy and level select, its invariant is kept and its result means what it says |
| Deflate.ResetWindow | lib/zlib/deflate.c:1031-1035 | starting the window afresh keeps the invariant and all absolute positions |
| Deflate.ForgetHistory | lib/zlib/deflate.c:1029-1036 | Z_FULL_FLUSH forgets the dictionary and empties the window, so that no later copy reaches behind the present position, which is marked |
| Deflate.DeflateCall | lib/zlib/deflate.c:806-1044 | one call keeps the stream and the invariant; the compressor is run exactly when there is something to do; it stops short only without input or output room; a completed flush means everything read is in blocks, and a completed full flush is marked at the present token and byte |
| Deflate.TokensMeanStream | lib/zlib/deflate.c:1926-2049 | at any moment the tokens expand to the input up to the present position, and those since any full flush expand, by themselves, to the input since; every copy has length 3..258 and distance 1..w_size - MIN_LOOKAHEAD; the blocks are a prefix of the tokens |
| Deflate.Run | lib/zlib/deflate.c:763-1073 | any sequence of calls, chunks, flushes and output sizes: nothing fed is lost or reordered, nothing logged changes, a finished stream decodes to all of it, and every full flush completed, which lies behind all the input fed by then, is a point to decode from |
| Deflate.Session | lib/zlib/deflate.c:240-351 | the same from deflateInit2 on, for every level, strategy, window size and memory level |
| Crc32.BitLinear | lib/zlib/crc32.c:108-114 | the bit step is linear over exclusive or |
| Crc32.SerialIsBits | lib/zlib/crc32.c:62-87 | the bit-serial register of a byte is eight zero bits applied to the sum |
| Crc32.ByteStep | lib/zlib/crc32.c:198 | one table look-up advances the register by a byte |
| Crc32.MakeCrcTable | lib/zlib/crc32.c:88-128 | table k holds the register after k + 1 bytes for every index, tables 4 to 7 byte-reversed |
| Crc32.FillColumn | lib/zlib/crc32.c:119-127 | the derived tables 1 to 7 from table 0 |
| Crc32.FourLookups | lib/zlib/crc32.c:260-262 | four look-ups in four tables equal 32 zero bits applied to the word |
| Crc32.FourBytes | lib/zlib/crc32.c:260-262 | a little-endian word taken at once equals its four bytes one after the other |
| Crc32.RegisterAdd | lib/zlib/crc32.c:202-233 | the register of a concatenation is computed in two parts |
| Crc32.Crc32Little | lib/zlib/crc32.c:266-297 | the little-endian loop equals the shift register for every length and starting alignment |
| Crc32.BigLookups | lib/zlib/crc32.c:300-302 | the big-endian look-ups are the little-endian ones in reverse on reversed registers |
| Crc32.Crc32Big | lib/zlib/crc32.c:306-337 | the big-endian loop equals the shift register for every length and starting alignment |
| Crc32.Crc32Bytes | lib/zlib/crc32.c:225-233 | the byte loop equals the shift register |
| Crc32.Crc32Z | lib/zlib/crc32.c:202-234 | on every machine the result is that of the shift register (section 8 of RFC 1952); no buffer gives 0 |
| Crc32.CrcAdd | lib/zlib/crc32.c:202-233 | a CRC continued over a second buffer is the CRC of both |
| CrcResidue.Residue | lib/zlib/crc32.c:202-234 | any string followed by its CRC, least significant byte first, has the CRC 0x2144DF1C |
| CrcResidue.CheckValue | lib/zlib/crc32.c:202-234 | the CRC of the digits 1 to 9 is 0xCBF43926 |
| Crc32Combine.Times | lib/zlib/crc32.c:344-358 | gf2_matrix_times applies the linear map whose columns the matrix holds |
| Crc32Combine.Square | lib/zlib/crc32.c:361-369 | gf2_matrix_square composes the map with itself |
| Crc32Combine.OneZeroBit | lib/zlib/crc32.c:386-392 | the initial matrix is the operator for one zero bit |
| Crc32Combine.TakeDigit | lib/zlib/crc32.c:400-420 | one binary digit of the length: the operator applied or not, then squared |
| Crc32Combine.Combine | lib/zlib/crc32.c:372-425 | crc1 advanced by 8 * len2 zero bits, plus crc2; crc1 for a length of 0 or less; from the CRCs of any a and b and the length of b it returns the CRC of a followed by b |
| Crc32Combine.CombineIsConcatenation | lib/zlib/crc32.c:372-425 | for all byte strings a and b that value is the CRC of a followed by b |
| Adler32.ChopIsExact | lib/zlib/adler32.c:27-32 | CHOP keeps the value modulo BASE |
| Adler32.Mod28IsExact | lib/zlib/adler32.c:33-37 | MOD28 is the remainder below 2^28 |
| Adler32.ModIsExact | lib/zlib/adler32.c:38-42 | MOD is the remainder for every 32-bit value |
| Adler32.Mod63IsExact | lib/zlib/adler32.c:43-55 | MOD63 is the remainder for every length below 2^63 |
| Adler32.PlainIsAdler | lib/zlib/adler32.c:16-20 | reducing late equals reducing after every byte |
| Adler32.BlockFits | lib/zlib/adler32.c:12-14 | within a block of NMAX bytes both sums stay below 2^32 |
| Adler32.NmaxIsLargest | lib/zlib/adler32.c:13-14 | with one byte more they can exceed it |
| Adler32.SumBlock | lib/zlib/adler32.c:103-127 | an NMAX block leaves both sums fully reduced and equal to the definition |
| Adler32.ShortResult | lib/zlib/adler32.c:90-100 | the short path reduces both sums fully |
| Adler32.Adler32Z | lib/zlib/adler32.c:63-131 | adler32_z equals the per-byte definition (section 8.2 of RFC 1950) on every input from reduced sums, with or without division |
| Adler32.Combine | lib/zlib/adler32.c:143-169 | from the checksums of any s and t and the length of t it returns the checksum of s followed by t; every intermediate value fits 32 bits, the conditional subtractions reduce fully, and a negative length is refused |
| Adler32.CombineIsConcatenation | lib/zlib/adler32.c:143-169 | for all byte strings the combined value is the checksum of the concatenation |
| Adler32.CheckValue | lib/zlib/adler32.c:62-137 | the checksums of no bytes and of abc are 1 and 0x024D0127 |
| GzipWrapper.Stream.constructor | lib/zlib/deflate.c:240-351 | a new stream has put nothing and is in GZIP_STATE |
| GzipWrapper.Stream.FlushPending | lib/zlib/deflate.c:730-750 | as many pending bytes as fit are delivered, in order; what has been put is unchanged |
| GzipWrapper.Stream.HcrcUpdate | lib/zlib/deflate.c:755-760 | the header CRC now covers the bytes from beg on, each once |
| GzipWrapper.Stream.PutString | lib/zlib/deflate.c:928-946 | a string field and its terminator, resumed at gzindex after any stop |
| GzipWrapper.Stream.PutExtra | lib/zlib/deflate.c:900-926 | the extra field in pieces of the pending buffer, resumed at gzindex after any stop |
| GzipWrapper.Stream.WriteFixed | lib/zlib/deflate.c:874-898 | the fixed fields of section 2.3.1 of RFC 1952 and the extra length |
| GzipWrapper.Stream.WriteDefault | lib/zlib/deflate.c:855-873 | the ten default bytes |
| GzipWrapper.Stream.WriteHcrc | lib/zlib/deflate.c:970-991 | the CRC16 of all header bytes before it |
| GzipWrapper.Stream.WriteHeader | lib/zlib/deflate.c:849-991 | the header states of one call: always exactly a prefix of the one header has been put |
| GzipWrapper.Stream.ReadInput | lib/zlib/deflate.c:1164-1189 | checksum and length are those of the input read |
| GzipWrapper.Stream.WriteTrailer | lib/zlib/deflate.c:1045-1073 | CRC32 and length modulo 2^32 of all input, once |
| GzipReader.HeaderRead | lib/zlib/deflate.c:848-991 | a reader made from section 2.3.1 of RFC 1952 recovers every field of the header, checks its CRC16, and leaves what follows |
| GzipReader.TrailerRead | lib/zlib/deflate.c:1045-1058 | the reader recovers CRC32 and length modulo 2^32 from the trailer |
| GzipReader.MemberRead | lib/zlib/deflate.c:848-1073 | the same for a whole member as the wrapper delivers it |
| GzipWrapper.RankOrder | lib/zlib/deflate.c:155 | Z_BLOCK ranks between no flush and a partial flush |
| GzipWrapper.Stream.Deflate | lib/zlib/deflate.c:763-1073 | one call keeps the invariant; Z_STREAM_END means all input is read and the whole image is delivered |
| GzipWrapper.Stream.DeliveredIsPrefix | lib/zlib/deflate.c:763-1073 | what has been delivered is a prefix of header, blocks and trailer, however the output was cut up |
| GzipWrapper.Stream.Compress | lib/zlib/deflate.c:998-1020 | the reads and blocks of one compression call: input is left unread only when the output is exhausted |
| GzipWrapper.Run | lib/zlib/deflate.c:763-1073 | over any sequence of calls no input is lost and what has been delivered is a prefix of the one image; once Z_STREAM_END is returned it is header, blocks, and the CRC32 and length of everything fed |
| JsonText.LessIsAnOrder | lib/picojson-1.3.0/picojson.h:112 | the key order of the map is strict and total |
| JsonText.AssignIsMapUpdate | lib/picojson-1.3.0/picojson.h:862-866 | o[key] = v keeps keys sorted and unique, and changes what that key finds and nothing else |
| JsonText.DecimalRoundTrip | lib/picojson-1.3.0/picojson.h:374-377 | an integer below 2^53 is written so that it is read back exactly |
| JsonText.DigitsRoundTrip | lib/picojson-1.3.0/picojson.h:374-377 | the digits of a number have its value and no leading zero |
| JsonText.IndentWidth | lib/picojson-1.3.0/picojson.h:442-447 | a line feed and two spaces for each level |
| JsonText.SerializeStr | lib/picojson-1.3.0/picojson.h:406-432 | the loop writes the quoted text, escape by escape |
| JsonText.Serialize | lib/picojson-1.3.0/picojson.h:449-516 | appends the compact (level -1) or indented text of any value tree |
| JsonText.SerializeArray | lib/picojson-1.3.0/picojson.h:454-478 | items with commas and line breaks, brackets around them |
| JsonText.SerializeObject | lib/picojson-1.3.0/picojson.h:479-507 | members in key order, with colons, commas and line breaks |
| JsonParser.Input.constructor | lib/picojson-1.3.0/picojson.h:531 | nothing read yet |
| JsonParser.Input.Getc | lib/picojson-1.3.0/picojson.h:532-547 | delivers the unread text byte by byte, the byte given back first; the line number counts line breaks passed |
| JsonParser.Input.Ungetc | lib/picojson-1.3.0/picojson.h:548-553 | gives the last byte back; its assertion is a precondition that every caller is proved to meet |
| JsonParser.Input.SkipWs | lib/picojson-1.3.0/picojson.h:556-564 | stops before the first byte that is not white space |
| JsonParser.Input.Expect | lib/picojson-1.3.0/picojson.h:565-572 | takes the expected byte after white space, or leaves the text there |
| JsonParser.Input.Match | lib/picojson-1.3.0/picojson.h:573-583 | takes the pattern, or stops at the first difference |
| JsonParser.ParseQuadHex | lib/picojson-1.3.0/picojson.h:586-605 | four hexadecimal digits, with the position on every failure |
| JsonParser.ParseCodepoint | lib/picojson-1.3.0/picojson.h:607-646 | an escaped code point or surrogate pair as UTF-8 bytes, with the position on every failure |
| JsonParser.ParseString | lib/picojson-1.3.0/picojson.h:648-684 | a string as the grammar reads it |
| JsonParser.ParseNumber | lib/picojson-1.3.0/picojson.h:724-743 | the longest prefix of number bytes |
| JsonParser.Parse | lib/picojson-1.3.0/picojson.h:745-798 | the recursive parser computes what the grammar function says, with its position, for every text and context, and terminates |
| JsonParser.ParseItems | lib/picojson-1.3.0/picojson.h:693-700 | the item loop of an array |
| JsonParser.ParseMembers | lib/picojson-1.3.0/picojson.h:710-722 | the member loop of an object, repeated keys included |
| JsonParser.ParseText | lib/picojson-1.3.0/picojson.h:910-926 | the returned position is the end of the value, one byte further if the text is a number that goes on after its number bytes, and the end of the line the parser stopped in on a failure; the error quotes that line |
| JsonParser.OneByteTooFar | lib/picojson-1.3.0/picojson.h:548-553 | on a digit and a space the value ends at 1 and 2 is returned |
| JsonRoundTrip.CodepointRead | lib/picojson-1.3.0/picojson.h:607-646 | every code point but the surrogates is read from its escape, paired or not, as its UTF-8 bytes |
| JsonRoundTrip.EncodeIsUtf8 | lib/picojson-1.3.0/picojson.h:628-645 | those bytes decode to the code point (section 3 of RFC 3629) |
| JsonRoundTrip.QuotedRead | lib/picojson-1.3.0/picojson.h:406-432 | any byte string is read back from its quoted text, whatever follows |
| JsonRoundTrip.ValueRead | lib/picojson-1.3.0/picojson.h:745-798 | any value tree is read back from its text at any indentation |
| JsonRoundTrip.SerializeThenParse | lib/picojson-1.3.0/picojson.h:406-521 | parsing the compact or the prettified serialization of any value tree succeeds, yields the equal value and stops at its end |
| JsonLayout.SkipsExactly | lib/picojson-1.3.0/picojson.h:556-564 | tab, line feed, carriage return and space are skipped, and no other byte |
| JsonLayout.NumberBytesExactly | lib/picojson-1.3.0/picojson.h:724-743 | numbers are made of digits, + - . e and E, and of no other byte |
| JsonLayout.FirstBytesOnly | lib/picojson-1.3.0/picojson.h:745-798 | nothing else than n, f, t, a quote, a bracket, a brace, a minus sign or a digit begins a value |
| JsonLayout.ControlRefused | lib/picojson-1.3.0/picojson.h:648-684 | control bytes inside a string are refused |
| JsonLayout.LoneSurrogateRefused | lib/picojson-1.3.0/picojson.h:607-627 | a surrogate is accepted if and only if it is a high one and an escaped low one follows |
| JsonLayout.AnyLayoutRead | lib/picojson-1.3.0/picojson.h:745-798 | a value tree laid out with any white space between its tokens and its members in any order, repeated keys included, is parsed to the value |
| JsonKnownAnswers.CompactText | lib/picojson-1.3.0/picojson.h:449-521 | the compact text of a document, byte by byte |
| JsonKnownAnswers.PrettyText | lib/picojson-1.3.0/picojson.h:449-521 | its prettified text, line by line |
| JsonKnownAnswers.CompactRead | lib/picojson-1.3.0/picojson.h:745-798 | and the document read back |
| JsonKnownAnswers.EscapesRead | lib/picojson-1.3.0/picojson.h:648-684 | every one-letter escape, a code point and a surrogate pair read from their bytes |
| JsonContexts.ContextsAgree | lib/picojson-1.3.0/picojson.h:872-901 | null_parse_context accepts what default_parse_context accepts and stops at the same place, unless the latter throws |
| JsonContexts.ThrownExactly | lib/picojson-1.3.0/picojson.h:198-202 | the building context throws if and only if the validating one comes to a number that strtod finds too large |
| JsonContexts.ContextsAgreeExactly | lib/picojson-1.3.0/picojson.h:872-901 | the two contexts give the same status and stop at the same place if and only if no number met overflows |
| JsonContexts.FiniteNumbersAgree | lib/picojson-1.3.0/picojson.h:872-901 | on every text in which no number overflows, wherever it starts, the two contexts agree |
| JsonContexts.OverflowSeparates | lib/picojson-1.3.0/picojson.h:198-202 | on 1e999, where strtod overflows, the building context throws and the validating one accepts the whole text |
| JsonContexts.DenyAcceptsNumbersOnly | lib/picojson-1.3.0/picojson.h:800-818 | deny_parse_context accepts a text if and only if it starts with a number |
| JsonContexts.BuiltIsProper | lib/picojson-1.3.0/picojson.h:820-870 | whatever the text, the objects built have sorted, unique keys |
| JsonContexts.ParseSerializeParse | lib/picojson-1.3.0/picojson.h:820-870 | writing out a parsed value and parsing that changes nothing more |
| JsonContexts.SerializeIsInjective | lib/picojson-1.3.0/picojson.h:449-516 | different value trees have different texts |
| XmlNodes.Node.LinkEndChild | lib/tinyxml/tinyxml.cpp:186-212 | the node becomes the last child and nothing else changes; a document is refused |
| XmlNodes.Node.InsertBeforeChild | lib/tinyxml/tinyxml.cpp:230-260 | the node is inserted before a child of this node and nothing else changes; any other call changes nothing |
| XmlNodes.Node.InsertAfterChild | lib/tinyxml/tinyxml.cpp:263-293 | the node is inserted after a child of this node and nothing else changes |
| XmlNodes.Node.ReplaceChild | lib/tinyxml/tinyxml.cpp:296-332 | the node takes the place of a child of this node, which leaves the document |
| XmlNodes.Node.RemoveChild | lib/tinyxml/tinyxml.cpp:335-359 | the child leaves its list, neighbours and ends are joined, and nothing else changes |
| XmlNodes.SpliceIsInsert | lib/tinyxml/tinyxml.cpp:243-259 | the pointer assignments of an insertion, in either order, are the insertion in the list |
| XmlNodes.InsertKeeps | lib/tinyxml/tinyxml.cpp:230-293 | an insertion keeps every list of the document well formed |
| XmlNodes.RemoveKeeps | lib/tinyxml/tinyxml.cpp:335-359 | a removal keeps every list of the document well formed |
| XmlNodes.ReplaceKeeps | lib/tinyxml/tinyxml.cpp:296-332 | a replacement keeps every list of the document well formed |
| XmlNodes.LinkEndIsInsert | lib/tinyxml/tinyxml.cpp:201-211 | linking a node in no list, its parent pointer set or not, is an insertion at the end |
| XmlNodes.LinkEndFitsExactly | lib/tinyxml/tinyxml.cpp:186-211 | for a node that passes the assertion on parents, the pointers left fit a list of children if and only if the node was not in the list before |
| XmlNodes.LinkEndOfChildBreaks | lib/tinyxml/tinyxml.cpp:188 | linking a node that is already in the list leaves pointers that fit no list of children, although the assertion lets it through |
| XmlNodes.WalkVisitsList | lib/tinyxml/tinyxml.cpp:186-359 | following next from firstChild, or prev from lastChild, visits exactly the children, in order or in reverse, and then stops |
| XmlNodes.SessionKeeps | lib/tinyxml/tinyxml.cpp:186-359 | any sequence of edits keeps the document well formed |
| XmlNodes.InsertAcyclic | lib/tinyxml/tinyxml.cpp:186-211 | putting a node without a parent under p makes a node its own ancestor if and only if it is p or an ancestor of p |
| XmlNodes.RemoveAcyclic | lib/tinyxml/tinyxml.cpp:335-359 | a removal makes no cycle |
| XmlNodes.ReplaceAcyclic | lib/tinyxml/tinyxml.cpp:296-332 | a replacement makes a cycle if and only if the new node is p or an ancestor of p |
| XmlNodes.SessionAcyclic | lib/tinyxml/tinyxml.cpp:186-359 | the document has no cycle all through a sequence of edits if and only if no edit puts a node into itself or its descendants |
| XmlText.EncodeString | lib/tinyxml/tinyxml.cpp:52-133 | appends the escaped text, references passed through |
| XmlText.GetEntity | lib/tinyxml/tinyxmlparser.cpp:441-534 | character references and the five entities as the reading function takes them, null on failure |
| XmlText.GetChar | lib/tinyxml/tinyxml.h:327-361 | one byte, or an entity |
| XmlText.ReadText | lib/tinyxml/tinyxmlparser.cpp:577-640 | the text up to the end tag and the pointer past it; null on failure or at the end |
| XmlText.ControlRead | lib/tinyxml/tinyxml.cpp:108-124 | the reference written for a control byte is read as that byte |
| XmlText.PlainRoundTrip | lib/tinyxml/tinyxml.cpp:52-133 | without "&#x" reading gives back what was escaped, byte for byte |
| XmlText.ReadFallsShort | lib/tinyxml/tinyxmlparser.cpp:450-482 | with it, reading fails, runs past the end tag, or yields fewer bytes |
| XmlText.ReadWhatWasEncoded | lib/tinyxml/tinyxmlparser.cpp:577-640 | the round trip holds if and only if the text has no "&#x" in it and something follows the end tag |
| XmlReferences.DecimalReference | lib/tinyxml/tinyxmlparser.cpp:447-515 | a decimal character reference of any length stands for the low byte of its number |
| XmlReferences.HexadecimalReference | lib/tinyxml/tinyxmlparser.cpp:447-515 | a hexadecimal character reference of any length stands for the low byte of its number |
| XmlReferences.EntitiesRead | lib/tinyxml/tinyxmlparser.cpp:517-527 | the five named entities are read as their bytes |
| XmlReferences.UnknownDropped | lib/tinyxml/tinyxmlparser.cpp:528-534 | the ampersand of anything unrecognized is dropped |
| SafeInt.OneZone | lib/safeint/SafeInt.hpp:789-822 | every pair of the eight types is in exactly one zone |
| SafeIntLaws.Ranges | lib/safeint/SafeInt.hpp:789-822 | a type of n bits holds -2^(n-1) to 2^(n-1) - 1 if signed, otherwise 0 to 2^n - 1 |
| SafeIntLaws.Wraps | lib/safeint/SafeInt.hpp:1035-1062 | conversion keeps the residue modulo 2^n |
| SafeInt.Cast | lib/safeint/SafeInt.hpp:1035-1062 | a cast succeeds if and only if the value fits |
| SafeInt.Abs | lib/safeint/SafeInt.hpp:856-886 | complement and increment give the magnitude, the least number included |
| SafeInt.Add | lib/safeint/SafeInt.hpp:5405-5409 | for every pair of types the addition succeeds if and only if the sum fits the first, and then gives it |
| SafeInt.AddToInt64 | lib/safeint/SafeInt.hpp:3875-3900 | signed 64-bit addition by wrapping and comparing |
| SafeInt.AddUint64ToInt | lib/safeint/SafeInt.hpp:4033-4051 | an unsigned 64-bit number added to a narrow signed one, in 32 bits |
| SafeIntSubtract.Subtract | lib/safeint/SafeInt.hpp:5411-5415 | for every pair of types the subtraction succeeds if and only if the difference fits the first, and then gives it |
| SafeIntSubtract.SubtractFrom | lib/safeint/SafeInt.hpp:4138-4173 | the same with the result in the second type |
| SafeIntSubtract.Uint64FromInt | lib/safeint/SafeInt.hpp:5023-5052 | an unsigned 64-bit number subtracted from a narrow signed one |
| SafeIntMultiply.Uint64Uint64 | lib/safeint/SafeInt.hpp:1829-1884 | the product from 32-bit halves: success if and only if it fits 64 bits |
| SafeIntMultiply.Int64Times | lib/safeint/SafeInt.hpp:2260-2312 | signed 64-bit products from magnitudes and signs |
| SafeIntMultiply.Int32Uint64 | lib/safeint/SafeInt.hpp:2101-2152 | a signed 32-bit times an unsigned 64-bit number |
| SafeIntMultiply.Multiply | lib/safeint/SafeInt.hpp:5393-5397 | for every pair of types the multiplication succeeds if and only if the product fits the first, and then gives it |
| SafeIntMultiply.SafeTtoI | lib/safeint/SafeInt.hpp:6305-6343 | a nonempty text is accepted if and only if the signed number it begins with fits the type, the least number included |
| SafeIntLaws.ReadsDecimal | lib/safeint/SafeInt.hpp:6305-6343 | the decimal text of every integer is read as that integer |
| SafeIntLaws.PlusAndOthers | lib/safeint/SafeInt.hpp:6305-6343 | a plus sign makes no difference, and other first bytes stand for zero |
| IntFormat.CountDigitsIsLength | lib/format/format.h:333-347 | the estimate from the bit length with its one correction is the decimal length, for every 64-bit number |
| IntFormat.EstimateIsInTable | lib/format/format.cc:133-152 | the tables of powers are never read past their ends |
| IntFormat.CountDigitsByDivision | lib/format/format.h:350-364 | the loop by four digits gives the same count |
| IntFormat.DigitsValue | lib/format/format.h:374-393 | the digits read back are the number, without leading zeros |
| IntFormat.Writer.FormatDecimal | lib/format/format.h:374-393 | the digits are written in place, two at a time, and nothing else is touched |
| IntFormat.Writer.FormatBase | lib/format/format.h:1138-1143 | hexadecimal, octal and binary digits written backwards in place |
| IntFormat.Writer.FillPadding | lib/format/format.cc:169-180 | padding on both sides, the smaller half first |
| IntFormat.Writer.PrepareFilledBuffer | lib/format/format.cc:182-217 | sign and padding where the alignment puts them, and exactly the places of prefix and digits left open |
| IntFormat.Writer.FormatInt | lib/format/format.h:1106-1185 | what is appended is sign, prefix and digits of the magnitude in the layout; an unknown type letter appends nothing |
| IntFormat.LayoutLength | lib/format/format.cc:182-217 | the layout is exactly as long as the larger of width and content |
| IntFormat.OutputValue | lib/format/format.h:1106-1185 | the digits and the sign in the output are those of the value |
| IntFormatSamples.TypeLetters | lib/format/format.h:1106-1185 | which letters stand for decimal, hexadecimal in either case, octal and binary, and that there are no others |
| IntFormatSamples.Prefixes | lib/format/format.h:1106-1185 | the prefixes 0x 0X 0b 0B 0 |
| IntFormatSamples.Signs | lib/format/format.h:1106-1130 | minus always, plus or space on request |
| IntFormatSamples.Alignments | lib/format/format.cc:182-217 | right by default, left, centred, and padding behind the sign |

## Left out

Not modelled:

- Huffman coding and bit packing (the `_tr_*` functions of trees.c): trees.c is not part of this model. A block is consumed with its tokens and bytes, and the output room left afterwards is arbitrary.
- Inflate; Lz77.Expand stands for the decoder of the token log.
- deflate_stored (level 0), deflateParams, deflatePrime, deflateTune, deflateCopy, preset dictionaries, and the FASTEST, ASMV, UNALIGNED_OK and 16-bit builds.
- Independence of the compressed output from the chunking of the input: when a slide happens decides whether a candidate at exactly MAX_DIST is still on its chain, so it is not a theorem.
- The zlib header and trailer (wrap == 1): two bytes each and an Adler-32 in place of the CRC, no resumable states.
- Error codes for null pointers and invalid arguments, deflateEnd, memory allocation.
- The size bounds compressBound and deflateBound.
- SafeInt's division, modulus, shifts, comparisons, casts of bool and floating point, and the throwing variants, which repeat the logic of the modelled ones. Division of a narrow signed type by an unsigned 64-bit number is not exact in the source.
- fmt's floating-point output, strings, Array growth, and the format-string parser.
- picojson's streams, locale-dependent decimal points, PICOJSON_USE_INT64, and the partial value left behind by a failed parse.
- TinyXML's UTF-8 mode, white-space condensing, case-insensitive end tags, stream and file input, row and column stamping, and printing.
- StackWalker, the benchmark and documentation scripts: operating-system plumbing.

Modelled with a difference, or stated weaker than the source:

- Emit.FlushBlockOnly: the output room left after a block is arbitrary, because the size of the coded block is trees.c's.
- Emit.LogToken: d_buf and l_buf are arrays of their own, not an overlay of pending_buf; the symbol frequencies are left to trees.c.
- Deflate.DeflateCall: only the compression step; deflate()'s return codes and last_flush are in GzipWrapper.Stream.Deflate. An output room of 0 is allowed, where the source returns Z_BUF_ERROR at once.
- DeflateFast.FileMatch: strstart and lookahead move together, where the source lowers lookahead beforehand; the strings filed are the same. DeflateSlow.TakePrevious likewise.
- Matcher.LongestMatch: its loop is a method of its own (Matcher.WalkChain), and match_start is kept in a local variable until the return.
- HashTable.InsertString: str & w_mask is written as HashChains.Slot, which HashChains.SlotIsMasked proves equal to it.
- GzipWrapper.Stream.Compress: the compression function is any sequence of reads and blocks that leaves input unread only for want of output space; the LZ77 modules say what the real one does.
- Crc32.Crc32Little: the eight-fold unrolled loops are loops over one word or byte in the same order, and a word of the buffer is the exclusive or of its bytes at their places. Crc32.Crc32Big likewise.
- Crc32.MakeCrcTable: the polynomial is the constant that the source builds from its exponents.
- XmlNodes.Node.RemoveChild: `delete` takes the node out of the document by clearing its parent pointer; its own children stay below it. XmlNodes.Node.ReplaceChild likewise.
- XmlNodes.Node.InsertBeforeChild: cloning is not modelled; the node to insert is passed in cloned, null when cloning fails. The error noted in the document is not modelled.
- XmlText.ReadText: trimming off, case-sensitive end tag, outside UTF-8 mode; one loop with the base as a parameter stands for the hexadecimal and the decimal one.
- JsonText.NumberRoundTrip: strtod and "%.17g" are parameters; strtod is taken to be exact on integers below 2^53, and other numbers come back as far as the library reads its own text back (JsonText.Faithful). Negative zero is not a real number.
- JsonRoundTrip.SerializeThenParse: objects are sequences of entries in key order, which is what a std::map is (JsonText.Proper).
- JsonParser.PushCodepoint: combinations of disjoint bits are written as sums, shifts as divisions.
- SafeInt.Add: signed overflow, which the multiplication of two unsigned short numbers and one of the subtractions let happen, is taken to wrap; one method stands for helpers that differ in a check that cannot fail.
- IntFormat.Writer.FormatDecimal: the DIGITS table is modelled by the digit pairs it spells.
- IntFormat.Writer.FormatBase: one loop with the base as a parameter stands for three.
