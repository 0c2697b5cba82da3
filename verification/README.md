# A verified model of ForgeBase

ForgeBase is a control plane for Postgres projects. This project models the parts of it that carry real
algorithms or run as state machines, and proves what they promise.

The QR encoder embedded in the server:

- `Bits`, `Gf256`, `Polynomials`, `Codewords`: bytes as bit strings, the field with 256 elements, polynomials
  over it, and the Reed-Solomon code with its minimum distance (ISO/IEC 18004:2015, section 7.5).
- `QrMath`, `QrPolynomial`, `RsBlocks`, `Interleaving`: the encoder's tables, its polynomial arithmetic, the
  error-correction blocks and their interleaving (section 7.6).
- `BitBuffer`, `CreateData`, `Placement`, `QrSymbol`: bit packing and padding (section 7.4), placing the data
  with a mask (sections 7.7 and 7.8), and the whole way from data to modules and back.
- `BitOutput`, `GifDecoder`, `Lzw`, `LzwNames`, `LzwRaster`: the LZW compressor of the GIF writer against a decoder
  written from Appendix F of the GIF89a specification.
- `Base64`: the base64 streams (section 4 of RFC 4648).

The services:

- `PortPool`: PostgREST processes and their recycled ports, with a lock that is dropped during readiness waits.
- `Broadcast`, `RealtimeHub`: the three-phase realtime fan-out and the life of a hub, interleaved.
- `Filters`, `Strings`: the row editor's filter compiler, under SQL's three-valued logic.
- `MessageQueue`, `RefreshTokens`, `RateLimit`, `StorageCache`, `Listing`, `Masonry`, `CronFields`,
  `CronSchedule`, `CronWritten`: the visibility-timeout queue, refresh-token families, the sliding-window
  limiters, the storage cache, paged listing, the diagram layout, and scheduled functions.

`Exceptions` and `FiniteSets` are shared by both halves.

Most modules have the same shape: functions on values say what one operation does; lemmas prove what every run
of operations keeps; and methods with loops, arrays and fields, written as the program writes them, are proved
equal to those functions. What such a function means is then stated once more without naming it: by positions,
by field values, by reading back, or as an if-and-only-if over every run. Values the program gets from outside (clocks, random tokens, answers of the database,
success of remote calls, the order in which a map is visited) are parameters.

## What the proofs found

- LZW: the data codes are always in step with a decoder, but the end code is written one bit too short exactly
  when the string table has just filled its width (`Lzw.EndCodeInStep`, `Lzw.EndCodeOutOfStep`). A decoder then
  waits for another bit; the zero filling supplies it or the stream ends, and the pixels are right all the same
  (`Lzw.RasterDecodes`).
- Reed-Solomon: division takes the logarithm of every divisor coefficient and throws on a zero. No generator up
  to 254 check symbols has one; with 255 factors it is x^255 - 1, and the encoder throws from there on
  (`Codewords.GeneratorHasNoZero`, `Codewords.GeneratorAt255`).
- LZW: the string table is a plain object, which also answers for the names every object inherits. A matched
  name is written as code 0, so the pixels come back wrong; this happens only with seven or eight bits per
  pixel (`LzwNames.NamedDecodes`, `LzwNames.SixBitsMeetNoName`, `LzwNames.LadderMeetsName`). The page draws with two.
- Ports: a process that fails to start loses its port, which is then neither live nor recycled
  (`PortPool.WhereEveryPortIs`, `PortPool.FailedStartLosesPort`) and comes back only when the counter gets to it
  again (`PortPool.LostPortNeedsTheCounter`). With 62000 live entries the search for a port does not end, and
  the lock stays held (`PortPool.SearchEnds`).
- Storage: a delete that cannot reach the remote reports success, and the next read brings the object back
  (`StorageCache.DeleteIsFinal`).
- Listing: the prefix is a LIKE pattern, so `%`, `_` and a backslash in it do not stand for themselves
  (`Listing.PrefixIsExact`).
- Cron: the save-time check accepts steps that are zero or negative. Such a part matches nothing and hides the
  parts after it, so with both kinds of steps in one field the order of its parts matters, and only then
  (`CronFields.OrderFreeExactly`, `CronFields.ZeroStepMatters`).
- Cron: a value with step 1, such as `5/1`, matches that value only, where the comment in the source announces
  "starting at 5"; the promise holds for every other step (`CronFields.BareStepExactly`, `CronFields.FiveSlashOne`).
- Cron: a function that is deleted and saved again has forgotten its last minute and can fire for it once more
  (`CronSchedule.NeverTwice`, `CronSchedule.RecreatedFiresAgain`).
- Refresh tokens: if storing the rotated token fails, the session is over, as the old token is already revoked
  (`RefreshTokens.FailedRotationEndsSession`).

## Model

| member | source | states |
|---|---|---|
| Gf256.TimesAlphaByArithmetic | pgforge/qrvendor.go:1147-1155 | multiplying by alpha in the bitwise definition is doubling modulo x^8+x^4+x^3+x^2+1, the field of the QR standard |
| Gf256.PowersAtDivisors | pgforge/qrvendor.go:1150-1155 | by repeated squaring: alpha^15, alpha^51 and alpha^85 are not 1, and alpha^255 is |
| Gf256.AlphaOrder | pgforge/qrvendor.go:1143-1158 | the powers of alpha return to 1 after 255 steps and not before |
| Gf256.AlphaDistinct | pgforge/qrvendor.go:1156-1158 | the 255 entries of the exponent table are pairwise different, so no logarithm is overwritten |
| Gf256.LogarithmExists | pgforge/qrvendor.go:1156-1158 | every nonzero byte is a power of alpha below 255: the logarithm table has no hole |
| Gf256.AlphaTimesAlpha | pgforge/qrvendor.go:1225 | adding logarithms multiplies, in the product defined without any table |
| Gf256.ProductAssociates | pgforge/qrvendor.go:1219-1230 | the product the tables compute is associative |
| Gf256.ProductCommutes | pgforge/qrvendor.go:1219-1230 | the product is commutative |
| Gf256.ProductDistributes | pgforge/qrvendor.go:1219-1230 | the product distributes over exclusive or |
| Gf256.ProductNonzero | pgforge/qrvendor.go:1219-1230 | there are no zero divisors |
| QrMath.QRMath.constructor | pgforge/qrvendor.go:1141-1158 | the recurrence over four earlier entries fills the exponent table with the powers of alpha, and the logarithm table inverts it |
| QrMath.FillExpTable | pgforge/qrvendor.go:1146-1155 | 256 entries, entry i is alpha^i |
| QrMath.FillLogTable | pgforge/qrvendor.go:1156-1158 | the entry of every nonzero byte is its logarithm |
| QrMath.Recurrence | pgforge/qrvendor.go:1150-1155 | alpha^i is the exclusive or of the powers 4, 5, 6 and 8 before it |
| QrMath.QRMath.Glog | pgforge/qrvendor.go:1162-1169 | throws exactly on zero, otherwise the discrete logarithm |
| QrMath.QRMath.Gexp | pgforge/qrvendor.go:1171-1182 | alpha to any integer power, negative ones included |
| QrPolynomial.MakePoly | pgforge/qrvendor.go:1191-1207 | drops exactly the leading zeros, keeps unwritten slots and appends `shift` of them |
| QrPolynomial.SlotLog | pgforge/qrvendor.go:1162-1169 | the logarithm of a slot: none for an unwritten one, a throw for a written zero |
| QrPolynomial.Multiply | pgforge/qrvendor.go:1219-1230 | for any two polynomials, unwritten slots counting as zero: the product without leading zeros, or a throw exactly when a written coefficient is zero or both are empty |
| QrPolynomial.GetErrorCorrectPolynomial | pgforge/qrvendor.go:975-981 | succeeds exactly for at most 255 check symbols and then is the product of (x - alpha^i) |
| QrPolynomial.Eliminate | pgforge/qrvendor.go:1238-1247 | one elimination step subtracts the multiple of the divisor that cancels the leading coefficient, unwritten slots counting as zero |
| QrPolynomial.Mod | pgforge/qrvendor.go:1232-1251 | the recursion ends; it throws exactly when it has to divide by a divisor with a zero coefficient; otherwise the result is the remainder, shorter than the divisor |
| QrPolynomial.ExpOfRatio | pgforge/qrvendor.go:1238-1246 | subtracting and adding logarithms is division and multiplication, across the wrap at 255 |
| Polynomials.RemainderUnique | pgforge/qrvendor.go:1232-1251 | dividend and divisor have only one remainder, so `mod` computes it |
| Polynomials.RemainderStep | pgforge/qrvendor.go:1238-1250 | a remainder of the reduced dividend is a remainder of the dividend |
| Polynomials.EvalConvolve | pgforge/qrvendor.go:1219-1230 | evaluating a product is multiplying the values |
| Codewords.GeneratorRoots | pgforge/qrvendor.go:975-981 | the generator vanishes exactly as required at alpha^0 to alpha^(k-1) |
| Codewords.GeneratorMonic | pgforge/qrvendor.go:975-981 | the generator has degree k and leading coefficient 1 |
| Codewords.GeneratorHasNoZero | pgforge/qrvendor.go:975-981 | up to 254 check symbols no coefficient of the generator is zero, so no logarithm of zero is taken |
| Codewords.GeneratorAt255 | pgforge/qrvendor.go:975-981 | with 255 factors the generator is x^255 - 1, which is where the encoder starts to throw |
| Codewords.Vandermonde | pgforge/qrvendor.go:975-981 | a word with at most k terms at different places that vanishes at alpha^0 to alpha^(k-1) is zero |
| Codewords.MinimumWeight | pgforge/qrvendor.go:975-981 | a nonzero codeword of at most 255 bytes has more than k nonzero bytes |
| Codewords.MinimumDistance | pgforge/qrvendor.go:975-981 | two different codewords of at most 255 bytes differ in more than k bytes |
| RsBlocks.EncodeBlock | pgforge/qrvendor.go:295-310 | the check bytes complete the data block to a multiple of the generator; throws exactly for more check bytes than the field allows |
| RsBlocks.RemainderCompletes | pgforge/qrvendor.go:301-309 | data followed by the left-padded remainder is divisible by the generator |
| RsBlocks.CodewordRoots | pgforge/qrvendor.go:301-309 | data plus check bytes vanishes at alpha^0 to alpha^(k-1) |
| RsBlocks.CheckBytesUnique | pgforge/qrvendor.go:301-309 | no other check bytes complete the same data |
| RsBlocks.UniqueDecoding | pgforge/qrvendor.go:301-309 | up to half as many wrong bytes as check bytes leave only one codeword that near |
| RsBlocks.BuildBlocks | pgforge/qrvendor.go:278-310 | cuts the buffer into the blocks of the list, reading missing bytes as zero, and completes each of them |
| RsBlocks.WriteColumns | pgforge/qrvendor.go:320-336 | writes the blocks column by column, shorter blocks dropping out |
| RsBlocks.CreateBytes | pgforge/qrvendor.go:276-339 | for every block list: exactly the total number of code bytes, all data blocks interleaved and then all check bytes interleaved, which complete each block to a codeword; throws exactly when a block has too many check bytes |
| RsBlocks.CodeBytesByPosition | pgforge/qrvendor.go:276-339 | read by positions alone: the output cut after the data and de-interleaved by the data counts and the check counts gives, for every block, its consecutive buffer bytes and as many check bytes as it has, together a codeword |
| RsBlocks.CodeBytesUnique | pgforge/qrvendor.go:276-339 | buffer and block list determine the output: no other bytes are interleaved data completed to codewords |
| RsBlocks.BlocksRecovered | pgforge/qrvendor.go:317-338 | the output is a permutation of all data and check bytes and de-interleaves to the original blocks |
| Interleaving.InterleavedIsPermutation | pgforge/qrvendor.go:320-336 | interleaving loses and repeats no byte, for blocks of any lengths |
| Interleaving.DeinterleavedInterleaved | pgforge/qrvendor.go:320-336 | byte i of block r is at the position computed from the block lengths alone |
| Interleaving.PositionOrder | pgforge/qrvendor.go:320-336 | positions are in order of the index in the block, and among equal indices in order of the blocks |
| BitBuffer.QrBitBuffer.PutBit | pgforge/qrvendor.go:1595-1607 | appends one bit to the plain bit sequence the buffer stands for |
| BitBuffer.QrBitBuffer.Put | pgforge/qrvendor.go:1585-1589 | appends the low bits of a number, most significant first |
| Bits.MsbValueOfBits | pgforge/qrvendor.go:1585-1589 | the bits put for a number have its value, reduced to what the width can hold |
| Bits.MsbValueSnoc | pgforge/qrvendor.go:1585-1589 | the value of a bit string: appending a bit doubles it and adds the bit |
| BitBuffer.QrBitBuffer.GetAt | pgforge/qrvendor.go:1580-1583 | reads back the bit put at that index, and false beyond the end |
| BitBuffer.AllBitsInjective | pgforge/qrvendor.go:1569-1583 | the bytes are determined by their bits |
| CreateData.PadBuffer | pgforge/qrvendor.go:368-390 | terminator, zero fill and alternating pad bytes bring the buffer to the padded stream |
| CreateData.WriteSegments | pgforge/qrvendor.go:347-352 | the plain bits of all segments in order; what these bits are is `CreateData.SegmentIsRead` and `CreateData.SegmentsRecovered` |
| CreateData.SegmentIsRead | pgforge/qrvendor.go:347-352 | the first four bits of a segment have the value of its mode, the next ones that of its length, and then come its fields; a reader is left with what follows |
| CreateData.SegmentsRecovered | pgforge/qrvendor.go:347-352 | a reader that knows only the widths recovers the whole segment list from any stream that starts with its bits, every number as its field can hold it |
| CreateData.PaddingFillsCapacity | pgforge/qrvendor.go:368-390 | the padded stream has exactly the capacity, starts with the data, ends it with zeros cut short only by the end of the symbol, and fills the rest with alternating pad bytes |
| CreateData.PadBytesAlternate | pgforge/qrvendor.go:378-390 | the pad bytes are 0xEC and 0x11 in turn, starting with 0xEC |
| CreateData.CreateData | pgforge/qrvendor.go:341-393 | throws when the data do not fit, otherwise the code bytes of the padded stream, which a reader cuts back into the segments (`CreateData.SegmentsRecovered`) |
| CreateData.DataRecovered | pgforge/qrvendor.go:341-393 | from the code bytes, the block sizes alone recover a stream that starts with the encoded data |
| CreateData.BlocksPartition | pgforge/qrvendor.go:288-299 | the data blocks are the buffer cut into consecutive pieces |
| Placement.WalkIsBijection | pgforge/qrvendor.go:233-273 | for every odd size from 21 the zigzag walk visits every module outside column 6 exactly once |
| Placement.WalkVisits | pgforge/qrvendor.go:233-273 | the moment at which a module is visited |
| Placement.RankCounts | pgforge/qrvendor.go:233-273 | the number of a data bit is the count of free modules the walk has met before |
| Placement.EveryFreeModule | pgforge/qrvendor.go:225-274 | the symbol without the walk: a free module holds the data bit numbered by the free modules that are in a column pair further right, or earlier in its own pair (pairs alternate upward and downward, right module first): byte k / 8, bit 7 - k % 8, light past the end, flipped under the mask |
| Placement.MasksMean | pgforge/qrvendor.go:949-973 | the eight masks, each as its own condition: checkerboard, rows, columns, diagonals, fields of two by three, and three patterns of the product |
| Placement.MapData | pgforge/qrvendor.go:225-274 | the k-th free module of the walk gets data bit k flipped by the mask; set modules keep their value |
| Placement.PlaceStrip | pgforge/qrvendor.go:237-272 | one strip runs over all its rows and turns around at the edge |
| Placement.CursorBit | pgforge/qrvendor.go:243-261 | counting down through each byte reads the bits of the data in order, and light past their end |
| Placement.NothingLeftUnset | pgforge/qrvendor.go:225-274 | after placement only modules of column 6 can be unset |
| Placement.ReadBack | pgforge/qrvendor.go:225-274 | reading along the same walk with the same mask recovers the data, whenever it fits the free modules |
| Placement.SetupPositionProbePattern | pgforge/qrvendor.go:84-104 | the finder with its light border, clipped to the symbol; nothing else changes |
| Placement.FinderIsRings | pgforge/qrvendor.go:84-104 | a finder is a dark 7, a light 5 and a dark 3 square around one centre, in a light border |
| Placement.RingIsSquare | pgforge/qrvendor.go:84-104 | ring k and what is inside it is the square of 2k + 1 modules around the centre |
| Placement.SetupTimingPattern | pgforge/qrvendor.go:125-140 | alternating modules in row and column 6 where nothing is set yet |
| Placement.WriteFixed | pgforge/qrvendor.go:142-223 | given modules are written in order: the last write to a module counts, and no other module changes |
| Placement.MakeImpl | pgforge/qrvendor.go:52-82 | in the finished symbol no module is unset; wherever nothing else was written the three finders stand in their corners ring by ring with their light borders, and the timing lines alternate; alignment and format modules hold what was written last; the data went to exactly the modules outside finders and timing lines to which nothing was written |
| QrSymbol.MakeSymbol | pgforge/qrvendor.go:52-82 | a symbol is built if and only if the data fit and no block has too many check bytes; it then holds the code bytes of the padded data, its finders and timing lines wherever nothing else was written, and no unset module |
| QrSymbol.ScanRecoversData | pgforge/qrvendor.go:52-82 | end to end: reading the modules, undoing the mask, regrouping and de-interleaving gives a stream that starts with the encoded bits |
| QrSymbol.ScanRecoversSegments | pgforge/qrvendor.go:52-82 | end to end: what the scanner reads, cut up by the widths of the segments, is the list of segments the symbol was made from |
| BitOutput.BitOutputStream.Write | pgforge/qrvendor.go:2109-2125 | throws exactly when the value does not fit in the length; otherwise appends its bits, least significant first, over 32-bit shifts |
| BitOutput.BitOutputStream.Flush | pgforge/qrvendor.go:2127-2131 | the bytes are the bits written, filled up with fewer than eight zeros |
| BitOutput.StreamBitAt | pgforge/qrvendor.go:2101-2131 | bit j of byte i of the stream counts 2^j |
| GifDecoder.ReadInStep | pgforge/qrvendor.go:2136-2196 | a decoder that reads each code at its own current width reads codes written in step with it as they are |
| GifDecoder.AppendixF | pgforge/qrvendor.go:2136-2196 | the rules of the decoder in numbers: clear code 2^m, end code 2^m + 1, codes from m + 1 bits on, the table entry one code behind, and the width growing when the table fills it, up to 12 bits |
| Lzw.EmitIsGood | pgforge/qrvendor.go:2171-2184 | after every code written a decoder one entry behind has exactly the pixels before the current string, the same table but one entry, and the same width |
| Lzw.FeedIsGood | pgforge/qrvendor.go:2163-2186 | every pixel keeps encoder and decoder in step |
| Lzw.CodeFits | pgforge/qrvendor.go:2173 | a code never exceeds the current width and is never the clear or end code |
| Lzw.StepRecovers | pgforge/qrvendor.go:2171-2183 | the decoder recovers the written string, even when it is the entry it has not completed yet |
| Lzw.DataCodesDecode | pgforge/qrvendor.go:2136-2189 | for every raster the codes up to the last string are all in step and decode to exactly the pixels |
| Lzw.WidthAtEnd | pgforge/qrvendor.go:2188-2192 | the width a decoder expects after the last string |
| Lzw.EndCodeInStep | pgforge/qrvendor.go:2191-2192 | the end code has the width the decoder expects if and only if the table size is not 2^width when the pixels end |
| Lzw.EndCodeOutOfStep | pgforge/qrvendor.go:2191-2192 | for the pixels 0, 1, 0 it has not |
| Lzw.RasterDecodes | pgforge/qrvendor.go:2136-2196 | whatever the width of the end code, reading the bits with their zero filling gives exactly the pixels |
| LzwNames.NumberFits | pgforge/qrvendor.go:2173 | even after an inherited name was matched every code fits its width |
| LzwNames.NameIsWrittenAsZero | pgforge/qrvendor.go:2163-2188 | the first inherited name matched is written as the code 0 |
| LzwNames.NamedDecodes | pgforge/qrvendor.go:2136-2223 | for every raster: the pixels come back if and only if no matched string was an inherited name |
| LzwNames.SixBitsMeetNoName | pgforge/qrvendor.go:2221-2223 | up to six bits per pixel no name can be spelled |
| LzwNames.LadderMeetsName | pgforge/qrvendor.go:2221-2223 | with seven or eight bits the prefixes of "valueOf" in a row do meet it |
| LzwRaster.LzwTable.Add | pgforge/qrvendor.go:2205-2211 | throws exactly on a key that is present or inherited by every object, otherwise numbers it next |
| LzwRaster.LzwTable.IndexOf | pgforge/qrvendor.go:2217-2219 | the number of a string is its place in the table; an inherited member is written as 0 |
| LzwRaster.LzwTable.Contains | pgforge/qrvendor.go:2221-2223 | the table answers for its own strings and for the names every object inherits |
| LzwRaster.InitialLzwTable | pgforge/qrvendor.go:2142-2149 | one entry per pixel value, the clear and the end code, and no duplicate on the way |
| LzwRaster.FeedPixel | pgforge/qrvendor.go:2163-2186 | one turn of the loop does what the compressor with inherited names does on values |
| LzwRaster.GetLzwRaster | pgforge/qrvendor.go:2136-2197 | for two to eight bits per pixel neither throw can happen; the first code clears the table; the bytes decode to exactly the pixels given if and only if the compressor never matched an inherited name, with up to six bits it never does, and no pixels at all decode to a single 0 |
| LzwRaster.OnePixelMeetsNone | pgforge/qrvendor.go:2154-2162 | a raster of one pixel cannot meet an inherited name |
| Base64.Base64EncodeOutputStream.WriteByte | pgforge/qrvendor.go:1918-1928 | takes over the low eight bits of the argument; the string and the never masked buffer hold all bits written |
| Base64.Base64EncodeOutputStream.Flush | pgforge/qrvendor.go:1930-1945 | the text is the encoding of section 4 of RFC 4648 of all bytes written, with its padding |
| Base64.EncodedLength | pgforge/qrvendor.go:1930-1945 | 4 * ceil(n / 3) letters |
| Base64.EncodedByGroups | pgforge/qrvendor.go:1918-1945 | three bytes become four letters by the arithmetic of section 4 of RFC 4648, and one or two bytes left over become two or three letters with padding |
| Base64.LetterRoundTrip | pgforge/qrvendor.go:1901-1916 | the alphabet is one to one, and no letter reads as padding or white space |
| Base64.AlphabetIs | pgforge/qrvendor.go:1901-1916 | the alphabet of RFC 4648, letter by letter |
| Base64.Base64DecodeInputStream.Read | pgforge/qrvendor.go:1967-1995 | the next byte of the text, -1 at padding or a clean end, a throw on a bad letter or a truncated end |
| Base64.DecodeEncoded | pgforge/qrvendor.go:1888-2015 | reading the encoding of any byte sequence to -1 returns the bytes |
| Base64.ReadsGroup | pgforge/qrvendor.go:1967-1995 | four letters become three bytes |
| Base64.ReadsEnd | pgforge/qrvendor.go:1967-1995 | an unfinished group: before padding its whole bytes count, without padding it throws, and so does a character that is neither a letter nor white space |
| Base64.SpaceIsIgnored | pgforge/qrvendor.go:1983-1986 | white space anywhere in the text makes no difference |
| Base64.EncodeBytes | pgforge/qrvendor.go:2242-2247 | writing bytes one by one and flushing gives a text that decodes to them |
| Base64.DecodeText | pgforge/qrvendor.go:1967-1995 | the read loop returns what the text means |
| PortPool.SomePortIsFree | pgforge/api.go:126-142 | pigeonhole: with fewer than 62000 live entries some port is unused |
| PortPool.Scan | pgforge/api.go:126-142 | the counter path ends, on an unused port in 3001..65000, wrapping at most once |
| PortPool.FullPoolHoldsEveryPort | pgforge/api.go:126-142 | with 62000 live entries nothing is recycled and every port is in use |
| PortPool.SearchEnds | pgforge/api.go:126-142 | the search for a port ends if and only if fewer than 62000 entries are live |
| PortPool.ScanStopsFirst | pgforge/api.go:126-142 | the port found is that of the first turn that tries an unused one |
| PortPool.AllocFacts | pgforge/api.go:120-143 | the port handed out is in range, not live and no longer recycled |
| PortPool.LastReturnedFirst | pgforge/api.go:120-146 | the port given back last is the next one handed out, and the other recycled ports stay as they were |
| PortPool.ClaimKeepsValid | pgforge/api.go:259-319 | claiming a slot keeps live ports distinct and apart from the free list, whether or not the process starts |
| PortPool.DropKeepsValid | pgforge/api.go:354-362 | dropping a process keeps the invariant |
| PortPool.GiveUpIsStop | pgforge/api.go:338-349 | because of the `cur == p` test a failed readiness wait stops its own process or nothing |
| PortPool.ReapLeavesActive | pgforge/api.go:83-96 | a reap leaves exactly the entries that are pinned or not idle, whatever order it visits them in |
| PortPool.StepStamps | pgforge/api.go:83-319 | a request sets the time of the last request, a new process starts with the time of its claim, and nothing else touches it |
| PortPool.LastReqIsLastUse | pgforge/api.go:83-319 | in every run the time the reaper goes by is that of the last request to the process, or of its start if there was none since |
| PortPool.StepKeepsValid | pgforge/api.go:83-362 | every critical section keeps the invariant, waits under way included |
| PortPool.Run | pgforge/api.go:83-362 | over every run the invariant of ports, free list and port history holds |
| PortPool.PortsStayApart | pgforge/api.go:83-362 | in every interleaving live ports are pairwise distinct, in range, and disjoint from a duplicate-free free list |
| PortPool.ReturnedOncePerOwnership | pgforge/api.go:83-362 | between two returns of a port it was handed out again |
| PortPool.WhereEveryPortIs | pgforge/api.go:83-362 | in every run, on any lap of the counter, a port is live or recycled exactly if it was issued and its last event is not a failed start, and never both |
| PortPool.LostPortNeedsTheCounter | pgforge/api.go:120-143 | a lost port is handed out again only by the counter, with nothing recycled, and after wrapping around if the counter had passed it |
| PortPool.FailedStartLosesPort | pgforge/api.go:303-306 | one failed start leaves its port neither live nor recycled |
| PortPool.PortsAreRecycled | pgforge/api.go:120-146 | the counter never gets further than the most processes live at once plus the ports lost to failed starts; until these reach 62000 it has issued as many ports as are live, recycled or lost |
| PortPool.PgrstPool.PortInUse | pgforge/api.go:132-138 | the scan finds a live entry with the port exactly if there is one |
| PortPool.PgrstPool.AllocPort | pgforge/api.go:120-143 | recycled ports first, last in first out; otherwise the next unused one, and the loop ends |
| PortPool.PgrstPool.EnsurePostgrest | pgforge/api.go:259-319 | the running process, an error, or a new process on an allocated port, used as of now; a failed start leaves no entry |
| PortPool.PgrstPool.ReadinessFailed | pgforge/api.go:338-350 | drops the entry only if it is still the process of this wait |
| PortPool.PgrstPool.StopPostgrest | pgforge/api.go:354-362 | drops the entry and recycles its port |
| PortPool.PgrstPool.ReapPostgrest | pgforge/api.go:83-96 | visits every entry once; afterwards exactly those are left that are pinned or were used within the idle time |
| Broadcast.KeepVisible | pgforge/realtime.go:424-449 | the in-place filter with its memo keeps exactly what the rule without a memo keeps, in order |
| Broadcast.MemoNeedsRoles | pgforge/realtime.go:438-443 | the memo is sound only because equal claims mean equal roles |
| Broadcast.KeptTwice | pgforge/realtime.go:394-449 | filtering in two phases is filtering by both rules |
| RealtimeHub.TargetsHaveTheirRoles | pgforge/realtime.go:572-575 | in every run subscribers with equal claims have equal roles, since a join takes the role from the claims |
| RealtimeHub.WrittenAreRegistered | pgforge/realtime.go:451-466 | phase three writes to the targets still registered, once each and in order, and unregisters exactly those whose write failed |
| RealtimeHub.WrittenExactly | pgforge/realtime.go:379-466 | in every interleaving the last phase writes to the snapshot filtered by match, visibility and registration, in the order visited; who that is, is `RealtimeHub.WrittenByFields` |
| RealtimeHub.WrittenByFields | pgforge/realtime.go:379-466 | the same in the fields of subscription and event, as an if-and-only-if for every connection: a message only on its own named channel; a change only to one that is not after messages only, whose table, event and column value each agree or are unasked, and who may see the row; and registered both then and now |
| RealtimeHub.WhoIsWritten | pgforge/realtime.go:379-466 | the same for a broadcast nothing interleaves with, and nobody is written to twice |
| RealtimeHub.EmptySinceIsAccurate | pgforge/realtime.go:451-628 | in every interleaving `emptySince` is zero exactly while there are clients |
| RealtimeHub.EmptyEverSince | pgforge/realtime.go:451-628 | in every interleaving a hub whose `emptySince` is t has had no client since its creation at t or since an event at t |
| RealtimeHub.IdleMeansEmpty | pgforge/realtime.go:141-143 | a hub that counts as idle has been without clients for longer than allowed |
| RealtimeHub.ClosedForever | pgforge/realtime.go:106-156 | a hub marked closed stays closed, has no clients and never gains one |
| RealtimeHub.StepKeepsOk | pgforge/realtime.go:106-628 | every step of joins, leaves, reapers and broadcast phases keeps the invariant |
| RealtimeHub.StepOnHub | pgforge/realtime.go:106-628 | what one step does to the hub: who is registered afterwards and under which subscription, when it is closed, and when `emptySince` is stamped |
| RealtimeHub.StepOnBroadcasts | pgforge/realtime.go:379-466 | a broadcast starts from the clients of that moment, and a check changes nothing but its targets |
| RealtimeHub.Run | pgforge/realtime.go:106-628 | over every interleaving the invariant of the hub and of the broadcasts under way holds |
| RealtimeHub.RtHub.constructor | pgforge/realtime.go:173 | a new hub is empty since now |
| RealtimeHub.RtHub.JoinHub | pgforge/realtime.go:572-612 | takes the role from the claims, registers the client and clears `emptySince`, or refuses on a closed hub |
| RealtimeHub.RtHub.LeaveHub | pgforge/realtime.go:623-628 | unregisters the client and stamps `emptySince` if it was the last |
| RealtimeHub.RtHub.ReapIfUnused | pgforge/realtime.go:106-124 | closes the hub exactly if it has no clients and no webhooks |
| RealtimeHub.RtHub.InspectIdle | pgforge/realtime.go:141-143 | whether the hub has been empty for longer than allowed |
| RealtimeHub.RtHub.MatchTargets | pgforge/realtime.go:394-422 | every client that asks for the event, each once, in the order visited; which these are is stated field by field |
| RealtimeHub.RtHub.WriteTargets | pgforge/realtime.go:451-466 | writes in order, skipping clients that are gone |
| RealtimeHub.RtHub.BroadcastNow | pgforge/realtime.go:379-466 | the three phases without interference: who is written to, field by field and once each, and that exactly the written connections that failed are unregistered |
| Filters.WhereMeansFilters | pgforge/editor.go:482-526 | for every parameter list and every row, nulls included, the clause under its arguments is true exactly when all accepted filters say so |
| Filters.PlaceholdersCount | pgforge/editor.go:482-526 | the placeholders are exactly $1 to $n in order, and every column is a schema column |
| Filters.ViewsAreAccepted | pgforge/editor.go:482-526 | the views echo the accepted filters in order |
| Filters.ParseWritten | pgforge/editor.go:487-495 | a filter written as col.op.value is parsed back, with any value |
| Filters.AcceptedExactly | pgforge/editor.go:486-521 | which parameters count: those on a schema column with one of nine operators or a test for null; without a value the text is empty, without an operator the parameter is dropped |
| Filters.OneMeans | pgforge/editor.go:497-521 | each condition means its filter and binds fresh, consecutive placeholders |
| Filters.SqlMeans | pgforge/editor.go:497-521 | what each SQL condition says, null by null and operator by operator |
| Filters.WhereIsConjunction | pgforge/editor.go:524 | a clause is true if all its conditions are |
| Filters.InListMeans | pgforge/editor.go:502-509 | an IN list is membership among the trimmed items, unknown for null |
| Filters.BindItems | pgforge/editor.go:503-508 | every item is bound as an argument of its own |
| Filters.AddFilter | pgforge/editor.go:486-522 | one parameter adds its condition, arguments and view, or nothing |
| Filters.BuildFilters | pgforge/editor.go:482-526 | the loop compiles all parameters to a clause that means them |
| Strings.SplitJoins | pgforge/editor.go:503 | splitting at a separator loses nothing |
| Strings.TrimSpaceExact | pgforge/editor.go:506 | trimming takes white space off both ends and nothing else, and leaves none there |
| MessageQueue.PickIsSmallest | pgforge/queues.go:40-45 | a read takes the smallest visible ids, as many as asked for |
| MessageQueue.PickedExactly | pgforge/queues.go:40-45 | a read takes a message exactly if it is visible and fewer smaller visible ones exist than were asked for |
| MessageQueue.StepKeepsOk | pgforge/queues.go:26-66 | every operation keeps the bookkeeping of ids, bodies, hiding times and counters |
| MessageQueue.Run | pgforge/queues.go:29-66 | over every run the bookkeeping of the queue holds |
| MessageQueue.NothingIsLost | pgforge/queues.go:26-66 | every issued id is in exactly one of table, archive and removed ids, with the body and the time it was sent with |
| MessageQueue.NotDeliveredTwice | pgforge/queues.go:34-46 | a message handed out with a positive timeout is not handed out again before it lapses |
| MessageQueue.VisibleExactly | pgforge/queues.go:29-46 | in every run a message is visible exactly from when it was sent on, or, once handed out, from when the timeout of its last reader lapses |
| MessageQueue.LastIsLast | pgforge/queues.go:36-46 | the last reader is the last delivery of that message in the history |
| MessageQueue.BecomesReadable | pgforge/queues.go:36-47 | once its timeout has passed an unacknowledged message is returned by a read if and only if fewer messages than asked for are visible before it |
| MessageQueue.SingleReadsReach | pgforge/queues.go:36-47 | reads of one message, the default, reach it after as many reads as there are smaller visible messages |
| MessageQueue.CountersCount | pgforge/queues.go:39-44 | `read_ct` counts the deliveries, in the table and in the archive |
| MessageQueue.ArchiveNeverConflicts | pgforge/queues.go:55-65 | archiving succeeds exactly for ids in the table: the primary key is never violated |
| MessageQueue.QueueTables.SendMessage | pgforge/queues.go:29-35 | a new row under the next id |
| MessageQueue.QueueTables.PickVisible | pgforge/queues.go:42-45 | walking the ids in order and stopping at the limit finds the rows to read |
| MessageQueue.QueueTables.ReadMessages | pgforge/queues.go:36-47 | hides and counts exactly the rows picked and returns them in order of their ids, with their new counts |
| MessageQueue.QueueTables.DeleteMessage | pgforge/queues.go:48-54 | removes the row, and says whether there was one |
| MessageQueue.QueueTables.ArchiveMessage | pgforge/queues.go:55-65 | moves the row, keeping its count, time and body |
| MessageQueue.QueueTables.PurgeQueue | pgforge/queues.go:182-197 | empties the table without restarting its ids |
| RefreshTokens.StepKeepsOk | pgforge/authusers.go:101-223 | every operation keeps one owner and at most one unrevoked token per family |
| RefreshTokens.Run | pgforge/authusers.go:101-223 | over every run of sign-ins, rotations, replays, logouts, revocations and deletions the invariant of families holds |
| RefreshTokens.OneLiveTokenPerFamily | pgforge/authusers.go:101-223 | in every run a family has at most one unrevoked token |
| RefreshTokens.DeadForever | pgforge/authusers.go:101-223 | a family without a live token, or whose owner is gone, never gains one |
| RefreshTokens.ReplayEndsLineage | pgforge/authusers.go:204-208 | after a replay of a revoked token no token of its lineage ever mints again |
| RefreshTokens.RevokedForever | pgforge/authusers.go:184-223 | a revoked token stays revoked as long as it exists, and its hash is never issued again |
| RefreshTokens.UsedIsRevoked | pgforge/authusers.go:213-220 | an exchange revokes the token and mints one for the same user and family |
| RefreshTokens.ExchangedExactly | pgforge/authusers.go:184-223 | in every run a token is exchanged if and only if it is known, its owner exists, it is neither revoked nor expired, and the new one can be stored |
| RefreshTokens.RefreshedExactly | pgforge/authusers.go:184-223 | what an attempt does to every token there was: a replay revokes the family, an exchange the token and in single-session mode those of its owner, anything else nothing |
| RefreshTokens.IssuedExactly | pgforge/authusers.go:101-121 | issuing adds one token for thirty days under a new hash, revokes the others of the user in single-session mode, and changes nothing else |
| RefreshTokens.ThirtyDays | pgforge/authusers.go:101-223 | over every run: the token of a sign-in can be exchanged for exactly thirty days, as long as it is not revoked and its owner exists |
| RefreshTokens.KeptForever | pgforge/authusers.go:101-223 | a token keeps owner and expiry as long as it exists |
| RefreshTokens.LogoutEndsSessions | pgforge/authusers.go:675-692 | ends the session of the token, or all of its owner, and changes no other token |
| RefreshTokens.NothingMintsAfterLogout | pgforge/authusers.go:675-692 | after signing out everywhere no token of the owner can be exchanged |
| RefreshTokens.FailedRotationEndsSession | pgforge/authusers.go:213-219 | if the new token cannot be stored the whole session is over |
| RefreshTokens.SingleSession | pgforge/authusers.go:102-108 | with single-session mode always on nobody has two live tokens |
| RefreshTokens.TokenStore.IssueTokens | pgforge/authusers.go:101-121 | revokes the other sessions in single-session mode, then inserts into the given family or a new one |
| RefreshTokens.TokenStore.HandleRefresh | pgforge/authusers.go:184-223 | unknown and expired tokens fail, revoked ones end their family, valid ones rotate; success has its exact condition |
| RefreshTokens.TokenStore.LogoutToken | pgforge/authusers.go:675-692 | revokes the token, or all tokens of its owner |
| RefreshTokens.TokenStore.RevokeUserTokens | pgforge/authusers.go:1481-1499 | revokes every token of the user and nothing else |
| RateLimit.AtMostMax | pgforge/main.go:889-906 | at most max calls of an address are admitted in any one-minute window |
| RateLimit.Run | pgforge/main.go:835-906 | over every run the compacted and pruned lists agree with the full history from the window on |
| RateLimit.AnswersFromFullHistory | pgforge/main.go:835-906 | after any run both limiters answer as if they counted over the full history: eight failures in ten minutes, or max calls in one |
| RateLimit.CountIsSize | pgforge/main.go:839-844 | the counts are numbers of calls after the cut |
| RateLimit.InWindowIsSize | pgforge/main.go:889-906 | and the window counts are numbers of admitted calls in one minute |
| RateLimit.StepHistory | pgforge/main.go:835-906 | what each step adds to the full histories and to the admitted calls |
| RateLimit.PruneFaithful | pgforge/main.go:855-877 | pruning is invisible to both limiters |
| RateLimit.PruneExact | pgforge/main.go:855-877 | an address survives pruning if and only if it has a time in the last ten minutes, with its list as it was |
| RateLimit.LoginCheckFaithful | pgforge/main.go:835-851 | compaction forgets nothing that can still count |
| RateLimit.LoginCheckExact | pgforge/main.go:835-851 | a login check keeps the times of the last ten minutes of its address, drops it if there is none, and touches no other |
| RateLimit.AuthCheckExact | pgforge/main.go:889-906 | a call keeps the times of the last minute and adds its own, admitted or not; with the limiter off nothing changes |
| RateLimit.Limiter.RateLimited | pgforge/main.go:835-851 | compacts the list of the address and compares with eight |
| RateLimit.Limiter.AuthRateLimited | pgforge/main.go:889-906 | compacts, appends this call, compares; off when max is not positive |
| RateLimit.Limiter.RecordAttempt | pgforge/main.go:879-883 | appends the failure |
| RateLimit.Limiter.PruneTables | pgforge/main.go:855-877 | drops exactly the addresses without a time in the last ten minutes |
| RateLimit.Keep | pgforge/main.go:839-844 | the compaction loop keeps the times after the cut, in order |
| StorageCache.CacheIsInvisible | pgforge/s3storage.go:67-137 | from a migrated state, with any remote calls failing, reads return what the remote alone would, or fail because it cannot be reached |
| StorageCache.LocalOnlyIsPlain | pgforge/s3storage.go:67-137 | without a remote, over every run, the store is a plain map: uploads succeed, reads return what was stored last, nothing is pruned, no remote is touched |
| StorageCache.StampedOnUse | pgforge/s3storage.go:76-89 | an upload and a read that finds the file stamp it with the time of the request, a pull with that of the copy, and nothing else touches the time |
| StorageCache.StepKeepsSynced | pgforge/s3proto.go:202-265 | every local copy equals the remote object after every request |
| StorageCache.PutIsAllOrNothing | pgforge/s3proto.go:244-258 | a failed upload changes nothing that can be read, a successful one its own key only |
| StorageCache.DeleteIsFinal | pgforge/s3proto.go:261-265 | a deleted object is gone if and only if the remote took part or never had it |
| StorageCache.PruneIsInvisible | pgforge/s3storage.go:107-137 | pruning changes no read that can reach the remote |
| StorageCache.PruneTrimsOldest | pgforge/s3storage.go:107-137 | when removals succeed the cache ends under its cap, nothing kept is older than anything evicted, and the last eviction was needed |
| StorageCache.PruneWithStuckFiles | pgforge/s3storage.go:128-136 | files that cannot be removed are passed by, and the pruner still stops as soon as it can |
| StorageCache.ObjectStore.PutObject | pgforge/s3proto.go:244-258 | writes locally, pushes, and undoes the local copy if the push fails |
| StorageCache.ObjectStore.GetObject | pgforge/s3proto.go:202-210 | serves the local copy or pulls one |
| StorageCache.ObjectStore.EnsureLocal | pgforge/s3storage.go:76-89 | afterwards the file is present locally exactly when the result says so |
| StorageCache.ObjectStore.Push | pgforge/s3storage.go:67-72 | without a remote nothing happens and nothing fails |
| StorageCache.ObjectStore.DeleteObject | pgforge/s3proto.go:261-265 | removes local copy, remote object if reachable, and metadata |
| StorageCache.ObjectStore.PruneCache | pgforge/s3storage.go:107-137 | the loop with its running total evicts what the specification evicts; without a remote nothing |
| Listing.PagesAreComplete | pgforge/s3proto.go:304-357 | following the tokens ends, and the pages are exactly the matching keys after the start, once each and in order |
| Listing.PageStep | pgforge/s3proto.go:348-352 | a truncated page is full and ends where the next begins |
| Listing.PageExact | pgforge/s3proto.go:333-352 | a page is the next n keys or all that are left, and says that there are more exactly if there are |
| Listing.TokenContinues | pgforge/s3proto.go:311-314 | the next request starts after the token of this page, whatever its start point |
| Listing.PrefixIsExact | pgforge/s3proto.go:333-335 | the prefix means "starts with" for all paths if and only if it has no wildcard or escape character |
| Listing.LikeMeans | pgforge/s3proto.go:333-335 | what the pattern characters stand for: any text, any one character, the character escaped, or themselves |
| Listing.ListsWholeBucket | pgforge/s3proto.go:304-357 | a whole listing by a plain prefix is exactly the keys with that prefix, in order |
| Listing.ListObjects | pgforge/s3proto.go:304-357 | one page: size between 1 and 1000, token or start point, and the extra row cut off |
| Listing.MaxKeys | pgforge/s3proto.go:307-310 | the page size asked for if it is between 1 and 1000, else 1000 |
| Masonry.BoxesAreApart | pgforge/erd.go:105-116 | of two boxes one is right of the other by the horizontal gap, or below it in the same column by the vertical gap |
| Masonry.PlacedSnugly | pgforge/erd.go:105-116 | every box stands directly under the last one of its column, 26 below it, at 30 plus 310 for every column; no other column ends higher, nor one further left as high |
| Masonry.BoxesAreInside | pgforge/erd.go:156-164 | every box lies inside the canvas with its margins |
| Masonry.CanvasIsTight | pgforge/erd.go:156-164 | some box reaches the right edge less 60 and some the lower one; an empty canvas is 60 by 60 |
| Masonry.ColumnsAreBalanced | pgforge/erd.go:105-116 | column heights never differ by more than the largest box and its gap |
| Masonry.TallestIsBounded | pgforge/erd.go:105-116 | n times the tallest column is at most the sum plus n - 1 times the largest |
| Masonry.NearlyOptimal | pgforge/erd.go:105-116 | the tallest column is at most 2 - 1/n times that of any other arrangement in as many columns |
| Masonry.CountColumns | pgforge/erd.go:98-104 | the smallest square that holds all boxes, at most five columns |
| Masonry.ShortestColumn | pgforge/erd.go:107-112 | the first of the shortest columns |
| Masonry.PlaceBoxes | pgforge/erd.go:105-116 | the loop places every box under the shortest column |
| Masonry.SizeCanvas | pgforge/erd.go:156-164 | width and height are the largest right and bottom edge plus 60, or 60 without boxes |
| Masonry.LayOutDiagram | pgforge/erd.go:97-164 | the whole layout: the number of columns, every box where `Masonry.PlacedSnugly` says and inside the margins, and a canvas no larger than needed |
| Masonry.BoxHeight | pgforge/erd.go:75-92 | a box is as high as its header, its padding and one row per column, fifteen rows at most |
| CronFields.MatchesExactly | pgforge/edgecron.go:37-78 | for any field: it matches exactly if some part has the value and no part up to it is unreadable or has a step that is not positive |
| CronFields.MatchesUnion | pgforge/edgecron.go:37-78 | a valid field with positive steps matches the union of the progressions of its parts |
| CronFields.OrderFreeExactly | pgforge/edgecron.go:37-78 | for every field that may be saved: order and repetition of its parts do not matter if and only if all its steps are positive or none is |
| CronFields.ZeroStepMatters | pgforge/edgecron.go:81-117 | an instance: `5,*/0` matches 5 and `*/0,5` does not |
| CronFields.BareStepExactly | pgforge/edgecron.go:62-71 | a value n with a step k matches n, n + k, n + 2k and so on if and only if k is not 1 or n is the last value of the field |
| CronFields.FiveSlashOne | pgforge/edgecron.go:62-71 | an instance: `5/1` matches 5 and not 6 |
| CronFields.ValidMeans | pgforge/edgecron.go:81-117 | a part that may be saved can be matched exactly when its step is positive, and stays within the bounds of its field |
| CronWritten.StarMeans | pgforge/edgecron.go:37-117 | `*` has every value and `*/k` every k-th of the field |
| CronWritten.ValueMeans | pgforge/edgecron.go:37-117 | `a` has itself, `a/k` every k-th value from a on unless k is 1; both may be saved exactly if a is in the field |
| CronWritten.RangeMeans | pgforge/edgecron.go:37-117 | `a-b` has both ends and what is between, `a-b/k` every k-th value from a on; both may be saved exactly if lo <= a <= b <= hi |
| CronWritten.AtoiWritten | pgforge/edgecron.go:41-62 | numbers in decimal are read back, signs included, if they fit 64 bits |
| CronWritten.SplitOfJoin | pgforge/edgecron.go:38 | parts joined by commas are split into just these parts |
| CronWritten.FieldsWritten | pgforge/edgecron.go:82 | words separated by spaces are the fields |
| CronWritten.ExpressionWritten | pgforge/edgecron.go:20-117 | a whole expression as written: when it may be saved, and which minutes it matches, field by field within its own bounds |
| CronFields.CoversIsMember | pgforge/edgecron.go:73-75 | the range and remainder test is membership in the progression |
| CronFields.FieldMatch | pgforge/edgecron.go:37-78 | the loop over the parts |
| CronSchedule.ExpressionMeans | pgforge/edgecron.go:20-35 | a saved expression with positive steps: each field by its union, two restricted day fields combined with or, a star leaving the day to the other field |
| CronSchedule.ExprValidMeans | pgforge/edgecron.go:81-117 | five fields, valid within 0-59, 0-23, 1-31, 1-12 and 0-6 |
| CronSchedule.CronMatch | pgforge/edgecron.go:20-35 | five fields matched against the calendar |
| CronSchedule.FieldValid | pgforge/edgecron.go:92-114 | the save-time check of one field |
| CronSchedule.CronExprValid | pgforge/edgecron.go:81-117 | five fields, each of them valid |
| CronSchedule.NeverTwice | pgforge/edgecron.go:134-167 | however passes overlap and even if the clock steps back: the minutes a function fires for strictly increase as long as it is not deleted |
| CronSchedule.FiringsAdvance | pgforge/edgecron.go:134-167 | of two firings of a function the second is for a later minute, or the function was created anew in between |
| CronSchedule.RecreatedFiresAgain | pgforge/edge.go:197-231 | a function deleted and saved again within the minute does fire twice for it |
| CronSchedule.LastCronIncreases | pgforge/edgecron.go:156-162 | no step moves `last_cron` back, and a firing moves it strictly forward |
| CronSchedule.StepKeepsOk | pgforge/edgecron.go:134-167 | every statement keeps `last_cron` at or after all minutes fired in this life, and firings in order |
| CronSchedule.Run | pgforge/edgecron.go:134-167 | over every run of overlapping passes, saves and deletes `last_cron` is at or after every minute fired |
| CronSchedule.EdgeFunctions.ClaimMinute | pgforge/edgecron.go:155-162 | the conditional update wins exactly when it changes a row |
| CronSchedule.EdgeFunctions.SelectJobs | pgforge/edgecron.go:137-150 | the scheduled functions whose last minute is earlier, each once |
| CronSchedule.EdgeFunctions.RunEdgeCronPass | pgforge/edgecron.go:134-167 | an undisturbed pass fires, each once, exactly the functions with a schedule that matches and whose last minute is earlier or missing, and sets their last minute |

## Left out

- HTTP handlers, pages, the command line, shell-outs, mail, OAuth, SAML and signing: plumbing around the modelled parts.
- Placement.MakeImpl: alignment, format and version patterns are given writes, not computed, because they are fixed small tables.
- QR mask scoring; numeric, alphanumeric and Kanji segments appear as the bits they put.
- The tables of block sizes per version and level: every theorem is for any block list, so the fit of a symbol's free modules to its code bytes is a premise of `QrSymbol.ScanRecoversData`.
- Inherited names other than those ECMA-262 gives every object: a page that extends `Object.prototype` itself is not modelled.
- Signed 32-bit results of JavaScript shifts: modelled as unsigned words, since every use masks or shifts them without sign.
- Strings are sequences of characters without surrogate pairs; Unicode case and normalisation play no role.
- RateLimit.Keep: compacts a sequence, not its backing array in place, because the tables hold sequences; the in-place filter on an array is proved for the broadcast.
- Maps from slugs to hubs across explicit stops: a stop removes by slug, so the hub in the map need not be the one a reaper inspected; the guarantees here are per hub, and the five retries of a join that meets a closed hub are not modelled.
- The answer of the row-visibility query is a function of role and claims during one broadcast; a database that changes its answer between two subscribers is not captured.
- Postgres is abstracted to tables with atomic statements; updates of token rows are taken to succeed, inserts may fail; row locks and `SKIP LOCKED` do not appear because statements do not overlap.
- Rendering the filter clause as SQL text with quoted identifiers: the clause is an abstract syntax tree; comparison and LIKE on texts are parameters of its meaning.
- One queue at a time: the names `x` and `x_archive` could share a table.
- The 15-minute account lockout: the pruner's ten minutes are shorter than its window, so it does not agree with the full history.
- Storage before its migration has finished, quotas and type limits; local file writes and removals outside the pruner are taken to succeed.
- `StorageCache.ObjectStore.PruneCache`: the walk over the tree and the library sort are a parameter, any order of the files by modification time.
- Masonry: the edges between boxes and the rows inside them.
- Cron: time zones and calendars; a minute's calendar fields are a parameter.
- Edge slots, the warm pool, project status flags and name sanitising: true but easier.
