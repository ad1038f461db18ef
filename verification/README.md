# A verified model of five busybox applets

The project models the algorithmic parts of gzip, lzop, dpkg, factor and expr
of busybox 1.35.0 and proves what they promise. `dafny verify dfyconfig.toml`
checks everything.

**gzip** is the largest part. `Window`, `HashKeys` and `HashChains` are the
sliding window, its hash chains and the search for the longest match. `Deflate`
is the lazy matching loop; `LazyMatching` says which tokens it makes of an
input, without window and chains, and `LazyLaws` why each of them is there.
`Tally` keeps the tokens of a block and their frequencies. `PriorityHeap`,
`TreeBuilder`, `TreeDepth`, `TreeLengths`, `BitLengths`, `LengthFacts`,
`LengthLimit` and `BuildTree` build the length-limited codes, and `TreeHeight`,
`OptimalLengths` and `SevenBits` say when these are optimal. `Canonical`,
`CodeLengths`, `Trees` and `CodeTables` assign, describe and tabulate them.
`BlockSize`, `BlockPlan`, `BlockState`, `BlockWriter` and `FlushBlock` choose
the shortest form of a block and write it. `BitWriter` packs the bits, `Crc32`
is the table-driven check value, and `Zip` puts header and trailer around. The
partner of all this is a reader written from the standards and not from gzip:
`Inflate` (RFC 1951) and `Gunzip` in `Zip` (RFC 1952). `Tokens`, `BlockFormat`
and `Lz77` prove that it reads back what the writer writes, and the main
theorem, `Zip.Zip`, says so of whole files. `Rfc1951` states the tables and
forms of the standard in closed form, so that reader and writer cannot agree on
wrong ones. The other main theorem is that the codes are as good as any:
`Huffman` proves a lower bound for all prefix codes, and `BuildTree.Build` meets
it exactly when a code within the maximum length can, because breaking ties by
depth keeps the tree as low as possible. `BlockBest` carries this over to
blocks: where 15 bits suffice for an optimal code, no dynamic block of the same
tokens has a shorter body.

**lzop**: `Lzo1x` decodes LZO1X blocks as a state machine, and `LzoCode` is the
coding of matches and runs that writes them. `LzoRewrites` proves that each
rewrite of the optimiser keeps the decoding, `LzoCount` that it saves
instructions, `LzoPass` and `LzoBlocks` say what the whole pass makes of a block,
and `LzoOptimize` is the optimiser itself, in place on its buffer. `Adler32` is
the checksum with its delayed reduction.

**dpkg**: `Probing` and `OpenTable` are open addressing with a prime size,
`DpkgTables` the three hash tables, `Versions` (with `Decimals`) the version
order, `DpkgStatus` and `DpkgWords` the status words, and `DpkgDeps` the dependency
edges and the pass that checks them. `VersionLaws` and `DpkgLaws` state both
without their definitions. `Texts` is strcspn().

**factor**: `Wheel` is the packed wheel, `SquareRoots` the integer square root of
libbb, `Primes` the number theory up to unique factorisation, and `Factor` the
trial division with its recursion on squares.

**expr**: `ExprValues` holds values and operators, `ExprGrammar` the grammar as
trees, spelling and parsing, `ExprEval` the recursive descent over the
arguments, `ExprOrder` the comparison and `ExprSubstr` the length of substr.
`ExprLaws` says what a run gives for each operator, and which one binds first.

How the source is represented:

- State that C updates in place is a class or an array that the methods update
  in place. `ush` and `Pos` fields are 16-bit subset types and `depth` is bytes,
  so the verifier checks that no store leaves them.
- `|`, `<<` and `>>` on bits that do not overlap are arithmetic. The
  exclusive-or of the hash and of the check value is defined bit by bit.
- The input is a byte string delivered in pieces. A function says how much each
  read may return; a value of 0 or less is a failed read, which gzip treats as
  the end of the input.
- The window is followed by `MAX_MATCH` bytes of arbitrary content, because the
  search compares beyond the input.
- What is chosen when busybox is built, and by the compression level, is a
  parameter. The theorem holds for every choice that the source allows.
- `opt_len` and `static_len` are integers, since they fall below 0 for a moment
  when two codes are forced.
- `long` and `size_t` have 64 bits and `int` has 32. A `long` passed as an `int`
  keeps its low 32 bits, which C leaves to the implementation.

## Model

| member | source | states |
|---|---|---|
| `Zip.Zip` | busybox-1.35.0/archival/gzip.c:2064-2103 | for every input, every way of delivering it in pieces and every configuration: the file begins with the ten header bytes, ends with the CRC-32 of the bytes read and their number modulo two to the power 32, and an independent gzip reader that checks both yields what was read, which is a prefix of the input, and the whole input when no read fails |
| `Zip.GunzipWritten` | busybox-1.35.0/archival/gzip.c:2096-2102 | a header, a complete deflate stream of some data, four bytes that spell its check value and four that spell its size read back as exactly that data |
| `Zip.Open` | busybox-1.35.0/archival/gzip.c:2074-2081 | the first eight header bytes are written, both fixed codes and the tables are set up and an empty block is begun |
| `Zip.WriteFlags` | busybox-1.35.0/archival/gzip.c:2084-2094 | with the two flag bytes the output is exactly the ten header bytes of section 2.3 of RFC 1952 |
| `Zip.Begin` | busybox-1.35.0/archival/gzip.c:2074-2094 | the main loop's invariant holds before its first round, with enough lookahead unless the input has ended |
| `Zip.Close` | busybox-1.35.0/archival/gzip.c:2098-2102 | the inverted register and the size behind a complete stream make a file that reads back as the data read |
| `Zip.GunzipTrailer` | busybox-1.35.0/archival/gzip.c:2098-2102 | a file that the reader accepts ends with the CRC-32 of what it yields and the size of that, lowest byte first |
| `Crc32.BlockCrc` | busybox-1.35.0/libbb/crc32.c:66-75 | the loop over the table, for every start value and every piece of a buffer, is the bit by bit division by the polynomial of section 8 of RFC 1952 |
| `Crc32.FillTable` | busybox-1.35.0/libbb/crc32.c:22-43 | the little endian table: entry i is i after eight shifts |
| `Crc32.TableEntry` | busybox-1.35.0/libbb/crc32.c:31-40 | one entry |
| `Crc32.TableStep` | busybox-1.35.0/libbb/crc32.c:71-71 | one look-up and shift by a byte is eight steps of the register |
| `Crc32.ShiftsLinear` | busybox-1.35.0/libbb/crc32.c:37-37 | shifting is linear for the exclusive or, which is what lets a table replace the bits |
| `Crc32.RegisterConcat` | busybox-1.35.0/libbb/crc32.c:66-75 | the register of two pieces in turn is that of both together |
| `Crc32.RegisterCleared` | busybox-1.35.0/libbb/crc32.c:66-75 | any value followed by its own 32 bits leaves 0: the register is a remainder |
| `Crc32.PolynomialTerms` | busybox-1.35.0/libbb/crc32.c:24-24 | the constant is the polynomial of Ethernet, term by term |
| `Deflate.DeflateAll` | busybox-1.35.0/archival/gzip.c:1810-1912 | the whole main loop: behind any header the stream becomes complete and inflating it gives every byte that was delivered; the tokens sent are the lazy parse of these bytes under the four search parameters, with the matches found at each place; the input has been read to its end |
| `LazyLaws.TokensExplained` | busybox-1.35.0/archival/gzip.c:1819-1898 | every token of a lazy parse: a match was found at its place and nothing longer at the next; a literal stands where nothing was found, or where the next place has something longer |
| `LazyLaws.LongestFound` | busybox-1.35.0/archival/gzip.c:710-784 | with a chain length that is no limit, a search that ends below a nice match finds the longest match within reach, except for three bytes from too far away |
| `LazyLaws.RoundsExplained` | busybox-1.35.0/archival/gzip.c:1819-1898 | the same of the tokens after any number of rounds |
| `Deflate.Round` | busybox-1.35.0/archival/gzip.c:1819-1898 | one round keeps the loop invariant (exact chains, a stream that decodes to all finished blocks, tokens that expand to the current one), adds exactly the token that lazy matching calls for, goes forward and leaves two bytes ahead or the end of the input |
| `Deflate.Search` | busybox-1.35.0/archival/gzip.c:1823-1850 | the match reported is justified by the bytes of the input alone: it occurs there, no earlier string within reach that was worth a look agrees longer, and the search gave up only where the parameters say; otherwise the pending match is untouched |
| `Deflate.FindMatch` | busybox-1.35.0/archival/gzip.c:1831-1850 | the guarded search with both cut-offs (lookahead, and length 3 too far away) keeps exactly the matches that lazy matching keeps |
| `Deflate.NextRound` | busybox-1.35.0/archival/gzip.c:1819-1898 | the same of a round together with the list of all matches found so far |
| `Deflate.SearchFound` | busybox-1.35.0/archival/gzip.c:1831-1850 | what the chains delivered is what a search through the whole input for earlier strings with the same key would |
| `LazyMatching.FoundIsSearched` | busybox-1.35.0/archival/gzip.c:710-784 | from the window to the input: the candidates visited are the nearest earlier strings with that key, so best, place and early stop are those of a search through the input |
| `LazyMatching.RivalVisited` | busybox-1.35.0/archival/gzip.c:780-781 | no earlier string with the same key that is nearer than the last one visited is missed |
| `LazyMatching.VisitedIsRival` | busybox-1.35.0/archival/gzip.c:780-781 | every candidate but the last is an earlier string with the same key within reach |
| `LazyMatching.NoRival` | busybox-1.35.0/archival/gzip.c:1831-1834 | an empty chain, or one that begins too far away, means that there is no such string at all |
| `LazyMatching.CountVisited` | busybox-1.35.0/archival/gzip.c:780-781 | the number of steps taken is the number of such strings down to the last one |
| `LazyMatching.JustifiedGrows` | busybox-1.35.0/archival/gzip.c:1901-1906 | bytes that arrive later do not change what was found |
| `Deflate.EmitMatch` | busybox-1.35.0/archival/gzip.c:1854-1878 | the pending match is coded, all its strings are entered in the chains, and the code stands at its end |
| `Deflate.InsertRest` | busybox-1.35.0/archival/gzip.c:1862-1874 | every string up to the end of the match gets its key and the chains stay sound |
| `Deflate.EmitPrevious` | busybox-1.35.0/archival/gzip.c:1879-1898 | without a usable pending match one byte at most is coded and the position moves by one |
| `Deflate.EmitLiteral` | busybox-1.35.0/archival/gzip.c:1884-1890 | the byte before the current position is coded as a literal |
| `Deflate.FlushHere` | busybox-1.35.0/archival/gzip.c:1788-1795 | flushing from the window makes the stream decode to everything up to the current position, whether or not the block still lies in the window |
| `Deflate.FlushIfFull` | busybox-1.35.0/archival/gzip.c:1875-1878 | after a possible flush there is room for another token and the block starts where the coding stands |
| `Deflate.Refill` | busybox-1.35.0/archival/gzip.c:1901-1906 | refilling the window keeps the loop invariant and the position in the input |
| `Deflate.LastBlock` | busybox-1.35.0/archival/gzip.c:1908-1911 | the last literal and the final block complete the stream |
| `Lz77.ExpandMatch` | busybox-1.35.0/archival/gzip.c:1854-1856 | a true match appended to tokens that expand to the input so far expands to the input up to the end of the match, overlapping matches included |
| `Lz77.ExpandLiteral` | busybox-1.35.0/archival/gzip.c:1885-1885 | the literal of the next byte extends the expansion by that byte |
| `Lz77.DecodesBlock` | busybox-1.35.0/archival/gzip.c:1876-1876 | one more block behind a stream that decodes to some output decodes to that output with the block's content unpacked |
| `Lz77.DecodesFinal` | busybox-1.35.0/archival/gzip.c:1911-1911 | the final block ends the inflating exactly behind it, whatever follows |
| `HashKeys.Forgets` | busybox-1.35.0/archival/gzip.c:1774-1774 | after three updates the rolling key is the key of the last three bytes, whatever it was before |
| `HashKeys.KeyIs` | busybox-1.35.0/archival/gzip.c:1774-1774 | the key of three bytes in one formula, without the masks in between |
| `HashKeys.ThirdByte` | busybox-1.35.0/archival/gzip.c:752-757 | two strings with equal keys and equal first two bytes have equal third bytes, for every hash of at least 8 bits |
| `HashChains.InsertKeeps` | busybox-1.35.0/archival/gzip.c:1803-1808 | entering a string keeps the tables exact: each head is the latest string with its key and each link the latest before; the old head, if any, is an earlier string with the same key |
| `HashChains.SlideKeeps` | busybox-1.35.0/archival/gzip.c:667-677 | the shift of both tables keeps them exact for the shifted positions and drops only what left the window |
| `HashChains.ChainSound` | busybox-1.35.0/archival/gzip.c:780-781 | following the links gives a strictly descending list of earlier strings with the key of the current one, all within reach, so the walk ends |
| `HashChains.ChainComplete` | busybox-1.35.0/archival/gzip.c:780-781 | and every earlier string with that key within reach is on it |
| `HashChains.CandidatesComplete` | busybox-1.35.0/archival/gzip.c:739-781 | the same of the candidates from the head on |
| `HashChains.ThirdByteAgrees` | busybox-1.35.0/archival/gzip.c:752-757 | in the tables: strings on one chain that agree in two bytes agree in the third |
| `Window.Matcher.InsertString` | busybox-1.35.0/archival/gzip.c:1803-1808 | the exact new head and link, the new key at the end of the keys, and a returned head that is an earlier string with that key |
| `Window.Matcher.LongestMatch` | busybox-1.35.0/archival/gzip.c:710-784 | the result is the length of a real agreement within reach or the old length; no candidate visited agrees longer; and the search stops exactly at the end of the chain, after as many candidates as the limit allows (a quarter behind a good match) or with a match that is nice enough |
| `Window.Matcher.WalkChain` | busybox-1.35.0/archival/gzip.c:739-781 | the loop of that search |
| `Window.Matcher.TryCandidate` | busybox-1.35.0/archival/gzip.c:745-779 | one candidate: the length grows only if the candidate agrees on that many bytes, and never stays below what the candidate offers |
| `Window.Matcher.AgreeFrom3` | busybox-1.35.0/archival/gzip.c:758-769 | the unrolled comparison counts the agreeing bytes up to 258 and stops at the first difference |
| `Window.Matcher.FillWindow` | busybox-1.35.0/archival/gzip.c:641-689 | the window still holds the input around the position, the chains stay sound, positions in the input stay the same, and either more bytes arrived or the end was reached |
| `Window.Matcher.Slide` | busybox-1.35.0/archival/gzip.c:655-679 | moving the upper half down keeps the held input and the chains and shifts all positions by the window size |
| `Window.Matcher.SlideArray` | busybox-1.35.0/archival/gzip.c:667-677 | every entry loses the window size, or becomes 0 when it lay below it |
| `Window.Matcher.ReadMore` | busybox-1.35.0/archival/gzip.c:681-688 | what arrives extends the held input; end of input or a failed read only sets the flag |
| `Window.Matcher.FillWindowIfNeeded` | busybox-1.35.0/archival/gzip.c:691-695 | afterwards there is enough lookahead or the input has ended |
| `Window.Matcher.LmInit` | busybox-1.35.0/archival/gzip.c:1927-1961 | empty chains, a filled window and a rolling key of the first two bytes |
| `Window.Source.Read` | busybox-1.35.0/archival/gzip.c:522-535 | delivers the next bytes of the input at the given place, leaves the bytes before it alone, and the check value and the size, modulo two to the power 32, are those of all bytes delivered; nothing is delivered on end or failure |
| `Window.Source.UpdCrc` | busybox-1.35.0/archival/gzip.c:512-515 | the check value becomes the CRC-32 register after the bytes |
| `FlushBlock.Flush` | busybox-1.35.0/archival/gzip.c:1680-1766 | whatever was tallied, the stream grows by exactly one valid block: stored, static or dynamic, whichever is shortest in whole bytes under the code's tie rules, the dynamic one with the codes that build_tree makes for the tokens; a final block ends at a byte; and an empty block is begun |
| `FlushBlock.ChosenIsShortest` | busybox-1.35.0/archival/gzip.c:1696-1753 | the form chosen, in whole bytes of its actual bits: stored if 4 bytes more than the data are not above either of the others, else static if it is not above dynamic, else dynamic |
| `FlushBlock.BodyIsShortest` | busybox-1.35.0/archival/gzip.c:1687-1691 | with these codes no valid dynamic block of the same tokens has a shorter body, whatever its codes, if an optimal code keeps 15 bits, as one does for fewer than 2581 tokens |
| `BlockBest.ShortestBody` | busybox-1.35.0/archival/gzip.c:1312-1394 | the same of any lengths that build_tree may give |
| `BlockBest.ShortestSmallBody` | busybox-1.35.0/archival/gzip.c:1312-1394 | the case of fewer than 2581 tokens |
| `BlockBest.BestCost` | busybox-1.35.0/archival/gzip.c:1312-1394 | for every frequency table, none, one or more symbols in use: no canonical prefix code costs less |
| `BlockBest.OnlyOneBit` | busybox-1.35.0/archival/gzip.c:1337-1351 | a symbol that is alone in use gets one bit |
| `FlushBlock.PlanBlock` | busybox-1.35.0/archival/gzip.c:1687-1700 | the dynamic and the static form are both valid blocks, and opt_len and static_len are their exact sizes in bits |
| `FlushBlock.PrepareBlock` | busybox-1.35.0/archival/gzip.c:1685-1700 | saves the flags and plans the block without touching tokens or stream |
| `FlushBlock.SendBlock` | busybox-1.35.0/archival/gzip.c:1703-1753 | the shortest form is written, bit for bit |
| `FlushBlock.SendStatic` | busybox-1.35.0/archival/gzip.c:1744-1745 | the stream grows by the static block of the tokens |
| `FlushBlock.SendDynamic` | busybox-1.35.0/archival/gzip.c:1748-1751 | the stream grows by the dynamic block of the tokens with the codes built for it |
| `FlushBlock.SendAllTrees` | busybox-1.35.0/archival/gzip.c:1545-1567 | the stream grows by the header that describes the three codes |
| `FlushBlock.SendBlLens` | busybox-1.35.0/archival/gzip.c:1556-1559 | the lengths of the code length code go out in the order of section 3.2.7 of RFC 1951 |
| `FlushBlock.CopyBlock` | busybox-1.35.0/archival/gzip.c:615-631 | the stream grows by padding, both lengths and the bytes of the stored block |
| `FlushBlock.CopyBytes` | busybox-1.35.0/archival/gzip.c:625-630 | the bytes are appended to the output |
| `FlushBlock.EndBlock` | busybox-1.35.0/archival/gzip.c:1755-1760 | an empty block is begun and the last one is filled up to a byte |
| `BlockFormat.ReadBlockWritten` | busybox-1.35.0/archival/gzip.c:1680-1766 | a reader of RFC 1951 blocks reads every valid block, of all three kinds and at every bit position, back to its content and stops right behind it |
| `BlockFormat.ReadStoredWritten` | busybox-1.35.0/archival/gzip.c:615-631 | a stored block of up to 65535 bytes reads back |
| `BlockFormat.ReadStaticWritten` | busybox-1.35.0/archival/gzip.c:1743-1745 | a static block reads back to its tokens |
| `BlockFormat.ReadDynamicWritten` | busybox-1.35.0/archival/gzip.c:1545-1567 | header and body of a dynamic block read back to its tokens |
| `BlockFormat.ReadLensWritten` | busybox-1.35.0/archival/gzip.c:1454-1505 | the coded run lengths read back to the code lengths they stand for |
| `BlockFormat.ReadBothLens` | busybox-1.35.0/archival/gzip.c:1562-1565 | literal and distance lengths, sent one after the other, read back as one list |
| `BlockFormat.UnpermuteSent` | busybox-1.35.0/archival/gzip.c:1525-1532 | leaving out the unused tail of the permuted lengths loses nothing |
| `BlockFormat.FixedLitPrefixFree` | busybox-1.35.0/archival/gzip.c:2020-2048 | the fixed literal code is prefix free |
| `BlockFormat.FixedDistPrefixFree` | busybox-1.35.0/archival/gzip.c:2050-2054 | the fixed distance code is prefix free |
| `Tokens.ReadTokensWritten` | busybox-1.35.0/archival/gzip.c:1630-1673 | under any two prefix free codes that cover them, the tokens of a block and its end read back in order |
| `Tokens.ReadTokenWritten` | busybox-1.35.0/archival/gzip.c:1641-1669 | one literal or match reads back |
| `Tokens.LengthCodeRange` | busybox-1.35.0/archival/gzip.c:1983-1996 | the length code of every match length covers it with at most 5 extra bits |
| `Tokens.DistCodeRange` | busybox-1.35.0/archival/gzip.c:1998-2014 | the distance code of every distance covers it with at most 13 extra bits |
| `BlockSize.TokensSize` | busybox-1.35.0/archival/gzip.c:1630-1673 | the bits of the tokens of a block are the symbol frequencies times code and extra lengths |
| `BlockSize.RunsSize` | busybox-1.35.0/archival/gzip.c:1454-1505 | the same for the run-length symbols of the header |
| `BlockSize.FreqSums` | busybox-1.35.0/archival/gzip.c:1573-1592 | all literal and length frequencies together are the tokens and the end symbol; all distance frequencies are at most the tokens |
| `BlockSize.RunsShort` | busybox-1.35.0/archival/gzip.c:1402-1448 | there are never more run-length symbols than lengths |
| `BlockPlan.BodySize` | busybox-1.35.0/archival/gzip.c:1693-1695 | the size of a coded body is what the frequency tables say |
| `BlockPlan.HeaderSize` | busybox-1.35.0/archival/gzip.c:1533-1534 | the size of the header is 14 bits, 3 for each sent length and the coded runs |
| `BlockPlan.TokensExpressed` | busybox-1.35.0/archival/gzip.c:1687-1691 | a code with a word for every frequency above 0 can express every token |
| `BlockPlan.SomeLengthSent` | busybox-1.35.0/archival/gzip.c:1525-1532 | a code with a used symbol sends a literal length, so at least four lengths are sent |
| `BlockState.Coder.InitBlock` | busybox-1.35.0/archival/gzip.c:1095-1112 | all frequencies are 0 but that of the end symbol, the sizes are 0 and no token is saved |
| `BlockState.Coder.CtInit` | busybox-1.35.0/archival/gzip.c:1969-2058 | tables and fixed codes are ready and an empty block is begun |
| `BlockState.Coder.InitStatics` | busybox-1.35.0/archival/gzip.c:1983-2054 | both tables and both fixed codes are ready |
| `BlockState.Coder.BuildLit` | busybox-1.35.0/archival/gzip.c:1688-1688 | the literal tree is a complete code for the tallied tokens and both sizes grow by exactly what it costs |
| `BlockState.Coder.BuildDist` | busybox-1.35.0/archival/gzip.c:1691-1691 | the same for the distance tree |
| `BlockState.Coder.ScanTrees` | busybox-1.35.0/archival/gzip.c:1515-1517 | the frequencies are those of the runs of both trees, which stay usable |
| `BlockState.Coder.BuildRuns` | busybox-1.35.0/archival/gzip.c:1519-1523 | a complete code of at most 7 bits that covers all runs, with its exact cost |
| `BlockState.Coder.LastBlIndex` | busybox-1.35.0/archival/gzip.c:1525-1532 | the last used length in sending order, never below 3, and nothing used behind it |
| `BlockState.Coder.BuildBlTree` | busybox-1.35.0/archival/gzip.c:1511-1538 | the three codes form a valid header and opt_len grows by exactly its size |
| `BlockState.Coder.Tally` | busybox-1.35.0/archival/gzip.c:1573-1625 | one token more, the stream untouched, and room for another one unless a flush is asked for |
| `BlockState.Coder.SaveFlags` | busybox-1.35.0/archival/gzip.c:1685-1685 | the flags of the last, incomplete byte are stored where the sending loop looks for them |
| `BlockWriter.CompressBlock` | busybox-1.35.0/archival/gzip.c:1630-1673 | replaying the buffers sends exactly the bits of the tallied tokens, in order, and the end symbol |
| `BlockWriter.SendToken` | busybox-1.35.0/archival/gzip.c:1645-1668 | one token is sent as its code word or words with their extra bits |
| `BlockWriter.SendLength` | busybox-1.35.0/archival/gzip.c:1650-1656 | the length symbol and its extra bits |
| `BlockWriter.SendDist` | busybox-1.35.0/archival/gzip.c:1657-1667 | the distance symbol and its extra bits |
| `Tally.CtTally` | busybox-1.35.0/archival/gzip.c:1573-1625 | the buffers hold one token more, the frequencies are exactly those of all tokens, and a flush is asked for exactly when a buffer is full, or at a multiple of 4096 tokens when fewer than half of them are matches and the estimate is below half of the input |
| `Tally.Buffers.Save` | busybox-1.35.0/archival/gzip.c:1575-1600 | literal, distance and flag buffers still stand for the tokens, the new one at the end, also when a flag byte fills up |
| `Tally.Buffers.SaveBytes` | busybox-1.35.0/archival/gzip.c:1575-1590 | the literal and distance buffers stand for one token more |
| `Tally.Buffers.SaveFlag` | busybox-1.35.0/archival/gzip.c:1591-1600 | the flag of the new token is kept, in the pending byte or in the buffer |
| `Tally.CountToken` | busybox-1.35.0/archival/gzip.c:1576-1588 | the frequency tables count the new token |
| `Tally.EstimatedSize` | busybox-1.35.0/archival/gzip.c:1602-1611 | the estimate is the closed sum over distance frequencies |
| `Tally.GuessOf` | busybox-1.35.0/archival/gzip.c:1602-1611 | the estimate is a sum over the tokens: a byte for each, and for each match 5 bits and the extra bits of its distance |
| `CodeTables.Tables.InitLengths` | busybox-1.35.0/archival/gzip.c:1983-1996 | the filled tables give every match length its code and base, 258 its own code |
| `CodeTables.Tables.InitDists` | busybox-1.35.0/archival/gzip.c:1998-2014 | the two-part table gives every distance up to 32768 its code and base |
| `CodeTables.Tables.InitShortDists` | busybox-1.35.0/archival/gzip.c:1998-2005 | the part for distances up to 256 |
| `CodeTables.Tables.InitLongDists` | busybox-1.35.0/archival/gzip.c:2007-2013 | the part for longer distances, in steps of 128 |
| `CodeTables.InitStatic` | busybox-1.35.0/archival/gzip.c:2016-2054 | both fixed trees hold the canonical codes of the fixed lengths of section 3.2.6 of RFC 1951 |
| `CodeTables.FillStaticLens` | busybox-1.35.0/archival/gzip.c:2020-2039 | the four loops give the fixed literal lengths |
| `CodeTables.InitStaticDists` | busybox-1.35.0/archival/gzip.c:2050-2054 | every distance symbol has its reversed five-bit code |
| `CodeTables.FixedDistCodes` | busybox-1.35.0/archival/gzip.c:2050-2054 | the fixed distance code of section 3.2.6 of RFC 1951: every symbol in five bits |
| `Rfc1951.LengthTable` | busybox-1.35.0/archival/gzip.c:883-887 | the length codes of section 3.2.5 of RFC 1951 in closed form: extra bits and first length of each |
| `Rfc1951.LongestLength` | busybox-1.35.0/archival/gzip.c:1990-1996 | length 258 has code 285, although code 284 reaches it |
| `Rfc1951.DistTable` | busybox-1.35.0/archival/gzip.c:889-893 | the distance codes in closed form |
| `Rfc1951.LengthOrder` | busybox-1.35.0/archival/gzip.c:899-901 | the order in which code lengths are sent, in closed form |
| `Rfc1951.LengthSymbols` | busybox-1.35.0/archival/gzip.c:1454-1505 | what the symbols 0 to 18 of section 3.2.7 stand for, with their extra bits |
| `Rfc1951.FixedLitTable` | busybox-1.35.0/archival/gzip.c:2020-2048 | the fixed literal code: all four ranges of lengths and code words of section 3.2.6 |
| `Rfc1951.SameLengthRule` | busybox-1.35.0/archival/gzip.c:1254-1288 | codes of one length are consecutive in the order of their symbols |
| `Rfc1951.ShorterFirstRule` | busybox-1.35.0/archival/gzip.c:1254-1288 | shorter codes precede longer ones |
| `Rfc1951.MatchForm` | busybox-1.35.0/archival/gzip.c:1650-1667 | a match is sent as length code, extra bits, distance code, extra bits, and they add up to its length and distance |
| `Rfc1951.BodyForm` | busybox-1.35.0/archival/gzip.c:1641-1672 | the tokens of a block follow each other, a literal as the word of its byte, and the word of symbol 256 ends it |
| `Rfc1951.CopyAt` | busybox-1.35.0/archival/gzip.c:1854-1856 | byte i of an overlapping copy is the byte at the distance before it |
| `Rfc1951.BlockKinds` | busybox-1.35.0/archival/gzip.c:1703-1751 | the three header bits of each kind of block |
| `Rfc1951.StoredForm` | busybox-1.35.0/archival/gzip.c:615-631 | a stored block lies at a byte and holds its length, the complement and the bytes |
| `Rfc1951.DynamicForm` | busybox-1.35.0/archival/gzip.c:1545-1567 | a dynamic block begins with the three counts and the code length code |
| `Rfc1951.BytesToBitsAt` | busybox-1.35.0/archival/gzip.c:541-574 | bit k of byte i is bit 8i + k of the stream |
| `Rfc1951.ToBitsAt` | busybox-1.35.0/archival/gzip.c:541-574 | numbers are sent lowest bit first |
| `Rfc1951.MsbBitsAt` | busybox-1.35.0/archival/gzip.c:1254-1288 | code words are sent highest bit first |
| `BuildTree.Build` | busybox-1.35.0/archival/gzip.c:1312-1394 | for every frequency table that fits its fields: a complete canonical code within the maximum length, a word for exactly the symbols in use and those forced, rarer symbols never shorter, exact opt_len and static_len; and its cost is beaten by no prefix code whatsoever if and only if some cheapest prefix code keeps the maximum length, which is so whenever the frequencies add up to less than its Fibonacci number |
| `BuildTree.RarerLonger` | busybox-1.35.0/archival/gzip.c:1312-1394 | of two used symbols the rarer one has no shorter word |
| `BuildTree.BuildLengths` | busybox-1.35.0/archival/gzip.c:1312-1390 | the same of the lengths, before codes are assigned |
| `BuildTree.GenBitlen` | busybox-1.35.0/archival/gzip.c:1161-1244 | the lengths of a finished tree: complete (Kraft sum exactly 1), bounded, ordered by frequency, with right counts and sizes, and optimal if and only if some optimal code keeps the maximum length |
| `BuildTree.ShortenCodes` | busybox-1.35.0/archival/gzip.c:1210-1242 | an overflow is repaired to a complete bounded code again and opt_len follows the change |
| `BuildTree.DealLengths` | busybox-1.35.0/archival/gzip.c:1229-1242 | repaired counts become lengths: complete, bounded, ordered by frequency, as often as counted |
| `OptimalLengths.CutExactly` | busybox-1.35.0/archival/gzip.c:1184-1187 | some length is cut if and only if no cheapest prefix code keeps the maximum length, and never when the frequencies add up to less than its Fibonacci number |
| `OptimalLengths.OptimalFits` | busybox-1.35.0/archival/gzip.c:1152-1160 | optimal lengths within the maximum belong to a cheapest prefix code within it |
| `OptimalLengths.FewUncut` | busybox-1.35.0/archival/gzip.c:1184-1187 | few symbols give a tree too low for any cut |
| `TreeHeight.CheapestIsDeep` | busybox-1.35.0/archival/gzip.c:1120-1124 | every cheapest prefix code has a word at least as long as the tree is deep: breaking ties by depth keeps the tree as low as any optimal one |
| `TreeHeight.LowestHeight` | busybox-1.35.0/archival/gzip.c:1363-1383 | the same from every stage of the merging on |
| `TreeHeight.LowStep` | busybox-1.35.0/archival/gzip.c:1363-1373 | a merge of the two least nodes turns feasible lengths into feasible lengths that are cheaper by its weight, and deepens no leaf where nothing is lost |
| `SevenBits.SevenTooFew` | busybox-1.35.0/archival/gzip.c:1156-1156 | no cheapest code for the frequencies 1, 1, 2, 4 to 128 keeps seven bits |
| `SevenBits.SevenBitsBeaten` | busybox-1.35.0/archival/gzip.c:1156-1156 | so no lengths that gen_bitlen may give for them within seven bits are optimal |
| `BuildTree.Plant` | busybox-1.35.0/archival/gzip.c:1312-1385 | the finished Huffman tree over all used symbols, ties broken by depth, with what forcing two codes costs taken off both sizes |
| `Huffman.PrefixCodeBound` | busybox-1.35.0/archival/gzip.c:1360-1383 | no prefix code for the symbols, of any lengths, costs less than the sum of the weights of the tree's inner nodes |
| `Huffman.KraftFrom` | busybox-1.35.0/archival/gzip.c:1152-1160 | every prefix code has a Kraft sum of at most 1 |
| `Huffman.LowerBound` | busybox-1.35.0/archival/gzip.c:1360-1383 | from every stage of the merging on, feasible lengths cost at least the weights still to be made |
| `Huffman.MergeStep` | busybox-1.35.0/archival/gzip.c:1363-1373 | feasible lengths before a merge of two least nodes give feasible lengths after it that are cheaper by the new weight |
| `TreeBuilder.Builder.InitHeap` | busybox-1.35.0/archival/gzip.c:1325-1335 | the heap holds exactly the used symbols, the others have length 0 |
| `TreeBuilder.Builder.ForceTwo` | busybox-1.35.0/archival/gzip.c:1342-1351 | exactly which symbols get a frequency of 1: 0 and 1 if none is in use, the next one if only 0 or only 1 is, 0 if only another one is; both sizes are lowered by their exact cost |
| `TreeBuilder.Builder.ForceCode` | busybox-1.35.0/archival/gzip.c:1342-1351 | one round of that loop |
| `TreeBuilder.TwoForced` | busybox-1.35.0/archival/gzip.c:1350-1350 | symbol 2 is forced if and only if symbol 1 is the only one in use |
| `TreeBuilder.Builder.Heapify` | busybox-1.35.0/archival/gzip.c:1357-1358 | the same nodes in heap order |
| `TreeBuilder.Builder.PqRemove` | busybox-1.35.0/archival/gzip.c:1305-1310 | the node taken out has least frequency, the rest is a heap |
| `TreeBuilder.Builder.MergeOne` | busybox-1.35.0/archival/gzip.c:1363-1382 | the two least nodes become sons of the next inner node and the state of the loop is kept |
| `TreeBuilder.Builder.PutFather` | busybox-1.35.0/archival/gzip.c:1365-1382 | the father with its summed frequency and depth is in the heap, the sons are filed at its upper end |
| `TreeBuilder.Builder.JoinNodes` | busybox-1.35.0/archival/gzip.c:1367-1381 | the exact new heap, frequencies, depths and fathers |
| `TreeBuilder.Builder.MergeAll` | busybox-1.35.0/archival/gzip.c:1363-1385 | one root is left and the heap's upper end lists all nodes, each after its father |
| `PriorityHeap.PqDownHeap` | busybox-1.35.0/archival/gzip.c:1127-1149 | sifting a node down makes its place and all later ones a heap again and keeps the nodes |
| `PriorityHeap.RootIsLeast` | busybox-1.35.0/archival/gzip.c:1299-1310 | the root of a heap has least frequency and, among equals, least depth |
| `TreeDepth.DepthFits` | busybox-1.35.0/archival/gzip.c:1372-1372 | no root is ever deeper than 22, so depth never leaves its byte |
| `TreeDepth.NodeHeavy` | busybox-1.35.0/archival/gzip.c:1371-1372 | a node of depth d weighs at least the Fibonacci number of d |
| `TreeDepth.FatherFits` | busybox-1.35.0/archival/gzip.c:1371-1371 | the frequency of a father fits 16 bits |
| `TreeLengths.FirstPass` | busybox-1.35.0/archival/gzip.c:1169-1203 | walking the filed nodes gives every node its depth, cut to the maximum, with counts, sizes and the number of cuts |
| `TreeLengths.VisitNode` | busybox-1.35.0/archival/gzip.c:1182-1202 | one step of that walk |
| `TreeLengths.CountSymbol` | busybox-1.35.0/archival/gzip.c:1194-1202 | one symbol more of its length, and both sizes grow by its cost |
| `TreeLengths.WalkTree` | busybox-1.35.0/archival/gzip.c:1177-1203 | the loop of that walk, from cleared counts |
| `BitLengths.UnmergeExcess` | busybox-1.35.0/archival/gzip.c:1184-1187 | through every step of the walk, the Kraft sum exceeds 1 by exactly what the cut nodes account for |
| `BitLengths.ReachedAll` | busybox-1.35.0/archival/gzip.c:1178-1203 | through the whole walk counts, sizes and Kraft sums are those of the nodes reached |
| `LengthLimit.Repair` | busybox-1.35.0/archival/gzip.c:1210-1222 | the loop always finds a length to move, ends, and leaves counts whose Kraft sum is exactly 1: those that come of moving a longest word below the maximum again and again |
| `LengthLimit.RepairFits` | busybox-1.35.0/archival/gzip.c:1215-1217 | no count leaves its 16 bits during the repair |
| `LengthLimit.Reassign` | busybox-1.35.0/archival/gzip.c:1229-1242 | the lengths are dealt out, longest to the least frequent, as often as counted, and the returned change of the size is exact |
| `LengthLimit.DealLength` | busybox-1.35.0/archival/gzip.c:1230-1241 | one length dealt to exactly as many leaves as its count says |
| `Canonical.CanonicalPrefixFree` | busybox-1.35.0/archival/gzip.c:1254-1288 | canonical codes of lengths with a Kraft sum of at most 1 are prefix free |
| `Canonical.CodeFits` | busybox-1.35.0/archival/gzip.c:1254-1288 | every such code fits its length |
| `Canonical.ReadWritten` | busybox-1.35.0/archival/gzip.c:1254-1288 | the written word of a symbol is found again as that symbol |
| `Canonical.FirstCodes` | busybox-1.35.0/archival/gzip.c:1262-1267 | the first code of every length follows from the counts |
| `Canonical.GenCodes` | busybox-1.35.0/archival/gzip.c:1254-1288 | every used symbol gets its canonical code, bits reversed; unused ones keep theirs |
| `Canonical.BiReverse` | busybox-1.35.0/archival/gzip.c:581-591 | the result has the code's bits in reverse order |
| `Canonical.ReversedBits` | busybox-1.35.0/archival/gzip.c:581-591 | sending the reversed code lowest bit first sends the code highest bit first |
| `Canonical.ReversedInvolution` | busybox-1.35.0/archival/gzip.c:581-591 | reversing twice gives the code back |
| `Trees.CtTree.SendCode` | busybox-1.35.0/archival/gzip.c:1075-1081 | the stream grows by the code word of the symbol |
| `Trees.ScanTree` | busybox-1.35.0/archival/gzip.c:1402-1448 | the frequencies grow by the number of times each run-length symbol will be sent |
| `Trees.TallyRun` | busybox-1.35.0/archival/gzip.c:1424-1434 | one run is counted as it will be sent |
| `Trees.SendTree` | busybox-1.35.0/archival/gzip.c:1454-1505 | the stream grows by the coded runs of the tree's lengths |
| `Trees.SendRun` | busybox-1.35.0/archival/gzip.c:1473-1491 | one run is sent |
| `CodeLengths.ExpandRuns` | busybox-1.35.0/archival/gzip.c:1402-1505 | expanding the runs of any code lengths gives the lengths back |
| `CodeLengths.OccursEmit` | busybox-1.35.0/archival/gzip.c:1424-1434 | the counted symbols of a run are the symbols it is sent with |
| `BitWriter.Output.SendBits` | busybox-1.35.0/archival/gzip.c:541-574 | the stream grows by exactly the given bits, lowest first, on every path through the 32-bit accumulator |
| `BitWriter.Output.BiWindup` | busybox-1.35.0/archival/gzip.c:596-609 | zero bits fill the stream up to the next byte and nothing is pending |
| `BitWriter.Output.Put16` | busybox-1.35.0/archival/gzip.c:445-481 | the output grows by two bytes, lower first, with or without room in the buffer |
| `BitWriter.Output.Put32` | busybox-1.35.0/archival/gzip.c:484-499 | the output grows by four bytes, lowest first, by the wide store or by two halves |
| `BitWriter.Output.FlushOutbuf` | busybox-1.35.0/archival/gzip.c:425-432 | the buffered bytes are written in order and the buffer is empty |
| `BitWriter.Output.FlushIfWide` | busybox-1.35.0/archival/gzip.c:500-505 | flushing early loses and adds nothing |
| `BitWriter.Spill` | busybox-1.35.0/archival/gzip.c:552-573 | when the accumulator overflows, the 32 bits sent and the rest kept are together the old bits and the new value |
| `BitWriter.FitsWord` | busybox-1.35.0/archival/gzip.c:552-555 | while it does not overflow, shifting the value above the pending bits appends it |
| `Bits.ToBitsConcat` | busybox-1.35.0/archival/gzip.c:552-552 | a value shifted above lower bits is their bits and then its own |
| `LzoOptimize.Optimize` | busybox-1.35.0/archival/lzop.c:144-394 | for every block that is decoded within its input and output, with an end code or without: after all rewriting in place the input is exactly what the pass makes of it, still decodes to the same bytes and the same end, and takes strictly fewer instructions if it changed; the output is that decoding, and the status is that of a missing end code, of input left over, or of success |
| `LzoOptimize.Optimizer.Start` | busybox-1.35.0/archival/lzop.c:166-171 | the first byte, with its own two kinds of literals, leads to a state of the loop |
| `LzoOptimize.Optimizer.TakeRun` | busybox-1.35.0/archival/lzop.c:174-192 | a literal run is decoded and remembered as extensible |
| `LzoOptimize.Optimizer.TakeMatch` | busybox-1.35.0/archival/lzop.c:360-380 | a match that stays is decoded with its literals |
| `LzoOptimize.Optimizer.DoMatch` | busybox-1.35.0/archival/lzop.c:213-364 | every match is decoded or rewritten as the pass says, without changing what the stream stands for and with fewer instructions if it changed, or the end code is found at the place the decoding ends |
| `LzoOptimize.AbsorbMatch` | busybox-1.35.0/archival/lzop.c:223-232 | a short match between literals and a match becomes literals of the match before it: the exact bytes, the same decoding, one instruction less |
| `LzoOptimize.MergeRuns` | busybox-1.35.0/archival/lzop.c:233-257 | short literals, a match and a following run become one run: the exact bytes, the same decoding, one instruction less |
| `LzoOptimize.ExtendRun` | busybox-1.35.0/archival/lzop.c:278-293 | a run, a match and a following run become one run: the exact bytes, the same decoding, two instructions less |
| `LzoOptimize.Optimizer.MoveMatch` | busybox-1.35.0/archival/lzop.c:213-364 | a match that is no end code: which rewrite applies, if any |
| `LzoBlocks.RunsJoin` | busybox-1.35.0/archival/lzop.c:278-293 | the pass over a run, a match of three bytes and a run that fit one run together leaves that one run, byte for byte |
| `LzoBlocks.SpareAbsorbed` | busybox-1.35.0/archival/lzop.c:223-335 | the pass over a match, a match whose code is as long as what it writes, and another match leaves the first with three literals |
| `LzoBlocks.SpareMerged` | busybox-1.35.0/archival/lzop.c:233-358 | the pass over a match with its literals, such a match and a short run leaves the first without literals and one run |
| `LzoCount.AbsorbCounts` | busybox-1.35.0/archival/lzop.c:223-232 | the rewrite as an equation on streams: one instruction less |
| `LzoCount.MergeCounts` | busybox-1.35.0/archival/lzop.c:233-257 | one instruction less |
| `LzoCount.ExtendCounts` | busybox-1.35.0/archival/lzop.c:278-293 | two instructions less |
| `LzoCount.CountReached` | busybox-1.35.0/archival/lzop.c:144-394 | all instructions are those up to any point the stream reaches and those from there on |
| `LzoCode.Pack` | busybox-1.35.0/archival/libarchive/lzo1x_9x.c:847-887 | for every list of literal runs and matches that stands for some data, and every final run: the block written, the end code included, decodes to that data |
| `LzoCode.Writer.CodeMatch` | busybox-1.35.0/archival/libarchive/lzo1x_9x.c:502-567 | a match of every length and distance is written in the shortest of the five forms that fits and decodes as that match |
| `LzoCode.Writer.CodeRun` | busybox-1.35.0/archival/libarchive/lzo1x_9x.c:596-608 | a run of literals, or none |
| `LzoCode.Writer.StoreRun` | busybox-1.35.0/archival/libarchive/lzo1x_9x.c:570-593 | the run behind the start, behind a match (in its last but one byte) or on its own decodes as these literals |
| `LzoCode.Writer.StoreLong` | busybox-1.35.0/archival/libarchive/lzo1x_9x.c:577-590 | a run of four literals and more |
| `LzoCode.Writer.PutLonger` | busybox-1.35.0/archival/libarchive/lzo1x_9x.c:533-538 | what a length has above its field, 255 to a zero byte |
| `LzoCode.Writer.PutLength` | busybox-1.35.0/archival/libarchive/lzo1x_9x.c:528-539 | a length in its field or above it |
| `LzoCode.CodeReads` | busybox-1.35.0/archival/libarchive/lzo1x_9x.c:502-567 | each form, with any number of literals behind it, is parsed as the match it was written for |
| `LzoCode.ShortestCode` | busybox-1.35.0/archival/libarchive/lzo1x_9x.c:506-512 | two bytes: how the distance lies in the code |
| `LzoCode.NearCode` | busybox-1.35.0/archival/libarchive/lzo1x_9x.c:513-518 | three to eight bytes from up to 2048 back |
| `LzoCode.FarCode` | busybox-1.35.0/archival/libarchive/lzo1x_9x.c:519-524 | three bytes behind a long run |
| `LzoCode.MiddleCode` | busybox-1.35.0/archival/libarchive/lzo1x_9x.c:525-541 | any length from up to 16384 back |
| `LzoCode.DistantCode` | busybox-1.35.0/archival/libarchive/lzo1x_9x.c:542-564 | any length from up to 49151 back |
| `LzoOptimize.JoinBytes` | busybox-1.35.0/archival/lzop.c:241-251 | the bytes of the joined run: header, moved literals, the bytes of the match |
| `LzoOptimize.Copy2` | busybox-1.35.0/archival/lzop.c:113-120 | the two bytes that an overlapping match stands for |
| `LzoOptimize.Copy3` | busybox-1.35.0/archival/lzop.c:122-136 | the three bytes that an overlapping match stands for |
| `LzoOptimize.ReadMatch` | busybox-1.35.0/archival/lzop.c:198-321 | all four kinds of match codes, extended lengths included |
| `LzoOptimize.CopyBack` | busybox-1.35.0/archival/lzop.c:360-363 | copying byte by byte within the output is the overlapping copy |
| `LzoRewrites.Absorb` | busybox-1.35.0/archival/lzop.c:223-232 | the rewrite as an equation on streams: same decoding from every point it can be reached from |
| `LzoRewrites.Merge` | busybox-1.35.0/archival/lzop.c:233-257 | the same for joining short literals, match and run |
| `LzoRewrites.Extend` | busybox-1.35.0/archival/lzop.c:278-293 | the same for joining run, match and run |
| `LzoRewrites.DecodeSuffix` | busybox-1.35.0/archival/lzop.c:144-394 | what is decoded from a point depends only on the bytes from there on |
| `LzoRewrites.ReachedDecodes` | busybox-1.35.0/archival/lzop.c:144-394 | the whole stream decodes to what is decoded from any point it reaches |
| `Adler32.LzoAdler32` | busybox-1.35.0/archival/lzop.c:510-537 | for every start word and buffer the delayed reduction gives the byte-wise checksum; 1 for no buffer |
| `Adler32.AddChunk` | busybox-1.35.0/archival/lzop.c:526-535 | a chunk of up to 5552 bytes added without reduction does not overflow 32 bits and gives the reduced sums |
| `Adler32.ChecksumConcat` | busybox-1.35.0/archival/lzop.c:555-562 | the checksum of two pieces in turn is that of both together |
| `Adler32.ClosedForm` | busybox-1.35.0/archival/lzop.c:510-537 | both sums in closed form: that of the bytes, and that of the bytes weighted by how far they are from the end |
| `Adler32.ChecksumIs` | busybox-1.35.0/archival/lzop.c:555-562 | the checksum of a buffer as a number |
| `Adler32.NmaxIsLargest` | busybox-1.35.0/archival/lzop.c:515-517 | 5552 is exactly the largest n that satisfies the stated bound |
| `DpkgTables.Database.SearchName` | busybox-1.35.0/archival/dpkg.c:189-206 | a known name is found where it stands, a new one is entered in a free slot; no other slot changes and all names stay findable |
| `DpkgTables.Database.SearchPackage` | busybox-1.35.0/archival/dpkg.c:356-377 | returns a package of that name whose version passes the test, and an empty slot only if no package in the whole table matches |
| `DpkgTables.Database.ProbePackage` | busybox-1.35.0/archival/dpkg.c:359-376 | the same, with the probes that led there |
| `DpkgTables.Database.StorePackage` | busybox-1.35.0/archival/dpkg.c:685-688 | replaces the equal version if there is one, else fills a free slot; the table stays valid |
| `DpkgTables.Database.SearchStatus` | busybox-1.35.0/archival/dpkg.c:211-227 | finds the status of the package name, or a free slot if there is none anywhere |
| `DpkgTables.Database.StoreStatus` | busybox-1.35.0/archival/dpkg.c:788-790 | each name keeps at most one status and all stay findable |
| `Probing.ProbeReaches` | busybox-1.35.0/archival/dpkg.c:169-206 | for a prime table and any decrement the probes reach every slot within one turn, so every search ends |
| `Probing.HashPrimes` | busybox-1.35.0/archival/dpkg.c:88-116 | the three table sizes are prime |
| `OpenTable.AllSeen` | busybox-1.35.0/archival/dpkg.c:195-203 | a probe sequence that ends at a free slot has passed every entry with that home |
| `OpenTable.PlacedInsert` | busybox-1.35.0/archival/dpkg.c:685-688 | entering where the probing ends keeps every entry findable |
| `Versions.ComparePart` | busybox-1.35.0/archival/dpkg.c:240-277 | for all texts (an absent part is empty) the sign is the lexicographic order of alternating character and number keys, with ~ before the end |
| `Versions.CompareNumbers` | busybox-1.35.0/archival/dpkg.c:257-274 | digit runs of any length compare as the numbers they spell, leading zeros ignored |
| `Versions.SkipEqual` | busybox-1.35.0/archival/dpkg.c:248-255 | a difference found is the difference of the keys, otherwise the rest decides |
| `Versions.CompareVersions` | busybox-1.35.0/archival/dpkg.c:283-334 | the sign is the order of epoch, upstream part and revision, the epoch being what atoi stores in an unsigned |
| `Versions.CutVersion` | busybox-1.35.0/archival/dpkg.c:287-324 | epoch, upstream part and revision as the code splits them |
| `Versions.VersionPreorder` | busybox-1.35.0/archival/dpkg.c:283-334 | the order is reflexive, antisymmetric up to equality and transitive |
| `Versions.EqualVersions` | busybox-1.35.0/archival/dpkg.c:336-354 | versions that test as equal pass the same tests against everything |
| `Versions.OrderClasses` | busybox-1.35.0/archival/dpkg.c:229-237 | tilde, end, letters and other characters sort in that order |
| `Versions.TestVersion` | busybox-1.35.0/archival/dpkg.c:336-354 | the six operators test the sign of the version order; an unknown one fails |
| `VersionLaws.Operators` | busybox-1.35.0/archival/dpkg.c:336-354 | each operator is the converse or the complement of another one, equality is both, and less is a negative comparison |
| `VersionLaws.PartsInOrder` | busybox-1.35.0/archival/dpkg.c:283-334 | versions written as epoch, upstream part and revision compare by epoch as a number, then by upstream part, then by revision |
| `VersionLaws.Cut` | busybox-1.35.0/archival/dpkg.c:287-324 | a version written with epoch and revision is cut there, the revision behind the last hyphen |
| `VersionLaws.CutPlain` | busybox-1.35.0/archival/dpkg.c:287-324 | without a colon the epoch is 0, without a hyphen the revision is empty |
| `VersionLaws.FirstDifference` | busybox-1.35.0/archival/dpkg.c:229-255 | the first differing characters decide: a tilde first, then letters by their code, then other characters by theirs |
| `VersionLaws.EndsFirst` | busybox-1.35.0/archival/dpkg.c:240-277 | a part is before every continuation of it, but behind one with a tilde |
| `VersionLaws.NumbersCompare` | busybox-1.35.0/archival/dpkg.c:257-274 | numbers at the same place compare by value, and equal ones leave the decision to the rest |
| `VersionLaws.NumbersFirst` | busybox-1.35.0/archival/dpkg.c:248-255 | a number is before every character but the tilde |
| `VersionLaws.MissingNumber` | busybox-1.35.0/archival/dpkg.c:257-274 | a number that is missing counts as 0 |
| `VersionLaws.CommonStart` | busybox-1.35.0/archival/dpkg.c:240-277 | a common beginning that splits no number does not matter |
| `Versions.PolicyExactly` | busybox-1.35.0/archival/dpkg.c:283-334 | a version whose epoch is all digits compares with every such version as policy demands if and only if its epoch is below two to the power 32 |
| `Versions.EpochFits` | busybox-1.35.0/archival/dpkg.c:295-299 | the stored epoch is the number written if and only if that number is below two to the power 32 |
| `Versions.EpochWraps` | busybox-1.35.0/archival/dpkg.c:295-311 | 4294967296:1 sorts before 1:1 |
| `Versions.NegativeEpoch` | busybox-1.35.0/archival/dpkg.c:295-311 | -1:1 sorts after 0:1 |
| `DpkgStatus.FindWord` | busybox-1.35.0/archival/dpkg.c:692-708 | the word of that number, with the code's two sets of separators |
| `DpkgStatus.SetThenGet` | busybox-1.35.0/archival/dpkg.c:714-739 | for every status line: after set_status all three words read back as set if and only if the flag word is not empty or the state word is |
| `DpkgWords.GetStatus` | busybox-1.35.0/archival/dpkg.c:692-712 | the number of any word of the status in the name table, which grows at most by it and keeps room |
| `DpkgWords.SetStatus` | busybox-1.35.0/archival/dpkg.c:714-739 | the status line with the one word replaced, a position other than 1 to 3 changing nothing; package, other statuses, the validity of all tables and room for further words are kept |
| `DpkgWords.NumberOf` | busybox-1.35.0/archival/dpkg.c:189-206 | the number of a word, in a table that keeps room for all words that may follow |
| `DpkgDeps.LookupWord` | busybox-1.35.0/archival/dpkg.c:692-712 | the same for the words that the dependency pass asks for |
| `DpkgDeps.StatusIs` | busybox-1.35.0/archival/dpkg.c:973-976 | comparing numbers is comparing words |
| `DpkgDeps.PackageSatisfies` | busybox-1.35.0/archival/dpkg.c:963-978 | true exactly when the package has a status with the word that the kind of dependency asks for |
| `DpkgLaws.StatusDecides` | busybox-1.35.0/archival/dpkg.c:963-978 | a package whose status line is the words want, flag and state meets a pre-dependency if and only if state is installed, and a dependency if and only if want is install |
| `DpkgLaws.NoStatus` | busybox-1.35.0/archival/dpkg.c:963-978 | a package without a status meets none |
| `DpkgLaws.Configure` | busybox-1.35.0/archival/dpkg.c:1743-1758 | after the two calls of set_status at the end of configure_package the status line is install, the old flag and installed, and the package meets dependencies and pre-dependencies |
| `DpkgLaws.Words` | busybox-1.35.0/archival/dpkg.c:692-708 | the three words of a line of three words |
| `DpkgLaws.Replaced` | busybox-1.35.0/archival/dpkg.c:714-739 | such a line with one of its words replaced |
| `DpkgLaws.FoundExactly` | busybox-1.35.0/archival/dpkg.c:356-377 | an edge finds a package if and only if one of that name has a version whose order to that of the edge the operator asks for |
| `DpkgLaws.SatisfiedExactly` | busybox-1.35.0/archival/dpkg.c:1113-1147 | an edge holds if and only if its own name is found and has the status, or a package that provides it has |
| `DpkgLaws.MetExactly` | busybox-1.35.0/archival/dpkg.c:1064-1177 | what the pass checks of one package, in terms of status lines and groups |
| `DpkgDeps.SearchForProvides` | busybox-1.35.0/archival/dpkg.c:395-408 | the next package after the start that provides the name, or none |
| `DpkgDeps.AddSplitDependencies` | busybox-1.35.0/archival/dpkg.c:429-519 | the edges are those of the fields of a line in order, alternatives behind a root that counts them in 16 bits; the groups can be told apart again if and only if every field has fewer than 65536 alternatives |
| `DpkgDeps.EdgeSatisfied` | busybox-1.35.0/archival/dpkg.c:1113-1147 | an edge holds when a matching package or any provider satisfies it |
| `DpkgDeps.ProviderSatisfies` | busybox-1.35.0/archival/dpkg.c:1134-1147 | some provider in the whole table satisfies the edge |
| `DpkgDeps.CheckEdges` | busybox-1.35.0/archival/dpkg.c:1096-1176 | the counting over flattened alternatives passes if and only if every group has a satisfied edge |
| `DpkgDeps.CheckDependencies` | busybox-1.35.0/archival/dpkg.c:1064-1177 | the pass over the whole table succeeds if and only if every package to be installed has all its dependency groups satisfied, judged by the names before the call; the tables stay valid and keep room |
| `Factor.Factorizer.FactorNumber` | busybox-1.35.0/coreutils/factor.c:220-233 | for every 64-bit number: what is printed, on one line, is an ascending list of primes whose product is the number, and no other list is (nothing for 0) |
| `Factor.Factorizer.Factorize` | busybox-1.35.0/coreutils/factor.c:162-218 | the same under any repetition count, every factor printed that often |
| `Factor.Factorizer.PrintFactors` | busybox-1.35.0/coreutils/factor.c:185-217 | trial division from the wheel ends with all prime factors printed |
| `Factor.Factorizer.DivideOut` | busybox-1.35.0/coreutils/factor.c:196-202 | the factor is divided out completely, or a square was met and factored by recursion |
| `Factor.Factorizer.IsqrtOdd` | busybox-1.35.0/coreutils/factor.c:138-160 | a square prints its whole factorisation; otherwise the odd bound below its root, never 0 |
| `Factor.Factorizer.PrintW` | busybox-1.35.0/coreutils/factor.c:124-130 | the number is printed as often as the repetition count says |
| `SquareRoots.SquareRoot` | busybox-1.35.0/libbb/isqrt.c:20-35 | for every 64-bit number the loop over bit pairs gives the largest number whose square is at most it, and that fits 32 bits |
| `SquareRoots.NextBit` | busybox-1.35.0/libbb/isqrt.c:28-31 | two more bits of the number give exactly one more bit of the root |
| `Primes.UniqueFactors` | busybox-1.35.0/coreutils/factor.c:162-218 | ascending lists of primes with one product are the same list |
| `Primes.PrimeByRoot` | busybox-1.35.0/coreutils/factor.c:185-204 | a number without a divisor up to its root is prime |
| `Factor.UnpackWheel` | busybox-1.35.0/coreutils/factor.c:99-121 | the unpacked bytes are the 485 wheel steps |
| `Factor.UnpackRow` | busybox-1.35.0/coreutils/factor.c:112-118 | one packed word gives its 20 steps |
| `Factor.StepOver` | busybox-1.35.0/coreutils/factor.c:203-212 | a wheel step skips no number that could be the next prime factor |
| `Factor.PrimeLeft` | busybox-1.35.0/coreutils/factor.c:203-216 | what is left at the bound is prime |
| `Wheel.CycleRolls` | busybox-1.35.0/coreutils/factor.c:49-83 | from 13 the 480 packed steps go only to numbers without a divisor 2, 3, 5, 7 or 11, skip only numbers with one, and end 2310 further on |
| `Wheel.StopsExactly` | busybox-1.35.0/coreutils/factor.c:49-83 | one turn of the wheel stops at a number if and only if it has none of these divisors |
| `ExprEval.Evaluator.Run` | busybox-1.35.0/coreutils/expr.c:540-559 | for every argument list and every pattern matcher the result is the meaning of the only tree the arguments spell, or an error when there is none or its meaning is an error; the run succeeds exactly with a value other than the empty text, the text 0 and the number 0 |
| `ExprLaws.Sum` | busybox-1.35.0/coreutils/expr.c:247-266 | what a run decides of x + y, for all numbers: their sum, or an overflow |
| `ExprLaws.Difference` | busybox-1.35.0/coreutils/expr.c:247-266 | x - y |
| `ExprLaws.Product` | busybox-1.35.0/coreutils/expr.c:247-266 | x * y |
| `ExprLaws.Division` | busybox-1.35.0/coreutils/expr.c:263-265 | x / y is the quotient whose remainder is smaller than y and has the sign of x |
| `ExprLaws.Modulo` | busybox-1.35.0/coreutils/expr.c:263-265 | x % y is that remainder |
| `ExprLaws.ByZero` | busybox-1.35.0/coreutils/expr.c:261-262 | division and remainder by 0 are errors |
| `ExprLaws.NotNumbers` | busybox-1.35.0/coreutils/expr.c:251-252 | arithmetic on a text with a letter is an error |
| `ExprLaws.Comparisons` | busybox-1.35.0/coreutils/expr.c:217-243 | all seven comparison operators on numbers |
| `ExprLaws.TextOrder` | busybox-1.35.0/coreutils/expr.c:217-243 | texts that are no numbers compare at their first difference |
| `ExprLaws.Either` | busybox-1.35.0/coreutils/expr.c:522-537 | the first text unless it is empty or 0, else the second |
| `ExprLaws.Both` | busybox-1.35.0/coreutils/expr.c:502-518 | the first text if neither is empty or 0, else the number 0 |
| `ExprLaws.EitherNumber` | busybox-1.35.0/coreutils/expr.c:522-537 | a computed 0 counts as 0, too |
| `ExprLaws.LengthOf` | busybox-1.35.0/coreutils/expr.c:359-363 | the number of characters |
| `ExprLaws.IndexOf` | busybox-1.35.0/coreutils/expr.c:373-382 | the first place of one of the characters, or 0 if there is none |
| `ExprLaws.Matching` | busybox-1.35.0/coreutils/expr.c:406-420 | match and the colon give the result of the matcher |
| `ExprLaws.Precedence` | busybox-1.35.0/coreutils/expr.c:424-537 | of two operators the one of the higher level binds first, and of two of one level the left one, for all operators and operands |
| `ExprLaws.DecidedBy` | busybox-1.35.0/coreutils/expr.c:540-559 | what a run decides of the words of a tree is the meaning of that tree |
| `ExprEval.Evaluator.Eval` | busybox-1.35.0/coreutils/expr.c:522-537 | level 0: value and rest agree with the grammar |
| `ExprEval.Evaluator.Eval1` | busybox-1.35.0/coreutils/expr.c:502-518 | level 1 |
| `ExprEval.Evaluator.Eval2` | busybox-1.35.0/coreutils/expr.c:472-498 | level 2 |
| `ExprEval.Evaluator.Eval3` | busybox-1.35.0/coreutils/expr.c:448-468 | level 3 |
| `ExprEval.Evaluator.Eval4` | busybox-1.35.0/coreutils/expr.c:424-444 | level 4 |
| `ExprEval.Evaluator.Eval5` | busybox-1.35.0/coreutils/expr.c:406-420 | level 5 |
| `ExprEval.Evaluator.Eval6` | busybox-1.35.0/coreutils/expr.c:341-401 | the keywords, all their error cases included |
| `ExprEval.Evaluator.FinishSubstr` | busybox-1.35.0/coreutils/expr.c:383-399 | the end of substr, the length cut to an int as the call of xstrndup does |
| `ExprEval.SubstrExactly` | busybox-1.35.0/coreutils/expr.c:383-399 | a run of expr substr gives the characters that the usage text promises if and only if the length, cut to an int, still covers what there is to take |
| `ExprEval.SubstrCut` | busybox-1.35.0/coreutils/expr.c:394-394 | expr substr abc 1 4294967296 gives the empty text |
| `ExprSubstr.PieceExactly` | busybox-1.35.0/libbb/xfuncs_printf.c:94-107 | the same of the piece itself, for all texts, positions and lengths |
| `ExprSubstr.UsualTexts` | busybox-1.35.0/libbb/xfuncs_printf.c:94-107 | for a rest t of at most INT_MAX characters: exactly when the length k is at most that of t, or k modulo two to the power 32 is at least that |
| `ExprEval.Evaluator.IndexOf` | busybox-1.35.0/coreutils/expr.c:373-379 | the first place of any of the characters, counted from 1, or 0 |
| `ExprEval.Evaluator.Eval7` | busybox-1.35.0/coreutils/expr.c:317-337 | brackets and plain words, a missing bracket being an error |
| `ExprEval.Evaluator.NextArg` | busybox-1.35.0/coreutils/expr.c:208-213 | the code of the argument if it is the one asked for |
| `ExprEval.Cell.ToString` | busybox-1.35.0/coreutils/expr.c:177-183 | the cell becomes its text |
| `ExprEval.Cell.ToArith` | busybox-1.35.0/coreutils/expr.c:187-203 | the cell becomes a number if and only if its whole text is one; otherwise it is left alone |
| `ExprEval.CmpCommon` | busybox-1.35.0/coreutils/expr.c:217-243 | the comparison holds of the order of the two cells as they are |
| `ExprEval.ArithmeticCommon` | busybox-1.35.0/coreutils/expr.c:247-266 | the arithmetic result or its error |
| `ExprEval.ComparesFive` | busybox-1.35.0/coreutils/expr.c:472-498 | expr 05 \> 1x succeeds for every matcher, although 05 sorts before 1x |
| `ExprGrammar.ParseSound` | busybox-1.35.0/coreutils/expr.c:317-537 | what the descent accepts is spelled by a correctly grouped tree, and it stops where the level ends |
| `ExprGrammar.ParseComplete` | busybox-1.35.0/coreutils/expr.c:317-537 | every correctly grouped tree is found from its spelling, whatever follows that ends the level |
| `ExprGrammar.Unambiguous` | busybox-1.35.0/coreutils/expr.c:317-537 | two correctly grouped trees with one spelling are the same |
| `ExprGrammar.BracketedIsGrouped` | busybox-1.35.0/coreutils/expr.c:317-337 | every tree becomes correctly grouped by adding brackets |
| `ExprGrammar.BracketedMeansSame` | busybox-1.35.0/coreutils/expr.c:317-337 | those brackets change no value and no error |
| `ExprValues.DecimalRead` | busybox-1.35.0/coreutils/expr.c:177-203 | a number read back from its text is the number |
| `ExprValues.Truncates` | busybox-1.35.0/coreutils/expr.c:263-265 | division and remainder are those of C |
| `ExprOrder.PlainlyOrderedExactly` | busybox-1.35.0/coreutils/expr.c:472-498 | a string operand is compared with every string as the usage text says if and only if it is tame: a number strictly inside the range of long spelled as expr prints it, or a text that sorts before or behind every numeral |
| `ExprOrder.PlainOrderFails` | busybox-1.35.0/coreutils/expr.c:217-243 | 05 and 1x compare the wrong way round |
| `ExprOrder.LargestEqualsNext` | busybox-1.35.0/coreutils/expr.c:187-203 | the largest long equals its successor |
| `ExprOrder.WildFails` | busybox-1.35.0/coreutils/expr.c:472-498 | every other operand has a partner it is compared with wrongly |
| `LzoOptimize.ReadLength` | busybox-1.35.0/archival/lzop.c:179-184 | an extended length is read over its zero bytes |
| `LzoOptimize.CopyLiterals` | busybox-1.35.0/archival/lzop.c:187-192 | the literals are appended to the output |
| `LzoOptimize.CopyMatch` | busybox-1.35.0/archival/lzop.c:360-379 | a match and the literals after it are appended to the output |
| `LzoOptimize.MoveUp` | busybox-1.35.0/archival/lzop.c:247-248 | an overlapping move by one byte, nothing else changed |
| `LzoOptimize.Optimizer.TakeAbsorbed` | busybox-1.35.0/archival/lzop.c:326-335 | the state of the loop after a match became literals of the match before it |
| `LzoOptimize.Optimizer.TakeMerged` | busybox-1.35.0/archival/lzop.c:336-358 | the state of the loop after literals, match and run were joined |
| `LzoOptimize.Optimizer.TakeExtended` | busybox-1.35.0/archival/lzop.c:278-293 | the state of the loop after run, match and run were joined |
| `Versions.SkipZeros` | busybox-1.35.0/archival/dpkg.c:257-260 | leading zeros do not change the number |
| `Versions.CompareDigits` | busybox-1.35.0/archival/dpkg.c:262-268 | the first differing digit decides between digit strings of one length |
| `Probing.MakeHash` | busybox-1.35.0/archival/dpkg.c:169-186 | the start lies in the table and the decrement is at least 1 and below its size |
| `Probing.HashKey` | busybox-1.35.0/archival/dpkg.c:169-186 | the loop, in an unsigned long of any width, computes start and decrement from the sum of shifted character pairs, taken modulo the width once |
| `DpkgDeps.HasProvide` | busybox-1.35.0/archival/dpkg.c:403-404 | whether a package has a provides edge for the name |
| `DpkgDeps.AddField` | busybox-1.35.0/archival/dpkg.c:447-512 | one field gives its edge, or a root and its alternatives |
| `TreeLengths.StartPass` | busybox-1.35.0/archival/gzip.c:1169-1175 | all counts are 0 and the root has length 0 |
| `Tally.Buffers.Reset` | busybox-1.35.0/archival/gzip.c:1109-1111 | the buffers stand for no token |
| `BlockState.Clear` | busybox-1.35.0/archival/gzip.c:1100-1105 | the frequencies are 0 |
| `Trees.SendOne` | busybox-1.35.0/archival/gzip.c:1475-1490 | one run-length symbol with its extra bits |
| `CodeTables.GenStatic` | busybox-1.35.0/archival/gzip.c:2048-2048 | the fixed literal tree holds its canonical codes |
| `BitWriter.Output.Put8` | busybox-1.35.0/archival/gzip.c:437-442 | the output grows by the byte |
| `ExprEval.Evaluator.Relation` | busybox-1.35.0/coreutils/expr.c:480-488 | the operator of level 2 that stands next, or none |
| `ExprEval.Evaluator.AddOperator` | busybox-1.35.0/coreutils/expr.c:456-460 | the operator of level 3 that stands next, or none |
| `ExprEval.Evaluator.MulOperator` | busybox-1.35.0/coreutils/expr.c:432-436 | the operator of level 4 that stands next, or none |

## Findings

- `expr`, comparisons: the usage text (busybox-1.35.0/coreutils/expr.c:75-76)
  promises arithmetic comparison of two numbers and lexicographic comparison
  otherwise. In `eval2` and `cmp_common` (lines 491-493 and 223-228) a number
  meets a text only after it was converted and printed again, and `strtol`
  clamps. So `expr 05 \> 1x` succeeds, and the largest `long` equals its
  successor. `ExprOrder.PlainlyOrderedExactly` says for which operands the
  promise is kept, in both directions.
- `expr`, substr: the length reaches `strndup` through an `int` parameter
  (busybox-1.35.0/coreutils/expr.c:394,
  busybox-1.35.0/libbb/xfuncs_printf.c:94). So `expr substr abc 1 4294967296`
  is empty (`ExprEval.SubstrCut`). `ExprEval.SubstrExactly` and
  `ExprSubstr.UsualTexts` say for which lengths the usage text is right, in both
  directions.
- `dpkg`, status words: `set_status`
  (busybox-1.35.0/archival/dpkg.c:714-739) prints the three words with blanks
  between. When the flag word is empty and the state word is not, the state is
  read back as the flag. `DpkgStatus.SetThenGet` has this in both directions.
- `dpkg`, alternatives: they are counted in 16 bits
  (busybox-1.35.0/archival/dpkg.c:508). `DpkgDeps.AddSplitDependencies` says that
  the groups survive if and only if no field has 65536 alternatives or more.
- `dpkg`, epochs: `atoi` into an unsigned (busybox-1.35.0/archival/dpkg.c:297)
  keeps the order of the written epochs if and only if they are below two to the
  power 32 (`Versions.PolicyExactly`). Epochs that are not all digits are read,
  too: `-1:1` sorts after `0:1`. C defines `atoi` only up to two to the power
  31; for larger epochs the model takes the usual one, a `strtol` cut to 32 bits.
- `gzip`, build_tree: the remark that a forced code is 0 or 1
  (busybox-1.35.0/archival/gzip.c:1350) is not true of the code, which takes 2
  if and only if symbol 1 is the only one in use (`TreeBuilder.TwoForced`). The
  conclusion, no extra bits, holds for 2 as well, and `BuildTree.Build` has the
  exact sizes.
- `gzip`, gen_bitlen: the lengths are called optimal
  (busybox-1.35.0/archival/gzip.c:1156). They are if and only if some cheapest
  prefix code keeps the maximum length (`BuildTree.GenBitlen`). For the
  frequencies 1, 1, 2, 4, 8, 16, 32, 64, 128 and the seven bits of the code
  length code none does (`SevenBits.SevenBitsBeaten`). Frequencies that add up
  to less than the Fibonacci number of the maximum length are always safe. For m
  bits it is entry m + 1 of 1, 2, 3, 5, 8 and so on, counted from 0; for seven
  bits 55.

## Left out

- Zip.Zip: the path for a 16-bit `int` (a 16-bit accumulator, and a window that
  is half as large at first) and the debugging assertions.
- Zip.Zip: the time, the file name and the options of the applet, all file
  handling, and the level table that picks the four search parameters.
- Window.Matcher.FillWindow: the branch for `more == -1` is dead with a window
  of 64 KB and is not in the model.
- BuildTree.Build: no claim of optimality among the codes of bounded length when
  a code had to be shortened, because the repair does not promise it.
- Canonical.FirstCodes: `next_code`, the accumulator, heap entries, the code
  tables and the counters are unbounded numbers; that codes fit their length is
  `Canonical.CodeFits`.
- LzoOptimize.Optimize: blocks that make the optimiser read behind the input or
  write behind the output, both of which it does without a check; so a block
  without an end code must end where the optimiser looks for its end.
- LzoCode.Pack: the compressor's search for matches; the model takes them, and
  the literals between, as they come, and writes them.
- The safe decompressor of lzop, and LZO1Y.
- LzoOptimize.Optimize: that a second pass would change nothing is not claimed.
- Adler32.LzoAdler32: the CRC-32 beside it and the reading and writing of
  headers and blocks.
- DpkgTables.Database.SearchName: tables that are full. The source would search
  for ever, so a free slot is demanded.
- DpkgDeps.AddSplitDependencies: cutting a line at commas, bars, blanks and
  brackets, and the entries in the name table made on the way; the model starts
  from the fields.
- DpkgDeps.AddSplitDependencies: a node with more than 65535 edges, whose 16-bit
  count of edges would wrap around.
- DpkgDeps.CheckDependencies: the edges of the packages come in the groups that
  `AddSplitDependencies` makes; the passes before it, which update the wanted
  state and check conflicts, and the message that names a failed dependency.
- DpkgStatus.SetThenGet: the word set holds no blank and no line end, as is true
  of every call.
- Versions.CompareVersions: characters sort by their code, as in the C locale.
- Control file scanning, the status file, archives and scripts of dpkg.
- Factor.Factorizer.FactorNumber: reading the number from text.
- ExprEval.Evaluator.DoColon: the regular expression match is any function of the
  two texts that returns a value or an error.
- ExprEval.ArithmeticCommon: a result outside `long`, which C leaves undefined,
  is an error of its own kind.
- All other applets.
