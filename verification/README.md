# Verified models of a boot ROM and of an OpenPGP library

This project models parts of two C programs in Dafny 4.11 and proves what they are for. From the
LinuxBIOS tree `freebios-20010708`: the DEFLATE decoder behind gzip, PCI enumeration and resource allocation,
the TFTP client with its checksum and random generator, the streaming ELF loader, and number printing
and reading. From the library `pgp`: the PKCS#1 block around an encrypted session key.

`dafny verify dfyconfig.toml` checks everything.

## The decompressor

`Huffman` holds the canonical codes of section 3.2.2 of RFC 1951, `InflateSpec` a reference decoder for the
whole format over an unbounded history, with no buffers and no tables. `HuftTables`, `HuftWide`, `HuftSize`,
`HuftFill` and `HuftBuild` are the table builder, `Inflater` the bit buffer and the circular window, `InflateCopy`,
`InflateCodes`, `InflateTrees`, `InflateBlocks` and `Gunzip` the decoder proper, `Crc32` the checksum,
`StoredStream` a plain encoder of streams and files.

`DeflateEncoder` is an encoder for all of RFC 1951, written from the numbers of the standard without the tables of the
decoder; `DeflateStream` has its round trip through the reference decoder, `GzipStream` that of whole files through gunzip,
`DeflateRefused` the streams that break a rule. `Crc32Check` holds the checksum against known values.

Three facts shape the statements:

* The test for running out of values compares with the number of lengths, not of nonzero lengths. A pattern that
  no symbol owns is therefore marked invalid for certain only when all lengths are nonzero; otherwise its slot may hold an
  element of the value list that nobody wrote. The model calls such a slot `Wild`, and decoding that meets it `Undefined`.
* The loop that sizes a sub-table promises the smallest table of at most the table width in bits. It makes a larger one
  exactly for a block of codes that all take that many bits more or longer, and some longer (`HuftWide.Wide`), and then
  slots stay unlinked. `HuftBuild.Narrow`, no such block, is therefore the exact condition for right lookups, with
  `HuftBuild.TooWide` as a set that fails; `InflateTrees.BuildTree` shows that every set the decoder accepts meets it.
* The comment above huft_build promises 2 for all-zero lengths; the code returns 0 and no table, and so does the model.

The input is one finite byte sequence. The C macros may fetch up to two bytes more than the stream needs. The
reference decoder therefore has a limit: with a limit at least two bytes before the end of the input, as in every gzip
file with its trailer, a stream is decoded exactly as the reference says. Repeating a length before there is one
repeats 0, as the code does.

## PCI

`PciTopology` is the hardware: a finite tree of functions, the bus number registers of its bridges, and which bus
answers to a configuration access under their present contents. `PciMachine` is the configuration space with its
command, status, bus number, window and base address registers, and the sizing of the latter; each access method demands
that exactly one bus answers. `PciScan` is the scan, a method over the machine, whose registers it reprograms while it
recurses, and over the chain of all devices. `PciLayout` is the address layout as a function on the tree of buses, with
its theorems, `PciIoSpace` what is particular to I/O, and `PciAlloc` the allocator on linked records that it updates in
place and the accesses that program it. `PciAddress` has the address arithmetic and `PciBusNumbers` the bus number word.

`PciBoot` is the whole way from reset to enabled devices. `PciDecode` says which registers and bridges claim an I/O or
memory access then: registers compare the address bits they have, bridges their windows, and an access is answered when
on every bus of its way exactly one of them claims it. `PciReach` and `PciIoReach` decide for which addresses that is so,
because two things that the comments promise do not hold of the code:

* The comment on assign_resources says that it recurses; the code programs only the bridges of the bus it is given.
  `PciLayout.RouteExact` is what the layout would give with all bridges programmed, `PciReach.MemoryAnswered` what it
  gives, and `PciTwoBridges` a tree with a register that nothing reaches.
* I/O registers are placed in steps of 16 bytes, but a register of 2^k bytes has no address bits below k, as the comment
  above iolimit explains for memory. `PciIoSpace.IoApart` is the exact condition, `PciDecode.Misplaced` the device
  that fails.

`PciFunctions` and `PciBars` start from the hardware instead: which functions are found, from the fields of their headers,
and which of their registers, from what is behind them, are sized, given addresses, enabled and answered.

## Network boot, ELF, numbers, session keys

Four facts about the code are stated with their exact conditions: a TFTP client that has answered an option
acknowledgement and then times out sends that answer instead of a request (`TftpProtocol.StillFetchable`); the ELF
loader's range check, its rounds and its loop rely on sums that do not wrap (`ElfBoot.SafeRangeExact`,
`ElfImage.RoundExact`, `ElfImage.EndsExactly`); numbers printed with leading zeros, blanks or digits past f do not read
back (`Vsprintf.UnsignedRoundTrip`); and the PKCS#1 length test is void for moduli below 11 bytes
(`Pkcs1.AcceptsExactly`).

`Tftp` is the client, `TftpProtocol` its runs against honest servers and a network that loses, duplicates, delays
and reorders, `TftpAnyServer` what holds whatever the client is sent. `Checksum` is the Internet checksum and the random
generator. `ElfBoot` is the loader with the wrapping sums it computes, `ElfImage` the image that its one pass leaves,
`ElfFile` files written field by field. `Vsprintf` is printing and reading of numbers, `VsprintfForms` the printed field
character by character, `Pkcs1` the session key block from key to key.

## Model

| member | source | states |
|---|---|---|
| Huffman.CodeUnique | freebios-20010708/src/lib/inflate.c:378-486 | no two canonical codes of a set without too many codes agree on the bits of the shorter one |
| Huffman.MatchUnique | freebios-20010708/src/lib/inflate.c:540-551 | at most one symbol of an accepted length set starts at any bit position of any stream |
| Huffman.CompleteMatches | freebios-20010708/src/lib/inflate.c:540-551 | in a complete set some symbol starts at every position, so every bit string can be decoded |
| Huffman.NextCodeIsFirst | freebios-20010708/src/lib/inflate.c:360-364 | the first code of each length as section 3.2.2 of RFC 1951 computes it equals the interval view the proofs use |
| Huffman.KraftIsFirst | freebios-20010708/src/lib/inflate.c:350-356 | Kraft's sum over the lengths equals the total width of the intervals of all codes |
| HuftBuild.CountLengths | freebios-20010708/src/lib/inflate.c:315-322 | the counters hold how many codes have each length |
| HuftBuild.FindRange | freebios-20010708/src/lib/inflate.c:333-346 | the shortest and the longest length in use |
| HuftBuild.FillOut | freebios-20010708/src/lib/inflate.c:350-356 | fails exactly on an oversubscribed set; otherwise the dummy codes added to the longest length make Kraft's sum exactly one |
| HuftBuild.Offsets | freebios-20010708/src/lib/inflate.c:360-365 | where the values of each length start in the sorted list |
| HuftBuild.SortByCode | freebios-20010708/src/lib/inflate.c:369-374 | the values end up in the order of their canonical codes, every coded value at its place |
| HuftSize.SizeTable | freebios-20010708/src/lib/inflate.c:404-419 | the size chosen for a sub-table is enough for every code behind it and never more than the remaining bits; it exceeds the bits per table exactly for a wide block |
| HuftSize.WideExactly | freebios-20010708/src/lib/inflate.c:404-419 | a block is wide exactly when its first code takes more than l bits, or l bits with codes of that length not filling it, which is when the sizing loop goes past its limit |
| HuftBuild.OpenTables | freebios-20010708/src/lib/inflate.c:398-447 | opening and linking tables down to the level of the next code keeps the table stack, the saved patterns and all earlier slots right |
| HuftTables.OpenKeeps | freebios-20010708/src/lib/inflate.c:438-445 | linking a new table into its parent leaves every finished code decodable and routes exactly the new block of codes to it |
| HuftBuild.MakeEntry | freebios-20010708/src/lib/inflate.c:450-464 | the slot value of the n-th code, with 99 for codes past the list of values |
| HuftFill.FillSlots | freebios-20010708/src/lib/inflate.c:467-470 | exactly the slots whose low bits are the reversed code are written |
| HuftTables.FillKeeps | freebios-20010708/src/lib/inflate.c:467-470 | filling the slots of one code serves that code and disturbs no other |
| HuftFill.NextReversed | freebios-20010708/src/lib/inflate.c:472-475 | the backwards increment on the reversed code is the increment of the code, wrapping to 0 after the last |
| HuftBuild.BackUp | freebios-20010708/src/lib/inflate.c:477-482 | the tables left are exactly those whose block of codes is finished; the stack again matches the current code |
| HuftTables.PopKeeps | freebios-20010708/src/lib/inflate.c:477-482 | leaving a finished table keeps the stack invariant, and the code counter stands exactly at its end |
| HuftBuild.PlaceCode | freebios-20010708/src/lib/inflate.c:393-484 | one round of the inner loop places one code and moves to the next in canonical order |
| HuftBuild.MakeTables | freebios-20010708/src/lib/inflate.c:379-486 | after all rounds the tables serve the whole code space |
| HuftTables.WalkCorrect | freebios-20010708/src/lib/inflate.c:540-551 | a walk from the root table ends, without leaving any table, in the slot that serves the code the bits fall into |
| HuftBuild.TablesDecode | freebios-20010708/src/lib/inflate.c:378-486 | the lookup theorem: on every bit string the walk ends in the slot of the symbol whose canonical code starts there, after as many bits as the code has; a pattern without a symbol ends in 99 if and only if its number, counted on from the symbols with a code, is past the list of values, and otherwise in a slot made from an element nobody wrote |
| HuftBuild.EverySlotWritten | freebios-20010708/src/lib/inflate.c:404-482 | for complete sets every lookup of every bit string ends in a slot that was written with a symbol |
| HuftBuild.UnownedMeans | freebios-20010708/src/lib/inflate.c:452-453 | when all lengths are nonzero every pattern without a symbol is marked 99 |
| HuftBuild.UnmarkedPattern | freebios-20010708/src/lib/inflate.c:452-453 | and not otherwise: with the lengths 1 and 0 no pattern left over is marked |
| HuftWide.WidthsOpen | freebios-20010708/src/lib/inflate.c:398-445 | opening and linking tables keeps every table at the size its links say, except those of wide blocks, whose last slot stays unwritten |
| HuftWide.WidthsFill | freebios-20010708/src/lib/inflate.c:466-470 | no code reaches the last slot of a table that is too large |
| HuftWide.WalkMisses | freebios-20010708/src/lib/inflate.c:540-551 | looking up the last pattern of the first wide block ends in that unwritten slot |
| HuftBuild.TablesServe | freebios-20010708/src/lib/inflate.c:378-486 | the finished tables serve every bit string if no block is wide; for sets in which every pattern has a meaning this is also necessary; and sets bounded by twice the root width, or complete with at most 2^width codes, have none |
| HuftBuild.WideFails | freebios-20010708/src/lib/inflate.c:404-445 | with a wide block the lookups are not those of the code: some lookup ends in a slot nobody wrote |
| HuftBuild.TooWide | freebios-20010708/src/lib/inflate.c:404-445 | the lengths 1, 3, 3, 3, 3 with tables of one bit are a complete set with a wide block |
| HuftBuild.HuftBuild | freebios-20010708/src/lib/inflate.c:278-492 | returns 2 exactly when Kraft's inequality fails, 1 exactly when codes are left over and some length exceeds 1; the root width bounds; all lookups of all bit strings decode the canonical code if, and for sets in which every pattern has a meaning only if, no block is wide |
| Inflater.State.NeedBits | freebios-20010708/src/lib/inflate.c:229 | bit buffer plus unread input go on denoting the same unread bit stream; enough bits are buffered, and no more than a byte too many, or the input is out |
| Inflater.State.PeekIsLsb | freebios-20010708/src/lib/inflate.c:221-226 | masking the buffer gives the next n bits of the stream |
| Inflater.State.DumpBits | freebios-20010708/src/lib/inflate.c:230 | exactly n bits of the stream are consumed |
| Inflater.State.FlushWindow | freebios-20010708/src/lib/do_inflate.c:68-86 | the window goes to the output; checksum and byte count are those of all the output, modulo 2^32 |
| Inflater.StoreByte | freebios-20010708/src/lib/inflate.c:554-555 | one byte is appended to the history, in the window |
| Inflater.FlushFull | freebios-20010708/src/lib/inflate.c:556-560 | a full window is flushed and the history stays; one that is not full is left alone |
| InflateCopy.MemCpy | freebios-20010708/src/lib/memcpy.c:7-8 | the ascending byte loop on windows that may overlap |
| InflateCopy.FastCopy | freebios-20010708/src/lib/inflate.c:593-598 | under the unsigned test on w - d the block copy appends the same bytes as copying one at a time |
| InflateCopy.SlowCopy | freebios-20010708/src/lib/inflate.c:601-604 | the overlapping copy appends what the reference appends |
| InflateCopy.CopyChunk | freebios-20010708/src/lib/inflate.c:591-604 | whichever way is taken, a chunk without wrap extends the history as the reference does |
| InflateCopy.CopyPass | freebios-20010708/src/lib/inflate.c:591-609 | one round including the flush at the end of the window |
| InflateCopy.Copy | freebios-20010708/src/lib/inflate.c:589-610 | for every length and every distance 1 to 32768 within the history, the circular copy equals byte-at-a-time copying from the unbounded history |
| InflateCodes.FollowLinks | freebios-20010708/src/lib/inflate.c:540-551 | the walk over linked tables never reads more than the bits it needs and ends in the slot the lookup theorem speaks of |
| InflateCodes.LookUp | freebios-20010708/src/lib/inflate.c:540-551 | the symbol found and the bits dropped are those of the reference decoder; code 1 only when no symbol starts there or the symbol is not allowed; at most 15 bits stay buffered |
| InflateCodes.OneMatch | freebios-20010708/src/lib/inflate.c:568-610 | extra bits, distance and copy of one pair, as the reference |
| InflateCodes.OneSymbol | freebios-20010708/src/lib/inflate.c:540-612 | one round of the loop leaves the reference with the same outcome to reach |
| InflateCodes.InflateCodes | freebios-20010708/src/lib/inflate.c:517-622 | a whole block of symbols: same bytes, same position or same code as the reference; at most 15 bits stay buffered |
| InflateTrees.BuildTree | freebios-20010708/src/lib/inflate.c:869-892 | every set the callers accept meets the condition of the lookup theorem; return values 1 and 2 exactly for incomplete and oversubscribed sets |
| InflateTrees.FixedTrees | freebios-20010708/src/lib/inflate.c:682-720 | the fixed literal and distance sets of section 3.2.6 are built and decode |
| InflateTrees.FixedLitComplete | freebios-20010708/src/lib/inflate.c:697-707 | the fixed literal set is complete |
| InflateBlocks.InflateStored | freebios-20010708/src/lib/inflate.c:626-678 | a stored block: same bytes and position as the reference, code 1 exactly when length and complement disagree |
| InflateBlocks.CodeLengthCodes | freebios-20010708/src/lib/inflate.c:785-793 | the code length code in its permuted order, absent lengths 0 |
| InflateBlocks.LengthSymbol | freebios-20010708/src/lib/inflate.c:814-818 | one symbol of the code length alphabet from a single-level table |
| InflateBlocks.OneRun | freebios-20010708/src/lib/inflate.c:820-850 | a run of codes 16 to 18 is stored or rejected exactly as the reference says, never past the end |
| InflateBlocks.ReadLengths | freebios-20010708/src/lib/inflate.c:804-853 | exactly nl + nd lengths are read, equal to the expansion of codes 0 to 18 of section 3.2.7; runs may cross the boundary; overshooting runs give code 1 |
| InflateBlocks.DynamicLengths | freebios-20010708/src/lib/inflate.c:785-853 | the code length code and the lengths together, with the return values of both |
| InflateBlocks.InflateDynamic | freebios-20010708/src/lib/inflate.c:736-910 | a dynamic block: same bytes and position, or the same code, as the reference |
| Gunzip.InflateFixed | freebios-20010708/src/lib/inflate.c:682-732 | a fixed block, likewise |
| Gunzip.InflateBlock | freebios-20010708/src/lib/inflate.c:914-957 | any block by its three header bits, code 2 for the reserved type |
| Gunzip.AllBlocks | freebios-20010708/src/lib/inflate.c:972-987 | any number and mix of blocks |
| Gunzip.Inflate | freebios-20010708/src/lib/inflate.c:959-1004 | the decoder theorem: for every byte string and every limit up to its end, if the reference decoder accepts the stream below the limit, inflate returns 0, the flushed output is the reference output and input stands at the first byte after the last bit used; on error 1 or 2 inflate returns it; a stream that needs bits past the limit never ends before it; only with a limit in the last two bytes can the input run out first, and then the stream ends within two bytes of its end |
| Gunzip.GiveBack | freebios-20010708/src/lib/inflate.c:992-995 | the give-back loop runs at most once and leaves fewer than 8 bits |
| Gunzip.ReadHeader | freebios-20010708/src/lib/inflate.c:1076-1131 | the header is passed over exactly as far as its flags say; wrong magic, method or flags give -1 |
| Gunzip.CheckTrailer | freebios-20010708/src/lib/inflate.c:1152-1175 | accepts exactly when the trailer holds the CRC-32 and the length modulo 2^32 of the output |
| Gunzip.Gunzip | freebios-20010708/src/lib/inflate.c:1069-1176 | the whole of gunzip, from the first byte of the input to the return value: whenever the compressed data have a meaning the result is 0 if and only if the header is taken, the data decode and the eight bytes behind them are their checksum and length, and the output is then what they decode to |
| StoredStream.StoredRoundTrip | freebios-20010708/src/lib/inflate.c:626-678 | every byte sequence, cut into stored blocks, decodes to itself whatever is around it in the stream |
| StoredStream.HeaderRoundTrip | freebios-20010708/src/lib/inflate.c:1076-1131 | a header (section 2.3 of RFC 1952) with any extra field, name and comment is passed over to its last byte |
| StoredStream.FileDecodes | freebios-20010708/src/lib/inflate.c:1134-1175 | in a file made of a header, the stored blocks, checksum and length the data decode and the trailer fits them |
| StoredStream.Unpack | freebios-20010708/src/lib/inflate.c:1069-1176 | encoder and decoder together: gunzip returns 0 and puts out exactly the data of every such file, whatever its optional fields |
| DeflateStream.TablesTile | freebios-20010708/src/lib/inflate.c:171-185 | the tables tile the lengths 3 to 257, with 258 on its own, and the distances 1 to 32768: each entry and its extra bits end where the next begins |
| DeflateStream.LengthFound | freebios-20010708/src/lib/inflate.c:171-177 | every length from 3 to 258 comes back from its symbol and extra bits as section 3.2.5 of RFC 1951 counts them |
| DeflateStream.DistFound | freebios-20010708/src/lib/inflate.c:178-185 | every distance from 1 to 32768, likewise |
| DeflateStream.CopyEchoes | freebios-20010708/src/lib/inflate.c:589-610 | the copied bytes are those before the present place, coming round again when the distance is shorter than the length |
| DeflateStream.SymbolRead | freebios-20010708/src/lib/inflate.c:540-551 | a symbol is found by its code word, with anything behind it |
| DeflateStream.TokensThen | freebios-20010708/src/lib/inflate.c:535-611 | literals and matches, written in any two codes, are decoded to what they say |
| DeflateStream.FixedIsCanonical | freebios-20010708/src/lib/inflate.c:696-707 | the codes of the fixed lengths are the numbers of section 3.2.6: 0x30, 0x190, 0 and 0xc0 on, in 8, 9, 7 and 8 bits |
| DeflateStream.FixedDistIsCanonical | freebios-20010708/src/lib/inflate.c:710-714 | and the distance codes are their symbols in five bits |
| DeflateStream.RunsRead | freebios-20010708/src/lib/inflate.c:813-855 | code lengths sent with any mixture of the four kinds of runs are read back |
| DeflateStream.OrderIsBorder | freebios-20010708/src/lib/inflate.c:169-170 | the order of the code length codes: 16, 17, 18, 0, and then outwards from 8 and 7 |
| DeflateStream.DescriptionRead | freebios-20010708/src/lib/inflate.c:768-890 | a description of two codes is read back, and the tokens after it with them |
| DeflateStream.BlockRead | freebios-20010708/src/lib/inflate.c:914-956 | a block of any of the three kinds, at any bit position, is decoded to what it says |
| DeflateStream.StreamRead | freebios-20010708/src/lib/inflate.c:975-987 | so is any list of blocks, to its last bit |
| DeflateStream.RoundTrip | freebios-20010708/src/lib/inflate.c:961-1004 | the bytes of any encoded stream, with anything around them, decode to what its blocks say and end at their last byte |
| GzipStream.FileRoundTrip | freebios-20010708/src/lib/inflate.c:1069-1176 | the data come out of a gzip file of any blocks, and its trailer fits them |
| GzipStream.Unpack | freebios-20010708/src/lib/inflate.c:1069-1176 | gunzip returns 0 on every such file, with exactly the data of the blocks |
| GzipStream.TrailerExactly | freebios-20010708/src/lib/inflate.c:1152-1174 | a trailer fits exactly if it holds the checksum of the data and their length modulo 2^32 |
| GzipStream.RefusedExactly | freebios-20010708/src/lib/inflate.c:1082-1106 | the headers refused, by their bytes: wrong magic number, another method than 8, a flag bit 1, 5, 6 or 7 |
| GzipStream.TextIgnored | freebios-20010708/src/lib/inflate.c:1058-1106 | the flag for text changes nothing |
| DeflateRefused.KindThree | freebios-20010708/src/lib/inflate.c:954-956 | a block of kind 3 is refused with 2 |
| DeflateRefused.WrongComplement | freebios-20010708/src/lib/inflate.c:648-653 | a stored block is refused exactly when its second count is not the complement of the first |
| DeflateRefused.TooManyCodes | freebios-20010708/src/lib/inflate.c:774-781 | more than 286 literal and length codes or 30 distance codes are refused |
| DeflateRefused.UnusedLength | freebios-20010708/src/lib/inflate.c:703-706 | the two fixed length codes without a meaning are refused |
| DeflateRefused.UnusedDistance | freebios-20010708/src/lib/inflate.c:573-578 | and so are the two distance codes |
| DeflateRefused.LongRun | freebios-20010708/src/lib/inflate.c:825-847 | a run past the number of lengths announced is refused |
| DeflateRefused.BadLengthCode | freebios-20010708/src/lib/inflate.c:797-804 | a code length code that is oversubscribed is refused with 2, an incomplete one with 1 |
| DeflateRefused.BadCodes | freebios-20010708/src/lib/inflate.c:867-890 | so are the two codes sent, the literal and length codes first |
| Crc32.TableStep | freebios-20010708/src/lib/inflate.c:1041-1050 | one table step equals eight single-bit steps |
| Crc32.MakeCrc | freebios-20010708/src/lib/inflate.c:1021-1055 | the table built from the polynomial terms is the table of single-bit division |
| Crc32.Update | freebios-20010708/src/lib/do_inflate.c:78-82 | the table-driven loop computes the bit-at-a-time register |
| Crc32.RegisterDivides | freebios-20010708/src/lib/do_inflate.c:78-82 | the register is the remainder of the message polynomial by the CRC-32 polynomial (section 8 of RFC 1952) |
| Crc32.RegisterConcat | freebios-20010708/src/lib/do_inflate.c:68-86 | updating chunk by chunk is updating with the concatenation, for every chunking |
| Crc32Check.Residue | freebios-20010708/src/lib/inflate.c:1014-1055 | data followed by their checksum, least significant byte first, always leave the register 0xDEBB20E3 |
| Crc32Check.KnownChecksums | freebios-20010708/src/lib/inflate.c:1014-1055 | the checksum of nothing is 0 and that of the letter a is 0xE8B7BE43 |
| PciAddress.Round | freebios-20010708/src/lib/newpci.c:374-382 | rounding by mask arithmetic on 32-bit words, for any alignment, when the sum does not wrap |
| PciAddress.RoundedMultiple | freebios-20010708/src/lib/newpci.c:374-382 | with a power of two the result is the least multiple that is not below the value |
| PciAddress.GetSize | freebios-20010708/src/lib/linuxpci.c:125-154 | the size word computed from the value read back, as arithmetic |
| PciAddress.MemorySize | freebios-20010708/src/lib/linuxpci.c:125-154 | a memory register that decodes the top bits down to k has size 2^k (section 6.2.5.1 of the PCI Local Bus Specification), flags kept |
| PciAddress.IoSize | freebios-20010708/src/lib/linuxpci.c:125-154 | likewise for I/O registers, whether or not they implement the upper 16 bits |
| PciMachine.StaysQuiet | freebios-20010708/src/lib/linuxpci.c:131-136 | writing all ones to a base register and then the value read before leaves every register reading as before, whichever of its bits can be written |
| PciMachine.MemoryCell | freebios-20010708/src/lib/linuxpci.c:131-153 | hardware whose register has the bits from k up and its type in the lowest four is sized 2^k |
| PciMachine.IoCell | freebios-20010708/src/lib/linuxpci.c:131-146 | so is an I/O register, whether or not it has the upper 16 bits |
| PciMachine.SizeRegister | freebios-20010708/src/lib/linuxpci.c:125-154 | the accesses that size one register reach one function only and change nothing that can be read |
| PciMachine.ReadBases | freebios-20010708/src/lib/linuxpci.c:160-191 | every register is sized except those that read all ones and the upper halves of 64-bit registers, whose size stays 0; all registers read afterwards as before |
| PciAddress.IoWindow | freebios-20010708/src/lib/newpci.c:686-698 | the bytes written decode to exactly the window (section 3.2.5.6 of the PCI-to-PCI Bridge Architecture Specification) if and only if it ends inside 64K, or is empty and does not sit on a 64K boundary |
| PciAddress.CrossingWindow | freebios-20010708/src/lib/newpci.c:686-698 | the window 0xf000 to 0x10fff, which crosses 64K, decodes no address at all |
| PciAddress.MemWindow | freebios-20010708/src/lib/newpci.c:700-722 | the words written decode to exactly the window, empty windows to nothing (sections 3.2.5.8 and 3.2.5.9) |
| PciLayout.OneSpace | freebios-20010708/src/lib/newpci.c:464-486 | a register is taken by at most one of the three passes |
| PciLayout.Placed | freebios-20010708/src/lib/newpci.c:464-558 | a register is placed at or after what is used, the place is in the address bits of the value stored, and memory registers of power-of-two size sit on a multiple of it, I/O registers on multiples of 16 |
| PciLayout.BarsLaid | freebios-20010708/src/lib/newpci.c:463-488 | the registers of a device get disjoint rising ranges; other registers keep their values |
| PciLayout.AllocBusLaid | freebios-20010708/src/lib/newpci.c:444-646 | a pass nests the windows of the whole tree: children side by side, then the bus's own registers, all inside the window, ends aligned; nothing of another space changes |
| PciLayout.LaidOrdered | freebios-20010708/src/lib/newpci.c:444-646 | all registers of a space in the whole tree are in order inside the root window, pairwise without overlap, and aligned |
| PciLayout.OrderedApart | freebios-20010708/src/lib/newpci.c:444-646 | such ranges are pairwise disjoint and inside their bounds |
| PciLayout.RouteExact | freebios-20010708/src/lib/newpci.c:668-674 | what the comment on assign_resources intends: were the bridges programmed at every depth, and did every register answer where it is put, an access would reach exactly the registers that answer to it, and never more than one |
| PciLayout.MemoryRouted | freebios-20010708/src/lib/newpci.c:544-557 | for memory the second holds of every tree whose registers have power-of-two sizes |
| PciLayout.BusKept | freebios-20010708/src/lib/newpci.c:654-667 | a pass over one space leaves the layout of the other spaces as it was |
| PciLayout.AllLaid | freebios-20010708/src/lib/newpci.c:654-667 | after the three passes all spaces are laid out from 0x1000 and 0x80000000, prefetchable memory starts where memory ends, and no memory register of either kind meets another |
| PciBars.BarTaken | freebios-20010708/src/lib/newpci.c:463-636 | from the hardware: I/O is taken by the first pass, memory by the second or third as it is not or is prefetchable, with 32 or 64 address bits, and memory that must be below 1M by none |
| PciBars.BarStep | freebios-20010708/src/lib/newpci.c:474-560 | a register takes 16 bytes or its size of I/O where the last one ended, and of memory 4096 or its size on a multiple of that |
| PciBars.WindowGrain | freebios-20010708/src/lib/newpci.c:444-490 | a window ends at the next multiple of 4K for I/O and of 1M for memory |
| PciBars.SpacesStart | freebios-20010708/src/lib/newpci.c:654-667 | I/O starts at 0x1000, memory at 2G, prefetchable memory right behind it |
| PciIoSpace.IoApart | freebios-20010708/src/lib/newpci.c:463-487 | after the I/O pass the registers of the whole tree answer where they are put, and equally no two of them answer to one address, if and only if on every bus what the earlier I/O registers take up is a multiple of the length of each (lengths up to 4K) |
| PciIoSpace.OutOfStep | freebios-20010708/src/lib/newpci.c:480-482 | the first register of a bus that is out of step answers at addresses of an earlier one |
| PciIoSpace.BusTight | freebios-20010708/src/lib/newpci.c:444-490 | an I/O window never ends a page later than the registers in it need |
| PciDecode.RegisterClaims | freebios-20010708/src/lib/newpci.c:392-398 | a register of 2^k bytes claims 2^k addresses, from the bits of the word written that it has |
| PciDecode.StartsAt | freebios-20010708/src/lib/newpci.c:464-485 | it claims them from the address it was given if and only if its length divides that address, and, if it has no upper 16 bits, the address is below 64K |
| PciDecode.Misplaced | freebios-20010708/src/lib/newpci.c:474-482 | a device with 16 and then 256 bytes of I/O: both registers answer from 0x1000 on |
| PciAlloc.AllocateIoBar | freebios-20010708/src/lib/newpci.c:464-485 | the loop body of the I/O pass takes and places a register as the layout says, in 32-bit arithmetic, and then sets the enable bit |
| PciAlloc.AllocateMemBar | freebios-20010708/src/lib/newpci.c:514-561 | the loop body of the memory and prefetchable passes, likewise |
| PciAlloc.AllocateDevice | freebios-20010708/src/lib/newpci.c:463-488 | the loop over a device's six registers; the command word gets the enable bit of the space exactly if a register was placed |
| PciAlloc.PciBus.AllocateChildren | freebios-20010708/src/lib/newpci.c:455-460 | the loop over the bridges updates the tree of records in place to exactly the layout, command words included |
| PciAlloc.PciBus.AllocateDevices | freebios-20010708/src/lib/newpci.c:463-487 | the loop over the devices, likewise |
| PciAlloc.PciBus.Allocate | freebios-20010708/src/lib/newpci.c:444-490 | a recursive pass over linked records stores exactly the layout, without 32-bit overflow when the layout ends below 4G |
| PciAlloc.PciBus.ComputeAllocateResources | freebios-20010708/src/lib/newpci.c:654-667 | the three passes in order store the complete layout |
| PciAlloc.PciBus.AssignWindows | freebios-20010708/src/lib/newpci.c:681-721 | the window registers of every bridge on the bus get the shifted window addresses; its command word becomes exactly the spaces in use and bus mastering |
| PciAlloc.AssignBars | freebios-20010708/src/lib/newpci.c:723-736 | every assigned base address is written to the register it belongs to, over configuration accesses that reach one bus, and no other register of the machine is |
| PciAlloc.AssignResources | freebios-20010708/src/lib/newpci.c:674-737 | bridges and devices are programmed, and the layout and the command words of all other devices stay |
| PciAlloc.PciConfigure | freebios-20010708/src/lib/newpci.c:769-778 | from any state of the records: complete layout stored, bridges of the root bus and all devices programmed, every other command word extended by exactly the spaces its device was given addresses in |
| PciAlloc.EnableResources | freebios-20010708/src/lib/newpci.c:739-754 | the command register of every device gains the bits of its command word and loses none; no other command register changes |
| PciAlloc.EnabledExactly | freebios-20010708/src/lib/newpci.c:483-645 | a fresh record is enabled for I/O exactly if a register takes I/O, and for memory exactly if one takes memory of either kind |
| PciAlloc.ConfiguredWindows | freebios-20010708/src/lib/newpci.c:674-723 | after that each bridge of the root bus forwards exactly the windows of its bus; for I/O if and only if the 64K condition holds |
| PciBusNumbers.OpenWordIs | freebios-20010708/src/lib/linuxpci.c:427-433 | the masking before the descent writes primary and secondary number, 0xff, and keeps the latency timer |
| PciBusNumbers.CloseWordIs | freebios-20010708/src/lib/linuxpci.c:438-444 | the masking after it replaces the subordinate number and nothing else |
| PciTopology.OpenClaims | freebios-20010708/src/lib/linuxpci.c:384-436 | on a path of bridges open to 0xff, with everything else ending below, an access to the number at its end arrives there and nowhere else |
| PciTopology.OpenExtend | freebios-20010708/src/lib/linuxpci.c:384-436 | opening one more bridge with a higher number keeps that |
| PciTopology.OpenRouted | freebios-20010708/src/lib/linuxpci.c:197-459 | an access to the bus being scanned is claimed by exactly one path |
| PciScan.ScanFunctions | freebios-20010708/src/lib/linuxpci.c:212-324 | the device list is exactly the functions that answer, have a known header and are looked at by the rules for single and multi-function devices, in order, each with its sizes and ROM address, and the chain of all devices grows by them; command and base registers end as they were |
| PciScan.Opened | freebios-20010708/src/lib/linuxpci.c:384-433 | programming a bridge makes the new number reach the bus behind it and keeps the present bus reachable |
| PciScan.Closed | freebios-20010708/src/lib/linuxpci.c:436-444 | closing it fixes the numbers behind it for good and keeps the present bus reachable |
| PciScan.OpenBridge | freebios-20010708/src/lib/linuxpci.c:393-433 | the command register is saved and cleared, the status bits cleared, the numbers set, the latency timer kept |
| PciScan.ScanBehind | freebios-20010708/src/lib/linuxpci.c:341-447 | one bridge: numbered, its status cleared, scanned behind, subordinate set to the largest number behind it, command restored; registers elsewhere untouched |
| PciScan.ScanBus | freebios-20010708/src/lib/linuxpci.c:197-460 | whole-run safety and result: every access during the recursion, sizing included, reaches exactly one bus; afterwards the registers hold the gap-free preorder numbering, the records mirror it, the chain has grown by all devices in the order of the scan, the largest number is returned |
| PciScan.PciInit | freebios-20010708/src/lib/linuxpci.c:493-497 | the same for the machine from reset, for any tree of at most 255 buses behind the root; timers, command and base registers as before |
| PciScan.ChainOnce | freebios-20010708/src/lib/linuxpci.c:305-313 | the chain of all devices holds every function found exactly once, under the number of its bus |
| PciScan.FindSlot | freebios-20010708/src/lib/linuxpci.c:50-58 | the device with a bus and devfn number is found if and only if the chain has one, and is the only one |
| PciScan.ScannedRouting | freebios-20010708/src/lib/linuxpci.c:438-444 | after the scan each number up to the largest reaches exactly one bus, the one preorder says, and no other number reaches any |
| PciScan.ClaimsNumber | freebios-20010708/src/lib/linuxpci.c:438-444 | a bus reached under a number has that number in its bridge, so different numbers reach different buses |
| PciFunctions.RecordedExactly | freebios-20010708/src/lib/linuxpci.c:212-323 | the functions recorded, from identification, header type and class with the masks 0x7f and 0x80: those that answer with type and class that agree, and of functions 1 to 7 only those whose function 0 answers and is not recorded as a single function |
| PciFunctions.RecordedFields | freebios-20010708/src/lib/linuxpci.c:249-290 | the fields recorded of each, the ROM register included |
| PciFunctions.DescendedExactly | freebios-20010708/src/lib/linuxpci.c:340-360 | the bridges looked behind: recorded PCI bridges but for five host bridges, by vendor and device |
| PciFunctions.ScannedRecords | freebios-20010708/src/lib/linuxpci.c:372-445 | after the scan the record of every bus holds the numbers in the registers of its bridge |
| PciBars.BarSized | freebios-20010708/src/lib/linuxpci.c:135-191 | every base address register that the header type has is sized, by what the PCI specification says is behind it; the second half of a 64-bit register is passed over |
| PciBars.NoneBeyond | freebios-20010708/src/lib/linuxpci.c:277-297 | no others are: 6 with header type 0, 2 with type 1, 1 with type 2 |
| PciBoot.Link | freebios-20010708/src/lib/linuxpci.c:256-316 | linked records for a scanned tree: a tree without sharing that mirrors the hardware, its devices in the order of the chain |
| PciBoot.AllRouted | freebios-20010708/src/lib/linuxpci.c:438-444 | after the scan every recorded device is reached under the number of its bus, and no other bus is |
| PciBoot.Boot | freebios-20010708/src/lib/newpci.c:758-787 | enumerate, configure and enable in one run, for any tree from reset: every configuration access reaches exactly one bus; in the end windows, base addresses and command registers of the hardware hold the layout computed from the sizes the scan read from it, everything else is as it came up |
| PciReach.GivenTaken | freebios-20010708/src/lib/newpci.c:723-752 | an enabled register whose address is in its bits claims exactly the addresses it was given |
| PciReach.TakerGiven | freebios-20010708/src/lib/newpci.c:723-752 | nothing else on a bus, sized or not, recorded or not, claims an address that was given out |
| PciReach.MemoryAnswered | freebios-20010708/src/lib/newpci.c:681-721 | an address given to a memory register is answered by it, and claimed by nothing else on any bus of the way, if and only if the register is not behind two or more bridges |
| PciIoReach.IoAnswered | freebios-20010708/src/lib/newpci.c:681-736 | all I/O addresses given out are answered, each by its register and claimed by nothing else, if and only if no I/O register is behind two or more bridges, the length of each divides its address (below 64K for registers without upper half), and the I/O windows on the root bus are below 64K |
| PciIoReach.InPlaceInStep | freebios-20010708/src/lib/newpci.c:463-487 | the second condition read off the sizes before the layout: on every bus the I/O registers come in step |
| PciBoot.WhatIsAnswered | freebios-20010708/src/lib/newpci.c:758-787 | both for the machine as Boot leaves it |
| PciBars.BarServed | freebios-20010708/src/lib/newpci.c:758-787 | on the machine that Boot leaves every register of every recorded function that a pass can take has as many addresses as are behind it and is enabled; memory not behind two bridges is answered at all of them |
| PciBars.BarLeft | freebios-20010708/src/lib/newpci.c:529-532 | memory that must be below 1M is given no address |
| PciTwoBridges.Unreached | freebios-20010708/src/lib/newpci.c:681-721 | a page of memory behind two bridges is given addresses and none of them is answered |
| Tftp.Client.Tftp | freebios-20010708/src/etherboot/rarp.c:394-534 | the loop, event by event, runs the client's state machine |
| Tftp.Client.Timeout | freebios-20010708/src/etherboot/rarp.c:424-453 | a timeout asks again from a new port while no block has come, at most 20 times |
| Tftp.Client.ReadOptions | freebios-20010708/src/etherboot/rarp.c:464-499 | the character loop over the options, with its own string comparison and number reading, on any packet and any remains in the buffer: the block size option is taken over, any other option or a size below 512 refused |
| Tftp.OptionRoundTrip | freebios-20010708/src/etherboot/rarp.c:464-479 | a block size written in decimal, as servers acknowledge it, is the block size read, for all sizes of 512 to 2^31 - 1 and whatever the buffer held before |
| Tftp.Client.Block | freebios-20010708/src/etherboot/rarp.c:512-531 | acknowledging, repeating an acknowledgement, handing over and finishing |
| TftpProtocol.BlockAccepted | freebios-20010708/src/etherboot/rarp.c:504-531 | the next block is acknowledged with its number and handed over once, with its length and end flag |
| TftpProtocol.DeliverKeeps | freebios-20010708/src/etherboot/rarp.c:454-531 | any packet the network may deliver, late or repeated, keeps the invariant |
| TftpProtocol.TimeoutKeeps | freebios-20010708/src/etherboot/rarp.c:430-438 | a retry from a new port leaves every earlier conversation behind |
| TftpProtocol.AcknowledgeKeeps | freebios-20010708/src/etherboot/rarp.c:512-519 | no server gets more than one block ahead of the client before block 65535, because acknowledgements name only blocks that arrived |
| TftpProtocol.RunKeeps | freebios-20010708/src/etherboot/rarp.c:394-534 | the invariant holds at the end of every run of client, servers and network |
| TftpProtocol.Safety | freebios-20010708/src/etherboot/rarp.c:423-533 | in every run with lost, duplicated, delayed or reordered packets and honest servers (section 2 of RFC 1350) the callback gets blocks 1, 2, ... once each in order as consecutive slices of the file, every acknowledgement names a block that arrived, nothing after block 65535 is accepted, and return 1 with a callback that never stops means the whole file |
| TftpProtocol.CanFetch | freebios-20010708/src/etherboot/rarp.c:512-520 | some run fetches the file if and only if it has at most 65535 blocks |
| TftpProtocol.StillFetchable | freebios-20010708/src/etherboot/rarp.c:424-438 | at any moment of any run at which the client still runs, the file can still be fetched if and only if it has at most 65535 blocks and a request was sent from the port in use |
| TftpProtocol.Stranded | freebios-20010708/src/etherboot/rarp.c:430-438 | a run that loses the file for good: the answer to an option acknowledgement, then a timeout before block 1 |
| TftpAnyServer.InOrder | freebios-20010708/src/etherboot/rarp.c:504-531 | whatever arrives, from any server: the blocks handed over are numbered from 1, each came in a data packet with that number, none beyond is acknowledged |
| TftpAnyServer.OneExactly | freebios-20010708/src/etherboot/rarp.c:525-531 | whatever arrives, with a callback that lets it go on: 1 is returned if and only if the last block handed over is shorter than the block size |
| TftpAnyServer.Stopped | freebios-20010708/src/etherboot/rarp.c:527-529 | a callback that stops the transfer has its number returned and is not called again |
| TftpAnyServer.ErrorEnds | freebios-20010708/src/etherboot/rarp.c:454-460 | an error packet, and any unknown one, ends it with 0; nothing is sent or handed over |
| TftpAnyServer.LongIgnored | freebios-20010708/src/etherboot/rarp.c:504-507 | data beyond the block size are as if they had not come |
| TftpAnyServer.LateOptionsIgnored | freebios-20010708/src/etherboot/rarp.c:465-466 | so is an option acknowledgement after the first block |
| TftpAnyServer.RefusedEnds | freebios-20010708/src/etherboot/rarp.c:480-499 | refused options are answered with an error, and 0 is returned |
| TftpAnyServer.OtherNumber | freebios-20010708/src/etherboot/rarp.c:512-524 | a block with another number than the next has the last one acknowledged again |
| TftpAnyServer.Silent | freebios-20010708/src/etherboot/rarp.c:430-438 | without replies 21 requests are sent, to port 69 from one port after the other, and then 0 is returned |
| TftpAnyServer.TimeoutEnds | freebios-20010708/src/etherboot/rarp.c:424-453 | a timeout after the first block returns 0 |
| TftpAnyServer.NotSent | freebios-20010708/src/etherboot/rarp.c:420-422 | if the first request cannot be sent, 0 is returned |
| TftpAnyServer.NameExactly | freebios-20010708/src/etherboot/rarp.c:45-49 | the names accepted: blksize with each letter small or capital, ended by a zero or, as the code has it, a blank |
| TftpAnyServer.AnySpelling | freebios-20010708/src/etherboot/rarp.c:464-499 | any of them with a number in decimal sets the block size from 512 on; below that, or cut short, the options are refused |
| TftpAnyServer.LastCounts | freebios-20010708/src/etherboot/rarp.c:471-499 | of several options within 1432 bytes the last one counts |
| TftpAnyServer.OtherRefused | freebios-20010708/src/etherboot/rarp.c:467-472 | any other name, and options longer than that, are refused |
| Checksum.Compute | freebios-20010708/src/etherboot/rarp.c:69-79 | the loop computes the complemented end-around sum, the accumulator never above 0xffff between words |
| Checksum.FoldIsResidue | freebios-20010708/src/boot/uniform_boot.c:10-18 | the end-around sum is the residue of the plain sum modulo 65535, with 0 only for all zeros (section 1 of RFC 1071) |
| Checksum.AnyOrder | freebios-20010708/src/etherboot/rarp.c:72-77 | the result does not depend on the order of the words |
| Checksum.Negates | freebios-20010708/src/etherboot/rarp.c:69-79 | result and sum add up to 0 modulo 65535 |
| Checksum.StoredChecks | freebios-20010708/src/etherboot/rarp.c:336-339 | a header with the checksum of itself stored in the field that was zero makes the same function return 0 |
| Checksum.OneWordChanged | freebios-20010708/src/etherboot/rarp.c:193 | a change of one word is accepted exactly when it exchanges 0 and 0xffff and some word is nonzero afterwards |
| Checksum.ByteOrder | freebios-20010708/src/etherboot/rarp.c:72-77 | summing in the other byte order gives the checksum in the other byte order |
| Checksum.Generator.Sleep | freebios-20010708/src/etherboot/rarp.c:94-100 | for every signed seed, first set from any clock and address, all intermediate values fit 32 bits and the new seed is 40014 times the old modulo 2147483563 |
| Checksum.ZeroExactly | freebios-20010708/src/etherboot/rarp.c:94-100 | a nonzero seed leads to 0, and so to being set anew, if and only if it is 2147483563 or its negative |
| Checksum.NeverReseeded | freebios-20010708/src/etherboot/rarp.c:86-100 | over any number of sleeps the seed stays in 1 to 2147483562 if and only if it starts as none of 0 and those two |
| ElfBoot.SafeRange | freebios-20010708/src/lib/elfboot.c:35-49 | the comparison with an end that wraps at 2^32; without wrap it accepts exactly the ranges that overlap none of the program's own |
| ElfBoot.SafeRangeExact | freebios-20010708/src/lib/elfboot.c:35-49 | acceptance keeps the program's own ranges safe, whatever they are, if and only if the end does not wrap (or the range starts at the last address) |
| ElfBoot.OverlapAccepted | freebios-20010708/src/lib/elfboot.c:41-45 | a range up to the end of memory is accepted on top of a reserved one |
| ElfBoot.ZeroExact | freebios-20010708/src/lib/elfboot.c:98-109 | exactly the padding is zeroed if and only if the end of the file bytes does not wrap |
| ElfBoot.CheckAndZero | freebios-20010708/src/lib/elfboot.c:89-110 | the segments are checked in turn and the padding of those before the first refused is zeroed, with ends that wrap; when no end wraps no byte of the running program is touched, even when a later check fails |
| ElfBoot.Select | freebios-20010708/src/lib/elfboot.c:122-139 | the next segment: least offset not below the present one, first in the table |
| ElfBoot.LoadSegment | freebios-20010708/src/lib/elfboot.c:142-186 | what one round leaves in memory, where it leaves the stream, and the offset it goes on from, all for sums that may wrap; a copy past the end of the buffer is undefined |
| ElfImage.RoundExact | freebios-20010708/src/lib/elfboot.c:142-186 | a round copies exactly its segment, for every file, if and only if the end of its file bytes in memory does not wrap (or wraps to 0 with all bytes in the buffer); the stream keeps standing at the larger of 512 and the offset if and only if the end in the file does not wrap |
| ElfBoot.LoadAll | freebios-20010708/src/lib/elfboot.c:113-188 | for every table for which the loop ends: the segments taken, the memory and the stream position after all rounds |
| ElfBoot.ElfBoot | freebios-20010708/src/lib/elfboot.c:51-206 | the image is refused exactly for a bad header or a segment found unsafe; otherwise entry point, stream position and all memory follow the rounds; when no end wraps nothing is undefined and no byte of the running program is ever written |
| ElfBoot.Meaningful | freebios-20010708/src/lib/elfboot.c:89-188 | as long as no end wraps no round reads past the buffer or writes a byte of the running program |
| ElfImage.TakesInOrder | freebios-20010708/src/lib/elfboot.c:113-188 | as long as no end wraps: segments are taken in file order without overlap, one is passed over only if it starts inside one taken, and the stream stands at the larger of 512 and the offset |
| ElfImage.StoredIsLoaded | freebios-20010708/src/lib/elfboot.c:150-187 | and memory is what copying them from the file in that order would leave |
| ElfImage.EndsExactly | freebios-20010708/src/lib/elfboot.c:113-188 | for segments without overlap in the file the loop ends if and only if no segment's end in the file wraps |
| ElfImage.EndsWithout | freebios-20010708/src/lib/elfboot.c:113-188 | for every table it ends when no end in the file wraps |
| ElfImage.EndlessLoop | freebios-20010708/src/lib/elfboot.c:185-187 | 16 bytes at the very end of the offsets are taken again for ever |
| ElfImage.TakesAll | freebios-20010708/src/lib/elfboot.c:113-188 | one pass takes every loadable segment if and only if no two overlap in the file |
| ElfImage.ImageInMemory | freebios-20010708/src/lib/elfboot.c:89-188 | for every table disjoint in file and memory whose ends do not wrap, each loadable segment ends as its file bytes followed by zeros, as with random access |
| ElfFile.SaneExactly | freebios-20010708/src/lib/elfboot.c:75-86 | a header is taken exactly when each of the fields checked is right: magic, class, byte order, versions, type, machine, size and place of the program headers; the others are free |
| ElfFile.ReadBack | freebios-20010708/src/lib/elfboot.c:67-87 | entry point and program headers written field by field are read back, with the physical and not the virtual address |
| ElfFile.LoadFile | freebios-20010708/src/lib/elfboot.c:51-192 | on such a file, disjoint in file and memory, elfboot jumps to the entry point with every loadable segment at its physical address, or refuses it exactly if a segment lies over the running program |
| Vsprintf.Number | freebios-20010708/src/lib/vsprintf.c:91-156 | the buffer receives the printed form after what was there; -1 for a base out of range |
| Vsprintf.Collect | freebios-20010708/src/lib/vsprintf.c:123-127 | the digits are collected backwards and fit the 66-byte buffer |
| Vsprintf.PrintedLength | freebios-20010708/src/lib/vsprintf.c:129-155 | the output is as long as the larger of the width and sign, prefix and the larger of precision and digits |
| Vsprintf.SimpleStrtoul | freebios-20010708/src/lib/vsprintf.c:35-58 | base detection and the digit loop, with the place where reading stops |
| Vsprintf.SimpleStrtol | freebios-20010708/src/lib/vsprintf.c:60-65 | a minus sign negates modulo 2^32 |
| Vsprintf.OctalIsDecimal | freebios-20010708/src/lib/vsprintf.c:39-57 | octal digits taken for decimal ones give the same value modulo 2^32 only for a single digit |
| Vsprintf.ScanDigits | freebios-20010708/src/lib/vsprintf.c:50-54 | digits of one base read in the same or a smaller one never give more, and the number itself exactly when the bases agree and no digit is past f, or there is one digit that is known |
| Vsprintf.OctalMisread | freebios-20010708/src/lib/vsprintf.c:35-156 | 8 printed in three places with zeros, 008, is read as 0 in base 0 |
| Vsprintf.UnsignedRoundTrip | freebios-20010708/src/lib/vsprintf.c:35-156 | for every 32-bit value, every base from 2 to 36, or base 0 on octal, decimal and hexadecimal output, every width, precision and flags: reading the printed form gives the value back if and only if it is 0, or there is no blank padding on the left, the prefix is one the reader expects, no digit is past f, and in base 0 no leading zero or missing prefix misleads it, unless the value has one digit that both bases share |
| Vsprintf.SignedRoundTrip | freebios-20010708/src/lib/vsprintf.c:60-156 | the same for signed values down to the most negative, which also fails exactly when a plus or a blank stands for the sign |
| VsprintfForms.DigitsMean | freebios-20010708/src/lib/vsprintf.c:96-127 | the digits printed, by character code, stand for the number in its base, small letters or capitals as asked for, without leading zeros |
| VsprintfForms.FieldIs | freebios-20010708/src/lib/vsprintf.c:99-155 | the whole field as the C standard describes it: sign, prefix, precision, and the rest of the width as blanks behind, zeros before the digits or blanks in front |
| VsprintfForms.BaseTaken | freebios-20010708/src/lib/vsprintf.c:39-49 | base 0 means 16 behind 0x and a hexadecimal digit, 8 behind another 0, and 10 otherwise |
| VsprintfForms.ReadStops | freebios-20010708/src/lib/vsprintf.c:50-58 | reading stops at the first character that is no digit of the base |
| VsprintfForms.SignTaken | freebios-20010708/src/lib/vsprintf.c:60-65 | only a minus is taken as a sign |
| Pkcs1.AcceptsExactly | pgp/src/lib/create.c:904-912 | the length test on unsigned numbers: for moduli below 11 bytes it takes almost every length |
| Pkcs1.ShortModulus | pgp/src/lib/create.c:904-912 | a 10-byte modulus takes the 19 bytes of a session key |
| Pkcs1.EncodeMBuf | pgp/src/lib/create.c:894-940 | for every modulus and message the result is a block 0, 2, at least 8 nonzero bytes, 0, message if and only if the modulus has 11 bytes more than the message; a shorter one gives a block with less padding or a write beyond it; a refused message leaves the buffer alone |
| Pkcs1.UniqueParse | pgp/src/lib/crypto.c:92-119 | a block has at most one parse |
| Pkcs1.BlockIs | pgp/src/lib/crypto.c:92-119 | a block byte by byte: 0, 2, no zero before the eleventh byte, and one from there on |
| Pkcs1.Unencode | pgp/src/lib/crypto.c:82-127 | -1 exactly for an empty block; a positive result is the length of the message of the block's only parse, with at least 8 padding bytes; 0 exactly when there is no parse or the message is empty; the buffer gets the message if it fits and is untouched otherwise |
| Pkcs1.CalcSessionKeyChecksum | pgp/src/lib/create.c:838-857 | the sum of the key bytes modulo 65536, high byte first; unsupported algorithms are refused |
| Pkcs1.CreateUnencodedMBuf | pgp/src/lib/create.c:863-883 | algorithm, key and checksum |
| Pkcs1.RecoverKey | pgp/src/lib/packet-parse.c:2563-2621 | a key is recovered exactly from well-formed messages of supported algorithms with a right checksum, and from no message said to be longer than the buffer |
| Pkcs1.OneByteChanged | pgp/src/lib/create.c:838-857 | a change of any one key byte changes the checksum |
| Pkcs1.KeyExchange | pgp/src/lib/create.c:863-940 | encoding and decoding together: for every CAST5 key, every modulus of 30 to 8192 bytes and all random bytes, exactly the key comes out |
| Pkcs1.KeySizes | pgp/src/lib/symmetric.c:488-562 | the key sizes are the standard's for each algorithm number that is supported, and 0 for all others |
| Pkcs1.RecoverSent | pgp/src/lib/packet-parse.c:2563-2621 | a message with the number of any algorithm yields a key if and only if it has a key of that length and the right sum behind it |

## Left out

- HuftBuild.HuftBuild: does not model memory running out (return 3); allocation always succeeds, and tables are a sequence of sequences with indices for links, updated as values.
- HuftBuild.TablesServe: for incomplete sets with unused symbols a wide block is not shown to spoil a lookup; there the pattern that is missed may be one without a meaning.
- Inflater.State.NeedBits: stops with an out-of-input result where the C code asks the ROM driver for more; the copies of the bit buffer and window position that each C function keeps in locals are one set of fields here.
- InflateCodes.LookUp: says nothing about streams that use a code of an incomplete set that has no symbol, or a distance beyond the output; the code leaves them undetermined.
- Gunzip.Inflate: for a limit within two bytes of the end of the input it does not say whether a lookup runs out of input.
- Gunzip.Gunzip: says nothing about compressed data whose meaning is undetermined, and only that the result is not 0 when they end in or behind the trailer; messages and the output address are outside.
- huft_free, error() and halting.
- PciMachine.ReadBases: the branch for 64-bit longs; registers behind the base registers have no effect of their own when they are read.
- PciAlloc.PciBus.Allocate: assumes that the layout ends below 4G and that the shape of the tree no longer changes; of a command word only the I/O, memory and bus master bits are modelled.
- PciScan.ScanBus: bridges come up with bus numbers 0, at most 255 buses are behind the root, memory does not run out, and the records of buses are values that the scan returns (no parent or sibling links); PciBoot.Link makes linked records of them afterwards.
- PciScan.ScanFunctions: the outcome of the bus master probe (dev->master) is not kept.
- PciBoot.WhatIsAnswered: takes hardware that keeps to the specification (each register a power of two long, base address and window registers 0 and functions disabled after reset); expansion ROMs, VGA and ISA modes of bridges are outside, and every function sees an access at once.
- pci_scan_peer_bridge and bridges configured at power-up; with no peer bridges the loops over the root list have no effect and are left out of the scan.
- Tftp.Client.Tftp: packets that are not for the client's port, ARP traffic, the wait itself and the CONGESTED variant are outside; the network of a run starts without packets of earlier runs.
- tftp_init, tftp_fetchone, NFS, RARP and BOOTP.
- Checksum.Compute: takes the 16-bit words as the machine reads them; other protocol fields of the headers are outside.
- The length of the sleep in rfc951_sleep and the clock that seeds the generator.
- ElfBoot.ElfBoot: takes memory to be there at every address, and tables for which the loop over the file ends; a copy from past the end of the buffer ends the model; the stream never ends; the uniform boot record and the jump itself are outside.
- Vsprintf.Number: flags are booleans rather than bits of an int, and format strings (vsprintf) are outside.
- Pkcs1.EncodeMBuf: assertions of the C code are compiled out; with them a message that is too long, or a padding below 8 bytes, aborts instead. A write beyond the buffer ends the model.
- Pkcs1.KeyExchange: RSA is the identity on blocks.
- OpenPGP packet reading and writing apart from the session key checks, keyrings, ciphers and hashes.
- Port I/O, configuration access methods, network and flash drivers, serial and keyboard code.
