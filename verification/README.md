# A verified model of the SquashFS reader

The reader opens a read-only SquashFS image and never writes it. Once its device is seen as a
byte sequence that does not change, and each codec as an unknown function with an output
bound, what is left is decision and arithmetic: six in-place branch converters, an `.xz`
container parser, a cursor that presents a chain of compressed blocks as one stream, caches,
record parsers, a read loop, path resolution and a directory walk. This project models those
parts and proves what they are for.

## How it is built

The modules follow the source files.

| module | source | in it |
|---|---|---|
| `Bytes`, `Modular` | | bytes, little-endian words, `Result`; quotients and remainders |
| `BcjX86`, `BcjFields`, `BcjIa64`, `Bcj` | `src/xz.rs` | the converters, in place on arrays, and their mirrors |
| `X86Reference`, `BranchReference`, `BundleReference` | `src/xz.rs` | what the converters do, said without their masks and loops |
| `Crc64` | `src/xz.rs` | the bitwise check |
| `XzFormat`, `XzReader` | `src/xz.rs` | the container's grammar and printer; the reader's loops |
| `XzAccounts` | `src/xz.rs` | the sizes of a stream, its constants, and a known stream byte by byte |
| `Image`, `Metadata`, `Cursor` | `src/metablock.rs` | the device, metadata blocks, their cache, the cursor |
| `References` | `src/metablock.rs` | what a packed reference addresses, and what is read from it |
| `Superblock` | `src/superblock.rs` | the layout checks |
| `Inode`, `InodeFormat` | `src/inode.rs` | reading an inode; what one looks like on disk |
| `Dir` | `src/dir.rs` | directory listings and their printer |
| `Table` | `src/table.rs` | indirect tables and the export table |
| `Xattr` | `src/xattr.rs`, `src/capi.rs` | attribute sets, their printer, the sizes reported for them |
| `FileData`, `FileLayout` | `src/fs.rs` | the read loop and the data cache; what a stored file is |
| `Cache`, `CacheRace` | `src/metablock.rs`, `src/fs.rs` | what both block caches do under their lock; readers racing through one, as a state machine |
| `Paths` | `src/fs.rs` | `read_dir`, `lookup`, path resolution |
| `Capi` | `src/capi.rs` | reading by path through the one-path cache |
| `Walk`, `WalkOrder`, `Reach` | `src/cli/squashfs/fs.rs` | the recursive listing; the order and spelling of its lines; what it reaches |
| `SharedNumber` | `src/cli/squashfs/fs.rs` | an image on which it misses an inode |

Code that changes state is modelled as code that changes state: the converters rewrite an
`array`, the caches, the cursor and the C handle are classes, and the parsers are loops over a
position. Each such method is proved equal to a function of its inputs or its old state, and
the theorems are about those functions: a printer and a grammar that accept exactly each other,
a flat stream, a stored file, a recursive walk. What a definition is shared by, on both sides of
such a theorem, is said once more on its own, in the numbers and bytes of the format: which
opcodes convert and to what, what an index record counts, where a reference leads, what a size
word means, which name comes first.

A byte is an integer below 256 and a word one below its power of two; masks and shifts are
written as the remainders and quotients they compute, and wrapping, saturating and truncating
operations are written out. Only the CRC-64 uses bit-vectors. `usize` is 64 bits wide and no
buffer reaches 2^63 bytes, as in any Rust program on such a machine.

Parameters stand for what the model does not look into: the codec of an archive
(`Image.decode`, which may return anything up to its bound: `SoundCodec`), LZMA2 and CRC-32
(`Libraries`; LZMA2 reports how much it consumed and looks no further: `SelfDelimiting`).

## Where the code and the format part ways

- Section 5.3.2 of The .xz File Format asks that a converter's start offset be a multiple of
  the filter's alignment. `src/xz.rs:179-186` accepts any offset. `Bcj.InverseExactlyWhenAligned`
  shows that decoding then undoes encoding on every buffer if and only if the offset is aligned.
- Section 2.1.1.2 reserves the high four bits of the second stream flag byte. `src/xz.rs:106`
  masks them off, so a stream that sets them is read all the same
  (`XzReader.ReservedBitsIgnored`); an accepted stream obeys the section exactly when its eighth
  byte is below 16 (`XzReader.ReservedBitsClearExactly`).
- A stream that declares SHA-256 checks is refused at its first block (`src/xz.rs:253`), so it is
  accepted exactly when it has none (`XzReader.Sha256OnlyEmpty`).
- The recursive listing takes an inode number to identify a directory
  (`src/cli/squashfs/fs.rs:697`), and nothing makes an image's numbers unique. It enters every
  directory that can be reached if and only if no two of them share a number
  (`Reach.EntersAllExactly`); `SharedNumber.ListingMissesAnInode` gives an image on which it ends
  without an error and an inode is on none of its lines.

## Model

| member | source | states |
|---|---|---|
| BcjX86.InnerLoopStops | src/xz.rs:415-440 | for every operand that passed the guard, with its tested byte away from 0x00 and 0xFF, one complement is enough to end the inner loop: it turns at most twice |
| BcjX86.PendingDecisionKept | src/xz.rs:405-424 | while an opcode is pending the scan never moves its decision byte into or out of {0x00, 0xFF} |
| BcjX86.SameDecision | src/xz.rs:403-424 | the reverse scan converts at a position exactly when the forward scan did |
| BcjX86.ScanInverse | src/xz.rs:394-450 | a scan and its mirror, from any pending mask and position, cancel out |
| BcjX86.X86Inverse | src/xz.rs:381-450 | for every start and every buffer the converter undoes its mirror and the mirror undoes the converter |
| BcjX86.ConvertOperand | src/xz.rs:425-440 | the inner loop returns the operand the scan specifies |
| BcjX86.X86InPlace | src/xz.rs:394-450 | the one-pass loop with its last position and mask leaves in the array exactly the scan of what was there, every index and shift in range |
| X86Reference.ConvertsAsDescribed | src/xz.rs:394-450 | for every start and buffer the converter takes exactly the CALL and JMP opcodes a description over positions takes: the operand's top byte 0x00 or 0xFF, no two opcodes pending, and with one pending its decision byte neither; and it writes the operand that description gives |
| X86Reference.OneInstruction | src/xz.rs:403-443 | one CALL or JMP with any operand, at any start: the 25-bit sign extension of operand - start - 5 when the top byte is 0x00 or 0xFF, and untouched otherwise |
| X86Reference.NoInstructions | src/xz.rs:403-409 | a buffer without either opcode is unchanged |
| BcjFields.FieldOfWithField | src/xz.rs:452-559 | writing a field of an ARM, Thumb, PowerPC or SPARC instruction keeps it recognisable and the field can be read back |
| BcjFields.WithFieldOfField | src/xz.rs:452-559 | a matching instruction is its field written back: nothing else of it varies |
| BcjFields.ThumbOpcodeKept | src/xz.rs:521-543 | in Thumb's scan by half-words the opcode bits that decide are never rewritten |
| BcjFields.ScanInverse | src/xz.rs:452-559 | on an aligned start the four fixed-width converters and their mirrors undo each other on every buffer |
| BcjFields.MisalignedBreaks | src/xz.rs:179-186 | on any other start the mirror misses every single converted instruction |
| BcjFields.FieldsInPlace | src/xz.rs:452-559 | the in-place loops compute the scan, Thumb's skip of four included |
| BranchReference.MatchesExactly | src/xz.rs:452-559 | the masks accept exactly the bytes of a branch, written out for each of the four kinds, and read its field |
| BranchReference.ConvertsAsDescribed | src/xz.rs:452-559 | every buffer converts as a description over those bytes says: branches have their field moved, all else stays |
| BranchReference.TargetBecomesDistance | src/xz.rs:452-559 | on aligned code the field of an absolute target becomes that of the distance from the processor's position, 8 or 4 bytes ahead for ARM and Thumb |
| BcjIa64.Rewritten | src/xz.rs:483-497 | writing an address into a slot changes neither its opcode nor any other bit, and can be undone |
| BcjIa64.SlotsCommute | src/xz.rs:473-500 | the three slots of a bundle, whose windows share bytes, may be converted in any order |
| BcjIa64.ScanInverse | src/xz.rs:466-503 | the IA-64 converter and its mirror undo each other on every buffer when the start is a multiple of 16 |
| BcjIa64.MisalignedBreaks | src/xz.rs:179-186 | and miss a branch on any other start |
| BcjIa64.Ia64InPlace | src/xz.rs:466-503 | the in-place loop over bundles computes the scan |
| BundleReference.SlotsByTemplate | src/xz.rs:466-472 | which of the 32 templates have a branch in which slot |
| BundleReference.ConvertsAsDescribed | src/xz.rs:466-500 | a bundle as a 128-bit number: its template stays, the relative branches in its branch slots are moved, and no other bit changes |
| BundleReference.TargetBecomesDistance | src/xz.rs:488-497 | on an aligned bundle an address becomes the distance to it in bundles |
| Bcj.InverseExactlyWhenAligned | src/xz.rs:381-392 | all six: a converter undoes its mirror on every buffer if and only if the start offset is a multiple of the filter's alignment |
| Bcj.DecodeInPlace | src/xz.rs:383-392 | the dispatch rewrites the buffer to its conversion |
| Crc64.StepInjective | src/xz.rs:370-376 | a shift step loses no information, because the polynomial's top bit is set |
| Crc64.Compute | src/xz.rs:365-379 | the two loops compute the fold of the step over the message |
| Crc64.DetectsEightByteDamage | src/xz.rs:365-379 | two messages of one length that differ only inside eight consecutive bytes never have the same check |
| Crc64.CheckValue | src/xz.rs:365-379 | the value published for CRC-64/XZ: the nine digits give 0x995DC9BBDF1939FA |
| Crc64.CheckValueBytes | src/xz.rs:250 | whose bytes are stored lowest first |
| XzFormat.VarintExact | src/xz.rs:340-356 | a number reads back exactly from its minimal encoding, and only numbers below 2^63 have one |
| XzFormat.ChainExact | src/xz.rs:154-188 | a filter chain is accepted exactly when it prints one LZMA2 filter with at most one converter before it |
| XzFormat.HeaderExact | src/xz.rs:129-191 | a block header is accepted exactly when it is the print of its fields, sealed by its CRC-32 |
| XzFormat.BlockExact | src/xz.rs:193-255 | a block is accepted exactly when it is header, payload, zero padding to four and a matching check, with both sizes right where they are given |
| XzFormat.BlocksSound | src/xz.rs:115-126 | an accepted run of blocks is the print of those blocks |
| XzFormat.BlocksComplete | src/xz.rs:115-126 | and every printed run of valid blocks is accepted |
| XzFormat.IndexSound | src/xz.rs:269-292 | an accepted index lists each block's unpadded and uncompressed sizes in order |
| XzFormat.IndexComplete | src/xz.rs:269-292 | and every such index is accepted |
| XzFormat.FooterSound | src/xz.rs:293-316 | an accepted footer repeats the flags, gives the index size, and is followed by zeros in fours only |
| XzFormat.FooterComplete | src/xz.rs:293-316 | and every such footer is accepted |
| XzFormat.StreamExact | src/xz.rs:97-317 | a stream is accepted as a list of blocks exactly when it is the print of that list: no stream has two readings and no byte is unaccounted for |
| XzAccounts.BlockAccounted | src/xz.rs:222-237 | a block's index record is the bytes the block takes up less its padding, check included, and the bytes it holds |
| XzAccounts.StreamAccounted | src/xz.rs:97-317 | a valid stream is as long as its two twelve-byte ends, its unpadded sizes rounded up to four, its index and its padding; the uncompressed sizes add up to what it holds |
| XzAccounts.FilterIds | src/xz.rs:154-188 | the id and properties bytes of every filter |
| XzAccounts.Checks | src/xz.rs:107-113 | the check types, their sizes and the bytes each writes |
| XzAccounts.ExampleReads | src/xz.rs:97-317 | the sixty bytes of a known stream are accepted as the block and the data they stand for |
| XzReader.ReadVarint | src/xz.rs:340-356 | the loop accepts and advances as the grammar does, and a refusal says which of the three ways it failed |
| XzReader.ReadFilters | src/xz.rs:154-188 | so does the loop over filters |
| XzReader.ReadHeader | src/xz.rs:129-191 | and the block header's parse |
| XzReader.ReadBlock | src/xz.rs:121-257 | one turn of the block loop yields the block, what it holds and where the next one starts |
| XzReader.CheckIndexAndFooter | src/xz.rs:269-317 | accepts exactly the tails the grammar accepts for the given records and flags |
| XzReader.Decompress | src/xz.rs:90-259 | the block loop returns the concatenated contents when the stream parses and they fit `max_out`, and an error otherwise |
| XzReader.ReadsExactly | src/xz.rs:90-317 | the container round trip: the reader returns `out` if and only if the stream is the print of some valid blocks that hold `out`, and `out` fits the bound |
| XzReader.FilteredBlockHolds | src/xz.rs:238-245 | a block whose data was run through the mirror converter, at an aligned offset, holds the original data |
| XzReader.ReservedBitsIgnored | src/xz.rs:102-113 | every valid stream is accepted, with the same contents, however its reserved flag bits are set |
| XzReader.ReservedBitsClearExactly | src/xz.rs:102-113 | an accepted stream keeps to section 2.1.1.2 exactly when its eighth byte is below 16 |
| XzReader.Sha256OnlyEmpty | src/xz.rs:107-113 | a stream with SHA-256 checks is accepted exactly when it has no blocks and its padding is in fours |
| Metadata.Pull | src/metablock.rs:167-195 | the next block starts 3 to 8194 bytes on and inside the device, so the sum never leaves a u64 |
| Metadata.PullExact | src/metablock.rs:167-195 | a block is read at an offset exactly where one is stored: a length header whose top bit marks a stored payload, then the payload, and nothing more |
| Metadata.MetaCache.SetCapacity | src/metablock.rs:96-102 | empties the cache and its counters |
| Metadata.MetaCache.Get | src/metablock.rs:116-130 | gives the entry of a key if there is one and counts a hit or a miss, neither when the cache is off |
| Metadata.MetaCache.Insert | src/metablock.rs:132-137 | keeps every entry equal to an uncached read, within the capacity, whatever is evicted |
| Metadata.ReadBlock | src/metablock.rs:146-165 | bytes, successor and errors equal an uncached read's, for every cache state and eviction policy, and every lookup made while the cache is on is counted |
| Cursor.ReadsCompose | src/metablock.rs:377-390 | k reads one after the other are one read of the total, with the same error when they fail |
| Cursor.MetaCursor.constructor | src/metablock.rs:308-330 | a new cursor stands for the rest of its block and every block after it |
| Cursor.MetaCursor.Refill | src/metablock.rs:345-375 | pulling a block changes what is held, shared or spliced, but not the stream ahead; it fails only where the stream stops |
| Cursor.MetaCursor.Ensure | src/metablock.rs:377-383 | ends on every device; succeeds exactly when the stream has n bytes left |
| Cursor.MetaCursor.ReadExact | src/metablock.rs:385-390 | returns exactly the next n bytes of the flat stream, or its error and the stream as it was |
| Cursor.MetaCursor.ReadWord | src/metablock.rs:392-410 | the same for little-endian words |
| Cursor.MetaCursor.RefillsBounded | src/metablock.rs:339-375 | every block a limited cursor pulls after its first starts before the limit, at most ceil((limit - first successor) / 3) of them; without a limit at most one per three bytes of device; the bytes held are at most 8192 per block pulled |
| Cursor.Open | src/metablock.rs:308-330 | opens at a reference or fails as the stream there does |
| References.AheadChain | src/metablock.rs:345-375 | the flat stream of a chain of blocks is their bytes one after the other, and then what follows the chain |
| References.ReferenceAddresses | src/metablock.rs:222-252 | a reference counts bytes on disk to a block's header and then bytes inside the block: opening it is skipping, in the table's flat stream, the blocks before it and so many bytes of its own |
| References.PackedSplits | src/metablock.rs:222-227 | the two halves of a packed reference |
| References.PastTheDevice | src/metablock.rs:230-252 | a reference past the device, or past every u64, is an error |
| References.InodesAnywhere | src/inode.rs:203-214 | an inode written at any place of the inode table is what its packed reference reads |
| References.ListingsAnywhere | src/fs.rs:450-480 | a listing written at any place of the directory table is what the directory that names it lists |
| References.SetsAnywhere | src/xattr.rs:245-262 | a set of pairs written at any place of the attribute table is what its id reads |
| References.ValuesAnywhere | src/xattr.rs:335-351 | and so is a value by its reference |
| Superblock.NearestAfterIsNearest | src/superblock.rs:258-293 | a table's end is the smallest later start that is present |
| Superblock.CheckOrder | src/superblock.rs:183-197 | the loop with its carried start accepts exactly the ordered tables |
| Superblock.Validate | src/superblock.rs:142-245 | accepts exactly the layouts that are inside the image, in order, with the root inside the inode table and no more inodes than the bound; a refusal names the first check that fails |
| Superblock.AcceptedByField | src/superblock.rs:142-245 | what is accepted, as inequalities between the fields by name |
| Superblock.DirectoryEndByField | src/superblock.rs:273-293 | the directory table's bound, by name: the nearest of the later tables and the image's end |
| Superblock.EndsAtDirectoryTable | src/superblock.rs:178-271 | after the ordering checks the inode table ends at the directory table |
| Superblock.RealCountsPass | src/superblock.rs:178-271 | any chain of metadata blocks that fills the inode table holds no more 16-byte inodes than the bound allows, so no real table is refused |
| Inode.ReadInode | src/inode.rs:203-318 | reads what the stream at the reference spells, through any cache |
| Inode.ReadInodesWellFormed | src/inode.rs:203-346 | every inode that reads has as many block sizes as its size, the block size and its fragment call for |
| Inode.NumberFits | src/inode.rs:220 | inode numbers are below 2^32, which bounds the directories a walk can enter |
| Inode.TypesNamed | src/inode.rs:53-64 | the kind of each of the fourteen types |
| Inode.BlockCountMeans | src/inode.rs:321-333 | a file without a fragment has the blocks that cover it, one with a fragment those it fills |
| Inode.TooManyBlocksMeans | src/inode.rs:321-333 | and is refused exactly when they would be more than 2^24 |
| InodeFormat.InodeFieldsPlaced | src/inode.rs:216-310 | every field of an inode comes from its own byte offset in the record, type by type; fields a type lacks have their defaults |
| InodeFormat.InodeBodyPlaced | src/inode.rs:231-353 | block sizes, symlink targets and the attribute index behind a target come from their own places too |
| InodeFormat.RecordRoundTrip | src/inode.rs:203-353 | a printed inode of any type reads back as what it stores |
| InodeFormat.RecordSound | src/inode.rs:203-353 | whatever reads as an inode is the print of a record that stores it |
| Dir.ListingExact | src/dir.rs:50-116 | a buffer is accepted as a list of groups exactly when it is the print of that list: 1 to 256 entries a group, legal names, every byte consumed |
| Dir.ReferencesSplit | src/dir.rs:60-112 | every entry of a listing comes from an entry of one of its groups, and its packed reference splits back into that group's start and the entry's own offset |
| Dir.ReadEntry | src/dir.rs:74-101 | one entry's parse, with the error of the first check that fails |
| Dir.ReadEntries | src/dir.rs:73-113 | the inner loop yields the group's entries resolved against its header |
| Dir.ParseListing | src/dir.rs:50-116 | the nested loops accept and resolve as the grammar does, errors included |
| Table.ReadIndirectTable | src/table.rs:112-164 | gives the blocks its pointers name laid end to end, or the first failure, and no pointer array outside the filesystem |
| Table.TableExact | src/table.rs:112-164 | a table reads exactly where one is stored: as many eight-byte pointers as its size needs, inside the filesystem, to blocks that together hold it |
| Table.ReadIdTable | src/table.rs:168-181 | one id per entry, in order |
| Table.ReadFragmentTable | src/table.rs:185-203 | one start and size word per 16-byte entry, in order |
| Table.ReadExportTable | src/table.rs:298-338 | absent exactly for the sentinel, refused exactly when its pointers have no room, otherwise one pointer per block of entries |
| Table.LookupExport | src/table.rs:264-290 | a lookup through any cache is the uncached one |
| Table.LookupRefinesTable | src/table.rs:264-290 | entry number - 1 of all blocks laid end to end, for every number covered, when every block but the last is full |
| Table.NeverTooShort | src/table.rs:278-281 | the "shorter than it claims" error cannot happen for a table that was read |
| Xattr.SetsAddUp | src/xattr.rs:245-328 | an accepted set has exactly its declared count, every name in one of the three namespaces and within the limits, and the sum of name + 1 + value lengths is the declared size |
| Xattr.PairsRoundTrip | src/xattr.rs:260-328 | printed pairs, inline and out of line, read back as what they mean |
| Xattr.PairsSound | src/xattr.rs:260-328 | every accepted run of pairs is the print of legal pairs that mean what was read |
| Xattr.PairsSpelled | src/xattr.rs:260-309 | the bytes of a pair of each of the three namespaces: the namespace's number as type with the value in line, 256 more with a reference |
| Xattr.IdRoundTrip | src/xattr.rs:220-233 | a set's id is its reference, count and size in that order |
| Xattr.ReadOutOfLine | src/xattr.rs:335-351 | a reference is followed once, through any cache |
| Xattr.ReadPair | src/xattr.rs:266-309 | one turn's pair, with the error of the first check that fails |
| Xattr.ReadSet | src/xattr.rs:245-328 | the loop gives what the uncached grammar gives, errors included |
| Xattr.ReadIdTable | src/xattr.rs:192-235 | absent exactly for the sentinel; otherwise the header's start and one id per 16-byte record |
| Xattr.ListedSize | src/capi.rs:920-941 | the size reported for a set's names is its declared size less the bytes of its values |
| Xattr.NamePlaced | src/capi.rs:927-941 | each name lies right behind the ones before it and ends with a zero byte |
| Xattr.CopyNames | src/capi.rs:927-941 | the buffer takes exactly the leading names that fit whole, nothing behind them changes, and the size returned is that of all names |
| FileData.BlockOffsets | src/fs.rs:661-677 | the saturating running sum gives each block the start its predecessors' sizes imply |
| FileData.DataCache.Get | src/fs.rs:113-127 | as the metadata cache's |
| FileData.DataCache.Insert | src/fs.rs:129-134 | the new entry and any others that fit; none ever differs from a decode of its whole key |
| FileData.DataCache.Read | src/fs.rs:757-770 | what an uncached decode gives, for every cache state |
| FileData.BlockLength | src/fs.rs:690-740 | a logical block of any inode that reads is exactly as long as the geometry says, and the `OutOfRange` branch is unreachable |
| FileData.ReadLogicalBlock | src/fs.rs:681-741 | full blocks, holes and tails through the cache are the uncached ones |
| FileData.CopyBlock | src/fs.rs:636-655 | one turn always makes progress: the "shorter than the offset" branch is unreachable |
| FileData.ReadFile | src/fs.rs:617-657 | returns min(len, size - offset) bytes, each the file's byte at its place, or the error of the first block that cannot be had; the rest of the buffer is untouched |
| FileData.ReadsOneWay | src/fs.rs:600-657 | there is one such answer |
| FileData.ReadIsSlice | src/fs.rs:600-657 | when the whole file can be had, a read is that slice of it |
| FileLayout.WholeFileExact | src/fs.rs:600-805 | a file reads as a content exactly when the image stores that content: blocks one behind the other from the start, holes of zeros, a tail inside a fragment block |
| FileLayout.DecodedExact | src/fs.rs:773-805 | a block decodes exactly where one is stored: its length as the size word with bit 24 set for stored bytes and clear for compressed ones |
| FileLayout.WrittenFileReads | src/fs.rs:617-741 | a file written chunk after chunk, holes without bytes, the rest in a fragment, reads back as its content |
| FileLayout.FragmentNeverOverflows | src/fs.rs:724-727 | the "fragment offset overflow" error cannot happen |
| CacheRace.StepKeepsGood | src/fs.rs:743-770 | every step of every reader, and every resize, keeps each entry equal to the uncached value of its key |
| CacheRace.RunsAreGood | src/fs.rs:743-770 | so does every run |
| CacheRace.RacingReadsAreUncached | src/fs.rs:743-770 | over every interleaving of any number of readers, resizes and evictions, each answer is exactly the uncached one, a second insert of one block changes no byte, and hits and misses count the lookups since the last resize |
| CacheRace.DataReadsRace | src/fs.rs:757-770 | so each reader of a data block gets exactly the decode of its whole key |
| CacheRace.BlockReadsRace | src/metablock.rs:146-165 | and each reader of a metadata block exactly the uncached block |
| CacheRace.BusyReadersMove | src/fs.rs:757-770 | no reader ever waits for another: a busy one always has a step that brings it nearer to its answer |
| Paths.TableEnd | src/fs.rs:162-183 | the nearest of the superblock's bound and every index's first pointer that can be read and lies past the table's start |
| Paths.ReadDir | src/fs.rs:435-481 | the listing the directory's bytes spell, with its refills bounded by the directory table whatever length is declared |
| Paths.PrintedDirectoryLists | src/fs.rs:450-480 | a directory lists exactly when its bytes are a print, and then what that print resolves to |
| Paths.EmptyDirectoryLists | src/fs.rs:450-453 | a directory of size 3 or less lists nothing |
| Paths.Lookup | src/fs.rs:484-491 | the inode of the first entry with the name, or `NotFound` |
| Paths.FirstNamedIsFirst | src/fs.rs:485-489 | the scan stops at the first entry with the name |
| Paths.LookupPath | src/fs.rs:526-535 | the loop resolves as walking the components does |
| Paths.ComponentsJoined | src/fs.rs:528 | joining paths with one or more slashes joins their components |
| Paths.PathsCompose | src/fs.rs:526-535 | resolving p, any number of slashes and q is resolving p and walking q's components from there |
| Paths.ListedNamesResolve | src/fs.rs:520-535 | a name a directory lists, handed back under the directory's path, reaches the first entry with that name |
| Capi.Handle.ResolveForRead | src/capi.rs:233-258 | the one-path cache answers as a fresh resolution does |
| Capi.Handle.ReadFileAt | src/capi.rs:771-796 | after any run of calls the answer, and the bytes in the caller's buffer, are a stateless read's |
| Capi.Handle.ListXattr | src/capi.rs:913-941 | the size the names of the path's attributes need, with as many whole names as fit at the front of the buffer; 0 without attributes |
| Capi.NoAttributes | src/fs.rs:555-561 | no table or an index of all ones means no attributes |
| Capi.WrittenAttributesListed | src/fs.rs:555-569 | pairs written for the set an inode's index names come out as their names and values |
| Capi.LengthBound | src/capi.rs:786-788 | bounding the length by the file's size changes no answer |
| Capi.StatelessReadsOneWay | src/capi.rs:771-796 | a stateless read has one answer |
| Capi.ResolvedWellFormed | src/capi.rs:245-258 | every inode a path reaches meets what the read loop relies on |
| Walk.SortIsStable | src/cli/squashfs/fs.rs:671 | siblings come in name order, none lost, equal names as they stood |
| Walk.NameLeMeans | src/cli/squashfs/fs.rs:671 | name order is dictionary order: a prefix first, and otherwise the first byte that differs decides |
| WalkOrder.SiblingsInOrder | src/cli/squashfs/fs.rs:671 | the lines of one directory come out in that order, under any bounds |
| WalkOrder.PrintedPathsNormal | src/cli/squashfs/fs.rs:652-687 | every path printed has a slash in front, none at the end but the root's, and never two in a row, however the start was spelled |
| WalkOrder.FileListsItself | src/cli/squashfs/fs.rs:662-669 | a start that is no directory is one line of depth 0, or the limit's error when no line is allowed |
| Walk.ListRecursive | src/cli/squashfs/fs.rs:647-705 | the loop with its own stack lists what the recursive preorder lists, cut by the bounds, and ends on every graph, cyclic or not |
| Walk.BoundedIsPrefix | src/cli/squashfs/fs.rs:688-693 | under any bounds the output is a prefix of the unbounded one, cut only before a line that would break a bound, and `Ok` means the two are equal |
| Walk.CutBefore | src/cli/squashfs/fs.rs:688-693 | a walk that is cut names the bound and the line it kept from being listed |
| Walk.EntriesMarked | src/cli/squashfs/fs.rs:697-703 | a line is marked revisited exactly when its directory's number was met before |
| Walk.ExpandedOnce | src/cli/squashfs/fs.rs:697-703 | no directory number is expanded twice |
| Walk.EntriesWhole | src/cli/squashfs/fs.rs:677-705 | a walk that is not stopped lists every entry of every directory it expands |
| Walk.PrintedPathsResolve | src/cli/squashfs/fs.rs:682-698 | with unique sibling names every path printed resolves to the inode it is printed for, and its depth counts its components |
| Walk.ShownResolves | src/cli/squashfs/fs.rs:652-659 | the normalised start path resolves as the path asked for |
| Reach.EntersAllExactly | src/cli/squashfs/fs.rs:661-705 | a walk that ends of its own accord enters every directory that can be reached if and only if the image gives no two of those directories one number |
| Reach.EverythingReachableIsListed | src/cli/squashfs/fs.rs:661-705 | and on those images it lists every inode that can be reached |
| Reach.DoneListsEverything | src/cli/squashfs/fs.rs:661-705 | on those images a listing that returns `Ok`, under any bounds, lists every inode any path below its start reaches |
| Reach.SharedNumberHidesEntries | src/cli/squashfs/fs.rs:697-703 | two directories of one number: what only the second lists is on no line, although the walk ends without an error |
| SharedNumber.ListingMissesAnInode | src/cli/squashfs/fs.rs:697-703 | an image, byte by byte, that the layout checks accept and on which that happens: `b/c` resolves, the listing from the root returns `Ok`, and no line is about `c` |

## Left out

- XzReader.ReadFilters: says exactly which chains are refused, not with which message.
- XzReader.ReadHeader: the same for block headers.
- XzReader.ReadBlock: the same for blocks.
- XzReader.CheckIndexAndFooter: the same for what follows the blocks.
- XzReader.Decompress: the same for streams; nor is the variant modelled that skips the converter, which only tests use.
- Superblock.Validate: both messages about tables out of order are one case; parsing the 96 bytes is not modelled.
- Metadata.MetaCache.Insert: the least-recently-used order is left open, so the results hold for any eviction; counters are unbounded numbers where the source has u64.
- FileData.DataCache.Insert: as above; a poisoned lock is not modelled.
- CacheRace.BusyReadersMove: a schedule that never runs a reader again is not excluded; only that nothing but the schedule can hold it up.
- Walk.ListRecursive: gives the lines and the outcome; their JSON and text rendering, and the partial report on standard output, are not modelled. The library's sort is a function here.
- Xattr.CopyNames: the NULL-buffer probe is the case of an empty buffer; looking one attribute up by name is not modelled.
- Dir.ParseListing, Inode.ReadInode and the others give errors as named cases where the source has message strings.
- `has_filters` (`src/xz.rs:75-86`), which decides whether a stream takes this path at all.
- The codecs (zlib, LZMA, LZMA2, lz4, zstd, LZO) and CRC-32 are functions with a bound on their output; dispatch over compressors is not modelled.
- Block devices, their caching layer and I/O errors other than a read past the end.
- C pointers, thread-local error text and panics at the language border in the C interface.
- The other verbs of the command line, mode and device-number decoding, and the mapping of errors to errno values.
