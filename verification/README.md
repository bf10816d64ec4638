# lamfold, modelled and proved

A Dafny model of lamfold, a stack of read-only filesystem readers, and proofs about it. The
places modelled are those where a compact or windowed on-disk form has to agree with a simple
byte-sequence meaning:

- **EROFS** (`ErofsIndex`, `ErofsPacking`, `ErofsForms`, `ErofsStarts`, `ErofsDecode`,
  `ErofsArms`, `ErofsVolume`, `ErofsImage`): the bit-packed pcluster index against the full one,
  forward decoding with a sliding dictionary, the two caches, block-by-block verified reads over
  every data layout, and files read back from the bytes they were written as.
- **fs-verity** (`Verity`, `VerityFormat`): the Merkle measurement, byte by byte and as a binding
  commitment, the leaf verifier, and what an accepted block is worth.
- **cpio** (`CpioRecords`, `CpioTree`, `CpioArchive`, `CpioChain`, `CpioVolume`,
  `CpioInitramfs`, `CpioFiles`): the initramfs chain of archives and compressed members, hard
  links, the decompression budget, the tree kept in an index-linked vector, and every file read
  back from an input it was written to.
- **The substrate** (`PathResolver`, `Frontend`, `BlockCache`, `Crc32`, `Crc32Division`,
  `Streams`, `StreamForms`): symlink resolution, the least-recently-used cache, the table-driven
  CRC-32 as polynomial division, and compressed streams read back.
- **ISO9660 and Rock Ridge** (`IsoDirectory`, `IsoSectors`, `IsoWalks`, `IsoVolume`, `IsoImage`,
  `RockRidge`): directories with multi-extent files, names and link targets in pieces, node
  interning.
- **SquashFS** (`SquashMeta`, `SquashDir`, `SquashInodes`, `SquashVolume`, `SquashImage`) and
  **UDF** (`UdfRecords`, `UdfDir`, `UdfVolume`, `UdfImage`): metadata streams, windowed file
  reads, directory listings.

`Bytes`, `Windows`, `VerifiedReads`, `Parts`, `Runs`, `Extents` and `Interning` hold what several
readers share; `Refusals` says which media are refused.

## How it is modelled

The medium is an immutable sequence of bytes, read whole or refused. A file's logical content
is a function from positions to bytes, or to nothing where the medium has none to give; a read
must return exactly the window of that content, and may fail only where a byte of it is missing
(`Windows.WindowRead`). A reader whose methods update its fields is a class with those fields;
its loops are loops. Each such method is proved against a function of its inputs or its old
state, and what the code is for is proved of those functions. What a medium may look like is
written down apart from the readers: every on-disk structure read here has a form in terms of its kinds,
numbers and bytes, with the format's own values, and each reader is proved to give back what was
written in it.

SHA-256 and the block codecs are function-valued parameters about which nothing is assumed but,
where a theorem says so (`Honest`, `Bounded`), that a codec respects the length it was asked
for and that a stream decoder consumes input. Integrity theorems never assume that hashes do
not collide: they give either the genuine bytes or two different byte strings, both hashed on
the way, with one digest.

Errors keep the variant the code returns; their static text is dropped. Integers are unbounded
except where the code checks or wraps: the 32-bit block addresses of the EROFS index and of
UDF, the cache's 64-bit tick, the CRC word, on-disk field widths and the read caps.

Properties that do not hold as one would like, each with the exact condition or an example:

- The Merkle level loop ends for every input exactly when a block holds at least two digests
  (`ClimbStopsIffTwoDigestsFit`); the measurement functions are stated from 64-byte blocks on.
- The measurement does not bind a salt beyond its first 32 bytes when the file is empty
  (`LongSaltOfEmptyFileNotBound`); otherwise it binds everything (`MeasurementBinds`).
- A decoded EROFS file has its recorded length if and only if every Zstd frame on the medium
  decodes to exactly its pcluster's extent, which nothing checks (`FillsIffFrameFits`,
  `MaterializedLength`; `ShortZstdShiftsTheRest` is an inode for which it does not). With codecs
  that give the length they are asked for, or no Zstd, pclusters tile every inode (`InodeTiles`).
- The comment at `crates/lamfold-erofs/src/erofs.rs:449-450`, that only the last pcluster can be
  empty, holds of an index if and only if, for every opening lcluster before the last, its offset
  (0 for the first, counted from lcluster 0) is less than the distance to the next opening
  lcluster plus that one's offset (`EmptyIffOffsetReaches`, `InodeStartsIncreaseIff`);
  `MiddlePclusterCanBeEmpty` is an inode for which it is not. The code does not rely on it.
- A UDF block address is partition start plus block, as a 32-bit sum that wraps
  (`PlacedIffInRange`); a build that traps overflow stops there instead.
- Hard links none of which carries data keep their own empty extents (`LinksShareData`).
- A SquashFS metadata offset beyond the first block is read as that block's end
  (`MetaSpanIsSlice`).
- A symlink target read by EROFS is not shown to the verifier (`Erofs.ReadLink` takes none).

## Model

| member | source | states |
|---|---|---|
| `ErofsForms.CompactIsFullCompressed` | crates/lamfold-erofs/src/erofs.rs:493-552 | For every pcluster list with 12-bit offsets whose blocks are consecutive inside each region, at any index base, the compact index and the full index, written out and read, resolve to the same heads |
| `ErofsForms.CompressibleIffConsecutive` | crates/lamfold-erofs/src/erofs.rs:877-890 | The non-big compact form can hold an index's block addresses if and only if they are consecutive inside each amortisation region |
| `ErofsForms.BigRoundTrip` | crates/lamfold-erofs/src/erofs.rs:527-552 | A big-pcluster index, packed to bytes and read, gives back every start, type, block count and block address, whatever the bases after the first |
| `ErofsForms.BigResolves` | crates/lamfold-erofs/src/erofs.rs:849-916 | The resolved heads of a big index: each pcluster right after the blocks of those before it, below block 2^32 |
| `ErofsForms.BigSpansTile` | crates/lamfold-erofs/src/erofs.rs:899-914 | In big mode, for any index that resolves: spans contiguous from the first base, non-empty, pairwise disjoint |
| `ErofsForms.WrittenIndexHolds` | crates/lamfold-erofs/src/erofs.rs:493-522 | A full index written entry by entry is one that holds its lclusters, so that the two theorems above are about bytes |
| `ErofsStarts.EmptyIffOffsetReaches` | crates/lamfold-erofs/src/erofs.rs:509-514 | Of two consecutive pclusters of either index: the first is empty exactly when its offset is (distance in lclusters) times the lcluster size plus the next one's offset, and has bytes exactly when it is less; the first pcluster of a file starts at 0 whatever its offset says |
| `ErofsStarts.InodeStartsIncreaseIff` | crates/lamfold-erofs/src/erofs.rs:436-453 | For every compressed inode, full or compact, whose index resolves: starts strictly increase, so that only the last pcluster can be empty, if and only if every offset before the last is less than that distance |
| `ErofsStarts.OffsetsInsideFallShort` | crates/lamfold-erofs/src/erofs.rs:871-876 | Which they are when every offset lies inside its lcluster |
| `ErofsStarts.MiddlePclusterCanBeEmpty` | crates/lamfold-erofs/src/erofs.rs:446-450 | A medium and an inode on it whose index resolves to an empty middle pcluster: the comment that only the last one can be empty is not true of every index |
| `ErofsPacking.UnpackUndoesPack` | crates/lamfold-erofs/src/erofs.rs:534-551 | Unpacking any packed index gives every code, numbered with its region and carrying its region's base |
| `ErofsPacking.ReadUndoesPutBits` | crates/lamfold-erofs/src/erofs.rs:832-843 | Reading 14 bits LSB-first undoes the packing of sixteen 14-bit codes |
| `ErofsPacking.IndexIsLaid` | crates/lamfold-erofs/src/erofs.rs:534-551 | Where the zones are, without their arithmetic: from the base on, a group of two codes in eight bytes wherever fewer than sixteen codes are left or the place is no multiple of 32, and sixteen in 32 bytes otherwise |
| `ErofsIndex.ZoneGeometry` | crates/lamfold-erofs/src/erofs.rs:534-551 | For every 8-byte-aligned base and lcluster count: the zones sum to the count, a non-empty 2-byte zone is 32-byte aligned, the unpackers consume exactly the index and give exactly one entry an lcluster |
| `ErofsIndex.IdxLenBelowCap` | crates/lamfold-erofs/src/erofs.rs:539-540 | The read cap never refuses the index of a file that is itself below the cap |
| `ErofsIndex.ReadBitsLsb` | crates/lamfold-erofs/src/erofs.rs:832-843 | Fails exactly when the bits run past the buffer; otherwise the number those bits spell, least significant first |
| `ErofsIndex.FullEntryOpens` | crates/lamfold-erofs/src/erofs.rs:493-522 | An entry of a full index opens a pcluster if and only if its two type bits are not 2; what it opens starts at lcluster times size plus offset, or at 0 if it is the first, with the type and the block its bytes give; a hole is refused |
| `ErofsIndex.CompactEntryOpens` | crates/lamfold-erofs/src/erofs.rs:849-898 | A 14-bit code opens a pcluster if and only if its top two bits are not 2, with its low twelve as the offset; one that is 2 sets the block count of the pcluster before it exactly in big mode with the marker bit set |
| `ErofsIndex.Read4bGroups` | crates/lamfold-erofs/src/erofs.rs:763-793 | The loop gives the entries of the 8-byte groups, with position and region advanced by the groups read |
| `ErofsIndex.Read2bPacks` | crates/lamfold-erofs/src/erofs.rs:799-827 | The loop gives the entries of the 32-byte packs, with position and region advanced by the packs read |
| `ErofsIndex.BuildHeadsFull` | crates/lamfold-erofs/src/erofs.rs:493-522 | The loop over the full index gives the heads its entries spell, entry by entry as FullEntryOpens says |
| `ErofsIndex.OpenPass` | crates/lamfold-erofs/src/erofs.rs:853-898 | The first pass, with its per-region map and patched counts, opens each head with its rank in its region |
| `ErofsIndex.AssignPass` | crates/lamfold-erofs/src/erofs.rs:899-914 | The second pass: block addresses as a running sum, refused on 32-bit overflow |
| `ErofsIndex.ResolveCompactHeads` | crates/lamfold-erofs/src/erofs.rs:849-916 | Both passes together: the heads of an unpacked index |
| `ErofsIndex.BuildHeadsCompact` | crates/lamfold-erofs/src/erofs.rs:527-552 | Zones, cap, one read, three unpacking calls and resolution: the heads of the compact index, entry by entry as CompactEntryOpens says |
| `ErofsArms.DecodesIff` | crates/lamfold-erofs/src/erofs.rs:921-1049 | What a pcluster decodes to, for every type and algorithm by its number, in terms of the codecs alone: for type 0 the bytes themselves, for 1 and 3 the first and the second algorithm of the map header; LZ4, MicroLZMA, Deflate or Zstd, each given the part of the blocks that is its stream, its cap and its window |
| `ErofsArms.PaddedLz4` | crates/lamfold-erofs/src/erofs.rs:984-1003 | On a zero-padded volume LZ4 is given the stream behind any number of zeros and nothing of them; without the feature, the whole span |
| `ErofsArms.PaddedLzma` | crates/lamfold-erofs/src/erofs.rs:1037-1049 | A MicroLZMA stream behind any number of zeros is decoded with its first byte, inverted, as its properties |
| `ErofsArms.PaddedDeflate` | crates/lamfold-erofs/src/erofs.rs:1005-1022 | A Deflate stream behind zeros is decoded from its own first byte, unless the padded span itself inflates to the right length or is refused |
| `ErofsArms.PaddedZstd` | crates/lamfold-erofs/src/erofs.rs:1024-1035 | A Zstd frame behind any number of zeros is decoded from its magic |
| `ErofsArms.InodeTiles` | crates/lamfold-erofs/src/erofs.rs:373-473 | For every inode that decodes, with codecs that give the length they are asked for or with no Zstd selected: every pcluster's part of the content is what its blocks decode to, after the content before it, and the parts are the content from first byte to last |
| `ErofsArms.TilesDecode` | crates/lamfold-erofs/src/erofs.rs:373-473 | Conversely, whatever the codecs: a content whose parts the pclusters' blocks decode to, each after the content before it, is what the inode decodes to |
| `ErofsDecode.FillsIffFrameFits` | crates/lamfold-erofs/src/erofs.rs:921-981 | In a decode that succeeds, with codecs that never give more than they are asked for, a pcluster fills its extent exactly when it is not Zstd's or the frame found in its blocks decodes to exactly the extent: a condition on the medium and the codec alone |
| `ErofsDecode.PclusterTile` | crates/lamfold-erofs/src/erofs.rs:436-471 | When every Zstd frame fits, pcluster k is exactly content[start_k..end_k], decoded with content[..start_k] as the output so far |
| `ErofsDecode.MaterializedLength` | crates/lamfold-erofs/src/erofs.rs:373-473 | A compressed inode that opens a pcluster decodes to i_size bytes if and only if every Zstd frame on the medium fits its pcluster; never to more; with no pcluster, to nothing |
| `ErofsDecode.SegmentLength` | crates/lamfold-erofs/src/erofs.rs:921-981 | No pcluster decodes to more than its extent, and only a Zstd one to less |
| `ErofsDecode.CoversIffFramesFit` | crates/lamfold-erofs/src/erofs.rs:436-471 | After n pclusters the output covers their extents exactly when every Zstd frame among them fits |
| `ErofsDecode.ShortZstdShiftsTheRest` | crates/lamfold-erofs/src/erofs.rs:1024-1035 | A medium and an inode on it, index included: its Zstd frame decodes to nothing, and the file's content is the next pcluster's bytes, half as long as the inode says |
| `ErofsArms.Lz4Dictionary` | crates/lamfold-erofs/src/erofs.rs:952-964 | What LZ4 can reach back into is content[max(0, start - 65536)..start] |
| `ErofsDecode.HeadsStartAtZero` | crates/lamfold-erofs/src/erofs.rs:510-514 | Both index forms open their first pcluster at logical offset 0 |
| `ErofsDecode.DecodeAll` | crates/lamfold-erofs/src/erofs.rs:436-471 | The decode loop, empty extents skipped and backward starts refused, appends each pcluster's bytes |
| `ErofsDecode.DecodeInode` | crates/lamfold-erofs/src/erofs.rs:373-473 | Header, refused layouts, cluster size, heads and decode loop: the decoded inode, of which TilesDecode and InodeTiles say what it is |
| `Refusals.MapRefused` | crates/lamfold-erofs/src/erofs.rs:373-412 | Which map headers are refused, and how, by their bytes: sizes over 512 MiB, fragments and inline or interlaced pclusters, lclusters over 1 GiB |
| `Refusals.CompactRefused` | crates/lamfold-erofs/src/erofs.rs:414-431 | A compact index of lclusters over 4 KiB, or packed by four bytes, is refused |
| `Refusals.PclusterRefused` | crates/lamfold-erofs/src/erofs.rs:921-981 | Pclusters over 16 MiB, unknown algorithms and MicroLZMA without its configuration are never decoded |
| `ErofsVolume.Erofs.constructor` | crates/lamfold-erofs/src/erofs.rs:600-636 | A mounted volume with block sizes 512 to 65536 starts with empty caches that agree with it |
| `ErofsVolume.Erofs.ParseInode` | crates/lamfold-erofs/src/erofs.rs:161-217 | The cached or fresh inode is always the one a fresh parse gives, which InodeReadsBack says is the one written; only a good parse enters the cache |
| `ErofsVolume.Erofs.MaterializeCompressed` | crates/lamfold-erofs/src/erofs.rs:373-376 | The decoded cache only ever holds what a fresh decode of the inode gives |
| `ErofsVolume.Erofs.ReadInodeData` | crates/lamfold-erofs/src/erofs.rs:223-274 | In every layout, whatever is cached: exactly the window of one logical content, or an error where some byte of the window is not to be had |
| `ErofsVolume.ReadPlain` | crates/lamfold-erofs/src/erofs.rs:236-240 | The plain layout's window is a slice at the block address |
| `ErofsVolume.ReadInline` | crates/lamfold-erofs/src/erofs.rs:241-257 | The inline layout's window: whole blocks at the block address, then the tail after the inode |
| `ErofsVolume.ReadChunked` | crates/lamfold-erofs/src/erofs.rs:281-327 | A chunked window: holes read as zeros, other chunks from their blocks, across any number of chunks |
| `ErofsVolume.Erofs.ReadDecoded` | crates/lamfold-erofs/src/erofs.rs:258-270 | A compressed window is a slice of the decoded content |
| `ErofsVolume.Erofs.ReadAt` | crates/lamfold-erofs/src/erofs.rs:695-736 | Succeeds exactly when every touched block can be read and is accepted, and then gives the whole clipped window; on any outcome only bytes of accepted blocks were written |
| `ErofsVolume.Erofs.ReadLink` | crates/lamfold-erofs/src/erofs.rs:738-748 | A symlink's target is its whole content or an error; other kinds have none; oversized ones are refused |
| `ErofsVolume.Erofs.ReadGenuine` | crates/lamfold-erofs/src/erofs.rs:695-736 | End to end with a Merkle verifier over the genuine content at the volume's block size: genuine bytes only, zero-extended in the last block, even on error, or one of the blocks read for the window and accepted collides with the genuine block at its place |
| `ErofsVolume.Erofs.ReadTrusted` | crates/lamfold-erofs/src/erofs.rs:695-736 | The same for any verifier that vouches for the genuine content |
| `ErofsVolume.MerkleIsTrusted` | crates/lamfold/src/verity.rs:161-176 | Every byte of every block a Merkle verifier accepts is genuine, or that block collides with the genuine one |
| `ErofsVolume.VerifiedReadIsGenuine` | crates/lamfold-erofs/src/erofs.rs:716-733 | A verified read over such a verifier is genuine, or a block of its window, accepted, collides |
| `VerifiedReads.VerifiedReadIsContent` | crates/lamfold-erofs/src/erofs.rs:695-736 | A successful verified read is the window of the logical content |
| `VerifiedReads.CopyOverlap` | crates/lamfold-erofs/src/erofs.rs:724-732 | The copy of the wanted part of a verified block into the caller's buffer, and nothing else of it |
| `Windows.WindowsConcatenate` | crates/lamfold-erofs/src/erofs.rs:223-274 | However a window is cut, the parts read separately make up the whole, failures included |
| `ErofsImage.InodeReadsBack` | crates/lamfold-erofs/src/erofs.rs:161-217 | A written inode, compact or extended, of any kind, layout, size and number of extended attributes, is read back with its block address and the place behind it |
| `Refusals.InodeRefusedIff` | crates/lamfold-erofs/src/erofs.rs:161-192 | An inode is refused exactly when its offset is no 64-bit number or the medium ends within its 32 or 64 bytes |
| `ErofsImage.MapReads` | crates/lamfold-erofs/src/erofs.rs:379-412 | A written map header is read back: lcluster size, packing, big pclusters, both algorithms |
| `ErofsImage.FullIndexReads` | crates/lamfold-erofs/src/erofs.rs:493-522 | A file with a full index on the medium, its lclusters' types written as 0, 1, 3 and 2, resolves to what its lclusters mean |
| `ErofsImage.CompactIndexReads` | crates/lamfold-erofs/src/erofs.rs:527-552 | The same file with a compact index, wherever its blocks are consecutive inside each region, resolves to the same |
| `ErofsImage.BigIndexReads` | crates/lamfold-erofs/src/erofs.rs:527-552 | A file with a compact index of big pclusters resolves to them |
| `ErofsImage.DataReads` | crates/lamfold-erofs/src/erofs.rs:223-327 | Data written in any of the six forms (blocks; whole blocks and a tail behind the inode and its extended attributes; chunks and holes behind a table; pclusters under a full, a compact or a big index) is the content of its inode, byte by byte |
| `ErofsImage.ReadBack` | crates/lamfold-erofs/src/erofs.rs:695-736 | A file written so reads back through any verifier that accepts it, any window of it, whatever is cached |
| `ErofsImage.ReadMeasured` | crates/lamfold-erofs/src/erofs.rs:695-736 | And so through the Merkle verifier over its own data at the volume's block size, for every hash |
| `ErofsImage.MerkleVouches` | crates/lamfold/src/verity.rs:161-176 | That verifier accepts every block of the data it was built over |
| `ErofsImage.ReadLinkBack` | crates/lamfold-erofs/src/erofs.rs:738-748 | A written symlink's target is its data; nothing else has one |
| `Refusals.ChunksAcceptedIff` | crates/lamfold-erofs/src/erofs.rs:297-316 | A chunk format is accepted exactly when it has none but the five bits of the chunk size, of at most 1 TiB |
| `Verity.MeasurementBinds` | crates/lamfold/src/verity.rs:44-114 | Two different measured inputs with one digest give, by descending the levels, two different byte strings hashed on the way that have one digest |
| `Verity.SameMeasuredSameDigest` | crates/lamfold/src/verity.rs:44-62 | Conversely, inputs the measurement does not tell apart have one digest |
| `Verity.ShortSaltsFullyBound` | crates/lamfold/src/verity.rs:53-58 | With salts of at most 32 bytes the measurement tells everything apart: data, block size and salt |
| `Verity.LongSaltOfEmptyFileNotBound` | crates/lamfold/src/verity.rs:53-58 | Two longer salts of an empty file with one digest, whatever the hash |
| `Verity.ClimbStopsIffTwoDigestsFit` | crates/lamfold/src/verity.rs:96-114 | For power-of-two block sizes: a level shrinks for every input exactly when a block holds two digests; otherwise it never does and the loop never ends |
| `Verity.RootBinds` | crates/lamfold/src/verity.rs:96-114 | Equal roots over different content of one length: a collision at some level |
| `Verity.LeavesAreFirstLevel` | crates/lamfold/src/verity.rs:132-148 | The verifier's leaf layer is the first level that the measured root is climbed from |
| `Verity.VerifyAcceptsIff` | crates/lamfold/src/verity.rs:161-176 | A block is accepted exactly at an aligned offset inside the genuine data where it hashes like the genuine block |
| `Verity.AcceptedIsGenuineOrCollides` | crates/lamfold/src/verity.rs:161-176 | An accepted block is the genuine one, zero-extended in the last block, or collides with it |
| `Verity.ComputePaddedSalt` | crates/lamfold/src/verity.rs:66-76 | The padded salt: the salt, then zeros up to a multiple of 64; nothing for no salt |
| `Verity.PaddedSalt` | crates/lamfold/src/verity.rs:66-76 | A salt prefix is a multiple of 64 bytes, less than 64 longer than the salt, and begins with it |
| `Verity.ComputeHashBlock` | crates/lamfold/src/verity.rs:79-91 | The piecewise feeding hashes salt prefix, block and zeros up to the block size |
| `Verity.ComputeMerkleRoot` | crates/lamfold/src/verity.rs:96-114 | The level loop ends, and gives the root of the recursive tree |
| `Verity.ComputeFsverityDigest` | crates/lamfold/src/verity.rs:44-62 | The digest of the descriptor built from root, size, block size and salt, which MeasurementIs says byte by byte |
| `VerityFormat.MeasurementIs` | crates/lamfold/src/verity.rs:44-114 | What is measured, without the code's own functions: the padded salt, the levels (every digest at its offset, of salt, block and zeros in this order), the root, and the descriptor that is hashed |
| `VerityFormat.DescriptorIs` | crates/lamfold/src/verity.rs:48-60 | All 256 bytes of the descriptor by offset: version 1, algorithm 1, block size, salt length, size, root, salt, and zeros everywhere else |
| `VerityFormat.InputIs` | crates/lamfold/src/verity.rs:79-91 | What one block hashes: the padded salt, the block, zeros up to the block size |
| `VerityFormat.RootIsTree` | crates/lamfold/src/verity.rs:96-114 | The root is the digest of the last of a file's levels, each of which holds the digests of the blocks of the one before |
| `Verity.Over` | crates/lamfold/src/verity.rs:132-148 | The verifier built by the loop holds the leaf layer, padded salt and measurement |
| `CpioFiles.PathReadsBack` | crates/lamfold-cpio/src/cpio.rs:149-283 | For every input written from archives of valid entries, zeros and compressed members of such pieces: every path but a directory's reads back as the last record written for it, with the kind and the permission bits the entry was written with, and its bytes, hard links sharing the last non-empty data |
| `CpioFiles.MountWritten` | crates/lamfold-cpio/src/cpio.rs:343-365 | Mounting such an input: every path that a record sets is found as its last record says |
| `CpioFiles.ReadBack` | crates/lamfold-cpio/src/cpio.rs:413-432 | A written file reads back, any window of it |
| `CpioFiles.ReadLinkBack` | crates/lamfold-cpio/src/cpio.rs:434-440 | A written symlink's target is its data; nothing else has one |
| `CpioFiles.UnpackingUndoesWriting` | crates/lamfold-cpio/src/cpio.rs:191-283 | Such an input unpacks, members in buffers of their own and paid for from the budget, to all its records applied in order from the root, and every record's span holds the bytes it was written with |
| `CpioFiles.LastRecordWins` | crates/lamfold-cpio/src/cpio.rs:149-183 | The last record that sets a path is what is found there, whatever comes before and after it |
| `CpioFiles.RecordSaysIt` | crates/lamfold-cpio/src/cpio.rs:257-273 | A written record asks for its path with the kind and permissions its entry was written with, and its own bytes or those of the last non-empty link of its inode |
| `CpioChain.ChainUndoesPrint` | crates/lamfold-cpio/src/cpio.rs:191-228 | Any input printed from aligned archives, zero padding and compressed members that decode to such pieces unpacks to the fold of all records in order |
| `CpioVolume.EntriesFit` | crates/lamfold-cpio/src/cpio.rs:56-109 | Archives written from any valid entries, newc or CRC, are such pieces: their effect is their entries applied in order |
| `CpioFiles.SniffedIff` | crates/lamfold/src/stream.rs:38-54 | Each codec is recognised exactly by its magic bytes |
| `CpioVolume.PrintedArchiveFolds` | crates/lamfold-cpio/src/cpio.rs:232-283 | A printed archive folds to its records wherever it stands aligned, in any buffer |
| `CpioVolume.ZerosAreSkipped` | crates/lamfold-cpio/src/cpio.rs:199-206 | Zero bytes between archives change nothing |
| `CpioChain.ChainConserves` | crates/lamfold-cpio/src/cpio.rs:214-219 | Over any run, decompressed bytes plus remaining budget equal the initial budget, and buffers are only appended |
| `CpioVolume.ChainKeepsWellFormed` | crates/lamfold-cpio/src/cpio.rs:191-228 | Over any run the nodes stay a tree and every span stays inside its buffer |
| `CpioVolume.PartsProgress` | crates/lamfold-cpio/src/cpio.rs:197-227 | Given a decoder that consumes at least one byte, every step of the loop and of its recursion goes forward |
| `Refusals.ChainFinds` | crates/lamfold-cpio/src/cpio.rs:197-227 | A chain goes on at the first byte that is not zero: with a stream by its magic, with an archive only at a multiple of four, and with nothing else |
| `Refusals.ChainRefuses` | crates/lamfold-cpio/src/cpio.rs:197-227 | Anything else ends the chain in an error, and so does a stream inside a decompressed member |
| `CpioRecords.ParseUndoesPrint` | crates/lamfold-cpio/src/cpio.rs:72-109 | A record printed at a 4-aligned offset, hex fields in either case, padding and CRC sum included, parses to itself and to the offset after it |
| `CpioRecords.ParsesIffAcceptable` | crates/lamfold-cpio/src/cpio.rs:72-109 | A record as it may be written, with any check and any name length, parses if and only if its name length is 1 to 4096, and, in a CRC archive, a regular file's check is the sum of its bytes |
| `CpioRecords.HexValIff` | crates/lamfold-cpio/src/cpio.rs:57-70 | A byte is a digit of that value exactly if it is the one of 0123456789abcdef or of 0123456789ABCDEF |
| `CpioRecords.CheckIsTotal` | crates/lamfold-cpio/src/cpio.rs:92-100 | The check of a CRC record is the sum of its data's bytes as a 32-bit number |
| `CpioRecords.ModeSays` | crates/lamfold-cpio/src/cpio.rs:139-146 | A mode of 0x8000, 0x4000, 0xA000 or another type, and permissions, has that kind and those permissions |
| `CpioRecords.RecordInBounds` | crates/lamfold-cpio/src/cpio.rs:72-109 | A parsed record's name and data lie inside the archive, and the next record comes at least a header later |
| `CpioArchive.LinksShareData` | crates/lamfold-cpio/src/cpio.rs:257-273 | All links of an inode get the data of the last one that has any; if none has, each keeps its own empty extent |
| `CpioArchive.ArchivePrinted` | crates/lamfold-cpio/src/cpio.rs:232-283 | A printed archive, trailer included, is folded in as its records say |
| `CpioArchive.ArchiveKeeps` | crates/lamfold-cpio/src/cpio.rs:232-283 | An archive ends after it starts, keeps the tree a tree and every span in bounds |
| `CpioArchive.RecordsInBounds` | crates/lamfold-cpio/src/cpio.rs:238-255 | All records of an archive have their data inside it |
| `CpioTree.InsertRefines` | crates/lamfold-cpio/src/cpio.rs:149-183 | An insert is an update of the path map: missing prefixes become directories, the target is set unless a directory record meets an existing node, every other path keeps its attributes; ids never move |
| `CpioTree.OnePath` | crates/lamfold-cpio/src/cpio.rs:149-183 | In every reachable tree a node has one path |
| `CpioTree.EveryNodeHasAPath` | crates/lamfold-cpio/src/cpio.rs:149-183 | And every node is reached by one |
| `CpioTree.InsertKeepsSpans` | crates/lamfold-cpio/src/cpio.rs:149-183 | An insert of an in-bounds span keeps all spans in bounds |
| `CpioTree.RootIsTree` | crates/lamfold-cpio/src/cpio.rs:349-349 | The tree starts as the root alone |
| `CpioVolume.Cpio.Insert` | crates/lamfold-cpio/src/cpio.rs:149-183 | The loop over the components does what the recursive insert does, and keeps the tree |
| `CpioVolume.Cpio.InsertNewcArchive` | crates/lamfold-cpio/src/cpio.rs:232-283 | Both record loops, the link map and the inserts together: the archive's effect or its error, which ArchivePrinted and RecordSaysIt say for what is written |
| `CpioVolume.LinkedData` | crates/lamfold-cpio/src/cpio.rs:257-264 | The map built by the loop holds the data of each inode's last non-empty link |
| `CpioVolume.Cpio.InsertChain` | crates/lamfold-cpio/src/cpio.rs:191-228 | The loop and its recursion into members: the chain's final state or its error |
| `CpioVolume.Cpio.Decompress` | crates/lamfold-cpio/src/cpio.rs:208-221 | One member: decoded within the budget, appended as a buffer, its archives folded in from there |
| `CpioVolume.Cpio.Mount` | crates/lamfold-cpio/src/cpio.rs:343-365 | Opening folds the whole chain when the input starts with a newc magic, else a single foreign archive |
| `CpioVolume.Cpio.Data` | crates/lamfold-cpio/src/cpio.rs:323-325 | A node's span can always be sliced out of its buffer |
| `CpioVolume.Cpio.ReadAt` | crates/lamfold-cpio/src/cpio.rs:413-432 | The clipped window of the node's data, and nothing else of the caller's buffer |
| `CpioVolume.Cpio.ReadLink` | crates/lamfold-cpio/src/cpio.rs:434-440 | A symlink's whole data; other kinds have none |
| `PathResolver.Resolve` | crates/lamfold/src/path.rs:28-66 | The stack loop ends on every frontend, cyclic link graphs included, and gives the recursive symlink semantics |
| `PathResolver.ResolvedIffLeads` | crates/lamfold/src/path.rs:28-66 | A path resolves to a node if and only if a way of at most sixteen links leads there from the root: into children, and through links, whose targets are walked from the root if they begin with a slash and from the link's own directory otherwise |
| `PathResolver.ResolveJoins` | crates/lamfold/src/path.rs:28-66 | Resolving p/q is resolving q from where p leads, with the link count going on and absolute targets restarting at the root |
| `PathResolver.WalkJoins` | crates/lamfold/src/path.rs:28-66 | The same on component lists, errors included |
| `PathResolver.EndIsNoLink` | crates/lamfold/src/path.rs:28-66 | A resolved path ends where it began, at the root, or at something that is not a symlink |
| `PathResolver.SelfLinkRefused` | crates/lamfold/src/path.rs:46-49 | A link that names itself is refused |
| `PathResolver.PushComponents` | crates/lamfold/src/path.rs:120-124 | Components go onto the stack reversed, so they pop left to right |
| `PathResolver.ReadPath` | crates/lamfold/src/path.rs:70-92 | The whole file clipped to its stated size, however short the frontend's reads are; else the error of the first step that fails, directories and sizes over 512 MiB included |
| `Frontend.ComponentsJoin` | crates/lamfold/src/path.rs:120-124 | Joined by a slash, the components of two paths follow one another |
| `Frontend.ComponentsAreNames` | crates/lamfold/src/path.rs:120-124 | A component is never empty, never a dot and holds no slash |
| `Frontend.ComponentsOfJoined` | crates/lamfold/src/path.rs:120-124 | The components of names joined by slashes are those names, when none is empty or a dot |
| `Frontend.KeptIff` | crates/lamfold/src/path.rs:120-124 | A name between others is kept exactly when it is neither empty nor a dot |
| `Frontend.OuterSlashes` | crates/lamfold/src/path.rs:120-124 | Slashes around a path change nothing |
| `Frontend.SplitUndoesJoin` | crates/lamfold/src/path.rs:120-124 | Splitting undoes joining |
| `Frontend.JoinUndoesSplit` | crates/lamfold/src/path.rs:120-124 | Joining undoes splitting, for every byte string |
| `BlockCache.Replay` | crates/lamfold/src/cache.rs:39-86 | Over any run whose inserts carry their key's block: answers are that block or nothing, bytes held never exceed the cap, and until the tick wraps the cache is the most-recently-used list and a get answers exactly when its key is in it |
| `BlockCache.ListIsByUse` | crates/lamfold/src/cache.rs:39-86 | Over any run from an empty cache, held keys stand in the order of their last use, so that what eviction drops is what was used least recently |
| `BlockCache.EvictIsShortest` | crates/lamfold/src/cache.rs:57-62 | Eviction keeps the longest suffix of the list that leaves room |
| `BlockCache.BlockCache.constructor` | crates/lamfold/src/cache.rs:29-36 | An empty cache |
| `BlockCache.BlockCache.Get` | crates/lamfold/src/cache.rs:39-45 | The block held, which becomes the newest; data never changes |
| `BlockCache.BlockCache.Insert` | crates/lamfold/src/cache.rs:50-72 | The list after the shortest eviction that makes room, the new block newest; oversized blocks are declined |
| `BlockCache.BlockCache.MakeRoom` | crates/lamfold/src/cache.rs:57-62 | The eviction loop always finds a victim while it needs one, and makes room |
| `BlockCache.BlockCache.EvictOne` | crates/lamfold/src/cache.rs:79-86 | The entry with the least timestamp goes; before the tick wraps that is the oldest |
| `BlockCache.VictimIsOldest` | crates/lamfold/src/cache.rs:80-84 | With distinct increasing timestamps the least one is the list's first |
| `Crc32Division.CrcIsRemainder` | crates/lamfold/src/stream.rs:123-148 | The checksum is the complement of the remainder of polynomial division over GF(2): of the message, its bits least significant first, its first 32 complemented and 32 zeros behind it, by x^32 + x^26 + x^23 + x^22 + x^16 + x^12 + x^11 + x^10 + x^8 + x^7 + x^5 + x^4 + x^2 + x + 1 |
| `Crc32Division.PolyIsGenerator` | crates/lamfold/src/stream.rs:129-133 | The reflected constant is that polynomial |
| `Crc32.Compute` | crates/lamfold/src/stream.rs:144-148 | The table-driven fold is the bit-serial reflected CRC, for every message |
| `Crc32.PolyValue` | crates/lamfold/src/stream.rs:129-133 | The polynomial, written bit by bit, is 0xedb88320 |
| `Crc32.TableIsSteps` | crates/lamfold/src/stream.rs:144-148 | One table lookup, xored with the shifted register, is eight bit steps |
| `Crc32.BuildTable` | crates/lamfold/src/stream.rs:123-141 | The constant table, as its loops fill it: entry i is eight bit steps of i |
| `Crc32.StepsLinear` | crates/lamfold/src/stream.rs:129-136 | The bit step is linear over xor, any number of times |
| `Crc32.BurstDetected` | crates/lamfold/src/stream.rs:144-148 | Messages of one length that differ only within four consecutive bytes never share a checksum |
| `Crc32.RegisterInjective` | crates/lamfold/src/stream.rs:144-148 | Different registers stay different over the same bytes |
| `Streams.GzipRefusesBurst` | crates/lamfold/src/stream.rs:187-198 | A member whose data was changed only within four consecutive bytes is refused by its trailer |
| `StreamForms.StreamReadsBack` | crates/lamfold/src/stream.rs:59-69 | Whatever is written as a gzip member with any header, Zstandard frames with skippable ones between them, legacy LZ4 blocks, or handed to xz or lzma, decodes to its content if that fits under the cap, and ends where it ends |
| `StreamForms.HeaderSkipped` | crates/lamfold/src/stream.rs:161-187 | A gzip header with any extra field, name, comment, header checksum and text flag is skipped exactly |
| `StreamForms.MemberReadsBack` | crates/lamfold/src/stream.rs:161-200 | A gzip member whose trailer holds its data's checksum, as a polynomial remainder, and its length is accepted and decoded |
| `Refusals.AcceptedIsSealed` | crates/lamfold/src/stream.rs:161-200 | And only such a member is accepted: deflate, no reserved flag, and a trailer that seals what it decodes to |
| `StreamForms.ZstdReadsBack` | crates/lamfold/src/stream.rs:231-262 | Frames and skippable frames decode to the frames' contents in order, up to what is neither |
| `StreamForms.Lz4ReadsBack` | crates/lamfold/src/stream.rs:320-355 | Legacy LZ4 blocks, repeated magics between them, decode to their contents in order, up to what cannot be a block |
| `StreamForms.PushAllIff` | crates/lamfold/src/stream.rs:86-94 | Chunks are taken up exactly when all of them fit under the cap |
| `Refusals.UnsupportedStreams` | crates/lamfold/src/stream.rs:59-69 | bzip2 and lzo are refused |
| `Streams.DecodeStreamBounded` | crates/lamfold/src/stream.rs:59-69 | Every arm of decode_stream stays within its cap, and uses at least one byte of its input and no more than there is |
| `Streams.StreamsAreBounded` | crates/lamfold/src/stream.rs:86-117 | So decode_stream is the decoder the cpio chain's conservation rests on |
| `Streams.GzipBody` | crates/lamfold/src/stream.rs:161-187 | The deflate stream starts behind a header of at least ten bytes, inside the input |
| `RockRidge.RecordReadsBack` | crates/lamfold-iso/src/iso9660.rs:280-300 | A link target and a name, their names cut anyhow and spread over any entries of a record and up to sixteen continuation areas, are read back exactly |
| `RockRidge.RecordSays` | crates/lamfold-iso/src/rock_ridge.rs:80-156 | The same for entries in one run |
| `RockRidge.PiecesAreThePath` | crates/lamfold-iso/src/rock_ridge.rs:162-192 | The component records of any path, cut into CONTINUE chunks anyhow, reassemble to that path |
| `RockRidge.FeedJoins` | crates/lamfold-iso/src/rock_ridge.rs:80-142 | Feeding the concatenation of areas of whole entries without ST is feeding one after the other |
| `RockRidge.FeedPrinted` | crates/lamfold-iso/src/rock_ridge.rs:80-142 | A printed area feeds as its entries do, whatever padding ends it |
| `RockRidge.ChainCollects` | crates/lamfold-iso/src/iso9660.rs:280-300 | A chain of continuation areas collects as if its entries stood in one area |
| `Refusals.LongChainRefused` | crates/lamfold-iso/src/iso9660.rs:280-300 | A chain of more than sixteen areas is refused |
| `RockRidge.AreaReads` | crates/lamfold-iso/src/iso9660.rs:287-299 | A continuation area of at most a block is read from its block and offset |
| `RockRidge.PointerReads` | crates/lamfold-iso/src/rock_ridge.rs:122-137 | The continuation named last, its block, offset and length in both byte orders, is the one followed |
| `RockRidge.ParseRockRidge` | crates/lamfold-iso/src/iso9660.rs:280-300 | The loop over continuation areas, its hop limit and bounds checks: what the record says, or its error |
| `RockRidge.RrParser.FeedArea` | crates/lamfold-iso/src/rock_ridge.rs:80-142 | The loop over an area updates the parser as its entries say and gives the last continuation pointer |
| `RockRidge.RrParser.TakeEntry` | crates/lamfold-iso/src/rock_ridge.rs:88-137 | One entry's effect on the parser's fields |
| `RockRidge.RrParser.ParseSlComponents` | crates/lamfold-iso/src/rock_ridge.rs:162-192 | The component loop appends to the target as its records say |
| `IsoSectors.WalkUndoesRecording` | crates/lamfold-iso/src/iso9660.rs:163-274 | A directory recorded in sectors, with any dot records and any multi-extent files, is walked to one entry per file, in order, of all its extents |
| `IsoImage.ReadDirBack` | crates/lamfold-iso/src/iso9660.rs:509-523 | A directory recorded on the medium is listed: an entry for every file, in order, with the node its records say |
| `IsoImage.ReadBack` | crates/lamfold-iso/src/iso9660.rs:539-584 | A file recorded in extents reads back, any window of it |
| `IsoImage.PlainEntry` | crates/lamfold-iso/src/iso9660.rs:220-255 | The entry of a record without Rock Ridge, its kind by the written directory flag |
| `IsoImage.RockEntry` | crates/lamfold-iso/src/iso9660.rs:220-255 | With Rock Ridge, the name, link target and compression its areas say take the place of the record's own; the system use area is behind the pad byte and what the volume says to skip |
| `IsoImage.AreasRead` | crates/lamfold-iso/src/iso9660.rs:280-300 | What the areas of a record say, its entries spread and cut as they may be |
| `IsoDirectory.MarksRead` | crates/lamfold-iso/src/iso9660.rs:190-200 | A record's flags as written: bit 1 for a directory, bit 7 for more extents |
| `Refusals.GoesOnIff` | crates/lamfold-iso/src/iso9660.rs:201-218 | Within a file of several extents only another record of the same identifier that is no directory is accepted, up to 4096 |
| `Refusals.UnfinishedRefused` | crates/lamfold-iso/src/iso9660.rs:256-274 | A directory that ends within a file of several extents is refused |
| `IsoDirectory.WalkGivesFiles` | crates/lamfold-iso/src/iso9660.rs:163-274 | The same for any buffer that holds those records, however padded |
| `IsoDirectory.FileGathers` | crates/lamfold-iso/src/iso9660.rs:201-218 | The records of a file, one or many, become one entry named and keyed by the first, whose size is the sum of its extents |
| `IsoDirectory.ParseUndoesPrint` | crates/lamfold-iso/src/iso9660.rs:181-200 | A printed directory record parses to itself |
| `IsoDirectory.WalkKeeps` | crates/lamfold-iso/src/iso9660.rs:163-274 | Whatever every record's step keeps, a whole walk keeps |
| `IsoWalks.WalkAddsSizes` | crates/lamfold-iso/src/iso9660.rs:163-274 | In any walk that succeeds, well-formed directory or not, an entry's size is the sum of its extents |
| `IsoWalks.WalkKeepsKeys` | crates/lamfold-iso/src/iso9660.rs:247-255 | Keys of emitted entries grow strictly, lie in the directory, and entries once emitted stay |
| `IsoWalks.KeyNamesEntry` | crates/lamfold-iso/src/iso9660.rs:113-122 | Two walks of one directory, whatever lengths it is read at, agree on the entry of a key |
| `IsoVolume.KeyNamesNode` | crates/lamfold-iso/src/iso9660.rs:113-122 | Whichever directories list them, two nodes with one record key are the same node, so interning never confuses files |
| `IsoVolume.EntryIsSound` | crates/lamfold-iso/src/iso9660.rs:49-52 | No entry has the root's key |
| `IsoVolume.InternAllKeeps` | crates/lamfold-iso/src/iso9660.rs:113-122 | Interning a listing keeps ids and keys in bijection, keeps every id, and gives every entry one |
| `IsoVolume.ListingAgainAddsNothing` | crates/lamfold-iso/src/iso9660.rs:509-523 | Listing a directory again, whatever was interned since, adds no node and changes no id |
| `IsoVolume.Iso9660.constructor` | crates/lamfold-iso/src/iso9660.rs:480-483 | The root is node 0 under a key of its own |
| `IsoVolume.Iso9660.Intern` | crates/lamfold-iso/src/iso9660.rs:113-122 | A record's node, old or new, is what was just read for that record |
| `IsoVolume.Iso9660.EntryOf` | crates/lamfold-iso/src/iso9660.rs:220-255 | The entry of a file's first record, its Rock Ridge entries parsed |
| `IsoVolume.Iso9660.TakeRecord` | crates/lamfold-iso/src/iso9660.rs:190-274 | One record: skipped if a dot, added to the pending file if it goes on with it, refused if it should and does not, else a new entry or a new pending file |
| `IsoVolume.Iso9660.ForEachEntry` | crates/lamfold-iso/src/iso9660.rs:163-274 | The loop with its pending multi-extent file gives the directory's entries or its error |
| `IsoVolume.Iso9660.ReadDir` | crates/lamfold-iso/src/iso9660.rs:509-523 | Every entry, in order, with a node that is exactly the inode just read; the table grows by the new records only |
| `IsoVolume.Iso9660.Lookup` | crates/lamfold-iso/src/iso9660.rs:490-507 | The node of the first entry of that name, or none; an error anywhere in the directory is an error |
| `IsoVolume.Iso9660.ReadAt` | crates/lamfold-iso/src/iso9660.rs:539-584 | Exactly the window, clipped to the size, of the concatenated extents, zero-length extents included; errors in the source's order |
| `IsoVolume.Iso9660.ReadLink` | crates/lamfold-iso/src/iso9660.rs:586-588 | The link target of the record, if any |
| `Extents.ReadExtents` | crates/lamfold-iso/src/iso9660.rs:563-583 | The loop over extents: as much of the window as they reach, or an error where a byte is not to be had |
| `Extents.FromExtent` | crates/lamfold-iso/src/iso9660.rs:563-583 | Past the beginning of an extent, the file is the rest of the extents |
| `Extents.ContentsRecorded` | crates/lamfold-iso/src/iso9660.rs:563-583 | Data recorded in extents, wherever they are, is their content, laid end to end |
| `SquashImage.InodeReadsBack` | crates/lamfold-squash/src/squash.rs:128-222 | A written inode of any form, in metadata blocks stored or compressed, at any reference, is read back: its listing's place, its blocks with their sizes and places, its fragment, its target |
| `SquashImage.ReadBack` | crates/lamfold-squash/src/squash.rs:412-472 | A file written in blocks, stored, compressed or sparse, with its tail in a fragment or a short block, reads back, any window of it |
| `SquashImage.ReadLinkBack` | crates/lamfold-squash/src/squash.rs:474-479 | A written symlink's target is read back |
| `SquashImage.ReadDirBack` | crates/lamfold-squash/src/squash.rs:382-401 | A written directory is listed: every name with the node of its inode, in order, or the error of an inode that cannot be read |
| `SquashImage.SpanReads` | crates/lamfold-squash/src/squash.rs:83-103 | Any span of metadata written in blocks is that part of it |
| `SquashImage.FragmentReads` | crates/lamfold-squash/src/squash.rs:281-294 | A fragment is read through its table and its entry |
| `SquashImage.DataReads` | crates/lamfold-squash/src/squash.rs:412-472 | Every byte of such a file is its data's |
| `SquashMeta.MetaSpanIsSlice` | crates/lamfold-squash/src/squash.rs:83-103 | A span is the slice of the concatenated metadata blocks at the given offset, if that lies in the first block, else at its end; short exactly when an empty block comes before the bytes asked for are gathered, an error only where the stream has none |
| `SquashMeta.ReadMetaSpan` | crates/lamfold-squash/src/squash.rs:83-103 | The loop gives the span the recursive reading gives |
| `SquashInodes.BytesHaveBlocks` | crates/lamfold-squash/src/squash.rs:118-125 | Every byte of an inode read from the medium has a block or is in the fragment: a file longer than its blocks never occurs |
| `SquashInodes.InodesAreSound` | crates/lamfold-squash/src/squash.rs:128-222 | Every file inode has the block count its size calls for, back to back offsets included |
| `SquashInodes.BlocksAreDisjoint` | crates/lamfold-squash/src/squash.rs:106-116 | No two blocks of a file overlap |
| `SquashInodes.BlockOffsets` | crates/lamfold-squash/src/squash.rs:106-116 | The running sum gives each block's start |
| `SquashDir.ParseUndoesPrint` | crates/lamfold-squash/src/squash.rs:242-277 | A written listing, headers with any number of entries, gives back every name with its inode reference, in order |
| `SquashDir.ParseListing` | crates/lamfold-squash/src/squash.rs:255-277 | Both listing loops together: the children, or the error of a name out of bounds |
| `SquashVolume.ParseInode` | crates/lamfold-squash/src/squash.rs:128-222 | The inode of a reference, in each of its forms, or the error met first |
| `SquashVolume.ReadFragment` | crates/lamfold-squash/src/squash.rs:281-294 | A fragment block through its table |
| `SquashVolume.ReadBlocks` | crates/lamfold-squash/src/squash.rs:440-470 | The read loop gives exactly the window of data blocks, sparse zeros and fragment tail |
| `SquashVolume.SquashFs.Intern` | crates/lamfold-squash/src/squash.rs:224-232 | A reference's node, old or new, is its inode; a known reference changes nothing |
| `SquashVolume.SquashFs.ReadDir` | crates/lamfold-squash/src/squash.rs:382-401 | One entry per child in order, each naming the inode its reference names; listing again adds no node |
| `SquashVolume.SquashFs.Lookup` | crates/lamfold-squash/src/squash.rs:369-380 | The first child of that name, or none; a damaged directory gives the listing's error, else that of the first child that cannot be read |
| `SquashVolume.SquashFs.ReadAt` | crates/lamfold-squash/src/squash.rs:412-472 | The clipped window of one logical content; errors for other kinds in the source's order |
| `SquashVolume.SquashFs.ReadLink` | crates/lamfold-squash/src/squash.rs:474-479 | A symlink's target; other kinds have none |
| `UdfImage.InodeReadsBack` | crates/lamfold-udf/src/udf.rs:101-153 | A written file entry of either kind, its data inline or under short or long descriptors, is read back |
| `UdfImage.ReadBack` | crates/lamfold-udf/src/udf.rs:334-385 | A file written inline or in extents, recorded or not, reads back, any window of it |
| `UdfImage.ReadDirBack` | crates/lamfold-udf/src/udf.rs:308-323 | A written directory is listed: every kept name with the node of its file entry, in order, or the error of an entry that cannot be read |
| `UdfImage.DataReads` | crates/lamfold-udf/src/udf.rs:194-219 | Every byte of such a file is its data's |
| `UdfVolume.Udf.ReadAt` | crates/lamfold-udf/src/udf.rs:334-385 | Exactly the window of what read_all gives, clipped to that length: recorded and unrecorded extents, short lists and inline data; and above the whole-file cap still the window of the logical content |
| `UdfVolume.WindowOfWhole` | crates/lamfold-udf/src/udf.rs:334-385 | Any window read of the content is that slice of the whole file |
| `UdfVolume.ReadAll` | crates/lamfold-udf/src/udf.rs:194-219 | The whole-file loop: the content up to the size or the end of the extents, refused above the cap |
| `UdfVolume.ReadFileEntry` | crates/lamfold-udf/src/udf.rs:101-153 | A file entry of either kind parses to its inode, or to the error met first |
| `UdfVolume.InodesAreSound` | crates/lamfold-udf/src/udf.rs:101-153 | An inode read from the medium has inline data of its size, or extents none of which is empty |
| `UdfRecords.ExtentsUndoPrint` | crates/lamfold-udf/src/udf.rs:159-190 | Written short or long descriptors give back their extents in order, zero-length ones dropped, unrecorded ones as zeros |
| `UdfRecords.PlacedIffInRange` | crates/lamfold-udf/src/udf.rs:182-188 | A recorded extent is at partition start plus block exactly when that is a 32-bit number; otherwise the sum wraps |
| `UdfRecords.ReadExtentList` | crates/lamfold-udf/src/udf.rs:159-190 | The loop over whole descriptors: the extents, or the refusal of a continuation |
| `Refusals.ExtentsRefusedIff` | crates/lamfold-udf/src/udf.rs:159-190 | A list of descriptors is refused exactly when one of them, of a length that is not zero, names further descriptors |
| `UdfDir.FidsUndoPrint` | crates/lamfold-udf/src/udf.rs:390-413 | Written identifiers, with any implementation use and padding, give back every entry but the parent and the deleted ones, in order |
| `UdfDir.ParseFids` | crates/lamfold-udf/src/udf.rs:390-413 | The loop gives the entries up to the first thing that is not a descriptor |
| `UdfVolume.Udf.Intern` | crates/lamfold-udf/src/udf.rs:82-90 | A file entry's node, old or new, is its inode; a known block changes nothing |
| `UdfVolume.Udf.ReadDir` | crates/lamfold-udf/src/udf.rs:308-323 | One entry per identifier kept, each naming the inode its block names; listing again adds no node |
| `UdfVolume.Udf.Lookup` | crates/lamfold-udf/src/udf.rs:295-306 | The first entry of that name, or none; a damaged directory gives the listing's error, else that of the first entry that cannot be read |
| `Interning.AgreesGrows` | crates/lamfold-udf/src/udf.rs:82-90 | A new place keeps ids and places in bijection and every node what a fresh parse gives |

## Left out

- The decompressors, `codec.rs` and the internals of SHA-256: parameters.
- The odc and old-binary cpio parser: its entries are a parameter of `Mount` and `InsertSingle`.
- Text decoding: names are byte strings, and the UTF-8, UCS-2 and UDF name decoders are
  parameters; the lossy conversion of SquashFS names is the identity.
- Opening: EROFS, SquashFS, ISO and UDF superblocks and descriptors, feature gates, the LZMA
  configuration walk and the SUSP indicator; the fields they find are given.
- EROFS directory blocks and lookup, and the metadata and probe calls of every frontend.
- zisofs files: the model is the build without that feature, which refuses them; El Torito.
- romfs, cramfs, `read_cap.rs` beyond its two caps, and the block source beyond whole reads.
- Device errors other than a read past the end, allocation failure, and disabled codec features.
- Overflow of `off + buf.len()` and of SquashFS block-list lengths, for values no real medium has.
- The ISO reader re-reads the first identifier of a pending file from the buffer; the model keeps it.
- The framing of xz and lzma streams and the inside of Zstandard frames: the decompressors' own.
- BlockCache.BlockCache.Insert: after the 64-bit tick wraps only coherence, the byte cap and that the new block is held are stated, because timestamps are then no longer in order of use.
- StreamsAreBounded: rests on the foreign stream decoders consuming between one byte and their whole input.
- Extents.ReadExtents: one loop stands for the ISO and the UDF loop, which test the same conditions in a different order.
