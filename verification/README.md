# A verified model of the PDB containers

This project models how a PDB file is stored, and proves that storing it is safe.

**The MSF container** (modules `Paging` to `Runs`). A file is a set of numbered pages with the history of every single
page write. Streams are lists of pages. `Pages` is the page allocator with its free, freed and fresh pages, `Read` the
mapping from stream positions to file ranges, `StreamSpec` and `StreamWriters` the copy-on-write stream writer against a
one-line specification (pad with zeros, then splice), `Directory` and `Codec` the on-disk form and the strict opener as a
pure function `Decode` of a file image, `DiskLayout` the same form byte by byte, without encoder or decoder, `Open` the
opener's loops, `CommitSteps` and `CommitState` the steps of a commit,
`Tables` the ownership of pages, and `MsfContainer` the editor object with all its invariants. `Usage` counts the pages in
use and shows how far they make the file grow. `Runs` states the main results: crash atomicity over whole runs, the page
partition, how large the file gets, and that reopening a committed file rebuilds the editor.

**The Names Stream** (`Names`, `NamesHash`, `NamesStream`, with `Probing` for linear probing): sorting and removing
duplicates, the index mapping, and the hash table.

**The PDB information stream** (`NamedStreams`, `Pdbi`, with `Parsing`): the table of named streams and its round trip.
`PdbiLayout` says byte by byte which streams are read.

**The MSFZ container** (`MsfzFormat`, `MsfzStreams`, `MsfzWriters`, `MsfzFile`): chunks, fragments, the bit-packed
directory, reading, and the whole file from writer to reader. `MsfzLayout` says byte by byte which files open.

**Line data** (`Lines`): rearranging the file records of a module while every line block keeps its file.

`Bytes` and `Arith` hold byte strings, 32-bit words and division by a page size.

Hypotheses of the MSF part: the page size is a power of two from 512 to 65536; page 0 is written atomically, and other
writes reach the file page by page; reads and writes are complete; images are keyed by page number at the page size of the
header. Stream 0 is never written. Names, sizes and page numbers are unbounded in the model; where the original stores 32
bits the condition is explicit (`FitsU32`, `WithinLimits`, `Fits`).

Where the code falls short of its documentation, the model follows the code and the exact condition is proved:

- A commit can write more map pages than an opener accepts. The opener reads 512 bytes of page 0, which leaves room for
  115 map pages; with larger pages a commit can write more of them, and the file then does not open
  (`MsfContainer.Msf.Commit`, `Runs.SaveAll`, `Runs.BigDirectoryIsUnreadable`). A map that does not fit into page 0 at all
  is a panic before the switch.
- `set_len` reaches a greater length only from an empty stream, and only if one allocation yields all the pages
  (`StreamWriters.StreamWriter.Grow`, `StreamWriters.GrowWritten`, `MsfContainer.Msf.SetLen`).
- A write that ends exactly at offset 0xffff_ffff is carried out, but leaves the size that stands for a nil stream
  (`MsfContainer.Msf.WriteAt`).
- A read takes the low 32 bits of the length of its destination: it is exact iff the length has 32 bits or the stream ends
  before (`Read.ReadStreamCore`).
- Reading a whole MSFZ stream adds up the fragment sizes in 32 bits: it works iff the stream has less than 2^32 bytes or
  lies in a single chunk (`MsfzStreams.ReadStream`); reading parts of it always works.
- The mapping of a rebuilt Names Stream is right iff the old data begins with the empty string
  (`NamesStream.MappingKeepsStrings`).
- Named streams survive the round trip iff no name contains a NUL (`NamedStreams.RoundTrip`).
- A checksum record that ends the subsection without its padding, and is moved forward, shifts the records behind it for a
  reader that iterates them; the offsets that the line blocks get are right all the same. The new subsection is read record
  by record iff every record but the last in the new order is padded (`Lines.PermutedReads`).
- Fragment coalescing compares with the size of the new fragment instead of the last one. It is right iff a merge joins
  fragments of equal size, which holds for consecutive writes and can fail for interleaved ones
  (`MsfzWriters.AddFragmentExact`, `MsfzWriters.InterleavedWritesGoWrong`).

Check it with `dafny verify dfyconfig.toml`.

## Model

| member | source | states |
|---|---|---|
| Runs.Run | msf/src/commit.rs:57-224 | Crash atomicity over any sequence of operations: the image after every single write that precedes a page-0 write reads back as the streams of the last commit, and the image after the page-0 write as the current streams. The pages in use and the file size stay within a budget that follows from the stream sizes. A run can end early only at a commit outside the opener's limits, or at an operation that spoils its stream (`set_len` where it does not work, a write that ends at 0xffff_ffff); after the latter the file still reads as the last commit. A run without both, on the budget and on the stream sizes, completes |
| Runs.CrashSafeStep | msf/src/commit.rs:14-19 | One more operation keeps crash atomicity for the whole history: the boundary images and all images in between |
| Runs.SaveAll | msf/src/commit.rs:57-224 | A commit makes the current streams durable exactly when the map fits into what an opener reads and no 32-bit field overflows, which is decided by the state before: the file gets exactly the size that the pages in use and the new directory demand; every earlier image of the commit still reads as the old streams |
| Runs.Edit | msf/src/write.rs:914-954 | No stream operation changes what a crash would leave, not even one that spoils its stream; the current streams otherwise change as the abstract operation says |
| Runs.Perform | msf/src/write.rs:831-954 | Adding, writing, replacing and setting the length of streams equal their abstract effects on the list of streams, exactly unless the operation spoils its stream, which the state before decides; at most the pages of the written stream come into use, and the file grows exactly as far as that demands |
| Runs.StillDurable | msf/src/commit.rs:31-36 | Every image since the last page-0 write reads back as the streams of that commit |
| Runs.SaveAndReopen | msf/src/open.rs:83-85 | Commit followed by opening for modification succeeds exactly within the limits, as known before the commit, and rebuilds the same sizes, page lists, free, freed and fresh pages, and active FPM |
| Runs.PageAccounting | msf/src/check.rs:31-49 | Each page is exactly one of special, free, freed or owned, and is owned by one position of one stream |
| Runs.PageCounts | msf/src/pages.rs:219-232 | Conservation: free, freed and stream pages add up to all ordinary pages of the file at every boundary between operations |
| Runs.OpenForRun | msf/src/open.rs:83-85 | An editor opened from a readable file shows its streams and is ready for a run |
| Runs.NewFileFits | msf/src/open.rs:463-490 | Without edits the first commit is always within the limits and makes a file of five pages |
| Runs.BigDirectoryIsUnreadable | msf/src/open.rs:185-193 | Two streams of nearly 4 GB in a new file with pages of 1024 bytes: the commit succeeds with 129 map pages, and the file does not decode |
| Usage.AllocatedSized | msf/src/pages.rs:371-483 | An allocation makes the file exactly as long as its pages in use demand, and not at all longer while a page is free |
| Usage.EndsOrdinary | msf/src/pages.rs:420-458 | A file that ends with its n-th ordinary page has n + 3 + 2 * ((n - 1) / (page size - 2)) pages |
| Usage.TakenByStream | msf/src/write.rs:697-727 | All pages that a writer has taken are in its page list, so that it takes at most as many as its stream has in the end |
| Usage.AccountedReplaced | msf/src/pages.rs:485-504 | Copy-on-write frees only pages that were in use before the writer started |
| Bytes.WordsStored | msf/src/lib.rs:115-141 | Every word of an encoded list is stored as four bytes, the least significant first |
| Bytes.WordOfBytes | msf/src/lib.rs:115-141 | What is read from four bytes is the number whose bytes they are, the least significant first |
| Bytes.BitsOfByte | pdb/src/pdbi.rs:372-389 | A byte is the sum of its bits, where bit i counts 2 to the power of i |
| Runs.CreateAndSave | msf/src/open.rs:463-490 | A new file with four nil streams and any edits is durable after its first commit, exactly if no edit spoils its stream and that commit is within the limits; the pages in use, which decide it, are at most the budget of the edits |
| Runs.DirLengthIs | msf/src/commit.rs:227-267 | The size of the stream directory follows from the streams alone, so that a caller can tell beforehand whether a commit will be readable |
| Runs.Applied | msf/src/write.rs:831-954 | The abstract effect of every operation, stream by stream: which stream changes into what, which streams become nil, and that all others stay |
| Runs.SpoilersAre | msf/src/stream_writer.rs:103-206 | The operations that may spoil a stream, from the stream before: a write that ends at 0xffff_ffff, and growing a stream that has bytes or beyond one page |
| Runs.LastSave | msf/src/commit.rs:57-224 | What is durable after a list of operations is what was current at its last commit |
| Runs.NoSave | msf/src/commit.rs:57-224 | Without a commit, what is durable stays as it was |
| MsfContainer.Msf.Commit | msf/src/commit.rs:57-224 | The writes before the page-0 write stay off the committed footprint; afterwards the invariants hold again, the streams are unchanged, the size of the file and the pages in use are those that the state before determines, the file decodes to the new state iff at most 115 map pages are needed and the fields fit, and it does not decode at all with more map pages; a map beyond page 0 is a panic that leaves the old state readable. Page 0 then has the magic and the four numbers of the header as little-endian bytes, and a readable file is, byte by byte, one with this header and a directory whose sizes and page lists are those of the streams |
| MsfContainer.Msf.Stage | msf/src/commit.rs:89-97 | The first phase stores directory, map and inactive FPM without touching the committed state or any current stream |
| MsfContainer.Msf.SwitchOver | msf/src/commit.rs:120-217 | After the page-0 write: tables, freed pages, hint and active FPM are those that an opener would build, and all invariants hold |
| MsfContainer.Msf.BuildNewStreamDir | msf/src/commit.rs:227-267 | The directory is the number of streams, their sizes with zero for stream 0, and all page lists in stream order |
| MsfContainer.Msf.WriteNewStreamDir | msf/src/commit.rs:273-340 | Directory pages hold the directory and map pages the list of directory pages, in newly owned pages that no stream and no committed state uses |
| MsfContainer.Msf.RebuildTables | msf/src/commit.rs:136-183 | The tables in memory after a commit describe the same page lists as the directory on disk |
| MsfContainer.Msf.Cleanup | msf/src/commit.rs:178-217 | Freed pages are free, exactly the new directory and map pages are freed, nothing is fresh, and the hint is valid |
| MsfContainer.CommitInv | msf/src/commit.rs:120-217 | The value-level argument that every invariant is re-established by a commit and that the file then decodes to the streams |
| MsfContainer.ReadableAnytime | msf/src/commit.rs:50-53 | Any image that agrees on the committed footprint decodes to the same committed state and streams |
| MsfContainer.ReadableExtends | msf/src/commit.rs:31-36 | Writes that stay off the committed footprint keep the committed state readable at every point of the history |
| MsfContainer.Msf.ModifyWithFile | msf/src/open.rs:83-85 | For page sizes from 512 to 65536: opening for modification succeeds iff the file has, byte by byte, a header, map, directory and free page map that belong together; each stream then has exactly the pages that the directory lists for it, and the editor shows the committed streams and satisfies all invariants, provided the stream pages are in the file |
| MsfContainer.Msf.CreateFor | msf/src/open.rs:463-490 | A new container has stream 0 and four nil streams, unless fewer than five streams are allowed |
| MsfContainer.OpenedStreams | msf/src/write.rs:914-954 | Opening a stream for writing, stream by stream: the streams before it that were missing are nil, and it holds what it held before |
| MsfContainer.WrittenStreams | msf/src/stream_writer.rs:71-90 | The effect of a write, stream by stream, with the streams that are skipped nil |
| MsfContainer.ReplacedStreams | msf/src/stream_writer.rs:45-65 | The effect of replacing the contents, stream by stream, with the streams that are skipped nil |
| MsfContainer.LengthSetStreams | msf/src/stream_writer.rs:103-206 | The effect of setting the length, stream by stream, with the streams that are skipped nil |
| MsfContainer.Msf.NewStream | msf/src/write.rs:831-861 | Appends one empty stream and changes nothing else, unless the maximum is reached |
| MsfContainer.Msf.NilStream | msf/src/write.rs:884-902 | Appends one nil stream and changes nothing else, unless the maximum is reached |
| MsfContainer.Msf.PrepareStream | msf/src/write.rs:914-954 | Missing streams before the one to open are added as nil, a nil stream is promoted to an empty one, every other stream is as before, stream by stream, and the page list is copied to the modified streams without changing any contents; fails iff too many streams are needed |
| MsfContainer.Msf.WriteAt | msf/src/stream_writer.rs:71-90 | One stream becomes the zero-extended, spliced contents; every other stream, the committed footprint and the page partition are kept. A write that ends at 0xffff_ffff, and no other, loses its stream: the bytes are in its pages, but the size is that of a nil stream and does not fit the page list. Streams that were skipped are nil |
| MsfContainer.Msf.SetContents | msf/src/stream_writer.rs:45-65 | One stream becomes exactly the given data, whatever its history; all other streams are unchanged, and streams that were skipped are nil |
| MsfContainer.Msf.SetLen | msf/src/stream_writer.rs:103-206 | `set_len` for any length gives the prefix or the zero-extended stream exactly if the length is not greater, or the stream is empty and one allocation yields all its pages. Elsewhere it panics, or the pages hold the old bytes and some zeros while the recorded size, which is given, claims more bytes than that; all other streams and the committed state are as before; streams that were skipped are nil |
| MsfContainer.Msf.Release | msf/src/write.rs:946-954 | What a writer did to its stream leaves the contents of all other streams as they were, and every invariant holds again exactly if the size fits the page list |
| Tables.EveryPageOnce | msf/src/pages.rs:219-232 | The four page states are exhaustive and exclusive, and no page is listed twice |
| Tables.PartitionToOwnership | msf/src/pages.rs:219-232 | A writer that keeps its own partition of the busy pages keeps the ownership of all pages by all streams |
| Tables.TableOwnership | msf/src/open.rs:613-693 | Right after opening or committing, directory and page states partition the file and the committed pages are out of the allocator's reach |
| Tables.PutStreams | msf/src/write.rs:697-727 | Writing one stream leaves the contents of every other stream unchanged |
| Tables.ReadAllFrame | msf/src/commit.rs:31-36 | What can be read back does not depend on any page outside the committed footprint |
| Directory.DecodeFrame | msf/src/open.rs:159-428 | Whether and as what a file opens depends on page 0, the active FPM, and the used pages only |
| Directory.ParseBuiltDir | msf/src/open.rs:237-290 | Parsing the directory words gives back sizes, page lists and start table, nil streams included. A stream 0 that still has pages becomes empty, and every other stream keeps its own pages |
| Directory.DirWordsAre | msf/src/commit.rs:227-267 | The words of the directory one by one: the number of streams, the size of each, and the pages of each behind those of all before |
| Directory.FpmRoundTrip | msf/src/open.rs:497-559 | Reading the FPM chunks gives every bit below the page count back, for any number of intervals, though there are eight times more interval pages than needed |
| Directory.FpmChunksFit | msf/src/commit.rs:352-361 | There is an interval for every chunk of the bitmap |
| Codec.HeaderRoundTrip | msf/src/open.rs:159-193 | The header written by a commit is accepted iff its directory needs at most 115 map pages |
| Codec.MapPointersRoundTrip | msf/src/open.rs:185-193 | The page-0 pointers to the map pages come back |
| Codec.CommitDecodes | msf/src/open.rs:159-428 | A file prepared by a commit passes every strict check and decodes to exactly the new state, iff the map is within the opener's reach |
| DiskLayout.OpensIff | msf/src/open.rs:159-428 | A file decodes to a state iff, byte by byte and without the functions that read it: page 0 has the magic, the little-endian numbers of the header and the map pages; these hold the directory pages, and they hold the words of the directory; every page of a stream is in the file, is not special and is used once; and every bit of the active free page map is set exactly for the pages that are neither special nor used. Any other file is refused |
| DiskLayout.OpensWhenStored | msf/src/open.rs:159-428 | A file can be opened iff there are a state and directory words that it stores |
| DiskLayout.ListedPages | msf/src/open.rs:266-290 | A stream has the pages that the directory lists behind the pages of all streams before it, the first one included |
| DiskLayout.HeaderWritten | msf/src/lib.rs:115-141 | The header that a commit writes, byte by byte, least significant byte first |
| DiskLayout.MagicText | msf/src/lib.rs:79-79 | The magic as text |
| CommitState.CommitConsistent | msf/src/commit.rs:94-97 | Merging freed into free leaves exactly the FPM that an opener computes from the new directory |
| CommitState.CommitOwnership | msf/src/commit.rs:185-205 | After a commit the page states match the new directory: the partition holds and superseded directory pages are not lost |
| CommitState.CommitKeepsStreams | msf/src/commit.rs:343-398 | Writing directory, FPM and page 0 changes no stream |
| CommitState.FootprintOffFpm | msf/src/commit.rs:78-82 | The inactive FPM shares no page with the committed state |
| CommitState.SyncedUnique | msf/src/open.rs:430-459 | An opener has only one state to build from a committed file |
| CommitState.CommittedFile | msf/src/open.rs:159-428 | The file after a commit decodes, and reads back as the streams, iff the map pages are within the opener's reach |
| CommitSteps.WriteChunks | msf/src/commit.rs:292-333 | Bytes are stored in newly allocated pages with zero padding in the last one; the partition and all kept pages are preserved |
| CommitSteps.WriteFpm | msf/src/commit.rs:343-419 | Exactly the pages of the inactive FPM are written, one chunk for each interval, with all bits past the last page set |
| Open.OpenForModify | msf/src/open.rs:93-459 | For page sizes from 512 to 65536: the loops of the opener succeed exactly on the files whose header, map, directory and free page map are, byte by byte, as they must be, and mark exactly the used pages busy and the directory pages freed |
| Open.LoadDirectory | msf/src/open.rs:195-235 | The two-level loop reads the directory bytes through the map pages, or finds a page that is out of range, special or used twice |
| Open.BuildTable | msf/src/open.rs:237-290 | The loop over the stream sizes gives every stream its pages behind those of all streams before it, the pages of stream 0 included, which itself becomes empty; it fails iff the directory is too short for that |
| Open.MarkStreamPagesBusy | msf/src/open.rs:613-693 | Succeeds iff no stream page is out of range, special or used twice; then exactly these pages become busy |
| Open.ReadFpmBigMsf | msf/src/open.rs:497-559 | Returns the on-disk bits, and fails only for a missing page or a special page that is marked free |
| Pages.PageAllocator.AllocPages | msf/src/pages.rs:371-483 | A run of 1 to `wanted` consecutive pages that were free or are new, never special; its length is that of the first free run, or what fits between two pairs of FPM pages, and the file grows only when no page is free |
| Pages.PageAllocator.constructor | msf/src/pages.rs:272-307 | All pages are free except page 0 and the FPM pages of every interval |
| Pages.PageAllocator.InitMarkStreamDirPageBusy | msf/src/pages.rs:319-354 | Succeeds iff the page exists and is free; it then becomes busy and freed |
| Pages.PageAllocator.MakePageFresh | msf/src/pages.rs:485-504 | A fresh page stays; any other page is freed and replaced by a newly allocated one |
| Pages.PageAllocator.MergeFreedIntoFree | msf/src/pages.rs:546-556 | Freed pages become free and nothing else changes |
| Pages.GrowthAvoidsSpecial | msf/src/pages.rs:417-471 | In all four interval phases the new run starts right after the FPM pages and ends before the next ones |
| Pages.AllocatedKeepsOwned | msf/src/pages.rs:371-483 | Allocation keeps the page partition and hands out no page that belongs to another stream or to the committed state |
| Pages.ReplacedKeepsOwned | msf/src/pages.rs:485-504 | Copy-on-write keeps the partition; the page to write is fresh and is not one to keep |
| Pages.FreeTailKeepsOwned | msf/src/stream_writer.rs:131-137 | Truncation frees each dropped page once and keeps the partition |
| Read.StreamPageMapper.Map | msf/src/pages.rs:56-138 | A non-empty file range that holds the stream bytes at the position; it ends at the requested end, the stream end, or the first page that is not consecutive |
| Read.ReadStreamCore | msf/src/read.rs:18-63 | Returns the stream bytes from the position on, as many as the low 32 bits of the requested length; this is the promised window exactly if the length has 32 bits or the stream ends before |
| Read.HugeReadIsEmpty | msf/src/read.rs:42-47 | A request for exactly 2^32 bytes returns nothing |
| Read.ContentsAt | msf/src/pages.rs:56-138 | Byte i of a stream is byte i modulo the page size of the page at position i divided by the page size |
| StreamSpec.WriteInPieces | msf/src/write.rs:28-104 | Writing a buffer in two consecutive pieces equals writing it at once |
| StreamSpec.WriteAfterZeros | msf/src/write.rs:214-235 | Zero-extending first and writing then equals the one-step specification |
| StreamSpec.WriteSpecAt | msf/src/write.rs:28-104 | The specification of a write, byte by byte: the new data, the old bytes around it, and zeros in a gap |
| StreamWriters.StreamWriter.WriteCore | msf/src/write.rs:28-104 | For every alignment, size and fragmentation the new contents are the old ones padded with zeros to the offset and overlaid with the buffer; writes stay off the pages of others. A write that ends at 0xffff_ffff is carried out like any other, and is the only one that leaves the size of a nil stream |
| StreamWriters.StreamWriter.WriteAll | msf/src/write.rs:45-104 | The sequence zero-extend, overwrite, unaligned start and append implements the specification for non-empty buffers |
| StreamWriters.StreamWriter.WriteZeroExtend | msf/src/write.rs:214-235 | The stream reaches the offset with zeros, and a part of the buffer may have been written with the last page |
| StreamWriters.StreamWriter.WriteZeroExtendUnalignedStart | msf/src/write.rs:237-338 | The rest of the last page becomes zeros, never stale bytes, up to the offset, followed by what fits of the buffer |
| StreamWriters.StreamWriter.WriteZeroExtendWholePages | msf/src/write.rs:340-381 | Whole zero pages are added up to the page of the offset, in as many runs as allocation needs |
| StreamWriters.StreamWriter.WriteZeroExtendUnalignedEnd | msf/src/write.rs:383-432 | The page of the offset gets zeros and then the start of the buffer |
| StreamWriters.StreamWriter.WriteOverwrite | msf/src/write.rs:434-459 | The part of the buffer within the stream replaces exactly those bytes |
| StreamWriters.StreamWriter.WriteOverwriteUnalignedStart | msf/src/write.rs:461-533 | The tail of a page is replaced by copy-on-write, and the size grows only if the buffer reaches past it |
| StreamWriters.StreamWriter.WriteOverwriteAlignedPages | msf/src/write.rs:535-626 | Whole pages and a final partial page are replaced by fresh pages |
| StreamWriters.StreamWriter.WriteUnalignedStartPage | msf/src/write.rs:632-694 | An append into a partial last page keeps the bytes before the end |
| StreamWriters.StreamWriter.WriteAppendCompletePages | msf/src/write.rs:107-159 | Complete pages are appended in runs; the list grows by exactly the pages written |
| StreamWriters.StreamWriter.AppendPartialPage | msf/src/write.rs:162-205 | A final partial page is appended with zero padding |
| StreamWriters.StreamWriter.CowPageAndWrite | msf/src/write.rs:697-727 | One page of the stream is replaced by a fresh page with the given data; every other byte of the stream and every kept page is unchanged |
| StreamWriters.FindLongestPageRun | msf/src/write.rs:772-784 | The length of the longest prefix of consecutive page numbers |
| StreamWriters.WriteRuns | msf/src/write.rs:798-827 | The pages hold the data in list order, and no other page is written |
| StreamWriters.StreamWriter.SetLen | msf/src/stream_writer.rs:103-206 | Shrinking leaves the prefix, frees exactly the dropped pages and writes nothing; growing works exactly from an empty stream to what one allocation yields |
| StreamWriters.StreamWriter.SetContents | msf/src/stream_writer.rs:45-65 | The stream equals the data afterwards, for any earlier contents |
| StreamWriters.StreamWriter.Write | msf/src/stream_writer.rs:249-254 | Sequential writes apply the specification at the seek position and move it, up to and including the end at 0xffff_ffff |
| StreamWriters.StreamWriter.Read | msf/src/stream_writer.rs:233-247 | Sequential reads return the contents at the seek position and move it by what was read; exact under the same condition on the length |
| StreamWriters.StreamWriter.Grow | msf/src/stream_writer.rs:140-202 | Growing never harms the old bytes and adds only zero pages, but the stream is the zero-extended one iff it was empty and one allocation yields all pages, and elsewhere the size exceeds the bytes held; it panics exactly where the arithmetic of the sizes says so |
| StreamWriters.GrowWritten | msf/src/stream_writer.rs:140-202 | A stream that has any data is never grown right: for all data and lengths, growing panics, or the size is the given wrong one and the pages hold the data and zeros, but fewer bytes than the size says. From 512 bytes to 2048 the size becomes 2560; from 10 bytes to 20 it panics |
| StreamWriters.GrowNewStream | msf/src/stream_writer.rs:175-202 | The first stream of a new file with pages of 512 bytes can be grown to 261120 bytes and no further at once |
| Names.CollectNames | pdb/src/names.rs:582-602 | The iteration finds the non-empty strings up to the end or the first string without a NUL |
| Names.StringIff | pdb/src/names.rs:219-229 | A string is found iff it is there, without a NUL, and ends with one |
| Names.NamesFound | pdb/src/names.rs:582-602 | Exactly the non-empty strings behind a NUL or at the start are found |
| Names.LessAtDifference | pdb/src/names.rs:275-276 | The order of the names: at the first difference the smaller byte comes first, and so does a name that ends there |
| Names.NamesAreStrings | pdb/src/names.rs:219-228 | Every string that is found can be looked up where it starts, and no two start at the same place |
| Names.DedupByName | pdb/src/names.rs:275-276 | After sorting, dropping neighbours with equal names leaves every distinct name once, strictly sorted |
| Names.SortedUnique | pdb/src/names.rs:275-276 | The sorted list of distinct names does not depend on how the sort orders equal names |
| Names.NewIndexNames | pdb/src/names.rs:324-355 | Looking up the new index of a name in the new string data gives the name |
| Names.Reread | pdb/src/names.rs:324-355 | Iterating the new string data finds exactly the sorted names at their new indexes, and nothing in the padding |
| Names.Align4Is | pdb/src/names.rs:290-291 | The string data is padded to the least multiple of four |
| NamesHash.InsertIndex | pdb/src/names.rs:373-387 | The probing loop finds the first free slot from the home slot on within one wrap |
| NamesHash.BuildHashTable | pdb/src/names.rs:357-391 | The loop builds the table that inserting the names in order gives |
| NamesHash.IndexReachable | pdb/src/names.rs:357-391 | Every name is reachable from its home slot through occupied slots only |
| NamesHash.EntryIsIndex | pdb/src/names.rs:357-391 | Every entry is the index of a name and is linked to that name's home slot |
| NamesHash.EarlierFirst | pdb/src/names.rs:357-391 | Each name is in the first slot, from its home slot on, that no earlier name has taken |
| NamesHash.NumHashesIs | pdb/src/names.rs:293-295 | There are half as many slots again as names, rounded down |
| NamesHash.FindCollisionRanges | pdb/src/names.rs:471-515 | The two ranges are exactly the maximal cyclic run of occupied slots around the slot, and do not overlap |
| NamesHash.HomeInRun | pdb/src/names.rs:464-469 | The run around an entry contains the home slot of its name |
| Probing.SlotIsFree | pdb/src/names.rs:18-24 | Below full load an insertion finds a free slot that is linked to the home slot |
| NamesStream.ParseEncode | pdb/src/names.rs:158-197 | The stream that is written parses to the same strings, hash table and count |
| NamesStream.ParseIff | pdb/src/names.rs:158-197 | A stream is read iff, byte by byte, it has the signature, the version and its three parts where the numbers in it say; anything shorter or different is refused |
| NamesStream.StreamLayout | pdb/src/names.rs:364-425 | The stream as it is written, byte by byte |
| NamesStream.RebuiltLayout | pdb/src/names.rs:286-425 | The rebuilt stream, byte by byte: a NUL, the names in order, each with its NUL, and zeros up to a multiple of four; as many hashes as there should be, and the number of names |
| NamesStream.Rebuild | pdb/src/names.rs:249-425 | The new stream holds the sorted distinct strings and their hash table; the mapping pairs old and new indexes, sorted by old index; an empty stream is copied |
| NamesStream.MappingKeepsStrings | pdb/src/names.rs:320-355 | Every pair of the mapping names the same string before and after, iff the old data begins with the empty string |
| NamesStream.FirstStringIsLost | pdb/src/names.rs:320-355 | Concrete data without the empty string: index 0 names a string before, and nothing afterwards |
| NamesStream.MappingCovers | pdb/src/names.rs:320-355 | When the old strings are distinct, every old index is mapped |
| NamesStream.MappingStrict | pdb/src/names.rs:353-354 | No two pairs have the same old index, which the binary search relies on |
| NamesStream.RebuildTwice | pdb/src/names.rs:244-249 | Rebuilding the result gives identical bytes and the identity mapping |
| NamesStream.MapOldToNew | pdb/src/names.rs:439-454 | The binary search returns the pair's new index iff there is one; index 0 maps to itself |
| NamesStream.RebuildAndLookUp | pdb/src/names.rs:244-249 | Rebuild, write, parse and look up: every old index of distinct strings leads to the same string |
| NamedStreams.RoundTrip | pdb/src/pdbi.rs:243-304 | Parsing the written table gives the same map, iff no name contains a NUL |
| NamedStreams.NulIsLost | pdb/src/pdbi.rs:277-290 | A concrete name with a NUL for which the map does not come back |
| NamedStreams.InsertSlot | pdb/src/pdbi.rs:381-408 | At this load probing never returns to its starting slot, and takes the first free slot |
| NamedStreams.BitmapCounts | pdb/src/pdbi.rs:251-265 | The population count of the present bitmap is the number of entries written |
| NamedStreams.BitmapBit | pdb/src/pdbi.rs:358-389 | Bit i modulo 8 of byte i / 8 of the bitmap is set iff slot i holds an entry, and all bits behind the slots are clear |
| NamedStreams.EntryAt | pdb/src/pdbi.rs:391-408 | The entry of a slot comes behind as many entries as slots before it are occupied |
| NamedStreams.TableLayout | pdb/src/pdbi.rs:329-436 | The written table, byte by byte: names, numbers, the two bitmaps, the entries, and the final zero |
| NamedStreams.LookUp | pdb/src/pdbi.rs:329-436 | In the written bytes, the bits from the home slot of a name to its own slot are all set, and the entry for that bit has the offset of the name and its stream |
| NamedStreams.EarlierFirst | pdb/src/pdbi.rs:372-408 | Each name is in the first slot, from its home slot on, that no earlier name has taken |
| NamedStreams.ListsUnique | pdb/src/pdbi.rs:332-337 | A map has one list of entries in name order, so that the bytes depend on the map alone |
| NamedStreams.NameAtOffset | pdb/src/pdbi.rs:340-356 | Every offset points at its own name |
| NamedStreams.NameBytes | pdb/src/pdbi.rs:340-356 | The names follow each other in order, each with a NUL behind it |
| NamedStreams.NamedStreams.ToBytes | pdb/src/pdbi.rs:329-436 | The output is the encoding of the map's entries in name order, appended to what was there, and every name can be looked up in these bytes by its hash |
| NamedStreams.NamedStreams.Insert | pdb/src/pdbi.rs:312-320 | A new name is added and marks the table modified; an existing name keeps its stream |
| NamedStreams.CollectNames | pdb/src/pdbi.rs:267-290 | The loop looks up the names of all entries and keeps the first stream of each name; it fails iff an entry has no name |
| PdbiLayout.TableIff | pdb/src/pdbi.rs:243-304 | The table of names is read iff everything is inside the bytes, as many bits of the first bitmap are set as there are entries, and every entry has a name; the first entry with a name counts. Number of slots and second bitmap do not matter |
| PdbiLayout.CollectIff | pdb/src/pdbi.rs:267-290 | The names are collected iff every entry has one, and each gets the stream of the first entry with it |
| PdbiLayout.PopCountIs | pdb/src/pdbi.rs:251-253 | The population count is the number of set bits |
| PdbiLayout.InfoIff | pdb/src/pdbi.rs:41-75 | The information stream is read iff, byte by byte, version, signature and age, the sixteen id bytes in versions above 19990604, and a table of names are there; the whole words that follow are the features |
| Pdbi.RoundTrip | pdb/src/pdbi.rs:41-110 | The whole information stream comes back, without a unique id that its version cannot store, iff no name contains a NUL |
| Pdbi.ToBytes | pdb/src/pdbi.rs:78-110 | Fails iff the version is above 19990604 and there is no unique id; otherwise writes version, signature and age, the sixteen id bytes if the version has them, the names and the features, each where it belongs, byte by byte |
| Pdbi.InfoLayout | pdb/src/pdbi.rs:78-110 | The written stream, byte by byte: where each part is, and that sixteen id bytes are there exactly in versions above 19990604 |
| MsfzFormat.LocationRoundTrip | msfz/src/reader.rs:86-123 | A packed fragment location comes back iff the chunk number has 31 bits and the file offset 48 |
| MsfzFormat.LocationRead | msfz/src/reader.rs:97-123 | The top bit of the second word decides between a chunk and a file offset, which has 48 bits |
| MsfzFormat.FragmentsIff | msfz/src/reader.rs:659-715 | Fragments are read iff each is well formed, inside an existing chunk if it is compressed, and not followed by the size of a nil stream, and a zero ends them |
| MsfzFormat.DirectoryIff | msfz/src/reader.rs:625-724 | A directory is read iff all its streams are there, one behind the other; which conditions make it fail is stated word by word |
| MsfzFormat.FragmentsLayout | msfz/src/writer.rs:632-672 | A stream is three words for each fragment and a zero |
| MsfzFormat.DirectoryLayout | msfz/src/writer.rs:632-672 | The words of the streams follow each other in order; a nil stream is a single word |
| MsfzFormat.DirectoryRoundTrip | msfz/src/reader.rs:625-724 | Decoding an encoded directory gives the same fragments and nil streams, within the field widths and the chunk table |
| MsfzFormat.EncodeStreamDir | msfz/src/writer.rs:632-672 | The loops write the words of every stream in order |
| MsfzFormat.DecodeStreamDir | msfz/src/reader.rs:625-724 | The loops build tables that hold exactly the decoded streams, or fail |
| MsfzFormat.FragmentsHeld | msfz/src/reader.rs:244-257 | The tables give each stream its fragments, and a nil stream none |
| MsfzStreams.ReadStream | msfz/src/reader.rs:389-470 | Returns the concatenation of the fragments' bytes exactly if they have less than 2^32 bytes together or lie in a single chunk; elsewhere the 32-bit sum of the sizes makes it fail |
| MsfzStreams.HugeStreamFails | msfz/src/reader.rs:424-437 | Two fragments of 2^31 bytes: the whole stream cannot be read, any part of it can |
| MsfzStreams.ReadAt | msfz/src/reader.rs:533-586 | Returns exactly the slice of the whole stream at the offset, cut off at the end, for any mix of fragments |
| MsfzWriters.AddFragmentExact | msfz/src/writer.rs:557-629 | Coalescing adds exactly the places of the new bytes, iff it does not merge with a last fragment of a different size |
| MsfzWriters.InterleavedWritesGoWrong | msfz/src/writer.rs:577-581 | Writes to two streams in turn, through the writer: whenever the third piece is as long as the first two, the first stream reads as the first piece, the second one, and the start of the third |
| MsfzWriters.NextIsRight | msfz/src/writer.rs:569-592 | If nothing was appended since the last write, the merge test is never wrong |
| MsfzWriters.MsfzWriter.FinishCurrentChunk | msfz/src/writer.rs:368-411 | The chunk is appended as its algorithm compresses it, with a table entry for its place and its two sizes; nothing that is stored changes |
| MsfzWriters.MsfzWriter.WriteToChunks | msfz/src/writer.rs:339-360 | All data goes into one chunk, a new one if the current one would reach the threshold |
| MsfzWriters.MsfzWriter.Write | msfz/src/writer.rs:499-551 | Bytes are written iff the stream stays below 0xffff_ffff bytes and its place is within 48 bits; the place is the end of the file, rounded up for the first bytes of a stream, or the end of the current or of a new chunk; the state after is given by the state before; unless the merge is wrong, the stream's contents grow by exactly the bytes and all other streams stay readable |
| MsfzWriters.MsfzWriter.WritePieces | msfz/src/writer.rs:499-551 | Consecutive writes, compressed or not: all pieces before the first one that cannot be written are in the stream, in order, and nothing else. Which pieces can be written follows from the state before; compressed pieces alone are all written iff they are empty or the stream stays below 0xffff_ffff bytes |
| MsfzWriters.CompressedFit | msfz/src/writer.rs:499-551 | Compressed pieces can all be written iff they are empty or the stream does not get too large, whatever happens to the chunks |
| MsfzWriters.AdvancedSize | msfz/src/writer.rs:499-551 | The stream grows by the joined pieces, however they are stored |
| MsfzWriters.UncompressedFit | msfz/src/writer.rs:499-551 | Which uncompressed pieces can be written: as long as the stream does not get too large and its end is within 48 bits |
| MsfzWriters.RoundUpIs | msfz/src/writer.rs:413-430 | An aligned position is the least multiple of the alignment that is not smaller |
| MsfzFile.FinishAndRead | msfz/src/writer.rs:243-313 | From writer to reader, with an algorithm for each chunk: the finished file opens, and the whole stream and any window of it are what was written, if the numbers fit into their fields, which the writer's state before determines |
| MsfzFile.SmallFileFits | msfz/src/writer.rs:243-313 | A writer whose file stays below 2^32 bytes up to the chunk table, with a directory and a table below that, meets the condition of the round trip |
| MsfzFile.Finish | msfz/src/writer.rs:243-313 | The file has the header and the chunk table that the state before determines, the directory, plain or compressed, and the chunk table where its header says, and no stream has changed; fails iff one of the two has 2^32 bytes or more |
| MsfzFile.FileRoundTrip | msfz/src/reader.rs:136-229 | A file that is described by its header opens with the chunks and streams that were written |
| MsfzFile.PatchedStream | msfz/src/writer.rs:288-289 | Writing the header over the start of the file touches no stream |
| MsfzFile.OpenTables | msfz/src/reader.rs:136-229 | The opener's tables hold exactly the streams of the file, with the same failures |
| MsfzFile.FileHeaderRoundTrip | msfz/src/lib.rs:36-66 | A header whose fields fit comes back |
| MsfzFile.TableRoundTrip | msfz/src/lib.rs:71-87 | The chunk table comes back |
| MsfzLayout.OpensIff | msfz/src/reader.rs:136-229 | A file opens with these chunks and streams iff, byte by byte and without the functions that read it, signature and version are right, the directory is inside the file and decompresses, the chunk table has twenty bytes for each chunk, and every stream and fragment of the directory is well formed |
| MsfzLayout.TableIff | msfz/src/reader.rs:192-210 | The chunk table is read iff its size is right and it is inside the file; without chunks it need not be |
| MsfzFile.HeaderIff | msfz/src/lib.rs:36-66 | A header is read iff it is stored, each number byte by byte, with the right signature and version |
| MsfzFile.HeaderLayout | msfz/src/lib.rs:36-66 | The header as it is written, byte by byte |
| MsfzFile.TableLayout | msfz/src/lib.rs:71-87 | The chunk table as it is written, byte by byte |
| Lines.FixupC13LineData | pdb/src/lines.rs:568-644 | If it succeeds, every line block refers to the same checksum record with only its name mapped, lengths and all other bytes are unchanged; it succeeds for every permutation of complete records with mapped names and valid blocks. The new checksums subsection is the old records in the given order with their names mapped |
| Lines.RemapNames | pdb/src/lines.rs:579-589 | The name of every record is mapped in place and nothing else changes; fails iff a name is not mapped |
| Lines.PermuteRecords | pdb/src/lines.rs:594-605 | The output is the concatenation of the records in the given order, each with its name mapped, with a pair of old and new offset for each; fails iff the order does not have the size of the subsection |
| Lines.PermutedRecord | pdb/src/lines.rs:594-605 | Record j of the new subsection is record order[j] of the old one with its name mapped, and starts where record j - 1 ends |
| Lines.PermutedReads | pdb/src/lines.rs:594-605 | The new subsection is read as the records in the given order iff every record but the last in that order is padded |
| Lines.NewRecordBytes | pdb/src/lines.rs:579-589 | The bytes of a new record: the mapped name, then the rest of the old record |
| Lines.RecordLayout | pdb/src/lines/checksum.rs:198-220 | A record is read from its bytes: name, length, kind, checksum, and padding to a multiple of four |
| Lines.BlockLayout | pdb/src/lines.rs:341-379 | A block is its file index first and its size in the third word |
| Lines.RewriteBlocks | pdb/src/lines.rs:619-636 | Every block gets the new index for its old one and no other byte changes; fails only at a block without a new index |
| Lines.RecordMoves | pdb/src/lines/checksum.rs:72-82 | A record reads the same at its new offset, with its name mapped |
| Lines.BlocksStay | pdb/src/lines.rs:341-379 | Rewriting file indexes does not move any block |
| Lines.TotalOfPermutation | pdb/src/lines.rs:604-605 | A permutation of the records has their total size, so the length check passes |

## Left out

- MsfContainer.Msf.SetLen: after a panic, the state in memory is not described; the file is.
- MsfContainer.Msf.WriteAt: stream 0 is excluded. What a commit would make of a stream that was lost or grown wrongly is not described.
- MsfContainer.Msf.ModifyWithFile: a page size outside 512 to 65536 is refused, while the original takes any power of two. The editor's invariants are stated for files that hold all their stream pages; the original does not check this, and would fail later when it reads such a page. The kinds of errors are named but not all specified.
- MsfContainer.Msf.Commit: the state in memory after the panic for an oversized map is not described, as in the original.
- MsfContainer.Msf.Borrow: the writer of the original borrows the size and the page list of its stream; here they are copied out and taken back (Borrow, Release), so two writers at once are not expressed.
- CommitSteps.WriteChunks: one helper stands for the two loops over directory and map pages, which differ only in what they store.
- Pages.PageAllocator.AllocGrow: FPM pages that are stepped over are marked fresh, as in the original; this has no effect, since special pages are never written through a stream.
- NamesStream.MappingCovers: with duplicate strings only one old index of each string is mapped, so coverage is stated for distinct strings.
- Names.SortByName: an insertion sort stands for the library's unstable sort; callers rely on sortedness and the same elements only.
- NamedStreams.RoundTrip: names are byte strings; the conversion from and to UTF-8 is left out. A unique id is sixteen opaque bytes.
- Lines.FixupC13LineData: works on the list of subsections; their headers and alignment are not modelled, since no subsection changes its length. With several checksums subsections nothing is stated about the blocks.
- MsfzFile.FinishAndRead: gaps from alignment are filled with zeros at once, and no minimum file size is asked for.
- Zstd and Deflate: any pairs of functions where decompressing undoes compressing, one for each code.
- The name hash: any function from names to numbers.
- Small MSF files, read-only access and its leniency towards files of other writers.
- Failed reads and writes as error returns: a failure is a run that stops after some write.
- Random-access stream writers, seeking, copying whole streams, share modes, tracing, error texts, the chunk cache.
- CodeView records, COFF tables, demangling, and the command line tools.
