# Measured-boot verification model

Confidential OS Builder computes, offline, the values that SEV-SNP and TDX hardware will report for
an image: hash chains over byte layouts assembled from firmware, boot stub, initrd and configuration.
This project models that computation in Dafny and proves what the values commit to, what the parsers
accept, and what the staging of a build leaves behind. `dafny verify dfyconfig.toml` checks it all.

- **TDX registers.** `Hashing`, `Ccel`, `Replay` (extend logs and the event log), `Cpio`, `Unicode`,
  `Uki` (RTMR[2]), `Authenticode` (PE image hash), `Footer`, `Tdvf`, `Mrtd` (firmware metadata and
  MRTD), `Acceptor`, `TdHob` (the memory map handed to the firmware).
- **SNP launch.** `Directives`, `Measure`, `Builder`, `HobList`.
- **Kernel configuration.** `Text`, `Fragments`.
- **Profiles and builds.** `ProfileTree`, `Staging`, `Builds`, and `Shell` for the pasted command line.
- **Shared.** `ByteLayout`, `Sorting`, `Wrappers`.

SHA-384 is a function parameter with 48-byte results; nothing is assumed about it. A theorem that a
register commits to its input says: equal registers mean equal inputs, or two of the strings that were
in fact hashed collide, or one of them hashes to the 48 zero bytes every chain starts from.

Loops of the program are methods with invariants, proved against specification functions; the
properties are lemmas about those functions, each against something defined on its own: a reader, a
decoder, a positional rule, a coverage count, a run of builds.

## What does not hold as stated

Where the code falls short of the natural statement, a theorem gives the exact condition, and another
shows an input.

- Signing changes the Authenticode digest of a file that needs padding when its sections claim more
  bytes than the file has, headers counted (`Authenticode.SigningIsInvisible`,
  `Authenticode.SigningShowsOnDoubleClaim`).
- A certificate entry whose address lies past the end of the file makes the PE hash panic on the slice
  in front of it (crates/tdx-measure/src/pe.rs:168; `Authenticode.PanicsExactly`,
  `Authenticode.CertPastEndPanics`).
- The TD-HOB reports the last range as unaccepted even when it was accepted
  (`TdHob.TdHobDescribesMemory`, `TdHob.AcceptedTopIsReportedOpen`).
- The TDX reader takes a table slice 18 bytes longer than the table. Without a TDX entry it reads
  those bytes as an entry (`Footer.TdxWalkReads`), and it never ends on a table in which it meets a
  header of length zero first (`Footer.ParseLoopsExactlyWhenStuck`, `Footer.EmptyTableLoops`).
- A parameter insert behind page data is measured before the batch that holds that data
  (`Measure.BatchingIsInvisible`, `Measure.InsertOvertakesPage`).
- A page at address zero sorts among the parameter directives, so the file, though not its launch
  digest, depends on when it was added (`Builder.FinalizesAlikeExactly`,
  `Builder.PageAtZeroIsNotCanonical`, `Builder.LaunchIsCanonical`).
- An empty shim file shares its address with the kernel, and placing it removes the first kernel page
  (`HobList.HobDataIsPlaced`, `HobList.ShimWipesKernel`).
- The include walk follows a symlinked `mkosi.conf.d`; the symlink walk does not
  (`ProfileTree.AnchorsAgreeExactly`, `ProfileTree.LinkedDropinsDisagree`).
- A kill between making a staged directory and marking it leaves a directory that no later sweep takes
  and every later build of that profile refuses (`Builds.LeftIsForever`,
  `Builds.KillBeforeMarkerIsForever`, `Builds.RefusedExactlyWhenLeft`); the comment at
  src/commands/build.rs:699 takes whatever the sweep left for in-tree.
- A source with a link in the marker's place, wherever it leads, has its copy's marker removed to make
  room for the link, and a kill there leaves content behind for good; exactly such sources are unsafe
  (`Builds.NoMarkerLinkIsExact`, `Builds.LinkInPlaceOfMarkerIsLeft`, `Builds.FileLinkIsLeft`). When the
  link reaches no regular file, the finished copy is unmarked too (`Staging.CopyIsMarkedExactly`,
  `Staging.MarkerLinkUnmarks`, `Builds.UnmarkedCopyIsLeft`).

## Model

| member | source | states |
|---|---|---|
| Hashing.ComputeMeasureLog | crates/tdx-measure/src/rtmr.rs:24-30 | the extend loop returns the fold of the hash over the log, from 48 zero bytes |
| Hashing.RegisterBindsLog | crates/tdx-measure/src/rtmr.rs:16-30 | two logs of 48-byte digests with one register value are the same log, or the two folds contain a collision or a preimage of the zero register among the strings they hash |
| Ccel.ParseDigests | crates/tdx-measure/src/ccel.rs:112-160 | the digest loop yields what the declarative scan of the digest table yields: the SHA-384 digest, the position after the table, and whether the table was cut short or unknown |
| Ccel.ParseEvent | crates/tdx-measure/src/ccel.rs:68-205 | one turn of the loop: end marker, end of data, an event and where the next one starts, or a refusal |
| Ccel.ParseCcel | crates/tdx-measure/src/ccel.rs:30-207 | the whole loop computes the read log or the refusal, including the limit of 10,000 events |
| Ccel.WrittenLogIsRead | crates/tdx-measure/src/ccel.rs:30-207 | completeness: any list of loggable events, serialised and followed by any legal ending (nothing, an index of 0xFFFFFFFF with at least four more bytes, or a terminator event and any bytes), reads back as its events that carry a SHA-384 digest, provided they are at most 10,000 |
| Ccel.ReadLogIsWritten | crates/tdx-measure/src/ccel.rs:68-205 | soundness: whatever is read is a concatenation of complete events and a legal ending |
| Ccel.AcceptsExactlyCompleteLogs | crates/tdx-measure/src/ccel.rs:30-207 | events are returned if and only if the bytes after the Spec ID event are complete events and a legal ending, the events being those with a SHA-384 digest, at most 10,000: nothing is silently cut off |
| Replay.ReplayRtmrs | crates/tdx-measure/src/ccel.rs:213-232 | each of the four registers equals the fold over its own events in log order; an index of no register changes nothing |
| Replay.SwapIsInvisible | crates/tdx-measure/src/ccel.rs:213-232 | exchanging two neighbouring events of different registers leaves the log of every register unchanged |
| Replay.ReorderingIsInvisible | crates/tdx-measure/src/ccel.rs:213-232 | two event lists in which each register has the same events in the same order, however the registers are interleaved, replay to the same four registers |
| Replay.RegistersBindLogs | crates/tdx-measure/src/ccel.rs:213-232 | two parsed logs that replay to the same register carry the same digest sequence for it, or the replays contain a collision or a zero preimage |
| Cpio.AppendCpioEntry | crates/tdx-measure/src/rtmr.rs:407-447 | appends exactly the entry: header with hexadecimal fields, name and NUL padded to 4, data padded to 4 |
| Cpio.BuildOsrelCpio | crates/tdx-measure/src/rtmr.rs:376-404 | the archive is `.extra`, `.extra/os-release` and the trailer |
| Cpio.BuildAssembledInitrd | crates/tdx-measure/src/rtmr.rs:348-364 | the initrd zero-padded to 4 bytes, then the archive, then padding |
| Cpio.ArchiveReads | crates/tdx-measure/src/rtmr.rs:376-447 | a newc reader recovers every storable entry list from what the writer emits, whatever bytes follow; every entry keeps 4-byte alignment |
| Cpio.AssembledInitrdReads | crates/tdx-measure/src/rtmr.rs:348-447 | for every os-release below 2^32 bytes the reader, placed at the aligned end of the initrd, finds `.extra`, the os-release bytes exactly, and the trailer |
| Cpio.AssembledInitrdEndsInZeros | crates/tdx-measure/src/rtmr.rs:348-404 | the assembled initrd ends in two zero bytes, which keeps it apart from every section-name preimage |
| Unicode.Utf8Exact | crates/tdx-measure/src/rtmr.rs:311-325 | the UTF-8 reader accepts exactly the encodings of scalar sequences, and returns what was encoded |
| Unicode.Utf16Injective | crates/tdx-measure/src/rtmr.rs:64-71 | different texts have different UTF-16LE forms |
| Uki.LastWinsMeaning | crates/tdx-measure/src/rtmr.rs:290-297 | the section map holds, for each name, the data of the last section of that name |
| Uki.TrimCmdline | crates/tdx-measure/src/rtmr.rs:311-325 | the load options are the UTF-16LE form of the command line cut at its trailing newlines, carriage returns, NULs and spaces, with a NUL |
| Uki.PrecomputeRtmr2Digests | crates/tdx-measure/src/rtmr.rs:277-338 | the digests are the hashes of the declared preimages in order: name and data of each present section, load options, assembled initrd |
| Uki.ComputeRtmr2 | crates/tdx-measure/src/rtmr.rs:452-460 | the register is the fold over those digests, or the error of a command line that is not UTF-8 |
| Uki.PreimagesDecode | crates/tdx-measure/src/rtmr.rs:277-338 | equal preimage lists come from the same measured sections present with the same bytes |
| Uki.Rtmr2CommitsToUki | crates/tdx-measure/src/rtmr.rs:24-30 | two section lists with one RTMR[2] have the same measured sections present with the same bytes (the last duplicate counts), or a collision or zero preimage is among the strings hashed |
| Uki.ComputeRtmr2DirectKernel | crates/tdx-measure/src/rtmr.rs:64-71 | the direct-boot register is one extend with the hash of the NUL-terminated UTF-16LE command line |
| Uki.DirectRtmr2CommitsToCmdline | crates/tdx-measure/src/rtmr.rs:64-71 | equal direct-boot registers mean equal command lines, or a collision or zero preimage |
| Sorting.SortSorted | crates/igvm-tools/src/builder.rs:347-371 | the sort puts keys in order and keeps the multiset of elements |
| Sorting.SortStable | crates/igvm-tools/src/builder.rs:347-371 | elements of one key keep their order |
| Sorting.SortedStableUnique | crates/igvm-tools/src/builder.rs:347-371 | order and stability determine the result, so any stable sort gives this one |
| Sorting.SortsAlikeExactly | crates/igvm-tools/src/builder.rs:347-371 | two lists sort to the same if and only if the elements of each key come in the same order in both |
| Sorting.SortAppended | crates/tdx-measure/src/tdvf.rs:716-730 | sorting a sorted list with one element appended inserts it after its equals |
| Authenticode.CollectSections | crates/tdx-measure/src/pe.rs:113-130 | the section vector lists the sections with non-zero raw size, in header order, or the read error |
| Authenticode.HashSections | crates/tdx-measure/src/pe.rs:135-150 | the loop feeds each section's raw bytes and sums their sizes, or reports a section outside the file |
| Authenticode.AuthenticodeSha384 | crates/tdx-measure/src/pe.rs:51-190 | the digest is the hash of the declared byte stream, with the same refusals, the panicking slice included |
| Authenticode.SigningIsInvisible | crates/tdx-measure/src/pe.rs:51-190 | for a well-formed unsigned image, padding to 8, writing checksum and certificate entry and appending a non-empty certificate table of a multiple of 8 bytes leaves the stream unchanged if and only if the sections claim no more bytes than the file has, or the file needed no padding |
| Authenticode.SigningShowsOnDoubleClaim | crates/tdx-measure/src/pe.rs:113-190 | the failing case occurs: a well-formed image of 305 bytes whose two sections claim one byte changes its stream when signed |
| Authenticode.PanicsExactly | crates/tdx-measure/src/pe.rs:152-178 | the trailing slice panics if and only if the headers are accepted, the sections can be read and leave bytes behind, and the certificate entry has a size and an address past the end of the file |
| Authenticode.CertPastEndPanics | crates/tdx-measure/src/pe.rs:152-178 | it happens: 305 bytes without sections and with the certificate entry (0x1000, 1) |
| Authenticode.TiledImageIsHashedWhole | crates/tdx-measure/src/pe.rs:51-190 | an unsigned image whose sections tile the file is hashed whole, each byte once and in order, except checksum and certificate entry, then zero-padded |
| Footer.MetaBlock | crates/igvm-tools/src/ovmfmeta.rs:134-141 | an entry taken off the end leaves a table shorter by exactly its header and payload, which is why the walk ends on every input |
| Footer.CollectOvmfEntries | crates/igvm-tools/src/ovmfmeta.rs:183-205 | the loop visits exactly the entries of the backward walk and ends on every input |
| Footer.FindTdxEntry | crates/tdx-measure/src/tdvf.rs:301-341 | the loop returns the offset the TDX walk defines, on every table where that walk ends |
| Footer.ParseLoopsExactlyWhenStuck | crates/tdx-measure/src/tdvf.rs:313-341 | `Tdvf::parse` loops forever on exactly the tables in which, going back from header to header, it meets one of length zero that is not the TDX entry's |
| Footer.ParseLoopsExactlyOnZeroSlack | crates/tdx-measure/src/tdvf.rs:301-341 | on a well-laid-out image it loops forever if and only if there is no TDX entry and the 18 bytes before the table start with two zeros and do not end in the TDX GUID |
| Footer.EmptyTableLoops | crates/tdx-measure/src/tdvf.rs:301-341 | it happens: an empty table behind 18 zero bytes |
| Footer.MetaWalkReads | crates/igvm-tools/src/ovmfmeta.rs:134-141 | laying out any entry list and walking it returns the list reversed |
| Footer.OvmfReadsImage | crates/igvm-tools/src/ovmfmeta.rs:183-205 | on every well-laid-out image the OVMF reader sees every entry, last first |
| Footer.TdxWalkReads | crates/tdx-measure/src/tdvf.rs:301-341 | on a laid-out table the TDX walk ends at the last TDX entry; without one it runs into the 18 bytes before the table |
| Footer.TdxVisitsPrefix | crates/tdx-measure/src/tdvf.rs:301-341 | the headers the TDX walk reads are a prefix of those the OVMF walk reads, then at most the 18 extra bytes |
| Footer.WalksAgree | crates/tdx-measure/src/tdvf.rs:301-341 | on every well-laid-out image with 18 bytes before the table both readers visit the same headers in the same order, up to and including the TDX entry |
| Tdvf.ParseTdvf | crates/tdx-measure/src/tdvf.rs:286-468 | the parser returns the declared outcome on every image whose table walk ends, in the order the checks are made |
| Tdvf.TableIsRead | crates/tdx-measure/src/tdvf.rs:403-465 | a table reads as a section list if and only if it is that list serialised and every section passes the checks |
| Tdvf.ParsesExactlyDescriptors | crates/tdx-measure/src/tdvf.rs:346-468 | a section list is returned if and only if the located metadata starts with exactly its version-1 descriptor and every section passes the checks |
| Mrtd.HashPage | crates/tdx-measure/src/tdvf.rs:476-515 | one page feeds an add record unless it is augmented later, then sixteen extends if it is measured |
| Mrtd.ComputeMrtd | crates/tdx-measure/src/tdvf.rs:476-515 | the digest is the hash of the record stream of all sections, and no read leaves the firmware |
| Mrtd.MeasureFirmware | crates/tdx-measure/src/tdvf.rs:286-515 | for every image the parser accepts, measuring it reads inside the firmware only |
| Mrtd.SectionCovers | crates/tdx-measure/src/tdvf.rs:476-515 | a section with MR_EXTEND contributes exactly fw[data_offset..data_offset + memory_data_size], once and in order, any other none; every page is added once unless augmented |
| Mrtd.RecordsCover | crates/tdx-measure/src/tdvf.rs:476-515 | all sections together measure exactly their MR_EXTEND bytes and add exactly the pages of the sections that are not augmented, in section order |
| Mrtd.DecodeStream | crates/tdx-measure/src/tdvf.rs:476-515 | decoding undoes the stream, so equal streams come from equal record sequences |
| Mrtd.MrtdCommitsToRecords | crates/tdx-measure/src/tdvf.rs:476-515 | two parsed images with one MRTD have the same add and extend sequence, hence the same measured bytes, or their streams collide |
| Acceptor.MemoryAcceptor.New | crates/tdx-measure/src/tdvf.rs:695-702 | refused if and only if start + size passes 64 bits; otherwise one open range [start, start + size) |
| Acceptor.MemoryAcceptor.Accept | crates/tdx-measure/src/tdvf.rs:704-731 | the ranges become the sorted remnants with the accepted interval; an empty interval changes nothing |
| Acceptor.AcceptChain | crates/tdx-measure/src/tdvf.rs:704-731 | one accept of a free interval keeps the ranges a chain over the same memory and flags exactly the addresses of the interval in addition |
| Acceptor.RunTiles | crates/tdx-measure/src/tdvf.rs:694-731 | after any sequence of pairwise disjoint accepts inside memory the ranges are sorted, do not overlap, cover exactly [0, size), and flag an address if and only if some call contained it |
| TdHob.AcceptSections | crates/tdx-measure/src/tdvf.rs:585-601 | the section loop makes the accept calls and finds the list base, or stops when memory or a range ends past 64 bits |
| TdHob.AddRangeHobs | crates/tdx-measure/src/tdvf.rs:615-638 | one resource descriptor per range but the last, in order |
| TdHob.AddLastHobs | crates/tdx-measure/src/tdvf.rs:640-659 | the last range is one descriptor below 0xB0000000 bytes of memory and is split around the 32-bit hole from there up, or refused |
| TdHob.MeasureTdHob | crates/tdx-measure/src/tdvf.rs:585-667 | the digest is the hash of the declared list, whose end-of-list field is base + 56 + 48n + 8 |
| TdHob.HobsDescribeRanges | crates/tdx-measure/src/tdvf.rs:627-659 | the descriptors are disjoint, sum to memory_size, and give each byte of memory, at its relocated address, the type of its range |
| TdHob.TdHobDescribesMemory | crates/tdx-measure/src/tdvf.rs:585-667 | for disjoint in-range sections every successful build describes each byte of memory once and nothing else, bytes from 2^31 moved up by 2^31 when memory reaches 0xB0000000; the types say exactly what was accepted if and only if the top byte was left open |
| TdHob.ListReads | crates/tdx-measure/src/tdvf.rs:603-664 | the serialised list decodes to the same descriptors, between the hand-off table and the end-of-list field |
| TdHob.SectionsAreDescribed | crates/tdx-measure/src/tdvf.rs:585-667 | from sections to bytes: for disjoint sections inside memory the list of every successful build decodes to disjoint descriptors that describe each byte of memory once, and its end field is the guest address eight bytes past the list |
| TdHob.AcceptedTopIsReportedOpen | crates/tdx-measure/src/tdvf.rs:627-659 | the misreport occurs: one temporary-memory section at the top of 0x2000 bytes of memory is listed as unaccepted |
| Measure.CollectParamAreas | crates/igvm-tools/src/measure.rs:172-185 | the area map holds the last declared size of each index |
| Measure.MeasureEach | crates/igvm-tools/src/measure.rs:115-156 | measuring a batch folds PAGE_INFO over its pages in order |
| Measure.MeasureSnp | crates/igvm-tools/src/measure.rs:198-345 | digest, page count and refusals are those of the batched measuring order |
| Measure.SamePages | crates/igvm-tools/src/measure.rs:198-345 | for every directive list whose compatible inserts name known areas the batched loop measures the same pages as a plain loop, each as often |
| Measure.PlainIsStrict | crates/igvm-tools/src/measure.rs:198-345 | in the plain order no page is listed twice |
| Measure.CountIsPages | crates/igvm-tools/src/measure.rs:198-345 | the reported count is compatible PageData plus rounded-up parameter pages plus VMSAs |
| Measure.BatchingIsInvisible | crates/igvm-tools/src/measure.rs:198-345 | pages are measured in directive order if and only if no compatible insert that contributes pages follows a compatible PageData |
| Measure.InsertOvertakesPage | crates/igvm-tools/src/measure.rs:221-325 | it happens: of a page, an area and an insert of that area, the insert is measured first |
| Measure.PlainLaunch | crates/igvm-tools/src/measure.rs:198-345 | then the digest is the plain in-order fold over the pages, followed by the VMSAs |
| Measure.OvertakenOrder | crates/igvm-tools/src/measure.rs:221-325 | in a list where only one page is followed by other directives, parameter pages are measured first, in order, and data pages after them, in order |
| Measure.DigestCommitsToPages | crates/igvm-tools/src/measure.rs:54-156 | two page sequences with one digest are the same, or the folds contain a collision or a zero preimage |
| Measure.LaunchCommitsToBytes | crates/igvm-tools/src/measure.rs:54-345 | two launches with one digest measured the same addresses, types, padded page bytes and VMSA bytes in the same order, or the strings they hash contain a collision or a zero preimage |
| Builder.Builder.AddEmptyPages | crates/igvm-tools/src/builder.rs:144-165 | appends one empty page directive of the given kind per page, in address order |
| Builder.Builder.AddDataPages | crates/igvm-tools/src/builder.rs:279-308 | appends one data page directive per page of the data, in address order, with the requested flag |
| Builder.Builder.RemovePageDataInRange | crates/igvm-tools/src/builder.rs:310-322 | keeps exactly the directives that are not page data in the range, in order; an empty range still removes one page |
| Builder.Builder.AddFirmware4g | crates/igvm-tools/src/builder.rs:326-329 | appends the pages of the firmware, the last of which ends exactly at 4 GiB |
| Builder.Builder.Finalize | crates/igvm-tools/src/builder.rs:347-371 | the directives of the file are in key order, are the ones added, and keep their order within each key |
| Builder.FinalizesAlikeExactly | crates/igvm-tools/src/builder.rs:279-371 | two builders with the same set of pages at distinct addresses finalize to the same list if and only if their directives of key zero (parameters, and a page at address zero) were added in the same order |
| Builder.FinalizeIsCanonical | crates/igvm-tools/src/builder.rs:279-371 | without a page at address zero, if and only if their non-page directives were added in the same order |
| Builder.PagesComeLast | crates/igvm-tools/src/builder.rs:347-371 | in that list no other directive follows a page |
| Builder.PageAtZeroIsNotCanonical | crates/igvm-tools/src/builder.rs:347-371 | it happens: a page at zero and a parameter keep the order in which they were added |
| Builder.LaunchIsCanonical | crates/igvm-tools/src/measure.rs:198-345 | a finalized file with pages at distinct addresses, zero included, measures to its parameter pages in insert order, then its pages by address, then its VMSAs, with the same count and refusals |
| Builder.LaunchIgnoresPageOrder | crates/igvm-tools/src/measure.rs:198-345 | so the launch result does not depend on the order in which pages were added |
| Builder.LaunchIsPlain | crates/igvm-tools/src/measure.rs:221-325 | without a page at zero the digest is the plain in-order fold over the directives of the file |
| HobList.IgvmDataList.Add | crates/igvm-tools/src/hob.rs:133-144 | a blob goes to the next free page, with the descriptor of its address, length and type |
| HobList.IgvmDataList.Hobs | crates/igvm-tools/src/hob.rs:147-157 | the serialised list is the descriptors in order and the end marker |
| HobList.AddHobData | crates/igvm-tools/src/build.rs:84-137 | builder and list are combined in the declared placement order, or the missing hob area is reported |
| HobList.PlaceCovers | crates/igvm-tools/src/builder.rs:279-322 | placing a blob replaces what covered its pages and changes nothing else |
| HobList.LastPlacementWins | crates/igvm-tools/src/build.rs:122-134 | the last placement that touches an address decides what is there |
| HobList.LayOutIsStacked | crates/igvm-tools/src/hob.rs:133-144 | blobs are page-aligned, disjoint and in add order |
| HobList.PageHoldsBlob | crates/igvm-tools/src/builder.rs:279-300 | the page directive of a blob carries its byte at each address, or zero past its end |
| HobList.HobDataIsPlaced | crates/igvm-tools/src/build.rs:84-137 | each blob sits at exactly the address its descriptor names, one page directive per page, with the requested measured flag, if and only if the shim is not an empty file in front of a kernel |
| HobList.ShimWipesKernel | crates/igvm-tools/src/build.rs:122-134 | an empty shim removes the first page of the kernel that shares its address |
| HobList.HobAreaIsPlaced | crates/igvm-tools/src/build.rs:122-124 | outside the blob range the first page of the hob area is one directive holding the hob list |
| HobList.HobsReadBack | crates/igvm-tools/src/hob.rs:147-157 | the serialised list decodes to the same entries in add order |
| HobList.GuestFindsBlobs | crates/igvm-tools/src/build.rs:84-137 | from the given files to guest memory, when the hob page is outside the blobs and these end below 2^64: the page at the hob area decodes to one entry per file, in add order, with its length and type, at page-aligned addresses that do not overlap; and the final pages hold every file at its entry's address, with the requested measured flag, if and only if the shim is not an empty file in front of a kernel |
| Fragments.CheckFragmentOptions | src/kernel/config.rs:246-477 | the verdict is that of the declared rule; it accepts if and only if every line is canonical, no forced symbol is pinned on, each forced symbol's last request is off, and each last boolean request or forced assertion matches the resolved config |
| Fragments.Decide | src/kernel/config.rs:388-477 | the checks over the recorded maps decide the rule stated over line positions |
| Fragments.ValuesMeaning | src/kernel/config.rs:236-242 | `values` holds v for a symbol if and only if v is the value of the last line that assigns it |
| Fragments.SubmittedMeaning | src/kernel/config.rs:277-387 | the submitted map holds the request of the last line for a symbol, scalars included |
| Fragments.RequestedMeaning | src/kernel/config.rs:277-387 | the requested map holds the last on or off request; scalars in between do not erase it |
| Fragments.MarkersMayMove | src/kernel/config.rs:246-477 | moving, repeating or merging forced markers leaves the verdict unchanged |
| Fragments.ResplittingIsInvisible | src/kernel/config.rs:246-477 | splitting the same text into fragments at other line boundaries leaves the verdict unchanged |
| Text.LinesConcat | src/kernel/config.rs:284-286 | the lines of a line-terminated text and another are the lines of their concatenation |
| Shell.ShellReadsArgv | src/qemu.rs:103-117 | POSIX word splitting and quote removal applied to the joined line returns exactly the argument list, empty arguments and quotes included |
| Shell.ShellJoinInjective | src/qemu.rs:103-117 | different argument lists never join to the same line |
| ProfileTree.EscapesRoot | src/commands/build.rs:902-919 | the depth loop decides the declared escape predicate |
| ProfileTree.StaysInside | src/commands/build.rs:902-919 | a target that does not escape resolves, under every root, to that root followed by one relative path |
| ProfileTree.EscapesExactlyWhenNotPortable | src/commands/build.rs:902-919 | `escapes_root` accepts a target if and only if it names one root-relative path under every root |
| ProfileTree.SymlinkWalkExact | src/commands/build.rs:783-832 | the symlink walk accepts a tree if and only if every symlink is inside an image-relative subtree of an extras-dir root, or is portable and not such a root itself |
| ProfileTree.IncludeWalkExact | src/commands/build.rs:845-897 | without a symlinked `mkosi.conf.d`, the include walk accepts a tree if and only if every include of every file mkosi parses is portable and the dropin files can be read |
| ProfileTree.WalksAgreeOnAnchors | src/commands/build.rs:775-832 | the anchors the include walk visits are the directories where the exemption applies, plus those behind a symlinked `mkosi.conf.d` |
| ProfileTree.AnchorsAgreeExactly | src/commands/build.rs:775-865 | with unique names, the two walks have the same anchors if and only if no extras-dir root holds a `mkosi.conf.d` that is a link to a directory with a subdirectory |
| ProfileTree.AcceptedTreesCanBeMoved | src/commands/build.rs:775-919 | without such links, both walks accept if and only if all non-exempt symlinks and all parsed includes are portable |
| ProfileTree.LinkedDropinsDisagree | src/commands/build.rs:845-865 | it happens: both walks accept a profile whose `mkosi.conf.d` links to its own directory `shared`, with different anchors |
| Staging.Checkout.SweepStale | src/commands/build.rs:736-760 | removes exactly the profile directories whose marker path is a regular file or a link to one |
| Staging.Checkout.WriteSyncInputs | src/commands/build.rs:639-653 | whatever was there, the sync-input directory is absent for no inputs and else holds exactly the inputs, the last of a name winning |
| Staging.Checkout.StageProfileDirs | src/commands/build.rs:680-728 | succeeds if and only if the directories can be staged side by side and no copy fails, then adds exactly their copies and their names; otherwise nothing is left and the first complaint is reported |
| Staging.Checkout.DropGuards | src/commands/build.rs:593-601 | removes exactly the directories of the guards |
| Staging.ValidationIsExact | src/commands/build.rs:685-709 | validation finds no complaint if and only if each directory is sound and no name is taken twice or already in the tree |
| Staging.LastInputWins | src/commands/build.rs:639-653 | the last value given for a name is the one written |
| Staging.OnlyInputsAreWritten | src/commands/build.rs:639-653 | no other file is in the sync-input directory |
| Staging.CopiesStayMarked | src/commands/build.rs:711-721 | a copy cut short anywhere carries its marker as long as only plain files were written over it |
| Staging.CopyIsExact | src/commands/build.rs:927-952 | a finished copy holds the entries of the source, each where it was, the marker unless the source has an entry of that name, and nothing else |
| Staging.CopyFailsExactly | src/commands/build.rs:927-952 | the copy fails if and only if the source has a directory named like the marker at its root |
| Staging.CopyIsMarkedExactly | src/commands/build.rs:711-721 | staging a source ends in a marked copy if and only if what its root holds under the marker's name, if anything, is a regular file or a link that reaches one |
| Staging.MarkerLinkUnmarks | src/commands/build.rs:711-721 | it happens: a source both validators accept, with a `mkosi.conf` and a link in the marker's place that leads nowhere, gets an unmarked copy |
| Staging.SweepUndoesStaging | src/commands/build.rs:680-760 | sweeping takes back marked copies, and nothing else |
| Staging.GuardsUndoStaging | src/commands/build.rs:593-601 | removing the names of the staged directories leaves the profiles that were there before |
| Builds.StepKeeps | src/commands/build.rs:108-126 | every step of every build, and every kill, keeps the safety invariant |
| Builds.StagingIsAlwaysSafe | src/commands/build.rs:593-760 | over every run of builds, each finishing, failing or killed at any step, over sources without a symlink in the marker's place: in-tree profiles are never written or removed, any other directory with content is marked, and only the lock holder is active |
| Builds.RunIsExclusive | src/commands/build.rs:616-635 | in every run, whatever the sources, a build at work holds the lock, so two never are |
| Builds.OnlyTheHolderWrites | src/commands/build.rs:616-635 | in every run, whatever the sources, a step that changes the file system is a step of the lock holder |
| Builds.SweepAndSyncRecover | src/commands/build.rs:637-653 | after a sweep at worst empty unmarked directories are left, and once the sync inputs are written the sync-input directory holds exactly this build's values |
| Builds.MkosiSeesThisBuild | src/commands/build.rs:680-728 | while mkosi works, each profile directory of the build is there whole, in-tree profiles are as they were, and anything else is empty |
| Builds.StagedLinksMeanTheSame | src/commands/build.rs:706-721 | for every link outside the exempt subtrees of a staged copy, and every root, the target resolves to that root followed by what it resolves to in the copy alone |
| Builds.StagedIncludesMeanTheSame | src/commands/build.rs:706-721 | the same for every include of every configuration file mkosi parses in a staged copy, files reached through a symlink in the profile included |
| Builds.CleanUnwindRestores | src/commands/build.rs:593-601 | a sequence of guard drops that all succeed ends in the profiles staging began with |
| Builds.LeftIsForever | src/commands/build.rs:680-760 | in every run, over whatever sources, an unmarked directory no build is at work on stays as it is, and no build with a profile directory of that name gets past validation from then on |
| Builds.KillBeforeMarkerIsForever | src/commands/build.rs:711-721 | a build killed between making a directory and marking it leaves one: empty for ever after, with every later build of that profile refused |
| Builds.SweptRemainsAreLeft | src/commands/build.rs:736-760 | whatever a sweep spares outside the tree is such a directory |
| Builds.RefusedExactlyWhenLeft | src/commands/build.rs:685-709 | at validation a sound directory under a name the checkout does not use is refused if and only if an empty unmarked directory of that name has been left, and then as a collision with an in-tree profile |
| Builds.KillBeforeMarkerBlocks | src/commands/build.rs:711-721 | an instance of the three, as a run in a checkout without profiles |
| Builds.LinkInPlaceOfMarkerIsLeft | src/commands/build.rs:934-940 | for every stageable source with a symlink in the marker's place, wherever it leads, a run in which a kill between removing the marker and making the link leaves everything copied so far behind, unmarked, for good |
| Builds.NoMarkerLinkIsExact | src/commands/build.rs:711-721 | a stageable source has no symlink in the marker's place if and only if no run, over it and sources without such a link, has a kill during its copying that leaves an unmarked directory |
| Builds.FileLinkIsLeft | src/commands/build.rs:934-940 | it happens with a finished copy that would be marked: the link leads to the `mkosi.conf` beside it, which is left behind |
| Builds.UnmarkedCopyIsLeft | src/commands/build.rs:711-721 | for every stageable source whose finished copy is not marked, a run in which a kill leaves the whole copy behind for good |

## Left out

- RTMR[0] log assembly, ACPI tables, boot variables and the configuration firmware volume: digests of files in a fixed order.
- RTMR[1] (GPT event and boot stub) and RTMR[3] (workload digests): the same fold over other inputs.
- FAT reading, kernel fetch and compile, mkosi, sudo, QEMU, network, command-line parsing and printing: input and output.
- SHA-384, and the `igvm`, `object` and `tar` crates: foreign code; `IgvmFile::new` is taken as the identity on its directives.
- Error texts, labels printed beside digests and verbose output: errors are constructors of a datatype.
- `parse_blk` region descriptors and `add_ovmf_snp_pages`: the walk over the footer table is modelled, the meaning of each region is not.
- `add_firmware_1m`, `add_uefivars`, native register context and policy: adders like the ones modelled, with other constants.
- VMSA register contents and the KVM overrides: a VMSA is an opaque page, measured last.
- `Gpa` and little-endian writers wrap at the source's integer width; a checked build panics there instead.
- Footer.FindTdxEntry: requires that the walk ends, because the program does not otherwise return; `Footer.ParseLoopsExactlyWhenStuck` says when that is.
- Tdvf.ParseTdvf: the same condition on the table walk.
- Mrtd.ComputeMrtd: section ranges are within 64 bits and inside the firmware, which the parser establishes.
- Fragments.ResplittingIsInvisible: every fragment but the last ends in a line feed; without one the last line of a fragment and the first of the next are different lines.
- ProfileTree.AcceptedTreesCanBeMoved: no `mkosi.conf.d` of an extras-dir root is a symlink; links that lead back to their own directory have no finite tree and are not represented.
- ProfileTree.IncludeWalkExact: names are unique in a directory, as a file system guarantees, so lookup by name and traversal coincide.
- Staging.Checkout.StageProfileDirs: the only file error is a directory in the marker's place, which cannot be made; a failure at any step is modelled in `Builds`.
- Builds.StagingIsAlwaysSafe: removing a directory is one step, no source has a symlink named like the marker at its root (a plain file or a directory of that name may be there), and in-tree profiles carry no marker, a link to a file included; entries of `mkosi.profiles/` that are not directories are not represented.
- What following a symlink finds is a given of each link, taken in the finished tree: a marker link that reaches a file only once that file is copied counts as reaching it from the start (`Builds.LinkInPlaceOfMarkerIsLeft` does not depend on where the link leads).
- File modes, ownership, and everything in `mkosi.local/` other than the sync-input directory.
- The retry through sudo of a removal that was denied: a removal happens or does not.
