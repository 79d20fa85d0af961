# Enclave loading, provisioning messages and orchestrator protocols in Dafny

A model of three parts of the runtime, with proofs of what each part promises.

**Building an enclave image.** `SRDEloader` turns the loadable ELF segments into 4096-byte pages and the gaps
between segments into holes; `SRDEmetadata` finds its metadata block, patches the image, and appends the pages,
guards and threads of its layout table; `SRDEenclave` keeps the page counter, hands pages to the device and keeps
the stack of threads. The object of the proofs is the sparse memory image: which byte is found at which address.

**Provisioning messages.** `SRDEmessage` assembles type-length-value messages, authenticates a header whose size
field is predicted before encryption, sends the result as hexadecimal and Base64, and takes replies apart again.

**Orchestrator protocols.** `quixote` dumps a model down a pipe, reloads it line by line and checks a signature
over its lines; `quixote` and `quixote-console` speak a count-then-records protocol over a socket;
`quixote-export` moves events through a reused queue.

| file | what it models |
|---|---|
| `Wrappers.dfy` | values that may be missing |
| `Bytes.dfy` | bytes, 32- and 64-bit widths, little and big endian, `memset`, `memcpy` |
| `Enclave.dfy` | `SRDE/SRDEenclave.c`: pages, holes, the device's page table, the thread stack |
| `Loader.dfy`, `ElfImage.dfy` | `SRDE/SRDEloader.c`, and the memory image the program headers describe |
| `Layouts.dfy`, `Metadata.dfy`, `Patches.dfy`, `NoteBlocks.dfy` | `SRDE/SRDEmetadata.c`, and what its tables mean |
| `EnclaveImage.dfy` | segments and layout table together |
| `Codec.dfy`, `Tlv.dfy`, `Provisioning.dfy`, `MessageObject.dfy` | `SRDE/SRDEmessage.c` |
| `ModelFile.dfy`, `ModelDump.dfy` | the model file side of `Quixote/quixote.c` |
| `ConsoleProtocol.dfy`, `ConsoleRuns.dfy` | the management socket, sequentially and under every interleaving |
| `Export.dfy` | `Quixote/quixote-export.c` |

Objects the source updates in place are classes; their methods and loops are proved equal to specification
functions, and the properties of those functions are lemmas.

## Reading the model

- Addresses are natural numbers. `Segment.Valid` and the room left in `Enclave.Fits` say that address arithmetic
  stays below 2^64, and that file sizes fit the loader's 32-bit page counter (below 2^44 bytes). `R2p` and
  `Unfinished` wrap at 2^64 as the C does. Masks and shifts are written as division and remainder.
- The outcome of adding a page is arbitrary. `refused` records that the device has turned a page down; the
  statements about layouts are for runs in which it never does.
- `_load_group` drops the status of `_load_layout` (`SRDE/SRDEmetadata.c:1244`), so `load_layouts` can report success
  for an incomplete enclave; `Layouts.StatusIsTruthful` gives the exact condition and
  `Layouts.StatusMisleads` a table for which it does. The start of a group's window is
  a 32-bit difference: a group with fewer entries before it than it asks for replays nothing.
- `_unpack_messages` and `decode` do no bounds checks. `DecodeDefined` and `ReloadDefined` are the inputs they read
  inside their buffers. The three-byte buffer `decode` reuses starts with arbitrary contents (`junk`).
- `encode_es_request` does not look at the object's state, so it can append to a response;
  `Provisioning.EsRequestBreaksWhole` shows it.
- Cryptography is a set of arbitrary functions; authenticated encryption keeps the length of its text and makes a
  16-byte tag (`KeepsLength`), and nothing else is assumed of it.
- Whether WHACK clears the pointer it is given is a parameter of the model file (`World.whackNulls`), as are
  signature verification and the controller's answers.
- The load command table has no end marker (`Quixote/quixote.c:1106`): lines that start with no command are outside
  the model (`Known`).
- A metadata block may be shorter than its header. `_load_metadata` reads the version out of the structure the
  blocks are copied over, so a block of fewer than 16 bytes covers the version only in part.
- Console and orchestrator take turns in any order, the files change at any moment, and the orchestrator may give
  up in the middle of a reply. The console reads a 64-bit count as 32 bits: the socket is left empty exactly when
  fewer than 2^32 lines were counted, and a run is followed until a count reaches 2^32. An orchestrator that has sent
  the count of an empty list may still fail to open the file again: the console is at its prompt by then, and finds
  out at its next command.

## Model

| member | source | states |
|---|---|---|
| `Loader.SaveSegments` | SRDE/SRDEloader.c:193-241 | the saved segments are the PT_LOAD headers in order, each with its own range of file bytes and its permissions |
| `Loader.R2pRounds` | SRDE/SRDEloader.c:643-645 | `r2p` is the least page multiple from an address up, wraps to 0 only in the last 4095 addresses, and is idempotent |
| `Loader.NeverUnfinished` | SRDE/SRDEloader.c:665-685 | the error branch of `_finish_segment` is unreachable, for every 64-bit address and size |
| `Loader.RestPages` | SRDE/SRDEloader.c:741-814 | the whole pages and the residual page are exactly the pages the file bytes need after the first one, inside the segment's page count |
| `Loader.ZeroSizeFills` | SRDE/SRDEloader.c:821-857 | the zero fill, with the 1.3 padding page, brings the file pages up to the segment's page count in closed form |
| `Loader.BuildFirstPage` | SRDE/SRDEloader.c:939-945 | page 0 holds the leading file bytes at the segment's offset in the page, and zeros around them |
| `Loader.BuildSegment` | SRDE/SRDEloader.c:714-864 | the pages after the first are pages 1 up to the page count of the segment's memory image; a failure leaves an initial part of it |
| `Loader.AddHoles` | SRDE/SRDEloader.c:947-959 | the hole loop ends, and adds exactly the gap up to the segment's start page |
| `Loader.LoadSegment` | SRDE/SRDEloader.c:928-991 | one segment adds its gap and then its pages, in order |
| `Loader.LoadSegments` | SRDE/SRDEloader.c:884-998 | a load that succeeds leaves exactly the pages and holes of all segments; one that fails leaves an initial part of them and was poisoned or refused |
| `ElfImage.PlacedAtVaddr` | SRDE/SRDEloader.c:928-991 | every segment begins at its own page-aligned address if and only if the segments are sorted and page-disjoint, the padding page included |
| `ElfImage.LoadedIsElfImage` | SRDE/SRDEloader.c:884-998 | for such segments, every address of the loaded image holds exactly the byte the program headers describe, or is unmapped when they describe none |
| `ElfImage.SegmentInMemory` | SRDE/SRDEloader.c:714-991 | chapter 5 of the System V gABI: file bytes at a segment's addresses, then zeros up to its memory size |
| `ElfImage.FileByteInMemory` | SRDE/SRDEloader.c:193-241 | end to end: at a loadable header's virtual addresses are its bytes of the file, then zeros up to its memory size |
| `ElfImage.PageCountByVersion` | SRDE/SRDEloader.c:741-857 | how many pages a segment takes under each metadata version: one if it ends in its first page, otherwise as many as its memory needs, and one more exactly for version 1.3 and a memory size above the file size |
| `ElfImage.SegmentPages` | SRDE/SRDEloader.c:917-991 | after `load_segments`, by version: each segment's pages are at its own address, that many, measured and with its permissions, and up to the next segment there are only holes |
| `ElfImage.PermissionBits` | SRDE/SRDEloader.c:193-241 | read, write and execute of a page are those of its program header, bit by bit |
| `ElfImage.FileBytesCovered` | SRDE/SRDEloader.c:741-814 | all file bytes fall inside the segment's pages if and only if the file size needs no page the memory size does not |
| `SgxEnclave.EpcOfAt` | SRDE/SRDEenclave.c:787-859 | an address is mapped on the device if and only if it is the address of a page slot, holes map nothing, and no address is used twice |
| `SgxEnclave.Enclave.AddPage` | SRDE/SRDEenclave.c:787-823 | an accepted page takes a fresh address, the next one; anything else changes no slot |
| `SgxEnclave.Enclave.AddHole` | SRDE/SRDEenclave.c:846-859 | a hole advances the address range by one page and maps nothing |
| `SgxEnclave.Enclave.AddThread` | SRDE/SRDEenclave.c:914-942 | the address the next page will get is appended to the threads |
| `SgxEnclave.Enclave.GetThread` | SRDE/SRDEenclave.c:963-1007 | hands out a thread exactly when one is free, on top of those in use |
| `SgxEnclave.Enclave.BootSlot` | SRDE/SRDEenclave.c:1159-1202 | for every tree of nested entries, threads in use and thread count are restored on all paths; it succeeds exactly when the enclave was usable, a thread was free and the enclave returned 0 or was being uninitialised, success means the processor was entered on the next thread, and failure poisons |
| `SgxEnclave.BootOutcome` | SRDE/SRDEenclave.c:1159-1202 | the same of the specification, for every tree; without a free thread nothing is entered |
| `SgxEnclave.BootLeavesUsable` | SRDE/SRDEenclave.c:1159-1202 | a tree of entries leaves the enclave usable if and only if it was usable, the nesting never exceeds the free threads, and no entry failed |
| `SgxEnclave.EntriesStacked` | SRDE/SRDEenclave.c:963-1007 | at every entry the processor makes, the active TCS addresses are the first of the table, more of them than were in use before, pairwise distinct |
| `SgxEnclave.EntriesAtTheirLevels` | SRDE/SRDEenclave.c:1159-1202 | `thread_cnt` is the nesting depth at every entry made, in trees that fail too: the thread counts are an initial part of the tree's levels in order of entry, and all of them if the enclave stays usable |
| `SgxEnclave.UsableTreeMadeEveryEntry` | SRDE/SRDEenclave.c:1159-1202 | a tree that leaves the enclave usable made each of its entries once |
| `Layouts.DescribeMeaning` | SRDE/SRDEmetadata.c:1008-1037 | the ids treated as TCS, guard and known are exactly those the tables of the two versions list so |
| `Layouts.RelocatedFields` | SRDE/SRDEmetadata.c:1108-1134 | each replica's `ossa`, `ofsbase` and `ogsbase` are the template's plus the replica's own address, and every byte outside them is the template's |
| `Layouts.TcsSlotIsThreadPage` | SRDE/SRDEmetadata.c:1108-1134 | the page of a thread holds the metadata's own bytes, zero filled, and each of its three addresses is the metadata's plus the page's |
| `Layouts.FilledWords` | SRDE/SRDEmetadata.c:1150-1195 | each 32-bit word of a filled page is the content size |
| `Layouts.EntryMeaning` | SRDE/SRDEmetadata.c:1060-1199 | which entries are rejected, how many slots the others add by type, what each slot is in terms of the metadata, and which thread is recorded |
| `Layouts.FlattenedRow` | SRDE/SRDEmetadata.c:1228-1314 | a plain row is loaded as itself, a group as many rows as `load_times` times its window has, or none |
| `Layouts.GroupReplays` | SRDE/SRDEmetadata.c:1228-1254 | each replay of a group has the rows before the group, in order |
| `Layouts.TableSumFlatten` | SRDE/SRDEmetadata.c:1228-1314 | the size of the flattened table is the closed-form sum over the table, a group counting its window `load_times` times |
| `Layouts.LoadTablePages` | SRDE/SRDEmetadata.c:1275-1314 | the final page count after a complete load, as a sum of products: each row's pages, and for a group `load_times` times its window's |
| `Layouts.LoadedIsLayout` | SRDE/SRDEmetadata.c:1060-1314 | above what was there before, a complete load holds at every page index exactly what the table describes there: relocated threads, holes for guards, pages filled with one value |
| `Layouts.EntryAt` | SRDE/SRDEmetadata.c:1060-1199 | every entry occupies exactly the page indices its turn gives it, each with what the entry's type and the metadata call for |
| `Layouts.ThreadsAreTcsAddresses` | SRDE/SRDEmetadata.c:1108-1134 | the thread table is exactly the addresses of the TCS entries' pages, in order |
| `Layouts.TcsAddressesOrdered` | SRDE/SRDEmetadata.c:1108-1134 | these are strictly increasing and inside the pages loaded |
| `Layouts.TcsAddressesComplete` | SRDE/SRDEmetadata.c:1108-1134 | an address is a thread if and only if it is the page of some TCS entry |
| `Layouts.TcsPageAt` | SRDE/SRDEmetadata.c:1108-1134 | the page found there holds the entry's bytes of the metadata, its three addresses moved to where it is |
| `Layouts.LoadFlatOk` | SRDE/SRDEmetadata.c:1060-1199 | a sequence of entries loads completely if and only if each of them is acceptable |
| `Layouts.StatusMeaning` | SRDE/SRDEmetadata.c:1296-1307 | what `load_layouts` returns: whether the rows up to the last plain one were accepted |
| `Layouts.StatusIsTruthful` | SRDE/SRDEmetadata.c:1228-1254 | a complete load is reported as success; a reported success means a complete enclave if and only if no replayed group contains a group |
| `Layouts.StatusMisleads` | SRDE/SRDEmetadata.c:1228-1254 | a table of three rows for which success is reported and not every entry was loaded |
| `Metadata.Metadata.FindLayout` | SRDE/SRDEmetadata.c:1008-1037 | the table search finds the description of an id in the metadata's version, or nothing |
| `Metadata.Metadata.BuildTcsPage` | SRDE/SRDEmetadata.c:1108-1128 | the template, zero filled and relocated in place |
| `Metadata.Metadata.LoadLayout` | SRDE/SRDEmetadata.c:1060-1199 | one entry does what the specification of an entry says, every slot it adds is what the entry's type and the metadata call for, and a failure poisons |
| `Metadata.Metadata.LoadGroup` | SRDE/SRDEmetadata.c:1228-1254 | a group does what its window, replayed `load_times` times entry by entry, does |
| `Metadata.Metadata.LoadLayouts` | SRDE/SRDEmetadata.c:1275-1314 | the whole table does what the single-entry loader does over the flattened table, also when it gives up half way; its status is the specified one |
| `Metadata.Metadata.PatchEnclave` | SRDE/SRDEmetadata.c:590-616 | every image byte is what the patch table in order makes of it |
| `Patches.LastPatchWins` | SRDE/SRDEmetadata.c:590-616 | a covered byte is the source byte of the last patch covering it |
| `Patches.UncoveredUnchanged` | SRDE/SRDEmetadata.c:590-616 | a byte no patch covers is unchanged |
| `Metadata.Metadata.LoadMetadata` | SRDE/SRDEmetadata.c:238-285 | the scan of any chain of blocks overlays the blocks it sees in order, records the first three positions, and fixes the version |
| `NoteBlocks.SelectedBlock` | SRDE/SRDEmetadata.c:238-285 | for every chain of blocks of positive size, the metadata used is that of the first block after which the version reads 1.4, or else of the last one; for a block of 16 bytes or more that version is its own |
| `NoteBlocks.VersionHalves` | SRDE/SRDEmetadata.c:962-987 | the major number is the upper half of the version field, the minor number the lower |
| `NoteBlocks.TableVersionForced` | SRDE/SRDEmetadata.c:264-271 | version 1 is taken for 2 exactly in a section over 4096 bytes, and one byte is kept of the major number |
| `NoteBlocks.VersionFixedByFirst` | SRDE/SRDEmetadata.c:264-271 | for every chain, the table version is that of the first block after which the major number read is not 0 modulo 256, and 0 if there is none |
| `EnclaveImage.LoadEnclave` | SRDE/SRDEenclave.c:451-477 | segments, then the layout table on top; success without a refused page leaves exactly that, complete if and only if groups are plain |
| `EnclaveImage.EnclaveContents` | SRDE/SRDEenclave.c:451-477 | the finished enclave: at every address the byte the program headers or the layout table describe, every entry at its own pages, the page count in closed form, one thread per TCS entry, increasing, each at a mapped page |
| `Codec.HexRoundTrip` | SRDE/SRDEmessage.c:909-915 | section 8 of RFC 4648: reading the hexadecimal of any bytes gives the bytes |
| `Codec.HexTextAt` | SRDE/SRDEmessage.c:909-915 | the two digits of a byte, upper half first, in the alphabet of section 8 of RFC 4648 |
| `Codec.EncodeBlockAt` | SRDE/SRDEmessage.c:917-936 | each block encoded on its own is that block of the whole message's encoding as a stream of six-bit groups, section 4 of RFC 4648 |
| `Codec.AlphabetOf64` | SRDE/SRDEmessage.c:917-936 | the characters are those of section 4 of RFC 4648 |
| `Codec.Base64Vectors` | SRDE/SRDEmessage.c:917-936 | the first three non-empty vectors of section 10 of RFC 4648 |
| `Codec.PaddingOf` | SRDE/SRDEmessage.c:1096-1108 | the padding characters say exactly how many bytes the last block lacks |
| `Codec.Base64RoundTrip` | SRDE/SRDEmessage.c:1083-1108 | blockwise decoding recovers every non-empty payload exactly, whatever the buffer held |
| `Tlv.SplitEncodeAll` | SRDE/SRDEmessage.c:968-1015 | unpacking any concatenation of encoded messages, long and short, gives them back in order |
| `Tlv.RoundTripExactly` | SRDE/SRDEmessage.c:292-337 | an encoded message reads back as itself if and only if its type is below 128 and its size below 2^32 |
| `Tlv.EncodedLayout` | SRDE/SRDEmessage.c:292-337 | the bytes of a message: where type, version, size and payload are, and when the long form is used |
| `Tlv.SplitConcat` | SRDE/SRDEmessage.c:968-1015 | what is unpacked is the whole buffer, in whole messages |
| `Tlv.FindFirstEncoded` | SRDE/SRDEmessage.c:1187-1258 | the search returns the payload of the first message of the type and version |
| `Tlv.FindNothing` | SRDE/SRDEmessage.c:1187-1258 | and nothing when there is none |
| `Provisioning.HeaderSizeField` | SRDE/SRDEmessage.c:900-907 | two headers agree if and only if their sizes agree modulo 2^32 |
| `Provisioning.Message2HeaderSent` | SRDE/SRDEmessage.c:579-610 | the header authenticated with message 2 is the header of the finished message if and only if the sealed text fits the short form |
| `Provisioning.Message3HeaderSent` | SRDE/SRDEmessage.c:768-830 | for message 3, if and only if the sizes predicted are right modulo 2^32 |
| `Provisioning.Message3HeaderFits` | SRDE/SRDEmessage.c:768-830 | so, with a signature of the size announced, if and only if both sealed payloads fit the short form |
| `Provisioning.EncodeSendsHeader` | SRDE/SRDEmessage.c:900-915 | the text sent opens with the hexadecimal of the header of the finished message |
| `Provisioning.TextReadsBack` | SRDE/SRDEmessage.c:873-948 | reading the text sent back gives the header and the whole message, and an empty message gives a header alone |
| `Provisioning.HeaderFields` | SRDE/SRDEmessage.c:900-907 | where protocol, version, transaction id, type and size stand in the header |
| `Provisioning.RequestText` | SRDE/SRDEmessage.c:238-260 | what `init_request` is given is what the header of the text sent says |
| `Provisioning.PoisonedIsSilent` | SRDE/SRDEmessage.c:893-898 | only a poisoned object sends nothing |
| `Provisioning.SelectorAppended` | SRDE/SRDEmessage.c:359-397 | the six bytes a selector request appends, in any phase |
| `Provisioning.SealedAppended` | SRDE/SRDEmessage.c:594-610 | initialization vector and cipher text in one message, then the tag in another |
| `Provisioning.Message2Contents` | SRDE/SRDEmessage.c:423-629 | exactly when message 2 succeeds, which messages it appends in which order, and what is encrypted and sealed under which key |
| `Provisioning.Message3Contents` | SRDE/SRDEmessage.c:669-847 | the same for message 3 |
| `Provisioning.Message2Transmitted` | SRDE/SRDEmessage.c:423-629 | the text sent for message 2 opens with the authenticated header under exactly that condition |
| `Provisioning.Message3Transmitted` | SRDE/SRDEmessage.c:669-847 | and the text sent for message 3 |
| `Provisioning.DecodeReply` | SRDE/SRDEmessage.c:1039-1129 | any non-empty list of messages, encoded behind any header, decodes to those messages; it succeeds if and only if the header declares their size, and poisons otherwise |
| `Provisioning.ReplySearch` | SRDE/SRDEmessage.c:1187-1258 | and the first message of each type and version is then what `get_message` returns |
| `Provisioning.DecodeOutcome` | SRDE/SRDEmessage.c:1039-1129 | of all texts read inside the buffers, those with a hexadecimal header that declares the payload's size are accepted, and all others poison |
| `Provisioning.GetMessageOutcome` | SRDE/SRDEmessage.c:1187-1361 | what both searches return over any response, and that finding nothing poisons |
| `Provisioning.ReloadOutcome` | SRDE/SRDEmessage.c:1384-1426 | a reloaded block's messages take the place of the old ones; a poisoned block poisons; in any other state nothing happens |
| `Provisioning.DecodeChecksSize` | SRDE/SRDEmessage.c:1110-1112 | a successful `decode` means the declared size is the payload's |
| `Provisioning.PoisonPersists` | SRDE/SRDEmessage.c:1755-1776 | over every run of calls, poison lasts until a reset |
| `Provisioning.RunKeeps` | SRDE/SRDEmessage.c:1384-1426 | over every run, the messages of a usable response are whole and are an initial part of the payload, and all of it as long as `encode_es_request` is not called |
| `Provisioning.EsRequestBreaksWhole` | SRDE/SRDEmessage.c:359-397 | that exception is needed: a selector request always appends to a response |
| `MessageObject.SRDEmessage.InitRequest` | SRDE/SRDEmessage.c:238-260 | the object's step is the state machine's |
| `MessageObject.SRDEmessage.EncodeMessage` | SRDE/SRDEmessage.c:292-337 | appends exactly the message's encoding |
| `MessageObject.SRDEmessage.EncodeEsRequest` | SRDE/SRDEmessage.c:359-397 | the object's step is the state machine's |
| `MessageObject.SRDEmessage.EncodeMessage2` | SRDE/SRDEmessage.c:423-629 | the object's step is the state machine's, on every failure too |
| `MessageObject.SRDEmessage.EncodeMessage3` | SRDE/SRDEmessage.c:669-847 | the object's step is the state machine's, on every failure too |
| `MessageObject.SRDEmessage.EncodeBase64` | SRDE/SRDEmessage.c:917-936 | the blockwise loop produces the whole message's Base64 |
| `MessageObject.SRDEmessage.Encode` | SRDE/SRDEmessage.c:873-948 | the object's step is the state machine's |
| `MessageObject.SRDEmessage.UnpackMessages` | SRDE/SRDEmessage.c:968-1015 | the loop ends and leaves exactly the messages of the buffer |
| `MessageObject.SRDEmessage.DecodeBase64` | SRDE/SRDEmessage.c:1083-1108 | the blockwise loop and its shrink produce the decoded text |
| `MessageObject.SRDEmessage.Decode` | SRDE/SRDEmessage.c:1039-1129 | the object's step is the state machine's |
| `MessageObject.SRDEmessage.GetMessage` | SRDE/SRDEmessage.c:1187-1258 | the search loop returns the first match, or poisons |
| `MessageObject.SRDEmessage.GetMessageNumber` | SRDE/SRDEmessage.c:1289-1361 | returns the message of that number if it is of the type and version, or poisons |
| `MessageObject.SRDEmessage.ReloadMessages` | SRDE/SRDEmessage.c:1384-1426 | the object's step is the state machine's |
| `MessageObject.SRDEmessage.Reset` | SRDE/SRDEmessage.c:1755-1776 | a reset object is a fresh one |
| `ModelFile.CommandsExclusive` | Quixote/quixote.c:203-213 | no line starts with two of the commands |
| `ModelFile.CommandUnique` | Quixote/quixote.c:1105-1110 | so the command found does not depend on the order of the table |
| `ModelFile.FindCommand` | Quixote/quixote.c:1105-1110 | the search stops at that command |
| `ModelFile.Model.LoadLine` | Quixote/quixote.c:1087-1231 | one line changes key, signature data and controller as specified |
| `ModelFile.Model.LoadFile` | Quixote/quixote.c:1250-1279 | the lines in turn, up to the first one not accepted |
| `ModelFile.LineMeaning` | Quixote/quixote.c:1112-1222 | which call on the controller each kind of line makes, that it is accepted as the controller answers, that a line without its argument is refused, and when loading is under way |
| `ModelFile.PlainLines` | Quixote/quixote.c:967-985 | lines other than key and signature extend the data to be signed by exactly themselves, each with its NUL |
| `ModelFile.SignatureCovers` | Quixote/quixote.c:1014-1231 | a first signature line with one key line before it, whatever follows: it is accepted if and only if the lines before it were, it has an argument, and the verification of exactly the lines from the key line to the one before succeeds; a file loads only if all of this holds |
| `ModelFile.UnkeyedSignature` | Quixote/quixote.c:1087-1231 | a signature with no key line before it makes the load fail |
| `ModelFile.SecondKey` | Quixote/quixote.c:1087-1231 | so does a second key line before the first signature |
| `ModelFile.FirstSignatureVerified` | Quixote/quixote.c:1014-1231 | any file that loads and holds a signature has exactly one key line before the first one, and that signature verified the lines from it on under its key |
| `ModelFile.EverySignatureVerified` | Quixote/quixote.c:1087-1279 | every signature of any file that loads, whatever WHACK does to its argument, verified exactly the lines from the last key line before it, under that key |
| `ModelFile.SignedDataDetermines` | Quixote/quixote.c:967-985 | no other list of lines has the same signed bytes |
| `ModelDump.UploadModel` | Quixote/quixote.c:1489-1541 | the text written: aggregate, states in order, seal, end |
| `ModelDump.LinesOfText` | Quixote/quixote.c:1250-1279 | reading a text line by line gives the lines it was made from |
| `ModelDump.ReceiveModel` | Quixote/quixote.c:2009-2059 | the file receives the complete lines of the pipe, and what is dropped is at most an unfinished line |
| `ModelDump.LoadDump` | Quixote/quixote.c:1087-1279 | loading a dump succeeds if and only if no entry is empty, and then makes one call per coefficient in order and one seal, and loading is over |
| `ModelDump.DumpReload` | Quixote/quixote.c:1489-1541 | the round trip: dump, pipe, file, load |
| `ModelDump.DumpAndReload` | Quixote/quixote.c:2009-2059 | the same, as the methods carry it out one after another |
| `ConsoleProtocol.SendList` | Quixote/quixote.c:484-542 | a list reply is the count and then exactly that many records, whatever the second pass reads |
| `ConsoleProtocol.SendMap` | Quixote/quixote.c:784-817 | a map reply is the aggregate and then a list reply, or nothing |
| `ConsoleProtocol.ServeCommand` | Quixote/quixote.c:839-946 | the records sent for each request, and whether the orchestrator goes on |
| `ConsoleProtocol.ReceivePoints` | Quixote/quixote-console.c:322-329 | the countdown loop takes as many records as counted and leaves the others |
| `ConsoleProtocol.ReceiveMap` | Quixote/quixote-console.c:524-564 | what a map prints and reads, on every failure too |
| `ConsoleProtocol.ReceiveCommand` | Quixote/quixote-console.c:586-642 | what each command reads from the socket, prints, and leaves |
| `ConsoleProtocol.FindCommand` | Quixote/quixote-console.c:666-690 | the search finds the one command with the text, or none |
| `ConsoleProtocol.CountIsModulo` | Quixote/quixote-console.c:315-317 | eight bytes are sent for a count and four are read: the count modulo 2^32 |
| `ConsoleProtocol.FeedList` | Quixote/quixote-console.c:305-336 | against any list reply, however far it has been sent, the console is done exactly when the lines reach that count, has printed those lines and left the rest |
| `ConsoleProtocol.AnswerIsReadWhole` | Quixote/quixote.c:839-946 | each reply has exactly the records the console reads, if and only if fewer than 2^32 lines were counted |
| `ConsoleProtocol.DigestShown` | Quixote/quixote.c:872-898 | "show measurement" and "show state" send and show the digest kept in the file of that name, or nothing |
| `ConsoleProtocol.ShowsList` | Quixote/quixote.c:900-926 | each "show" of a list sends the lines of the file of that name, and they are shown as they are |
| `ConsoleProtocol.ShowsMap` | Quixote/quixote-console.c:524-564 | "show map" sends the aggregate and the coefficients, and they are shown as the lines of a model file |
| `ConsoleProtocol.ShowsSeal` | Quixote/quixote.c:735-760 | "seal" is answered by OK exactly when the domain is sealed or can be |
| `ConsoleProtocol.NotAnswered` | Quixote/quixote.c:871-937 | the other texts the console knows are not answered |
| `ConsoleProtocol.EveryText` | Quixote/sancho-cmd.h:42-61 | every text of the console is one of these |
| `ConsoleProtocol.OnlyCommandsAnswered` | Quixote/quixote.c:855-862 | a request is answered only if it is four bytes long and names one of the ten commands |
| `ConsoleRuns.Lockstep` | Quixote/quixote.c:839-946 | the invariant of both programs and their socket holds over every interleaving, with files changing and replies failing at any moment |
| `ConsoleRuns.BetweenCommands` | Quixote/quixote-console.c:666-706 | with the console at its prompt, and the orchestrator done or the count below 2^32, the socket holds exactly the records beyond the count modulo 2^32, is empty if and only if the count is below 2^32, and then all lines were printed |
| `ConsoleRuns.PromptMeansDone` | Quixote/quixote-console.c:666-706 | a console back at its prompt means nothing is in flight and the orchestrator is done, but for the second opening of an empty file |
| `ConsoleRuns.NoDeadlock` | Quixote/quixote-console.c:586-642 | while the console waits, one of the two can move |
| `ConsoleRuns.MovesFinish` | Quixote/quixote.c:484-542 | every move brings the reply nearer its end, in every order of moves |
| `ConsoleRuns.RepliesAreServed` | Quixote/quixote.c:839-946 | every complete reply of a run is one the orchestrator's code sends |
| `ConsoleRuns.ServedIsARun` | Quixote/quixote.c:839-946 | and for every command and all its readings, what the code sends, complete or cut short, is sent by a run from any prompt |
| `ConsoleRuns.SteadyReplies` | Quixote/quixote.c:839-946 | while no file changes, every complete reply of a run is exactly what the code sends for what the files hold |
| `ConsoleRuns.PrintsSnapshot` | Quixote/quixote.c:484-542 | when files only grow, the console prints the file as it stood when its lines were counted, whole lines if they hold no NUL |
| `Export.Exporter.GetEvent` | Quixote/quixote-export.c:917-956 | an event overwrites the string under the cursor and advances it; nothing else touches the queue |
| `Export.Exporter.OutputEvents` | Quixote/quixote-export.c:974-1012 | the first `Queued` strings go out in order, to the file or run together to the broker |
| `Export.Exporter.ExportEvents` | Quixote/quixote-export.c:1034-1063 | whole batches have gone out and the rest is queued, adding up to what the reads call for |
| `Export.Exporter.ExportRoot` | Quixote/quixote-export.c:1086-1133 | one-shot export: everything is out at the end of the data, and exactly the whole batches on an error |
| `Export.ExportedCount` | Quixote/quixote-export.c:1034-1063 | one record goes out for each read, for every queue length |
| `Export.ExportIsFaithful` | Quixote/quixote-export.c:917-1063 | for every queue length and run of reads, the records are the events read, in order, if and only if no read came back empty |
| `Export.EmptyReadRepeats` | Quixote/quixote-export.c:934-956 | an empty read sends again what the queue held in its place one batch before |
| `Export.ExportAll` | Quixote/quixote-export.c:1353-1358 | the root mode: for every queue length of at least one, file and broker get the text of the events in order |

## Left out

- libelf: program headers and the file image are given.
- Decoding the directories of a metadata block into lists of layouts and patches (`SRDE/SRDEmetadata.c:305-570`): the lists are given.
- ioctl, mmap, processes, signals, poll and sockets below whole records; floating-point state around an enclave entry.
- Cryptography, random numbers and EPID: arbitrary functions with known output lengths.
- `Metadata.Metadata.LoadLayouts`: states the pages and threads built only for runs in which the device refuses no page, because a refused page inside a group is skipped without notice.
- `EnclaveImage.LoadEnclave`: states the contents only for such runs, for the same reason.
- `Loader.LoadSegments`: does not model addresses that wrap at 2^64 or file sizes of 2^44 bytes and more, where the C counters wrap.
- `SgxEnclave.Enclave.BootSlot`: is about properly nested entries, because the thread slots are a stack; concurrent entries are not modelled.
- `Metadata.Metadata.LoadMetadata`: is about chains of blocks that stay inside the notes section and whose sizes are positive and at most the structure's, because the scan checks none of this.
- `MessageObject.SRDEmessage.Decode`: is about texts with at least one payload character and messages that end inside the payload, because the code reads past its buffers otherwise.
- `Provisioning.DecodeReply`: does not extend to an empty list of messages, because the padding check needs a last block.
- `ModelFile.Model.LoadLine`: is about lines that start with some command, because the table search has no end otherwise, and about calls that use no released buffer.
- `ConsoleRuns.Lockstep`: follows a run until a count reaches 2^32; from there the two are out of step.
- Records over the 256 KiB that the socket accepts, the list size the console prints on a terminal, and a console that goes away in the middle of a reply.
- What the security event commands `export`, `aggregate`, `log`, `load` and `reset` would do: the orchestrator answers none of them, and the model says so.
- `Export.Exporter.ExportRoot`: assumes a queue length of at least one and outputs that succeed.
- Export in follow mode: the cursor is rewound while `Queued` keeps its value (`Quixote/quixote-export.c:1042`), so queued events are overwritten.
- `upload_trajectory` and `receive_trajectory` of `Quixote/quixote.c`: the latter reads two bytes at a time into a buffer without a terminator.
- `_decode_certificate` (`SRDE/SRDEquote.c:1121-1132`): its pointer and its length advance by different amounts.
- Object managers, OCALL tables, accessors, dump methods, and the TSEM and Sancho models behind the other orchestrators: they would only add easy members.
