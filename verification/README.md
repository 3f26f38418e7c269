# Vellum: what the boot environment's state machines compute

Vellum is a boot-time operating system written in C. This project models the parts of it that decide what bytes a file
has, where a page lives, what a screen shows and what a command line means, and proves what they compute. Every module
is Dafny 4.11; `dafny verify dfyconfig.toml` checks the whole project.

Code that changes state step by step is modelled as it stands: classes with the same fields, arrays that are written in
place, loops with their invariants. Beside each of them stands a specification in plain mathematics, and the two are
connected for all inputs or for all runs.

| part | modules | specification |
|---|---|---|
| FAT driver | `FatTable`, `FatVolume`, `FatFile`, `FatStream`, `FatNames`, `FatDirectory`, `FatReports`, `FatListing`, `FatLoader` | an allocation table made of half-bytes; a byte sequence with a cursor; a list of directory slots |
| Memory | `FrameAllocator`, `FrameRuns`, `PageTables`, `AddressSpace` | one state for each frame; an injective partial function from pages to frames |
| Paths | `PathNormalize`, `PathLaws` | a stack of components |
| Console | `Utf8`, `Terminal`, `TerminalLines`, `TextConsole` | a text; an unbounded page of rows |
| JSON | `Decimal`, `Json`, `JsonRoundTrip`, `JsonSpacing`, `JsonEdges`, `JsonParser` | a recursive reader of text, and a printer |
| Shell | `Shell`, `ShellQuoting`, `ShellWords`, `ShellLine`, `Variables`, `VariablePool`, `ShellVariables` | expansion and tokens; one finite map for each instance |
| Frame buffer | `Framebuffer`, `Screen`, `ScreenRuns` | two pictures, the one drawn and the one shown; the full redraw |
| Devices | `Links`, `DeviceNames`, `DeviceTree`, `DeviceRuns`, `DeviceSteps`, `DeviceEntries`, `Devices` | a list of devices with parents and names |
| Numbers | `PrintInt`, `PrintLayout` | the digits in a base, with sign and padding |

`Arithmetic`, `Sequences` and `Options` hold what several of them need.

## Where the code falls short

The model does what the code does. Where that is not what one would expect, the exact condition is proved.

- A read whose table lookup fails at the end of a cluster still reports success, and leaves the current cluster one
  behind the cursor. `FatFile.File.Read` says that they stay in step exactly when no request of the call failed, and
  `FatStream.StaleRead` is a run in which the same cluster is then delivered twice.
- A seek to the very end of a file is refused if and only if the size is a multiple of the cluster size and the chain
  ends there (`FatStream.EndIsReachable`); `FatStream.RefusedSeek` is such a seek.
- The last cluster reads as an end mark on a FAT12 or FAT16 volume of the largest size, and on a FAT32 volume of
  0x0FFFFFF6 or more clusters, which mounting accepts (`FatTable.LastClusterIsUsable`).
- Long names encode U+007F and U+07FF one byte too long, and only these (`FatNames.EncodesAsStandard`).
- A long-name slot has a place in the name buffer if and only if its ordinal is from 1 to 19; the driver takes every
  ordinal (`FatNames.HasPlace`).
- A directory listing falls back by one cluster if and only if, at the end of a cluster, the table entry can be read but
  the next cluster cannot (`FatDirectory.Directory.FetchBlock`). `FatListing.ReportedTwice` is a run in which a retried
  listing therefore reports an entry twice.
- A device error makes a name "not found". `FatDirectory.Directory.MatchName` says what the answer means when no request
  failed, and `FatListing.NotFound` is a run in which the name is there.
- A long name is taken for an entry if and only if a piece of one was passed since the last entry, with no volume label
  behind it (`FatReports.LongExactly`): neither the ordinals nor the checksum of the pieces are looked at.
- When exactly one frame is free, and a page has neither a frame nor a table, the frame is lost, and only then
  (`AddressSpace.Space.AllocatePage`, for ranges `AddressSpace.Space.AllocatePagesTo`). In `AddressSpace.LoseFrame` it
  does not come back when every page is freed.
- A JSON comma costs two characters, so that compact text is misread. `JsonRoundTrip.RoundTrip` says exactly which values
  survive: those in which every lost character is the minus sign of the least 64-bit number.
- A JSON value with nothing behind it is read if and only if it is a number of at least two characters
  (`JsonEdges.NothingBehind`); empty arrays and objects are refused (`JsonEdges.EmptyContainers`), and a backslash in a
  string is dropped together with the character behind it (`JsonEdges.EscapeDropped`).
- In a command line a backslash and a letter that stands for a control character make that character and the letter once
  more (`ShellWords.WordIsRead`); `ShellWords.LetterReadTwice` is the case of the newline.
- A path whose file system's name is empty can have a normal form that means something else when it is read again:
  unless the first component with a colon that is left ends at that colon and is not the last one
  (`PathNormalize.NormalIsStable`). `PathNormalize.UnstablePath` is such a path.
- An invalidation that names its last pixel instead of the one behind it misses that pixel exactly when one of its
  coordinates is a multiple of 16 (`Screen.MarksLastPixel`).
- A generated device name can repeat an old one when a name in use carries the number 4294967295
  (`DeviceNames.OverflowRepeatsName`); `DeviceNames.CollisionExactly` says when it does.
- A right-aligned number has its sign in front of the padding spaces instead of behind them, which makes a difference
  exactly if there is a sign other than a space, and padding (`PrintLayout.PaddingIsStandard`). The sign itself is the
  one the C standard asks for unless a number that is not negative has both the plus and the space flag
  (`PrintLayout.SignIsStandard`).
- The zero flag loses widths of 32768 and more (`PrintInt.ZeroPaddedLength`).

## Model

| member | source | states |
|---|---|---|
| `FatTable.LastClusterIsUsable` | vellum/filesystem/fat/fat.c:666-681 | the last cluster of a volume is below the end marks if and only if the cluster count is not the largest one of FAT12 or of FAT16, and is below 0x0FFFFFF6 |
| `FatTable.Entry12` | vellum/filesystem/fat/fat.c:382-395 | the bytes and half-bytes picked for an odd or even 12-bit entry are three consecutive half-bytes of the table, also across a sector border |
| `FatTable.Entry16` | vellum/filesystem/fat/fat.c:420 | a 16-bit entry is four consecutive half-bytes of the table |
| `FatTable.Entry32` | vellum/filesystem/fat/fat.c:444 | a 32-bit entry with its top four bits masked is the lower seven of eight half-bytes of the table |
| `FatTable.Packed12ReadsBack` | vellum/filesystem/fat/fat.c:382-395 | two 12-bit entries packed into three bytes are read back |
| `FatTable.Packed16ReadsBack` | vellum/filesystem/fat/fat.c:420 | a 16-bit entry stored with its low byte first is read back |
| `FatTable.Packed32ReadsBack` | vellum/filesystem/fat/fat.c:444 | so is one of 28 bits, whatever the top four bits on the disk are |
| `FatTable.EndingChainHasNoRepeat` | vellum/filesystem/fat/fat.c:364-457 | a chain that ends visits no cluster twice |
| `FatVolume.BootSector.Mount` | vellum/filesystem/fat/fat.c:643-680 | for every boot sector with its areas in order: the tables end where the root directory begins, the root directory takes the fewest sectors that hold its entries, less than a cluster is left over behind the last cluster, sizes are those of the boot sector, and the table type is the one of the cluster count |
| `FatVolume.BootSector.AreasInOrder` | vellum/filesystem/fat/fat.c:310-330 | cluster 2 begins where the root directory ends on FAT12 and FAT16, and right behind the tables on FAT32; the root area is exactly what lies between the tables and cluster 2 |
| `FatVolume.Geometry.ClusterPlacement` | vellum/filesystem/fat/fat.c:310-330 | no cluster starts in the root directory area, none reaches past the volume, and the 32-bit address arithmetic does not wrap |
| `FatVolume.Geometry.ClustersDisjoint` | vellum/filesystem/fat/fat.c:310-330 | two clusters share no sector |
| `FatVolume.Volume.DeviceRead` | vellum/filesystem/fat/fat.c:281 | the device either fails, leaving the buffer alone, or fills it with the sectors asked for |
| `FatVolume.Volume.ReadFat` | vellum/filesystem/fat/fat.c:272-287 | after success the buffer holds the table sector asked for, a hit asks the device nothing, and failure is exactly failure of the device |
| `FatVolume.Volume.ReadSector` | vellum/filesystem/fat/fat.c:332-345 | every hit in the shared buffer serves the sector on the disk, although the buffer may have been filled by a cluster read |
| `FatVolume.Volume.ReadCluster` | vellum/filesystem/fat/fat.c:347-362 | every hit in the shared buffer serves the whole cluster on the disk, although the buffer may have been filled by a sector read; so for every cluster number that does not lead into the root directory area |
| `FatVolume.Volume.Lookup12` | vellum/filesystem/fat/fat.c:375-397 | one step through the one-sector cache is one lookup in the abstract table, the two-sector case included |
| `FatVolume.Volume.Lookup16` | vellum/filesystem/fat/fat.c:412-422 | one step through the one-sector cache is one lookup in the abstract table |
| `FatVolume.Volume.Lookup32` | vellum/filesystem/fat/fat.c:437-445 | one step through the one-sector cache is one lookup in the abstract table |
| `FatVolume.Volume.GetNextCluster` | vellum/filesystem/fat/fat.c:364-457 | success is exactly the n-fold lookup with no end mark on the way; END_OF_LIST means that the next lookup gave an end mark; INVALID_VALUE is exactly a start above the maximum; a device error is exactly a failed request, for a single step one of the requests that the cached sector leaves to be made |
| `FatFile.File.ReadChunk` | vellum/filesystem/fat/fat.c:795-822 | one round delivers the bytes under the cursor, changes nothing else in the caller's buffer, and leaves the cluster one behind exactly when a request failed after the bytes were delivered |
| `FatFile.File.Read` | vellum/filesystem/fat/fat.c:784-825 | read delivers content[cursor..min(cursor+len, size)] and advances by what it reports; cluster and cursor stay in step if and only if no request of a successful call failed |
| `FatFile.File.Seek` | vellum/filesystem/fat/fat.c:827-862 | unless the device fails, exactly the targets that are not negative and that the chain reaches are accepted; otherwise neither cursor nor cluster changes |
| `FatFile.File.Advance` | vellum/filesystem/fat/fat.c:811-819 | the cursor moves by what was copied; at the end of a cluster the current cluster follows the chain, unless the table cannot be read |
| `FatStream.DoRead` | vellum/filesystem/fat/fat.c:784-825 | on a healthy device a read is the read step of a byte sequence with a cursor |
| `FatStream.DoSeek` | vellum/filesystem/fat/fat.c:827-862 | on a healthy device a seek is the seek step of a byte sequence with a cursor, refused exactly outside the sequence or at an end the chain has no cluster for |
| `FatStream.SeekArrives` | vellum/filesystem/fat/fat.c:827-862 | every position inside the file is reached from the start, from the cursor and from the end, and tell names it |
| `FatStream.ReadInPieces` | vellum/filesystem/fat/fat.c:784-825 | however a file is cut into reads, they deliver its bytes in order, as far as they go |
| `FatStream.EndIsReachable` | vellum/filesystem/fat/fat.c:827-862 | the chain has a cluster for the end of the file unless the size is a multiple of the cluster size and the chain ends there |
| `FatStream.RefusedSeek` | vellum/filesystem/fat/fat.c:850-857 | a concrete file of two clusters on a device that never fails, on which a seek to the end is refused |
| `FatStream.Run` | vellum/filesystem/fat/fat.c:784-871 | every run of seek, read and tell on a healthy device has the outcomes of the same run on a byte sequence with a cursor |
| `FatStream.StaleRead` | vellum/filesystem/fat/fat.c:810-822 | a concrete run in which one failed table read makes the next read deliver the previous cluster again |
| `FatNames.EncodesAsStandard` | vellum/filesystem/fat/fat.c:159-181 | a unit is encoded as UTF-8 asks if and only if it is neither U+007F nor U+07FF |
| `FatNames.UnitReadsBack` | vellum/filesystem/fat/fat.c:159-181 | every unit still decodes to itself |
| `FatNames.NameEnds` | vellum/filesystem/fat/fat.c:161 | a long name ends at its first zero, or at its padding |
| `FatNames.NameBytesComplete` | vellum/filesystem/fat/fat.c:204-237 | the bytes made are the whole name if and only if they fit |
| `FatNames.NameCut` | vellum/filesystem/fat/fat.c:214-226 | a name that does not fit keeps the characters that do, and the first one that does not becomes a question mark |
| `FatNames.LongNameReadsBack` | vellum/filesystem/fat/fat.c:204-237 | the bytes of a long name that fits decode to exactly its units |
| `FatNames.Ucs2ToUtf8` | vellum/filesystem/fat/fat.c:159-181 | length, bytes and error of one unit; no other byte of the buffer changes |
| `FatNames.LfnToUtf8` | vellum/filesystem/fat/fat.c:204-237 | the loop over the units writes the name's bytes, and a terminator unless all 255 places are used |
| `FatNames.StoreLfn` | vellum/filesystem/fat/fat.c:183-202 | one directory slot puts its thirteen units at its place in the name buffer, and the last piece a terminator behind them |
| `FatNames.PieceByBits` | vellum/filesystem/fat/fat.c:187-200 | the ordinal is the lower five bits of the first byte, bit 6 marks the last piece |
| `FatNames.UnitsOfSlot` | vellum/filesystem/fat/fat.c:189-197 | the thirteen units are the little-endian words of bytes 1 to 10, 14 to 25, and 28 to 31 |
| `FatNames.HasPlace` | vellum/filesystem/fat/fat.c:183-202 | all the places written for a slot lie in the buffer of 256 units if and only if its ordinal is from 1 to 19 |
| `FatNames.LongNameAssembles` | vellum/filesystem/fat/fat.c:183-202 | the slots of one name in disk order leave the whole name at the start of the buffer, whatever the buffer held |
| `FatNames.SfnFilename` | vellum/filesystem/fat/fat.c:239-259 | an 8.3 slot yields its name, a dot unless the extension is blank, and the extension, in the case the two flags ask for |
| `FatNames.ShortNameReadsBack` | vellum/filesystem/fat/fat.c:239-259 | a name and an extension padded with blanks come back with a dot between them, unless the extension is empty, each in lower case exactly if its bit of byte 12 is set |
| `FatNames.PiecesAssemble` | vellum/filesystem/fat/fat.c:183-202 | the slots of a name, counted down to one, put its units in order at the start of the buffer and leave the rest alone |
| `FatDirectory.NextStopIsFirst` | vellum/filesystem/fat/fat.c:1045-1067 | the search stops at the first live or end slot and passes only slots that are neither |
| `FatDirectory.KindByAttributes` | vellum/filesystem/fat/fat.c:1047-1062 | a slot in use is a piece of a long name exactly if the read-only, hidden, system and label bits are all set, a label exactly if the label bit is but not all four, and reported exactly if the label bit is clear, whatever the other bits are |
| `FatDirectory.ReportedExactly` | vellum/filesystem/fat/fat.c:1005-1084 | on the bytes of the slots: the entries of a listing are exactly the slots in use without the label bit, files and subdirectories alike, before the first slot that starts with a zero byte, in disk order, each once |
| `FatDirectory.Directory.FetchBlock` | vellum/filesystem/fat/fat.c:1032-1043 | the next slot is fetched across a cluster border; the position falls back by one cluster if and only if the table lookup at the border succeeds and the read of the next cluster then fails, and otherwise stays |
| `FatDirectory.Directory.Iter` | vellum/filesystem/fat/fat.c:1005-1084 | one call reports the next live slot of the chain with the name its pieces spell, or the end of the list, or fails exactly when a request of the call failed, and then the rest of the list is still to come from the position left, or from one cluster behind it |
| `FatDirectory.Directory.List` | vellum/filesystem/fat/fat.c:994-1084 | from rewind to END_OF_LIST every slot in use without the label bit in front of the first end slot is returned once, in disk order, with the name it is reported under, and nothing else; on a failing device those before the failure are, and the loop ends |
| `FatDirectory.Directory.MatchName` | vellum/filesystem/fat/fat.c:459-476 | the first live entry whose reported name matches without regard to case; when no request failed, not found exactly when none does; a failing request gives not found although a later entry may match |
| `FatDirectory.MatchesUpToCase` | vellum/filesystem/fat/fat.c:471 | two names match exactly if they are equally long and differ in the case of letters at most |
| `FatReports.LongExactly` | vellum/filesystem/fat/fat.c:1053-1058 | a call takes the long name exactly if it has passed a piece of one, and no volume label since |
| `FatReports.ShortNameReported` | vellum/filesystem/fat/fat.c:1071-1075 | otherwise the entry is reported under its short name |
| `FatReports.LongNameReported` | vellum/filesystem/fat/fat.c:1053-1073 | an entry with the complete pieces of a name in front of it is reported under that name, whatever came before: its UTF-8 bytes if they fit, from which the name can be read back |
| `FatListing.ReportedTwice` | vellum/filesystem/fat/fat.c:1032-1043 | a concrete run of three calls in which the second one fails at a cluster border and the third one reports the entry of the first again |
| `FatListing.NotFound` | vellum/filesystem/fat/fat.c:459-476 | a concrete directory in which a name is reported for the first entry, but the search answers not found because its first request fails |
| `FatLoader.SameEntry` | study/session03_protected_mode/stage1.c:167-173 | the boot loader's flat decode of a 12-bit entry is the driver's |
| `FatLoader.LoadChain` | study/session03_protected_mode/stage1.c:148-174 | for a chain with its entries in the eight sectors loaded, the memory filled is the chain's clusters in order, unless the device fails |
| `FatLoader.NextInTable` | study/session03_protected_mode/stage1.c:167-173 | the next cluster in the loaded table is the next cluster of the abstract table |
| `FrameAllocator.SetThenGet` | study/session04_memory/mm.c:15-20 | setting a two-bit field reads back and leaves the other three fields of the byte alone |
| `FrameAllocator.ReleaseUndoesTake` | study/session04_memory/mm.c:141-191 | freeing a run that was handed out restores states and free count |
| `FrameAllocator.Allocator.Init` | study/session04_memory/mm.c:52-83 | the frames of the bitmap and below are reserved, the others free; ranges that are empty are refused |
| `FrameAllocator.Allocator.MarkReserved` | study/session04_memory/mm.c:85-121 | exactly the frames of the range that exist become reserved, and the free count follows |
| `FrameAllocator.Allocator.FindFreeRun` | study/session04_memory/mm.c:154-171 | the search finds a run if and only if one exists, and then the lowest |
| `FrameAllocator.Allocator.AllocateFrame` | study/session04_memory/mm.c:141-174 | succeeds exactly when a run of count free frames exists, returns the lowest, changes only its frames; failure changes nothing |
| `FrameAllocator.Allocator.FreeFrame` | study/session04_memory/mm.c:176-191 | exactly the allocated frames of the range become free |
| `FrameRuns.Run` | study/session04_memory/mm.c:52-191 | every run of init, mark_reserved, allocate and free on the packed bitmap is the run on one state for each frame, with the lowest free runs as results, and the free count is the number of free frames |
| `FrameRuns.HandedOutWasFree` | study/session04_memory/mm.c:141-174 | every frame handed out was free at that moment and is allocated afterwards |
| `FrameRuns.ReservedNotHandedOut` | study/session04_memory/mm.c:85-191 | a frame that was reserved at any point of a run is not handed out later on, unless the allocator is set up again |
| `FrameRuns.NotHandedOutTwice` | study/session04_memory/mm.c:141-191 | between two operations that hand out the same frame it was freed, or the allocator was set up again |
| `PageTables.TakeFrame` | vellum/mm/mm.c:286-289 | handing out a free frame changes no translation |
| `PageTables.AddTable` | vellum/mm/mm.c:286-298 | a new cleared table keeps every table sound |
| `PageTables.TranslationKept` | vellum/mm/mm.c:286-298 | and keeps every page's translation |
| `PageTables.SetPage` | vellum/mm/mm.c:318-341 | writing one entry changes the translation of one page |
| `PageTables.GrowThenShrink` | vellum/mm/mm.c:422-457 | freeing what was allocated to unmapped pages restores all translations and all frames but new tables |
| `PageTables.PageServed` | vellum/mm/mm.c:427-438 | a page served with a free frame keeps all tables and all other pages as they were |
| `PageTables.PageReturned` | vellum/mm/mm.c:448-456 | a page given back frees exactly its frame |
| `PageTables.LostBehind` | vellum/mm/mm.c:432-436 | after a failure every frame taken but at most one is a table or backs a page of the range |
| `PageTables.StoppedHere` | vellum/mm/mm.c:422-441 | a range that stops at a page needed more frames than were free, and loses one exactly if one was left for a page without a table |
| `AddressSpace.FlagsReadBack` | vellum/mm/mm.c:300-341 | the entry made for a set of flags reads back as these flags |
| `AddressSpace.Space.constructor` | vellum/mm/mm.c:200-222 | right after initialisation the first 4 MiB are mapped to themselves, writable and for the kernel alone, and no other page is mapped |
| `AddressSpace.Space.VpnToPfn` | vellum/mm/mm.c:241-254 | the frame the processor would find, or PAGE_NOT_PRESENT |
| `AddressSpace.Space.EnsureTable` | vellum/mm/mm.c:286-298 | a missing table is taken from the free frames and cleared, its directory entry being present, writable and for the kernel alone; no page changes its translation |
| `AddressSpace.Space.Map` | vellum/mm/mm.c:278-346 | on success one page maps the frame, writable unless asked otherwise, for the user if asked so, and with the cache bits asked for; on failure no translation changes; a conflict means other flags were there |
| `AddressSpace.Space.Unmap` | vellum/mm/mm.c:370-383 | exactly one page loses its translation, and its frame is then used by nothing |
| `AddressSpace.Space.AllocatePage` | vellum/mm/mm.c:427-438 | success exactly when there are as many free frames as the page needs, one for itself and one for its table; a frame is lost if and only if one is free and two are needed, and any other failure changes nothing; a new page, and a new table, is writable, for the kernel alone, and cached as usual |
| `AddressSpace.Space.AllocatePagesTo` | vellum/mm/mm.c:422-441 | success if and only if the free frames are at least the absent pages and the missing tables of the range; then every page is mapped, those that are new writable, for the kernel alone and cached as usual; every frame taken is a table or backs a page of the range if and only if serving the range does not come to a page without a table when one frame is left; at most that one is lost; pages outside keep their translation in every case |
| `AddressSpace.Space.AllocatePages` | vellum/mm/mm.c:396-420 | the same for the next range never handed out |
| `AddressSpace.Space.FreePages` | vellum/mm/mm.c:443-457 | exactly the frames behind the range become free and its pages are gone; other pages keep their translation |
| `AddressSpace.Space.AllocateThenFree` | vellum/mm/mm.c:422-457 | allocating and freeing a range of unmapped pages keeps every translation and every frame state but those of new tables |
| `AddressSpace.LoseFrame` | vellum/mm/mm.c:427-457 | a concrete run that loses a frame, which freeing every page does not bring back |
| `AddressSpace.Run` | vellum/mm/mm.c:396-457 | over every run the tables are an injective partial function into allocated frames that are no tables, and pages no call was about keep their translation |
| `PathNormalize.NormalIsStable` | vellum/core/path.c:76-222 | normalising a normal form again changes nothing; it is still absolute exactly when the path named its file system, or the first component with a colon in the resolved stack ends at that colon and is not the last one |
| `PathNormalize.CommonPathsAreStable` | vellum/core/path.c:76-222 | so every path with a file system's name and every path without a colon is stable |
| `PathNormalize.UnstablePath` | vellum/core/path.c:5-21 | a path with an empty name whose normal form is read as a relative path of another file system |
| `PathNormalize.ComponentsOfJoined` | vellum/core/path.c:23-52 | the components of a joined stack are the stack |
| `PathLaws.ParentUndoesChild` | vellum/core/path.c:121-154 | two dots undo the component in front of them, wherever in the path they stand |
| `PathLaws.RootIsItsOwnParent` | vellum/core/path.c:147-152 | two dots at the root do nothing |
| `PathLaws.NothingInBetween` | vellum/core/path.c:117-119 | an empty component and a single dot can be dropped anywhere |
| `PathLaws.ParentUndoesChildInPath` | vellum/core/path.c:86-199 | "/x/.." can be cut out of an absolute path, whatever stands before and behind it, without changing its normal form |
| `PathLaws.ParentOfRootInPath` | vellum/core/path.c:86-199 | "/.." at the root can be cut out |
| `PathLaws.NothingInPath` | vellum/core/path.c:86-199 | "/." can be cut out, and so can one of two slashes |
| `PathLaws.PlainPathStays` | vellum/core/path.c:86-199 | a path with a name and none of these components is its own normal form |
| `PathNormalize.AmpleBuffer` | vellum/core/path.c:76-222 | a buffer two longer than the path is always large enough |
| `PathNormalize.Iterator.Advance` | vellum/core/path.c:23-52 | one step yields the next component, cut to the element buffer, and says whether it was the last |
| `PathNormalize.ScanBack` | vellum/core/path.c:124-132 | the backward scan over the output finds the slash before the last component |
| `PathNormalize.Pop` | vellum/core/path.c:121-154 | two dots take the last component off the output, and leave the root alone |
| `PathNormalize.Push` | vellum/core/path.c:192-200 | another component is put behind the output, with one slash between |
| `PathNormalize.Normalize` | vellum/core/path.c:76-222 | for every absolute path whose components and result fit, the buffer holds prefix and stack-resolved components, terminated |
| `Utf8.EncodingKeepsOrder` | vellum/device/char/ansiterm.c:1275-1330 | the encoding the decoder is measured against orders characters as their bytes are ordered, as RFC 3629 promises in section 1 |
| `Utf8.ValueOfEncoding` | vellum/device/char/ansiterm.c:1256-1334 | the value computed from the bytes of an encoded character is the character |
| `Utf8.DecodeInTwoParts` | vellum/device/char/ansiterm.c:1269-1334 | decoding everything at once or carrying the unfinished tail of a first part over is the same |
| `Utf8.Decoder.TakeChar` | vellum/device/char/ansiterm.c:1275-1330 | one round hands on one character, or keeps all bytes as the fragment when the character is not complete |
| `Utf8.Decoder.Write` | vellum/device/char/ansiterm.c:1269-1334 | one write call hands on the characters its bytes complete and keeps the rest |
| `Utf8.Decoder.WriteAll` | vellum/device/char/ansiterm.c:1256-1334 | for every text and every way of cutting its bytes into write calls put_char receives exactly the text |
| `Terminal.TextFills` | vellum/device/char/ansiterm.c:1140-1254 | printable text fills the cells from the cursor on, one after the other, whatever the width |
| `TerminalLines.LinesAreRows` | vellum/device/char/ansiterm.c:1191-1200 | typed lines that are shorter than a row each have a row of their own, the cursor behind the last one |
| `TerminalLines.ReturnOverwrites` | vellum/device/char/ansiterm.c:1212-1214 | behind a carriage return the text replaces the beginning of its row |
| `TerminalLines.VerticalTabKeepsColumn` | vellum/device/char/ansiterm.c:1201-1209 | behind a vertical tab the text goes on in the same column of the next row |
| `TerminalLines.PlainExcludes` | vellum/device/char/ansiterm.c:1169-1218 | the characters left out of the model are backspace, tabulator and escape |
| `TerminalLines.OthersIgnored` | vellum/device/char/ansiterm.c:1169-1220 | the other control characters modelled leave no trace |
| `Terminal.Console.Erase` | vellum/device/char/ansiterm.c:342-366 | exactly the cells of the rectangle become blank |
| `Terminal.Console.ScrollUp` | vellum/device/char/ansiterm.c:368-407 | the rectangle moves up, its freed rows become blank, no other cell changes |
| `Terminal.Console.PutChar` | vellum/device/char/ansiterm.c:1140-1254 | the cell buffer holds the last rows of the unbounded page after the character as before it, the cursor in bounds |
| `Terminal.Console.PutText` | vellum/device/char/ansiterm.c:1140-1254 | so it does for every text of plain characters, through any number of scrolls |
| `TextConsole.Tty.WriteAll` | vellum/device/char/ansiterm.c:1140-1334 | however the bytes of a text of plain characters are cut into write calls, the cells show the end of the page with that text |
| `JsonRoundTrip.SpacedReadBack` | vellum/json/json.c:430-460 | printed values with a space behind every comma parse back to themselves |
| `JsonRoundTrip.CompactReadBack` | vellum/json/json.c:430-460 | compact text parses back when no container has a second member that is harmed by losing its first character |
| `JsonRoundTrip.CompactMisread` | vellum/json/json.c:166-184 | and does not parse back to the value in every other case, because the character behind a comma is skipped |
| `JsonRoundTrip.RoundTrip` | vellum/json/json.c:462-480 | for all printable values and gaps: the text parses back to the value if and only if a space follows the commas or the value is of the harmless kind |
| `JsonSpacing.AnySpacingReadBack` | vellum/json/json.c:29-33 | with white space of RFC 8259 chosen freely in every place where the grammar allows it, and some behind every comma, the text is read as the value written |
| `JsonSpacing.SampleArray` | vellum/json/json.c:430-460 | a literal text of an array and the value it is read as |
| `JsonSpacing.SampleObject` | vellum/json/json.c:430-460 | a literal text of an object with an array of booleans and the value it is read as |
| `JsonEdges.NothingBehind` | vellum/json/json.c:35-119 | a printed value at the very end of the text is read back if and only if it is a number of at least two characters |
| `JsonEdges.EmptyContainers` | vellum/json/json.c:121-198 | an array or an object without a member is refused |
| `JsonEdges.EscapeDropped` | vellum/json/json.c:239-269 | a backslash in a string is dropped together with the character behind it |
| `JsonEdges.WrongInArray` | vellum/json/json.c:166-184 | a wrong separator in an array gives INVALID_SYNTAX |
| `JsonEdges.WrongInObject` | vellum/json/json.c:71-110 | a wrong separator in an object gives SYNTAX_ERROR |
| `JsonRoundTrip.DigitsReadBack` | vellum/json/json.c:340-347 | the digit loop reads a printed number back, wrapped to 64 bits |
| `JsonRoundTrip.LiteralReadBack` | vellum/json/json.c:221-278 | a quoted string without quote or backslash is read back |
| `JsonRoundTrip.StringLost` | vellum/json/json.c:245-264 | a string whose opening quote was skipped is never read as the same string |
| `JsonRoundTrip.ValueLost` | vellum/json/json.c:166-184 | no value but the least 64-bit number survives the loss of its first character |
| `JsonRoundTrip.DepthKept` | vellum/json/json.c:121-198 | a value read from a printed value opens as many arrays at its start |
| `JsonParser.ParsedIsCanonical` | vellum/json/json.c:121-198 | whatever text is accepted, containers are not empty, elements are numbered from 0 on, numbers fit 64 bits |
| `JsonParser.Parser.SkipWhitespace` | vellum/json/json.c:29-33 | the cursor moves to the next character that is no space |
| `JsonParser.Parser.ParseCharacters` | vellum/json/json.c:239-269 | the string buffer, sized in advance, is never written past its end, and holds what the specification reads |
| `JsonParser.Parser.ParseStringLiteral` | vellum/json/json.c:221-278 | the literal read is the specification's, the cursor only moves forward |
| `JsonParser.Parser.ParseNumber` | vellum/json/json.c:315-357 | the number read is the specification's |
| `JsonParser.Parser.ParseOther` | vellum/json/json.c:359-428 | the keyword read is the specification's |
| `JsonParser.Parser.ParseArray` | vellum/json/json.c:121-198 | the loop that appends to a linked list builds the list of the recursive specification |
| `JsonParser.Parser.ParseObject` | vellum/json/json.c:35-119 | the loop that appends to a linked list builds the list of the recursive specification |
| `JsonParser.Parser.ParseValue` | vellum/json/json.c:430-460 | on every text the parser ends, with the outcome of the specification and the cursor between where it was and the end |
| `JsonParser.Parse` | vellum/json/json.c:462-480 | a whole parse is the specification applied to the whole text |
| `JsonParser.GetObjectElementValue` | vellum/json/json.c:487-499 | the value of the first member with the key, and none exactly when no member has it |
| `JsonParser.GetArrayElementValue` | vellum/json/json.c:501-513 | on arrays numbered from 0 on the n-th element, and none exactly past the end |
| `JsonParser.GetArrayElementCount` | vellum/json/json.c:515-526 | the number of elements |
| `ShellQuoting.QuotedLine` | vellum/shell/shell.c:61-91 | whatever the variables, quoted tokens joined by spaces become exactly those arguments if and only if there are at most 32, they fit the argument buffer, and the expanded line leaves room for its terminator |
| `ShellQuoting.ExpandPieces` | vellum/shell/parse.c:26-64 | every $name is replaced by its value, names being cut at 63 characters, every \$ by a dollar, and nothing else changes |
| `ShellQuoting.ExpandLine` | vellum/shell/parse.c:26-64 | expansion takes exactly the quotes of the dollars away |
| `ShellQuoting.ScanEscaped` | vellum/shell/parse.c:77-158 | tokenising takes the other quotes away, and runs out of room exactly when the token is longer than the room |
| `ShellWords.WordIsRead` | vellum/shell/parse.c:77-158 | a word of plain characters, stretches in quotes of either kind, escaped characters, control letters, and octal and hexadecimal numbers is read as these pieces in order, a control letter coming once more behind its control character |
| `ShellWords.LetterReadTwice` | vellum/shell/parse.c:125-127 | a backslash and an n are read as a newline and an n |
| `ShellWords.StrtolReads` | vellum/stdc/stdlib/strtol.c:6-80 | behind spaces, a sign and a prefix all the digits are read, in either case of letters, and the character is the lowest eight bits of the number |
| `ShellWords.NameCharacters` | vellum/shell/parse.c:41 | the characters of a variable name are the letters, the digits and the underscore |
| `ShellQuoting.CollectLine` | vellum/shell/shell.c:80-91 | collecting the tokens of a joined line returns them all exactly when they fit |
| `ShellLine.Expand` | vellum/shell/parse.c:26-64 | the buffer holds the expanded text, and failure is exactly a text longer than the buffer |
| `ShellLine.ParseToken` | vellum/shell/parse.c:77-165 | the token written behind the earlier ones is the specification's, and nothing in front of it changes |
| `ShellLine.Parse` | vellum/shell/parse.c:66-166 | so it is with leading blanks skipped; no token exactly at the end of the line or out of room |
| `ShellLine.BuildArgv` | vellum/shell/shell.c:71-91 | the pointers collected point to the arguments of the specification, all still intact at the end |
| `ShellLine.Run` | vellum/shell/shell.c:61-91 | the two buffers together compute the specified outcome |
| `Framebuffer.Rgb565Fields` | vellum/device/video/vga.c:203-217 | the two bytes of a pixel carry the upper bits of each colour in their own places |
| `Framebuffer.PixelReadsBack` | vellum/device/video/vga.c:173-217 | the bytes stored, low byte first, are the pixel at four bytes, its colours at three, and at two the upper bits of each colour, blue lowest and red highest |
| `Framebuffer.Mode.FlagIs` | vellum/device/video/vga.c:128-147 | the flag computed for a region is inside the flag buffer |
| `Framebuffer.Mode.FlagsDiffer` | vellum/device/video/vga.c:128-147 | two regions never share a flag |
| `Framebuffer.Mode.PixelApart` | vellum/device/video/vga.c:808-822 | the bytes of a pixel lie outside every stretch of a line that it is not in |
| `Framebuffer.DrawKeeps` | vellum/device/video/vga.c:808-822 | drawing a stretch of a line keeps every other pixel as it was shown |
| `Framebuffer.MarkKeeps` | vellum/device/video/vga.c:128-133 | marking a region settles the pixels in it and keeps the invariant of all others |
| `Framebuffer.ResetKeeps` | vellum/device/video/vga.c:135-140 | taking a flag back unsettles only the pixels of its region |
| `Framebuffer.WriteKeeps` | vellum/device/video/vga.c:121-126 | a pixel drawn by a program unsettles only itself |
| `Framebuffer.PaddingStays` | vellum/device/video/vga.c:808-822 | drawing a stretch of a line writes no byte that belongs to no pixel |
| `Screen.MarksLastPixel` | vellum/device/video/vga.c:748-758 | a caller that names its last pixel has it marked if and only if neither coordinate starts a region |
| `Screen.ConvertRgb888` | vellum/device/video/vga.c:180-201 | the four-byte stores that spill into the next pixel leave exactly three bytes a pixel, whatever the alignment |
| `Screen.ConvertRgb565` | vellum/device/video/vga.c:203-217 | two bytes a pixel, nothing else touched |
| `Screen.ConvertRgbx8888` | vellum/device/video/vga.c:173-178 | four bytes a pixel, nothing else touched |
| `Screen.Screen.Invalidate` | vellum/device/video/vga.c:748-758 | exactly the regions of the rectangle, upper bounds exclusive, become marked |
| `Screen.Screen.GetDiffChunk` | vellum/device/video/vga.c:771-783 | the chunk is the longest one: its flags are equal, and the next flag differs or the row ends |
| `Screen.Screen.Flush` | vellum/device/video/vga.c:796-830 | no flag is left, every pixel that was marked is shown, and no byte of an unmarked pixel changes |
| `Screen.Screen.FlushToPicture` | vellum/device/video/vga.c:796-830 | when everything drawn was announced, the hardware buffer afterwards equals a full redraw to the last byte |
| `Screen.ShownIsPicture` | vellum/device/video/vga.c:796-830 | a buffer in which every pixel is shown and no other byte was written is the full redraw |
| `Screen.TightPicture` | vellum/device/video/vga.c:796-830 | without padding the full redraw is the pixels of the frame buffer one after the other |
| `ScreenRuns.Run` | vellum/device/video/vga.c:128-217 | after every run of drawing, announcing and flushing the frame buffer, the marked and the unannounced pixels are those of the run on values, and the hardware buffer is to the last byte the picture of what the flushes copied |
| `ScreenRuns.AnnouncedIsShown` | vellum/device/video/vga.c:748-830 | when every pixel drawn is announced later on, a flush makes the picture shown the picture drawn |
| `ScreenRuns.PendingWasDrawn` | vellum/device/video/vga.c:748-758 | a pixel that is unannounced after a run was drawn in it and not announced since |
| `Screen.MarksRectangle` | vellum/device/video/vga.c:748-758 | every pixel before the upper bounds of an invalidation is marked |
| `Screen.MarksOnlyRegions` | vellum/device/video/vga.c:748-758 | a pixel is marked exactly if a pixel of the rectangle lies in the same region of 16 by 16 |
| `Variables.NewValue` | study/session08_shell/variable.c:108-119 | writing a slot of a list changes its map at one key |
| `Variables.DropKey` | study/session08_shell/variable.c:132-157 | unlinking a slot takes its key out of the map |
| `VariablePool.AddKeepsValid` | study/session08_shell/variable.c:100-106 | a new slot extends one instance's map and leaves the others alone |
| `VariablePool.RemoveKeepsValid` | study/session08_shell/variable.c:124-161 | an unlinked slot leaves one instance's map without the key and the other instances alone |
| `ShellVariables.FullWhen` | study/session08_shell/variable.c:41-54 | no slot is free if and only if the maps together hold sixteen variables |
| `ShellVariables.Shells.KeyMatches` | study/session08_shell/variable.c:15-26 | the comparison is equality of keys, not of prefixes |
| `ShellVariables.Shells.Get` | study/session08_shell/variable.c:56-70 | the value of the instance's map at the key, as a C string |
| `ShellVariables.Shells.SetVariable` | study/session08_shell/variable.c:72-122 | the map gets the value, or the status is the specified one and no map changes |
| `ShellVariables.Shells.RemoveVariable` | study/session08_shell/variable.c:124-161 | the map loses the key, or ENTRY_NOT_FOUND and no map changes |
| `ShellVariables.Run` | study/session08_shell/variable.c:56-161 | every run on the shared slots is the run on one finite map for each instance, statuses included |
| `ShellVariables.SetMeans` | study/session08_shell/variable.c:72-122 | a variable is set exactly if key and value have at most 124 characters together and the key is there or fewer than sixteen variables are; no other variable changes |
| `ShellVariables.RemoveMeans` | study/session08_shell/variable.c:124-161 | a variable is removed exactly if it is there; no other variable changes |
| `Links.Unlink` | study/session05_drivers/device.c:214-236 | the list is linked again when the place before the removed one, or the head, links to the one behind it |
| `Links.LinkLast` | study/session05_drivers/device.c:135-148 | a place that links nowhere, put behind the last one, ends the list |
| `DeviceNames.ParseUndoesWrite` | study/session05_drivers/device.c:50-90 | parse_decimal undoes write_decimal for every 32-bit number |
| `DeviceNames.WriteDecimal` | study/session05_drivers/device.c:62-90 | the decimal digits, which never run out of the 16 places |
| `DeviceNames.NewNameIsNew` | study/session05_drivers/device.c:277-297 | a generated name is none of the names in use, as long as none of them carries the largest 32-bit number |
| `DeviceNames.CollisionNeedsOverflow` | study/session05_drivers/device.c:277-287 | a generated name collides only with a name that has the largest number at it or behind it in the list |
| `DeviceNames.CollisionExactly` | study/session05_drivers/device.c:277-297 | with k the last name that carries the largest number, the generated name is an old one if and only if the name that the later names alone would give is one of those up to k |
| `DeviceNames.OverflowRepeatsName` | study/session05_drivers/device.c:277-287 | and for every base there is a list on which it does |
| `DeviceNames.AboveAll` | study/session05_drivers/device.c:277-287 | the number found is above every number met, unless it overflowed at that name or behind it |
| `DeviceNames.JustBehindOne` | study/session05_drivers/device.c:277-287 | the number found is 0, or follows on one of the numbers met; behind the largest one comes 0 |
| `DeviceTree.CreatedIsValid` | study/session05_drivers/device.c:135-165 | appending keeps the global list and all child lists exact |
| `DeviceTree.RemovedIsValid` | study/session05_drivers/device.c:167-184 | unlinking a leaf keeps the global list and all child lists exact |
| `Devices.Devices.Create` | study/session05_drivers/device.c:191-212 | the new device is last in the global list and last below its parent; failure is exactly a full pool and changes nothing |
| `Devices.Devices.Remove` | study/session05_drivers/device.c:214-236 | a leaf disappears from both lists, the order of the others stays |
| `Devices.Devices.GenerateName` | study/session05_drivers/device.c:256-298 | the name buffer afterwards, on success and on failure, holds the base and the next number as far as they go, and only the name of this device changes |
| `Devices.Devices.CreateNamed` | study/session05_drivers/device.c:191-298 | create, name, and remove again on failure: all or nothing |
| `Devices.Run` | study/session05_drivers/device.c:34-298 | every run of creating, naming and removing leaves on the pool is the run on a list of slots, parents and name buffers, statuses included, the children of each device being linked in the order of the list; and no two named devices share a name when no naming meets the largest 32-bit number |
| `DeviceRuns.StatusMeans` | study/session05_drivers/device.c:191-298 | a device is created exactly if one of the sixteen slots is free, and named exactly if 63 characters are enough for the name |
| `DeviceRuns.NamesStayDistinct` | study/session05_drivers/device.c:256-298 | over every run on the list, with devices created and renamed in any order, the named devices have different names until a number behind the base then asked for would overflow |
| `DeviceSteps.CreatedNames` | study/session05_drivers/device.c:272-287 | the device being named is on the list itself, with the base in its name, and does not count |
| `PrintInt.PrintedReadsBack` | study/session07_libc/vcprintf.c:447-465 | the digits emitted read back as the magnitude in their base, and the minus sign is there exactly for negative decimals |
| `PrintInt.PrintedLength` | study/session07_libc/vcprintf.c:467-523 | without the zero flag the count is max(width, sign + max(precision, digits)) |
| `PrintInt.ZeroPaddedLength` | study/session07_libc/vcprintf.c:467-472 | with the zero flag the count is the sign and max(width, precision, digits) if and only if the width is below 32768, because it is copied to a 16-bit field |
| `PrintLayout.SignIsStandard` | study/session07_libc/vcprintf.c:445-450 | the sign is the one of section 7.21.6.1 of the C17 standard unless a number that is not negative has both the plus and the space flag |
| `PrintLayout.PaddingIsStandard` | study/session07_libc/vcprintf.c:474-509 | a right-aligned number is laid out as the standard asks for if and only if there is no sign, or it is a space, or there is no padding |
| `PrintLayout.LeftAligned` | study/session07_libc/vcprintf.c:512-520 | a left-aligned number stands in front and only spaces follow |
| `PrintLayout.LettersHaveCase` | study/session07_libc/vcprintf.c:437-443 | letters among the digits are of the case asked for |
| `PrintInt.Reverse` | study/session07_libc/vcprintf.c:457-465 | the digits are collected backwards and never need more than 22 places |
| `PrintInt.DoPrintInt` | study/session07_libc/vcprintf.c:439-523 | what the callback accepted is the specified text, cut where the callback first refused, and the count is its length |

## Left out

- FatStream.Run: runs on a device that never fails. What a failing device does to one call is in the contracts of `FatFile.File.Read` and `FatFile.File.Seek`.
- FatFile.File.Read: the sum of cursor and length stays below 2^32, the chain covers the file's size, and a failing request leaves the buffer it was for alone.
- FatFile.File.Seek: offsets are integers without the 64-bit overflow of the sum.
- FatVolume.BootSector.Mount: boot sectors with their areas in order and at most 64 sectors in a cluster, which mounting does not check; of mounting itself, the computation of the layout: reading the boot sector, signatures and allocation are input and output.
- FatDirectory.Directory.List: directories in cluster chains. The fixed root directory of FAT12 and FAT16 is read correctly by `FatVolume.Volume.ReadSector`, but its iteration past the first sector is not modelled.
- FatDirectory.Directory.Iter: directories whose long-name slots have ordinals from 1 to 19; for the others the code has no place in its buffer.
- FatVolume.Volume.ReadCluster: cluster numbers that lead into the root directory area, which no cluster of a volume does.
- FatNames.StoreLfn: ordinals 1 to 19, for which the name buffer has room.
- FatNames.LfnToUtf8: the variant with a replacement for characters outside ASCII is not modelled. A name of exactly 255 bytes gets no terminator.
- FatLoader.LoadChain: the directory search before it and the jump after it are not modelled.
- AddressSpace.Space.Map: frames that the allocator handed out and that nothing uses, not device memory; pages from 0x400 up to the recursive window, which is abstracted to an array of entries; cache and translation-buffer instructions are hardware.
- AddressSpace.Space.AllocatePages: the counter of pages handed out does not reach the recursive window.
- FrameAllocator.Allocator.Init: the linker symbol behind which the bitmap is placed is a parameter.
- PathNormalize.Normalize: absolute paths with components shorter than 256 characters and a buffer that fits; relative paths keep their two dots and are not modelled.
- Terminal.Console.ScrollUp: upward scrolling; the terminal scrolls down only in escape sequences.
- Terminal.Console.PutChar: characters of one column except backspace, tabulator and escape; cursor addressing and the sequences behind an escape are not modelled.
- Utf8.Decoder.WriteAll: well-formed text; what a malformed byte turns into is not modelled. Combining disjoint bits is written as addition.
- JsonRoundTrip.RoundTrip: strings without quote and backslash, since the parser drops a backslash and the character behind it, and containers with at least one member, since it reads no others.
- JsonParser.Parser.ParseValue: allocation does not fail, and element numbers do not pass 2^32, for which no text is long enough. The linked lists are values, so that sharing of nodes is not captured.
- ShellQuoting.QuotedLine: the state behind a buffer filled to the last character, where a terminator is missing, is only named, not followed.
- ShellLine.BuildArgv: looking up and calling the command is not modelled.
- Screen.Screen.Flush: modes whose width and height are multiples of 16, at 16, 24 or 32 bits a pixel. The generic converter for other depths and the character modes are not modelled.
- ShellVariables.Shells.SetVariable: null pointers are not modelled; keys and values are C strings.
- Devices.Run: a parent that is not in use, and the removal of a device with children, are not called.
- Devices.Devices.Remove: devices without children; removing a parent leaves its children pointing at a freed slot.
- Devices.Devices.GenerateName: null pointers and empty buffers are not modelled.
- PrintInt.DoPrintInt: bases 8, 10 and 16. The prefixes printed before the number and the parsing of the format are not modelled.
- Hardware and firmware: port accesses, disk and floppy controllers, video BIOS calls, interrupts.
- Loading of executables and modules, logging, driver registration, menus, the boot sequence.
- ISO 9660, the code page tables, and the C library beyond the integer formatter.
