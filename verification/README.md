# Verified models of the tamago-uefi board layer

This project models the parts of the board layer that keep state or define a wire format, and proves what
they promise over every input and every run.

* **The read-only file server.** `FileServerSpec` says what the published EFI_SIMPLE_FILE_SYSTEM_PROTOCOL and
  EFI_FILE_PROTOCOL (sections 13.4 and 13.5 of UEFI 2.10) do, as steps on three maps: volumes, handles and
  mounts. `FileServers.FileServer` is the server as written: two fixed-size registries scanned linearly, slots
  reserved and rolled back, caches filled lazily, bytes copied into caller buffers. Every entry point is
  proved to be the corresponding step. `FileRuns` relates whole runs of steps to a plain file
  (bytes and a position) and a plain directory (a list and an index). `FileAnswers` says what each call answers in
  terms of the caller's arguments and the backing file system alone.
* **The self-reading client.** `PackStub` runs the client's GetInfo/GetInfo/Read sequence against the server.
* **Device paths.** `DevicePaths` compares the byte-level prefix test, the path builder and the two
  memory walkers with operations on lists of nodes (section 10.3 of UEFI 2.10).
* **The crash log.** `LogFrames`, `LogRuns`, `LogLosses` and `Rings`: the ring buffer, its flush policy, the disk
  frame, the host tool that reads it, and exactly which bytes can get lost.
* **The TCG event log range** (`EventLog`), **the boot menu** (`BootMenu`), **Block IO**
  (`BlockIOSpec`, `BlockIOServers`), **the memory-map protocol** (`MemoryMaps`), **UTF-16 and UCS-2 text**
  (`Text`) and **the arm64 clock** (`Clock`).

Modelling conventions. Go strings are sequences of runes, which is Dafny's `string`. Addresses and firmware
handles are numbers, 0 being NULL; what the allocator or the firmware answers is a parameter, constrained by
`Legal`. A pointer to a scalar is an in/out value, a caller's buffer is an array. Firmware memory is a
function from address to byte. A backing file system is an immutable function of the path. EFI_STATUS values
are named constructors. A `hide` statement in a proof only keeps a definition out of the verifier's view.

Where the code and its comments disagree, the code is followed:

* `uefiboard/blkprintk.go` describes the payload as the last bytes printed. At exactly 32752 bytes the write
  position is back at 0 while the ring does not count as wrapped, so the payload is all zeros
  (`LogRuns.WindowIsLast` has the exact condition, and `LogLosses.SafeExactly` says
  which bytes can be lost for this and for the wrap of the 64-bit total).
* `uefiboard/block_io_publish_handlers.go` documents that an LBA past LastBlock is refused. The byte offset is
  computed in 64 bits, so LBA 2^55 + k is served as block k (`BlockIOSpec.RangeRuleKept` has the exact condition).
* `uefiboard/blkprintk.go` says the counter is incremented by each successful flush, so that it is N after N of
  them. It is incremented by each attempt: after one failed write the first frame on disk says 2
  (`LogRuns.FailedWriteIsCounted`). It counts the successful flushes exactly if none failed
  (`LogRuns.CounterCountsSuccesses`) and the frames exactly if every flush got its write through
  (`LogRuns.CounterAhead`, `LogRuns.CounterOnDisk`).
* `uefiboard/tcg2_protocol_tamago.go` promises the range from the first record to the end of the last. A range of
  2^63 bytes or more is negative as an int and reads as an empty log (`EventLog.EventLogIsExact` has the exact condition).
* `phase2_dhcp_oci_menu.go` says a key pushes the deadline out by a day; it disarms the countdown for good.
* `uefiboard/sfs_publish.go` says Delete answers EFI_ACCESS_DENIED; it answers EFI_WARN_DELETE_FAILURE and closes the handle.

## Model

| member | source | states |
|---|---|---|
| FileServerSpec.RunKeeps | uefiboard/sfs_publish_handlers.go:341-438 | in every state of every run: at most 4 volumes and 32 handles, ids live and distinct, every handle's owner is live, every volume has its root directory handle, mounts are one-to-one, every handle's path is absolute without empty, "." or ".." components |
| FileServerSpec.BootWF | uefiboard/sfs_publish.go:235-244 | the empty registries satisfy the invariant every run keeps |
| FileServerSpec.StepKeeps | uefiboard/sfs_publish_tamago.go:143-254 | each of the ten calls, publish and unpublish included, keeps that invariant |
| FileServerSpec.VolumePersists | uefiboard/sfs_publish_handlers.go:411-438 | through any run, closing or deleting the root included, a published volume keeps its file system and root handle and OpenVolume keeps answering it, until it is unpublished |
| FileServerSpec.UnpublishRemoves | uefiboard/sfs_publish_tamago.go:218-254 | a successful unpublish removes the volume and exactly its own handles; a failed one changes nothing |
| FileServerSpec.DeadStaysDead | uefiboard/sfs_publish_handlers.go:58-75 | an id that is not live stays so through any run that is not issued it again, and every call addressed to it gets NOT_FOUND |
| FileServerSpec.PathsKeep | uefiboard/sfs_publish_handlers.go:363-403 | no call can put a handle on a path outside its volume |
| FileServerSpec.CursorFrame | uefiboard/sfs_publish_handlers.go:453-601 | Read and SetPosition change at most the cursor of their own handle |
| FileServerSpec.OpenFrame | uefiboard/sfs_publish_handlers.go:378-407 | Open adds at most the new handle and touches no other |
| FileServerSpec.CloseFrame | uefiboard/sfs_publish_handlers.go:411-438 | Close and Delete remove at most their own handle |
| FileRuns.FileRefinesPlain | uefiboard/sfs_publish_handlers.go:501-601 | for any interleaving of calls that leaves a file handle open, its Reads and SetPositions answer exactly as a plain file of the backing bytes, each Read succeeding with body[pos..min(pos+n, len)], and GetPosition reports its position |
| FileRuns.SequentialReads | uefiboard/sfs_publish_handlers.go:513-533 | reads from 0 in any sizes, interleaved with anything, concatenate to a prefix of the file, and to the whole file once enough was asked for |
| FileRuns.UnreadableFile | uefiboard/sfs_publish_handlers.go:502-512 | a file that cannot be read gives DEVICE_ERROR on every Read and its handle does not move |
| FileRuns.Isolation | uefiboard/sfs_publish_handlers.go:341-438 | a call on another object leaves an open handle and its volume unchanged |
| FileRuns.DirRefinesPlain | uefiboard/sfs_publish_handlers.go:466-500 | for any interleaving, a directory handle answers as an index into the listing without "." and "..": next record, size needed, end, or rewind |
| FileRuns.ListsEachEntryOnce | uefiboard/sfs_publish_handlers.go:466-500 | iteration from the start with any buffer sizes delivers each entry once and in order; the end is reported only after the last entry and from then on always |
| FileRuns.RoomyReadsListAll | uefiboard/sfs_publish_handlers.go:466-500 | with buffers large enough for every record, through any interleaving, Read number k returns the record of entry k, and every Read after the last one the end |
| FileRuns.RetryWithReportedSize | uefiboard/sfs_publish_handlers.go:484-499 | BUFFER_TOO_SMALL changes nothing and a retry with the reported size succeeds and fills exactly that size |
| FileRuns.RecordDecodes | uefiboard/sfs_publish_handlers.go:479-497 | a directory record decodes to its entry's name, size and attributes, with the directory bit exactly for directories |
| FileRuns.InfoDescribesHandle | uefiboard/sfs_publish_handlers.go:608-662 | GetInfo decodes, on an opened handle, to the last path component, the size from Stat (0 for a directory), read-only, and the directory bit exactly for modes 0x4xxx; on the volume root to the empty name, size 0 and a read-only directory |
| FileRuns.OpenComposes | uefiboard/sfs_publish_handlers.go:363-407 | opening a and then a relative b yields the handle that opening a\b at once would |
| FileAnswers.DirectoryReports | uefiboard/sfs_publish_handlers.go:210-247 | through any interleaving, Reads with ample buffers on a directory return one record for each ListDir entry but "." and "..", in order, then the end; each decodes to the name, the Stat size and the directory bit exactly for modes 0x4xxx, or where Stat fails to size 0 and the bit exactly for type byte 4 |
| FileAnswers.RecordAgreesWithInfo | uefiboard/sfs_publish_handlers.go:479-662 | a directory record and GetInfo on the handle that Open of its name yields agree in name and attribute, and in size exactly for files and for directories of Stat size 0 |
| FileAnswers.UnlistableDirectory | uefiboard/sfs_publish_handlers.go:467-472 | a directory that cannot be listed answers every Read with DEVICE_ERROR and does not move |
| FileAnswers.OpenSucceedsExactly | uefiboard/sfs_publish_handlers.go:341-407 | Open succeeds if and only if the handle is live, the out parameter is there, READ is asked for without WRITE or CREATE, the name is not empty, Stat knows its path and fewer than 32 handles are open; the new handle has that path, its owner, the start position and the type Stat gives |
| FileAnswers.OpenRefusals | uefiboard/sfs_publish_handlers.go:341-389 | which status each refusal of Open gives, WRITE_PROTECTED exactly for the WRITE and CREATE bits |
| FileAnswers.CloseExactly | uefiboard/sfs_publish_handlers.go:411-438 | Close and Delete remove an opened handle and spare a root; Close always succeeds, Delete warns, or reports an unknown handle |
| FileAnswers.PublishSucceedsExactly | uefiboard/sfs_publish_tamago.go:109-214 | publishing succeeds if and only if there are a file system, boot services, a free slot in both registries and the firmware's consent; then OpenVolume answers the root directory of that file system and the handle finds the volume |
| FileAnswers.PublishErrors | uefiboard/sfs_publish_tamago.go:109-254 | which error a failed Publish or Unpublish reports |
| FileAnswers.PositionAnswers | uefiboard/sfs_publish_handlers.go:548-580 | directories have no position but 0, and SetPosition(0) rewinds them |
| FileAnswers.NullArguments | uefiboard/sfs_publish_handlers.go:318-533 | Read without a size pointer, Read of something without a buffer and OpenVolume without an out parameter are INVALID_PARAMETER and change nothing |
| FileAnswers.GetInfoRefusals | uefiboard/sfs_publish_handlers.go:608-662 | GetInfo wants its pointers, knows EFI_FILE_INFO only, and succeeds exactly with a buffer of 82 bytes and two for each character of the name |
| PlainFiles.ReadsConcatenate | uefiboard/sfs_publish_handlers.go:513-533 | consecutive reads of a plain file deliver it without gap or overlap |
| PlainFiles.EachEntryOnce | uefiboard/sfs_publish_handlers.go:473-498 | any sequence of next-entry requests yields consecutive entries, with the end final |
| PlainFiles.RoomyReadsAdvance | uefiboard/sfs_publish_handlers.go:473-498 | with room enough, request k answers entry k from the start position, and the end once there is none |
| FileTables.FilePut | uefiboard/sfs_publish_handlers.go:396-403 | writing a slot of the handle registry is adding or updating one handle of the server state |
| FileTables.FileSweep | uefiboard/sfs_publish_tamago.go:245-251 | clearing the slots of one owner is removing exactly that volume's handles |
| FileTables.FilesFull | uefiboard/sfs_publish_handlers.go:79-86 | the handle registry has no free slot exactly when 32 handles are live |
| FileTables.VolumesFull | uefiboard/sfs_publish_tamago.go:145-154 | the publisher registry has no free slot exactly when 4 volumes are live |
| FileServers.FileServer.constructor | uefiboard/sfs_publish.go:235-244 | empty registries show the boot state |
| FileServers.FileServer.LookupVolume | uefiboard/sfs_publish_handlers.go:58-65 | finds the slot of a live volume, and only that |
| FileServers.FileServer.LookupFile | uefiboard/sfs_publish_handlers.go:68-75 | finds the slot of a live handle, and only that |
| FileServers.FileServer.AllocFile | uefiboard/sfs_publish_handlers.go:79-86 | returns a free slot, or -1 only if there is none |
| FileServers.FileServer.Publish | uefiboard/sfs_publish_tamago.go:109-214 | is the Publish step: both registries filled, or rolled back to show the state before |
| FileServers.FileServer.Unpublish | uefiboard/sfs_publish_tamago.go:218-254 | is the Unpublish step |
| FileServers.FileServer.OpenVolume | uefiboard/sfs_publish_handlers.go:318-328 | answers the volume's root handle, NOT_FOUND or INVALID_PARAMETER |
| FileServers.FileServer.Open | uefiboard/sfs_publish_handlers.go:341-407 | is the Open step, with its order of refusals, including OUT_OF_RESOURCES exactly at 32 handles |
| FileServers.FileServer.Close | uefiboard/sfs_publish_handlers.go:411-425 | is the Close step |
| FileServers.FileServer.Delete | uefiboard/sfs_publish_handlers.go:429-438 | is the Delete step |
| FileServers.FileServer.LoadBody | uefiboard/sfs_publish_handlers.go:501-512 | returns what ReadFile would answer now, whatever is cached, and the server state does not notice |
| FileServers.FileServer.ListEntries | uefiboard/sfs_publish_handlers.go:210-247 | computes the listing without "." and "..", each entry described by Stat or else by its type byte |
| FileServers.FileServer.LoadDirents | uefiboard/sfs_publish_handlers.go:467-472 | returns what listing the directory would give now, whatever is cached |
| FileServers.FileServer.Read | uefiboard/sfs_publish_handlers.go:453-534 | is the Read step; the buffer receives exactly the delivered bytes and keeps the rest |
| FileServers.FileServer.GetPosition | uefiboard/sfs_publish_handlers.go:548-561 | answers the cursor of a file |
| FileServers.FileServer.SetPosition | uefiboard/sfs_publish_handlers.go:567-601 | is the SetPosition step, seek to end included |
| FileServers.FileServer.GetInfo | uefiboard/sfs_publish_handlers.go:608-662 | writes the EFI_FILE_INFO record or reports its size; the handle is not changed |
| FileServers.HandleFacts | uefiboard/sfs_publish_handlers.go:638-645 | in every well-formed state Stat still succeeds on an open file, so the fallback to the cached body's size is never used |
| Paths.JoinPathNormal | uefiboard/sfs_publish_handlers.go:160-190 | every name resolves to an absolute path of the volume without empty, "." or ".." components |
| Paths.JoinPathCompose | uefiboard/sfs_publish_handlers.go:160-190 | resolving a then b equals resolving a\b when b is relative, and starts over from the root when b is rooted |
| Paths.JoinPathOne | uefiboard/sfs_publish_handlers.go:174-185 | one component descends, stays or goes up, the root being its own parent |
| Paths.JoinPathIdempotent | uefiboard/sfs_publish_handlers.go:160-190 | a resolved path resolves to itself from any directory |
| Paths.LeadingSeparator | uefiboard/sfs_publish_handlers.go:162-166 | a name that starts with "/" or "\" is resolved from the root, whatever the current directory |
| Paths.SeparatorsAlike | uefiboard/sfs_publish_handlers.go:161-174 | names that differ only in which of the two separators they use resolve alike |
| Paths.DescendAndBack | uefiboard/sfs_publish_handlers.go:174-189 | a plain name appends a slash and itself to the path, ".." takes it off again, and the root is its own parent |
| Paths.NormalLooks | uefiboard/sfs_publish_handlers.go:186-189 | a resolved path is "/" or starts with a slash, has single slashes between components, no trailing slash and no backslash |
| Paths.ResolvePath | uefiboard/sfs_publish_handlers.go:160-190 | the stack loop computes the resolution those laws are about |
| Paths.BaseNameLast | uefiboard/sfs_publish_handlers.go:194-202 | the base name of a resolved path is its last component, empty for the root |
| Text.ReadUcs2 | uefiboard/sfs_publish_handlers.go:98-117 | reads the name before the first NUL, at most 65536 units, surrogates as '?' |
| Text.NameNulFree | uefiboard/sfs_publish_handlers.go:98-117 | a name read from any memory has no NUL, only BMP runes and at most 65536 of them |
| Text.NameExactly | uefiboard/sfs_publish_handlers.go:98-117 | unit by unit: the name ends at the first NUL or after the cap, and a surrogate reads as "?" |
| Text.MaskedRoundTrip | uefiboard/sfs_publish_handlers.go:98-142 | reading back a written NUL-free name of any runes gives it with "?" for runes outside the BMP |
| Text.WriteUcs2 | uefiboard/sfs_publish_handlers.go:123-142 | writes as many whole units of the name and its NUL as fit and nothing else |
| Text.NameRoundTrip | uefiboard/sfs_publish_handlers.go:98-142 | reading back a written NUL-free BMP name gives the name |
| FileInfo.WriteFileInfo | uefiboard/sfs_publish_handlers.go:277-303 | fills exactly the announced size with the record and leaves the rest, or leaves the buffer alone when it is too short |
| FileInfo.RoundTrip | uefiboard/sfs_publish_handlers.go:253-303 | a client following the structure's offsets recovers total size, file size, attributes and any NUL-free BMP name |
| FileInfo.FileSizeField | uefiboard/sfs_publish_handlers.go:296-298 | the FileSize field is the size written, for any name |
| PackStub.GetFileSize | cmd/efipackstub/main.go:397-431 | the two-call probe returns the reported size of every live handle and fails for any other id |
| PackStub.ReadWhole | cmd/efipackstub/main.go:346-376 | the whole-file read returns the first Stat-size bytes exactly when the file has that many, and closing restores the server state |
| PackStub.ReadOwnFile | cmd/efipackstub/main.go:306-377 | the client returns the file its device path names, or nothing, and leaves the server as it found it |
| PackStub.OwnFileExactly | cmd/efipackstub/main.go:306-377 | the client comes back with b if and only if a handle is free, the path names a regular file of non-zero Stat size, and b is that many first bytes of ReadFile |
| PackStub.OwnFileNone | cmd/efipackstub/main.go:306-340 | without a volume, a path or a name the client comes back with nothing |
| PackStub.StubReadsBuiltPath | cmd/efipackstub/main.go:322-377 | pointed at a device path built by the loader, on a volume where Stat and ReadFile agree, the client reads exactly that file |
| DevicePaths.IsDevicePathPrefix | uefiboard/sfs_filter.go:60-106 | on any bytes: true exactly if the prefix is terminated, divides into nodes, begins the other path, and that path goes on with a node that is not the end |
| DevicePaths.PrefixMeansProperPrefix | uefiboard/sfs_filter.go:48-106 | on encoded paths the test is exactly "proper prefix" of node lists |
| DevicePaths.PrefixRejects | uefiboard/sfs_filter.go:60-106 | a prefix that does not end with 7F FF, or holds a node shorter than four bytes, is refused |
| DevicePaths.DevicePathBytes | uefiboard/sfs_filter_tamago.go:36-63 | computes the node-by-node walk of memory, with its error cases |
| DevicePaths.WalkReadsPath | uefiboard/sfs_filter_tamago.go:36-63 | the walk reads back exactly the encoded path if its nodes take at most 64 KiB, and fails otherwise |
| DevicePaths.WalkRejects | uefiboard/sfs_filter_tamago.go:36-63 | a walk fails at NULL and at a node shorter than four bytes |
| DevicePaths.FindSfsChildOf | uefiboard/sfs_filter_tamago.go:77-102 | returns the first handle below the parent with its path; no match only when there is none |
| DevicePaths.ChildMeansStrictlyBelow | uefiboard/sfs_filter_tamago.go:66-102 | "below" means that the handle's node list strictly extends the parent's |
| DevicePaths.BuildFilePath | uefiboard/loadimage_sfs_tamago.go:65-92 | parent nodes, one file-path node, end node; refuses an unterminated parent and runes outside the BMP |
| DevicePaths.BuildAppendsNode | uefiboard/loadimage_sfs_tamago.go:53-92 | on an encoded parent the result encodes the list with one node more, well formed exactly up to 32764 characters, and the parent is a prefix of it whatever the length |
| DevicePaths.BuiltBytes | uefiboard/loadimage_sfs_tamago.go:65-92 | the built node starts 04 04, announces the low 16 bits of its length and holds the UTF-16 path and a NUL; the path ends 7F FF 04 00 |
| DevicePaths.BuildPath16 | cmd/efipackstub/main.go:448-487 | collects the file-path units of at most 32 nodes and ends them with one NUL |
| DevicePaths.WalkUnitsNodes | cmd/efipackstub/main.go:448-487 | on an encoded path the collector computes a function of the node list |
| DevicePaths.CollectsConcatenation | cmd/efipackstub/main.go:433-487 | up to 32 file-path nodes of at most 2045 characters are collected as the concatenation of their texts |
| DevicePaths.NodeText | cmd/efipackstub/main.go:466-477 | a node gives its text without one trailing NUL, with or without a terminator or a stray last byte |
| DevicePaths.CollectBuilt | cmd/efipackstub/main.go:433-487 | what the collector returns for a built path of any length: nothing beyond its limits, the path up to 32764 characters, and beyond that the part covered by the length cut to 16 bits followed by a walk into the text |
| DevicePaths.BuildThenCollect | cmd/efipackstub/main.go:433-487 | whenever the walk stays inside the built path, which it does unless the node length is cut into 4..4096, building then collecting gives the path back if and only if the parent has at most 31 nodes, none an end node, and no node exceeds 4096 bytes |
| LogRuns.WindowIsLast | uefiboard/blkprintk.go:195-220 | for every history the payload is the last min(n, 32752) bytes printed if and only if n is below 32752, or n modulo 2^64 is above it, or n modulo 2^64 equals it and those bytes are all zero; at 32752 bytes it is all zeros |
| LogRuns.FullRingReadsZeros | uefiboard/blkprintk.go:209-213 | a history of 32752 letters is not recovered |
| LogRuns.CountersIncrease | uefiboard/blkprintk_tamago.go:31-49 | with any failures, the counters of the frames on disk strictly increase |
| LogRuns.CounterAhead | uefiboard/blkprintk.go:116-120 | over every run the counter gets ahead of the number of frames by the number of failed writes, so it counts frames if and only if every flush got its write through |
| LogRuns.CounterCountsSuccesses | uefiboard/blkprintk.go:116-120 | over every run the counter grows by the number of successful flushes if and only if no flush failed |
| LogRuns.CounterOnDisk | uefiboard/blkprintk.go:15-19 | the counter in a written frame is the number of frames written so far if and only if no earlier write failed; modulo 2^64, if and only if the failures are a multiple of 2^64 |
| LogRuns.FailedWriteIsCounted | uefiboard/blkprintk_tamago.go:31-49 | after one failed and one successful write the host tool reports 2 for the only frame written |
| LogRuns.DiskHoldsLastFrame | uefiboard/blkprintk_tamago.go:31-49 | after any run the disk holds the frame of the last successful write, or is untouched |
| LogRuns.RecoverReportsLastWrite | cmd/blkprintk-recover/main.go:78-111 | on a seeded disk, from any state with nothing written yet and after any run with any failing writes, the host tool reports "probe not run" if nothing was written, else counter and payload of the last successful write |
| LogRuns.PromptRun | uefiboard/blkprintk_tamago.go:61-70 | while flushes succeed fewer than 4096 bytes are pending after every call, and a frame follows every position within 4096 bytes |
| LogRuns.SentinelFlushes | uefiboard/blkprintk_tamago.go:61-66 | byte 0x04 on a bound ring writes a frame of everything printed |
| LogRuns.OrdinaryBytes | uefiboard/blkprintk_tamago.go:61-70 | any other byte is flushed if and only if the ring is bound and 4096 bytes are pending |
| LogRuns.FailedFlushRetries | uefiboard/blkprintk_tamago.go:36-48 | after a failed flush the very next byte tries again |
| LogRuns.FreshBudget | uefiboard/blkprintk_tamago.go:47-48 | below 4096 pending bytes ordinary bytes are not flushed |
| LogLosses.NothingLost | uefiboard/blkprintk.go:225-258 | from any state with prompt flushes, while flushes succeed and however much is printed, every overwritten byte that is at least 4096 bytes away from a wrap of the 64-bit total stood at its place in some written frame |
| LogLosses.LostAtWrap | uefiboard/blkprintk.go:203-220 | a run of 2^64 + 32753 bytes, every flush succeeding, in which byte 2^64 - 4096 is overwritten and stood in no frame, at its place or any other |
| LogLosses.SafeExactly | uefiboard/blkprintk.go:145-258 | in a ring bound after n bytes, byte i stood in some frame by the time it is overwritten, in every run whose flushes succeed, if and only if `Safe(n, i)`: the first frame is sure to show it, or a later one forced within 4096 bytes is |
| LogLosses.SafeWhenBoundFirst | uefiboard/blkprintk.go:225-258 | in a ring bound before anything is printed, exactly the bytes at least 4096 away from a wrap of the 64-bit total are safe |
| LogLosses.SafeIsHeld | uefiboard/blkprintk_tamago.go:61-70 | a safe byte stood at its place in some written frame |
| LogLosses.UnsafeIsLost | uefiboard/blkprintk.go:203-220 | for every unsafe byte, a run in which every flush succeeds and no frame holds it |
| LogLosses.UnboundRun | uefiboard/blkprintk_tamago.go:31-34 | whatever is done to an unbound ring, binding it leaves everything pending and nothing written |
| LogLosses.BoundOneShort | uefiboard/blkprintk.go:209-213 | of the bytes printed before a ring is bound with 32751 pending, the first 4096 are unsafe and the others safe |
| LogFrames.FrameRoundTrip | uefiboard/blkprintk.go:274-324 | decoding a frame gives back its counter and payload |
| LogFrames.FrameLayout | uefiboard/blkprintk.go:274-282 | counter at 0, payload length at 8, payload at 16, zeros to 32768 bytes |
| LogFrames.DecodeExactly | uefiboard/blkprintk.go:309-324 | which frames do not decode and why, and what a decoded one says |
| LogFrames.MagicText | uefiboard/blkprintk.go:77-79 | the magic is "cloudboot-M1.6" and two NULs |
| LogFrames.RecoveryErrors | cmd/blkprintk-recover/main.go:78-111 | the host tool reports a read error exactly below 32 KiB, an untouched disk exactly for the magic, and a decode error exactly for a length above 32752 |
| LogFrames.FrameIsNotMagic | uefiboard/blkprintk.go:58-79 | no frame begins with the scratch magic |
| LogFrames.DecodeFrame | uefiboard/blkprintk.go:309-324 | decodes header and payload, with the three error cases |
| LogFrames.MagicAtOffset0 | cmd/blkprintk-recover/main.go:101-111 | decides whether the frame begins with the magic |
| LogFrames.Recover | cmd/blkprintk-recover/main.go:78-99 | reads 32 KiB and reports error, untouched, undecodable or the decoded frame |
| Rings.RingAppend | uefiboard/blkprintk.go:225-233 | writing at the write position keeps the newest bytes of the history in the ring |
| Rings.RingWindow | uefiboard/blkprintk.go:203-220 | the payload computed from the ring is a function of the history alone |
| Rings.BlkRingBuffer.constructor | uefiboard/blkprintk.go:148-150 | a new ring is empty and unbound |
| Rings.BlkRingBuffer.BindBlockIO | uefiboard/blkprintk.go:159-168 | binds exactly when the block size divides 32 KiB |
| Rings.BlkRingBuffer.PayloadBytes | uefiboard/blkprintk.go:203-220 | returns the payload for the history printed so far |
| Rings.BlkRingBuffer.Append | uefiboard/blkprintk.go:225-233 | appends one byte to the history |
| Rings.BlkRingBuffer.Serialize | uefiboard/blkprintk.go:274-282 | builds the 32 KiB frame of counter and payload |
| Rings.BlkRingBuffer.Flush | uefiboard/blkprintk_tamago.go:31-49 | is the flush step: counter bumped on every attempt, disk changed only by a successful write, budget reset only when all succeeded |
| Rings.BlkRingBuffer.BlkPrintk | uefiboard/blkprintk_tamago.go:61-70 | is the print step: flushes on the sentinel or at 4096 pending bytes |
| EventLog.DigestSizeMatches | uefiboard/tcg2_protocol_tamago.go:385-400 | the width table gives each algorithm's standard digest length |
| EventLog.DigestTable | uefiboard/tcg2_protocol_tamago.go:385-400 | the widths by identifier, and no other identifier is known |
| EventLog.UnknownAlgorithm | uefiboard/tcg2_protocol_tamago.go:363-375 | a record whose digest list meets an unknown identifier cannot be measured |
| EventLog.OtherAnswers | uefiboard/tcg2_protocol_tamago.go:306-322 | an error status, no log area and an unmeasurable record are a call error, an empty log and an unknown digest |
| EventLog.MeasureEntry | uefiboard/tcg2_protocol_tamago.go:354-380 | the digest loop computes the record size in 64-bit arithmetic, or reports an unknown algorithm |
| EventLog.HeaderSize | uefiboard/tcg2_protocol_tamago.go:355-362 | the legacy header record measures its encoded length |
| EventLog.EventSize | uefiboard/tcg2_protocol_tamago.go:363-379 | a crypto-agile record with any digests and event data measures its encoded length |
| EventLog.GetEventLog | uefiboard/tcg2_protocol_tamago.go:292-326 | returns the range from the first record to the end of the last, an empty log when there is no area or the range is 2^63 bytes or more, or an error |
| EventLog.EventLogIsExact | uefiboard/tcg2_protocol_tamago.go:256-326 | for every well-formed contiguous log, header-only logs included, first and last record addresses give exactly the encoded log if and only if it is shorter than 2^63 bytes, and otherwise an empty one |
| EventLog.BackwardsLogIsEmpty | uefiboard/tcg2_protocol_tamago.go:317-325 | a last record that ends below the first reads as an empty log without error |
| BootMenu.IndexOfDefault | phase2_dhcp_oci_menu.go:285-295 | returns the first entry with the default label, or 0 |
| BootMenu.MenuLoop | phase2_dhcp_oci_menu.go:310-398 | the loop plays the polls one by one and returns the label of the entry dispatched |
| BootMenu.MenuSafe | phase2_dhcp_oci_menu.go:321-398 | for every sequence of polls: cursor in range and equal to the clamped fold of the keys; dispatch only at the cursor by Enter or by the countdown; the countdown only if armed and no key was read, at the starting entry; ESC dispatches nothing |
| BootMenu.MenuEndsExactly | phase2_dhcp_oci_menu.go:321-398 | the loop ends at the first poll that is Enter, Escape or a clock past the deadline while armed with no key read, and runs on if and only if there is none |
| BootMenu.DownThenEnter | phase2_dhcp_oci_menu.go:373-390 | from entry i of n, k keys with scan code 2 and then Enter boot entry min(i + k, n - 1) |
| BootMenu.UpThenEnter | phase2_dhcp_oci_menu.go:373-390 | k keys with scan code 1 and then Enter boot entry max(i - k, 0) |
| BootMenu.KeyThenEnter | phase2_dhcp_oci_menu.go:381-396 | scan code 5 goes to the first entry, 6 to the last, 0x17 ends the menu, and any other key leaves the cursor |
| BootMenu.LeftAlone | phase2_dhcp_oci_menu.go:321-359 | without a key the starting entry is booted at the first poll later than the timeout, if and only if the timeout is positive and a default is set |
| BootMenu.AutoBootsDefault | phase2_dhcp_oci_menu.go:280-359 | an auto-boot boots the first entry carrying the default label |
| BlockIOSpec.ReadSucceedsExactly | uefiboard/block_io_publish_handlers.go:76-107 | a non-empty block-multiple read succeeds, with the right bytes, exactly when the range fits after reducing the LBA modulo 2^55 |
| BlockIOSpec.RangeRuleKept | uefiboard/block_io_publish_handlers.go:68-100 | success exactly within 0..LastBlock holds if and only if the LBA is below 2^55 or its remainder does not fall into the image |
| BlockIOSpec.ReadRefusals | uefiboard/block_io_publish_handlers.go:76-92 | NOT_FOUND exactly for an unknown structure, BAD_BUFFER_SIZE exactly for a size that is no multiple of 512, success for an empty read, and no bytes with any refusal |
| BlockIOSpec.WrappedReadSucceeds | uefiboard/block_io_publish_handlers.go:93-100 | block 2^55 of a one-block image is read as block 0 |
| BlockIOSpec.AnySplitReassembles | uefiboard/block_io_publish_handlers.go:76-107 | any split of 0..LastBlock into consecutive reads reassembles the image |
| BlockIOSpec.StepKeeps | uefiboard/block_io_publish_tamago.go:170-319 | publish and unpublish keep handles and live structures in one-to-one correspondence, at most 4 |
| BlockIOSpec.RunsServe | uefiboard/block_io_publish_tamago.go:170-319 | over every run, a live id serves its image exactly until it is unpublished, and a stale id gets NOT_FOUND |
| BlockIOSpec.PublishedImageServed | uefiboard/block_io_publish_tamago.go:170-282 | publishing whole blocks with a free slot and the firmware's consent succeeds, and through any run that does not take it down every split of 0..LastBlock reads back exactly the bytes given to Publish |
| BlockIOSpec.PublishSucceedsExactly | uefiboard/block_io_publish_tamago.go:170-273 | publishing succeeds if and only if the image is whole blocks, at most three devices are live and the firmware consents; each error has its cause and changes nothing |
| BlockIOSpec.UnpublishSucceedsExactly | uefiboard/block_io_publish_tamago.go:288-319 | unpublishing succeeds if and only if the handle is mounted and the firmware consents, and frees one slot |
| BlockIOServers.BlockDevices.Lookup | uefiboard/block_io_publish_handlers.go:34-41 | finds the image of a live structure, and only that |
| BlockIOServers.BlockDevices.ReadBlocks | uefiboard/block_io_publish_handlers.go:76-107 | checks in order and copies exactly the requested bytes into the buffer |
| BlockIOServers.BlockDevices.Publish | uefiboard/block_io_publish_tamago.go:170-282 | is the Publish step, with LastBlock the number of blocks less one |
| BlockIOServers.BlockDevices.Unpublish | uefiboard/block_io_publish_tamago.go:288-319 | is the Unpublish step |
| MemoryMaps.ParseMemoryMap | uefiboard/memorymap.go:157-190 | one descriptor per stride; the bounds check inside the loop can never fail |
| MemoryMaps.ParsedCount | uefiboard/memorymap.go:157-176 | one descriptor for each whole stride, none for a rest, none at all for a stride below 40 bytes |
| MemoryMaps.DescriptorRoundTrip | uefiboard/memorymap.go:178-188 | the decoder recovers type, both addresses, pages and attribute from the layout of section 7.2.3 of UEFI 2.10, whatever the padding and what follows |
| MemoryMaps.ParsesFlat | uefiboard/memorymap.go:149-190 | a map of descriptors encoded in that layout, of any common size, parses into exactly those descriptors |
| MemoryMaps.GetMemoryMap | uefiboard/memorymap_tamago.go:56-132 | runs the probe and the retry loop, with at most five firmware calls, the panic on an empty buffer included |
| MemoryMaps.MapIsConsistent | uefiboard/memorymap_tamago.go:103-131 | against firmware following section 7.2.3 of UEFI 2.10, there is no panic and a returned map's descriptors, field by field, its key, stride and version are those the firmware had at the last call |
| MemoryMaps.SlackSuffices | uefiboard/memorymap_tamago.go:97-123 | if the map gains at most four descriptors after the probe, the first attempt succeeds |
| MemoryMaps.GivesUpExactly | uefiboard/memorymap_tamago.go:97-132 | with one descriptor size and no other failure, the protocol gives up if and only if the map gained more than four descriptors between each two consecutive calls; otherwise it returns a map |
| MemoryMaps.ResultSays | uefiboard/memorymap_tamago.go:81-132 | against any firmware: what a map, a failure or giving up says about the calls made, and 160 bytes of slack when the probe leaves the descriptor size 0 |
| Text.EncodeCmdline | uefiboard/load_options.go:122-154 | the rune loop computes the UTF-16 command line; its fallback branch is dead code |
| Text.CmdlineDecodes | uefiboard/load_options.go:107-154 | decoding by section 2.2 of RFC 2781 gives the text and one NUL; supplementary runes take two units; the terminator is the only NUL exactly when the text has none |
| Text.CmdlineInjective | uefiboard/load_options.go:107-154 | different command lines have different encodings |
| Clock.Nanotime | uefiboard/board_arm64.go:75-88 | computes the split conversion in 64-bit arithmetic, 0 for a zero frequency |
| Clock.NanotimeIsExact | uefiboard/board_arm64.go:81-87 | for every counter and non-zero 32-bit frequency whose result fits in int64, no intermediate overflows and the result is the exact quotient |
| Clock.NanotimeIsMonotone | uefiboard/board_arm64.go:75-88 | the clock never runs backwards |
| Bytes.PutLE64 | uefiboard/blkprintk.go:293-303 | stores the eight little-endian bytes and nothing else |
| Bytes.LERoundTrip | uefiboard/memorymap.go:192-201 | decoding the little-endian bytes of a number gives the number |
| Bytes.FromLERoundTrip | uefiboard/memorymap.go:192-201 | encoding a decoded byte string gives the bytes back |

## Left out

- DevicePaths.BuildThenCollect: says nothing of a walk that a cut node length leads out of the built path; what it collects there depends on memory the builder does not write, and `DevicePaths.CollectBuilt` says how.
- PackStub.ReadWhole: a file size reported by Stat that Go cannot allocate makes the client panic; the model allocates it and goes on to answer None or the bytes.
- EventLog.GetEventLog: a range below 2^63 bytes that Go cannot allocate panics; the model reads it.
- A published block image is a value; the code keeps the caller's slice, so a caller that goes on writing to it changes what is served.
- A WriteBlocks that fails halfway: a failed write is taken to leave the disk as it was.
- Assembly trampolines, efiCall, protocol structure layout, GUID tables and garbage-collector pinning; concurrency, since the code is single-threaded by design.
- The Write, SetInfo and Flush file calls and the Reset, WriteBlocks and FlushBlocks block calls: each is one registry lookup and a constant.
- The inode and mode fields of cached directory entries, which nothing reads.
- HandleProtocol lookups on the client's own image and everything after it has its bytes (section table, decompression, LoadImage).
- Allocation failures of non-empty buffers and sizes near 2^64 in buffer-size arithmetic of the memory-map protocol; the overflow of a menu timeout above 292 years.
- Rendering, bootEntry and busy waiting in the menu: dispatch is an event and time is an input.
- The probe drivers, the network, OCI and TLS stack, cosign verification, virtio drivers and the embedded tables.
- The xorshift random source and the other architectures' clocks.
