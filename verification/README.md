# OpenAFS Windows redirector: the name cache

This project models the name-cache core of the OpenAFS Windows redirector
(`src/WINNT/afsrdr/kernel/AFSGeneric.cpp`) in Dafny and proves properties
of the model. The redirector keeps the following in kernel memory:

- a volume tree, keyed by the high index of a FileId;
- for each volume root, a FileID tree and a flat list of cache nodes (Fcbs);
- for each directory, a list and two name trees of directory entries.

The model covers these parts of the core:

- **Tree keys.** `AFSCreateHighIndex` and `AFSCreateLowIndex` make the two tree keys of a FileId (module `FileIndex`).
- **Name hash.** `AFSBuildCRCTable` and `AFSGenerateCRC` compute the name hash, a reflected CRC-32 that reads the low byte of each UTF-16 code unit (module `Crc`). The table is a global array that is filled on first use.
- **Access check.** `AFSCheckForReadOnlyAccess` and `AFSCheckAccess` make the read-only access decision (module `Access`).
- **Driver status.** `AFSGetDriverStatus` (module `DriverState`).
- **Entry attributes.** `AFSInitDirEntry` decorates the attributes of a new entry, and `AFSEvaluateNode` refreshes them (module `DirEntries`).
- **Chain walks.** `AFSIsChildOfParent` climbs `ParentFcb` (module `ParentChain`). `AFSRetrieveTargetFID` follows link targets (module `TargetResolution`).
- **@sys names.** `AFSSetSysNameInformation`, `AFSResetSysNameList` and `AFSSubstituteSysName` handle the @sys name list (module `SysName`). `AFSSubstituteNameInPath` splices a component into a path (module `PathSubstitution`).
- **The cache object.** Module `NameCache`, class `Redirector`, covers:
  - `AFSInitDirEntry`, `AFSInitializeDirectory` and `AFSEvaluateNode` as methods that update the object;
  - `AFSInvalidateCache`, step by step.

Pointers become indices into arenas: an `FcbId` for an Fcb, a `DirId` for a directory entry.

`AFSInvalidateCache` is specified by value-level functions in module `CacheState`:

- `AfterInvalidation` describes the whole routine. `AfterLocated`, `Finished` and the `With…` functions describe its steps.
- A `Cache` value holds what invalidation changes. A `Layout` value holds what it only reads.
- The methods of `Redirector` are proved to leave the object as these functions say.
- The properties of invalidation are proved once, as lemmas about the functions.

Where the code and the specification of the system disagree, the model follows the code:

- The reference taken on the located node is given back on the node that invalidation moved to. For a symbolic link or mount point, that is its target.
- The located node itself is never marked `AFS_FCB_INVALID`.
- The scan of the flat Fcb list does not skip nodes that are already invalid.
- `AFSInitializeDirectory` copies the parent's last access time into the last write time of "." and "..".
- The case-insensitive trees are keyed by the hash of the upcased name.

Calls into code outside the core are handled in two ways:

- Calls whose answer matters are parameters: `AFSEvaluateTargetByID`, `AFSBuildTargetDirectory`, and the outcomes of pool allocations.
- The other calls are appended to a log of `Call` values: `AFSRemoveAFSRoot`, `AFSInitRootFcb`, `AFSFlushExtents` and `AFSTearDownFcbExtents`.

A NULL dereference on the DELETED path is the outcome `BugCheck`. `ASSERT` is a no-op, as in a free build.

## Model

| member | source | states |
|---|---|---|
| FileIndex.Pack | src/WINNT/afsrdr/kernel/AFSGeneric.cpp:1845-1865 | the first field lands in the upper 32 bits and the second in the lower 32; both read back from the key |
| FileIndex.PackOfSplit | src/WINNT/afsrdr/kernel/AFSGeneric.cpp:1845-1865 | every 64-bit key is the packing of its two halves, so packing is a bijection |
| FileIndex.HighIndexRoundTrip | src/WINNT/afsrdr/kernel/AFSGeneric.cpp:1845-1853 | splitting the high key gives back (cell, volume) |
| FileIndex.LowIndexRoundTrip | src/WINNT/afsrdr/kernel/AFSGeneric.cpp:1857-1865 | splitting the low key gives back (vnode, unique) |
| FileIndex.HighIndexInjective | src/WINNT/afsrdr/kernel/AFSGeneric.cpp:1845-1853 | two FileIds share a high key iff they have the same cell and volume |
| FileIndex.LowIndexInjective | src/WINNT/afsrdr/kernel/AFSGeneric.cpp:1857-1865 | two FileIds share a low key iff they have the same vnode and unique |
| Crc.NameHash | src/WINNT/afsrdr/kernel/AFSGeneric.cpp:265-317 | the empty name hashes to 0 |
| Crc.ComputeEntry | src/WINNT/afsrdr/kernel/AFSGeneric.cpp:228-262 | the inner loop's eight shift-and-xor steps compute table entry b |
| Crc.BuildCrcTable | src/WINNT/afsrdr/kernel/AFSGeneric.cpp:228-262 | every one of the 256 slots ends holding its table entry |
| Crc.FoldUnits | src/WINNT/afsrdr/kernel/AFSGeneric.cpp:296-306 | the table-driven loop computes the CRC fold of the units in order |
| Crc.CrcTable.constructor | src/WINNT/afsrdr/kernel/AFSGeneric.cpp:275-280 | the global table starts as 256 zero slots |
| Crc.CrcTable.GenerateCrc | src/WINNT/afsrdr/kernel/AFSGeneric.cpp:265-317 | the table is built when entry 1 is zero, stays built, and the result is the complemented fold of the name or of its upcased copy |
| Crc.StepReadsLowByte | src/WINNT/afsrdr/kernel/AFSGeneric.cpp:301-306 | one step of the fold reads only the low byte of the code unit |
| Crc.FoldReadsLowBytes | src/WINNT/afsrdr/kernel/AFSGeneric.cpp:301-306 | names that agree in the low byte of every unit fold to the same CRC |
| Crc.NameHashReadsLowBytes | src/WINNT/afsrdr/kernel/AFSGeneric.cpp:265-317 | so the hash depends only on the low byte of each unit |
| Crc.UpcasedHash | src/WINNT/afsrdr/kernel/AFSGeneric.cpp:282-292 | the case-insensitive hash is the case-sensitive hash of the upcased name |
| Crc.CaseInsensitiveHashAgrees | src/WINNT/afsrdr/kernel/AFSGeneric.cpp:282-292 | names equal up to letter case share their case-insensitive hash |
| Crc.TableEntryOne | src/WINNT/afsrdr/kernel/AFSGeneric.cpp:275 | entry 1 of a built table is 0x77073096, which is not zero, so testing it tells a built table from an empty one |
| Access.CheckForReadOnlyAccess | src/WINNT/afsrdr/kernel/AFSGeneric.cpp:1184-1233 | a request is read-only iff it holds none of DELETE, FILE_WRITE_DATA, FILE_DELETE_CHILD, FILE_APPEND_DATA |
| Access.CheckAccess | src/WINNT/afsrdr/kernel/AFSGeneric.cpp:1868-1887 | refused iff the request holds a write right and the grant holds none |
| Access.WriteRightsAreFour | src/WINNT/afsrdr/kernel/AFSGeneric.cpp:1184-1233 | the known rights outside the read-only set are exactly those four, and each alone is not read-only |
| Access.CheckAccessReflexive | src/WINNT/afsrdr/kernel/AFSGeneric.cpp:1868-1887 | a request is always allowed against an equal grant |
| Access.UnknownBitsIgnored | src/WINNT/afsrdr/kernel/AFSGeneric.cpp:1184-1233 | bits outside the known rights change neither verdict, on either side |
| Access.GenericWriteIgnored | src/WINNT/afsrdr/kernel/AFSGeneric.cpp:1184-1233 | GENERIC_WRITE does not make a request write-class |
| Access.ReadOnlyRequestAllowed | src/WINNT/afsrdr/kernel/AFSGeneric.cpp:1868-1887 | a read-only request is allowed whatever the grant |
| Access.LargerGrantStillAllows | src/WINNT/afsrdr/kernel/AFSGeneric.cpp:1868-1887 | adding rights to a grant never turns an allowed request into a refused one |
| Access.WriteDataAgainstDeleteAllowed | src/WINNT/afsrdr/kernel/AFSGeneric.cpp:1868-1887 | the check is not a subset test: FILE_WRITE_DATA against a grant of DELETE alone is allowed |
| Access.MetadataWritesCountAsReadOnly | src/WINNT/afsrdr/kernel/AFSGeneric.cpp:1184-1233 | WRITE_DAC, WRITE_OWNER, FILE_WRITE_EA and FILE_WRITE_ATTRIBUTES count as read-only |
| DriverState.GetDriverStatus | src/WINNT/afsrdr/kernel/AFSGeneric.cpp:1890-1924 | always STATUS_SUCCESS; NoService iff the pool is inactive, otherwise NotReady iff the global root is missing or not enumerated, otherwise Ready |
| DriverState.NoServiceTakesPrecedence | src/WINNT/afsrdr/kernel/AFSGeneric.cpp:1890-1924 | an inactive pool is reported whatever the root's state |
| ParentChain.IsChildOfParent | src/WINNT/afsrdr/kernel/AFSGeneric.cpp:1745-1767 | the walk up ParentFcb answers TRUE iff dcb is a strict ancestor of fcb |
| ParentChain.AncestorRankLower | src/WINNT/afsrdr/kernel/AFSGeneric.cpp:1745-1767 | an ancestor has a strictly smaller rank, so the walk ends |
| ParentChain.NotOwnAncestor | src/WINNT/afsrdr/kernel/AFSGeneric.cpp:1745-1767 | on an acyclic chain AFSIsChildOfParent(X, X) is FALSE |
| ParentChain.AncestorTransitive | src/WINNT/afsrdr/kernel/AFSGeneric.cpp:1745-1767 | the strict-ancestor relation is transitive |
| TargetResolution.StartFid | src/WINNT/afsrdr/kernel/AFSGeneric.cpp:1784-1800 | the walk starts at TargetFileId when its hash is set, else at FileId |
| TargetResolution.RetrieveTargetFid | src/WINNT/afsrdr/kernel/AFSGeneric.cpp:1770-1841 | the loop returns the FileId of the first directory reached and its status; on a failed evaluation it returns that status and leaves *FileId unwritten; it reports exhaustion exactly when the hop budget runs out |
| TargetResolution.ResolveStable | src/WINNT/afsrdr/kernel/AFSGeneric.cpp:1770-1841 | once the walk ends within a budget, any larger budget ends it the same way |
| TargetResolution.ResolvedIsEvaluatedDirectory | src/WINNT/afsrdr/kernel/AFSGeneric.cpp:1770-1841 | a resolved walk has a success status and ends on a FileId the server evaluated as a directory |
| TargetResolution.SelfTargetNeverResolves | src/WINNT/afsrdr/kernel/AFSGeneric.cpp:1770-1841 | a non-directory that targets itself never resolves: the source loop does not terminate |
| DirEntries.Decorated | src/WINNT/afsrdr/kernel/AFSGeneric.cpp:1049-1094 | type 0 becomes a directory; directories and symbolic links gain DIRECTORY; mount points gain REPARSE_POINT and DIRECTORY; other bits and fields are kept |
| DirEntries.InitialFlags | src/WINNT/afsrdr/kernel/AFSGeneric.cpp:1073-1083 | a new entry is NOT_EVALUATED iff its type was unknown |
| DirEntries.DecorationIdempotent | src/WINNT/afsrdr/kernel/AFSGeneric.cpp:1073-1094 | decorating twice is decorating once |
| DirEntries.DecorationOnlyAddsBits | src/WINNT/afsrdr/kernel/AFSGeneric.cpp:1063-1094 | decoration keeps every original attribute bit and never yields the unknown type |
| DirEntries.MountPointTarget | src/WINNT/afsrdr/kernel/AFSGeneric.cpp:1100-1126 | only a mount point with no target hash is evaluated; a failed evaluation fails the entry; a returned target hash replaces the target |
| DirEntries.KnownTargetIgnoresEvaluation | src/WINNT/afsrdr/kernel/AFSGeneric.cpp:1100-1126 | with a target hash already set, the evaluation's answer does not matter |
| DirEntries.NewEntryProperties | src/WINNT/afsrdr/kernel/AFSGeneric.cpp:999-1126 | a new entry is unbound, decorated and carries the resolved target; its case-insensitive key is the hash of the upcased name; an empty name has key 0 in both trees |
| DirEntries.RefreshedAttributesOnlyAdd | src/WINNT/afsrdr/kernel/AFSGeneric.cpp:1275-1295 | refreshing keeps every reported bit; directories and links get DIRECTORY, mount points get REPARSE_POINT |
| DirEntries.Refreshed | src/WINNT/afsrdr/kernel/AFSGeneric.cpp:1236-1307 | a failed evaluation, or one of type 0, gives OBJECT_NAME_NOT_FOUND and leaves the record alone; otherwise every field but FileId comes from the evaluation, with the attributes refreshed |
| DirEntries.RefreshIdempotent | src/WINNT/afsrdr/kernel/AFSGeneric.cpp:1236-1307 | applying the same evaluation again changes nothing more |
| DirEntries.MountPointDecorationsDiffer | src/WINNT/afsrdr/kernel/AFSGeneric.cpp:1281-1295 | a mount point gains DIRECTORY when its entry is built but not when it is refreshed; it gains REPARSE_POINT both times |
| SysName.Stored | src/WINNT/afsrdr/kernel/AFSGeneric.cpp:2015-2030 | the USHORT length cast keeps the first (length mod 32768) units, so a name under 32768 units is stored whole |
| SysName.StoredList | src/WINNT/afsrdr/kernel/AFSGeneric.cpp:1993-2044 | the built list has one node per name, in order |
| SysName.FirstAt | src/WINNT/afsrdr/kernel/AFSGeneric.cpp:2170-2176 | the scan stops at the first '@' |
| SysName.SysNameLists.ResetSysNameList | src/WINNT/afsrdr/kernel/AFSGeneric.cpp:2057-2073 | every node is released and the list is empty |
| SysName.SysNameLists.SetSysNameInformation | src/WINNT/afsrdr/kernel/AFSGeneric.cpp:1927-2054 | a 64-bit notification gives INVALID_PARAMETER and leaves the list alone; an allocation failure gives INSUFFICIENT_RESOURCES and an empty list; otherwise the list is the given names, stored, in order |
| SysName.SysNameLists.SubstituteSysName | src/WINNT/afsrdr/kernel/AFSGeneric.cpp:2076-2206 | entry max(StringIndex, 1) or OBJECT_NAME_NOT_FOUND; a substitute whose byte length would not fit the USHORT Length, or a failed allocation, gives INSUFFICIENT_RESOURCES; otherwise "@SYS" in any case becomes the name, any other component becomes its prefix before '@' followed by the name, and the result fits a USHORT |
| SysName.SubstituteSysNameAsWritten | src/WINNT/afsrdr/kernel/AFSGeneric.cpp:2168-2197 | the source's arithmetic: it substitutes exactly when the allocation succeeds and the byte length fits a USHORT, and otherwise, after a successful allocation, the copies overrun the buffer |
| SysName.SubstituteLengthWraps | src/WINNT/afsrdr/kernel/AFSGeneric.cpp:2178-2197 | a stored 32767-unit name after the prefix of "a@sys" gives a Length of 0 and overruns; the corrected routine refuses it |
| SysName.StoredListRoundTrip | src/WINNT/afsrdr/kernel/AFSGeneric.cpp:1993-2044 | names short enough for a USHORT length read back as given |
| SysName.LongNameTruncated | src/WINNT/afsrdr/kernel/AFSGeneric.cpp:2021 | a name of 32768 units is stored as the empty name |
| SysName.AtSysCaseAgreesWithGeneralRule | src/WINNT/afsrdr/kernel/AFSGeneric.cpp:2139-2198 | for "@sys" itself the general rule gives the same result as the special case |
| SysName.AnyCaseOfAtSysReplacedWhole | src/WINNT/afsrdr/kernel/AFSGeneric.cpp:2139-2150 | "@sys" and "@SyS" are both replaced whole |
| PathSubstitution.Spliced | src/WINNT/afsrdr/kernel/AFSGeneric.cpp:2280-2294 | the prefix, then the substitute, then the suffix after the component |
| PathSubstitution.SubstituteNameInPath | src/WINNT/afsrdr/kernel/AFSGeneric.cpp:2209-2310 | in place iff the new length fits below MaximumLength; either buffer holds the splice; new Length = Length − component + substitute; a new buffer is larger than the old one and holds the name; it fails only on allocation failure or USHORT overflow |
| PathSubstitution.SubstituteBack | src/WINNT/afsrdr/kernel/AFSGeneric.cpp:2209-2310 | putting the original component back restores the path |
| PathSubstitution.SelfSubstitutionKeepsText | src/WINNT/afsrdr/kernel/AFSGeneric.cpp:2209-2310 | replacing a component by itself leaves the text and length unchanged |
| PathSubstitution.Moved | src/WINNT/afsrdr/kernel/AFSGeneric.cpp:2237-2240 | after the move, the destination range holds the source range |
| PathSubstitution.SubstituteNameInPathAsWritten | src/WINNT/afsrdr/kernel/AFSGeneric.cpp:2209-2310 | the source's arithmetic: the in-place result keeps the buffer size, and a new buffer gets (MaximumLength + PAGE_SIZE) mod 65536 bytes |
| PathSubstitution.InPlaceMisplacesSubstitute | src/WINNT/afsrdr/kernel/AFSGeneric.cpp:2234-2244 | in place, "@sys" becomes "@x…" rather than "xy" |
| PathSubstitution.ReallocationSmallerThanName | src/WINNT/afsrdr/kernel/AFSGeneric.cpp:2261-2294 | a new buffer can be smaller than the new name |
| PathSubstitution.ReallocationSizeWraps | src/WINNT/afsrdr/kernel/AFSGeneric.cpp:2261 | near the USHORT limit the new MaximumLength wraps and the copy overruns |
| CacheState.Without | src/WINNT/afsrdr/kernel/AFSGeneric.cpp:1561-1570 | the list without e keeps every other element and is shorter when e was there |
| CacheState.RemovedFrom | src/WINNT/afsrdr/kernel/AFSGeneric.cpp:1561-1570 | the entry leaves the directory's list and both name trees; nothing else does |
| CacheState.Unbound | src/WINNT/afsrdr/kernel/AFSGeneric.cpp:1539-1545 | the entry loses its node and gains RELEASE_DIRECTORY_NODE; its record and name are kept |
| CacheState.WithExtentsCancelled | src/WINNT/afsrdr/kernel/AFSGeneric.cpp:1509-1521 | the node's ExtentsRequestStatus is CANCELLED and its event signalled; nothing else changes |
| CacheState.WithExtentsFlushed | src/WINNT/afsrdr/kernel/AFSGeneric.cpp:1656-1679 | extents are cancelled first, then flush and teardown are logged with the CANCELLED status |
| CacheState.WithNodeInvalidated | src/WINNT/afsrdr/kernel/AFSGeneric.cpp:1628-1643 | the node is INVALID, has INSERTED_ID_TREE clear, and its key is gone from its root's FileID tree; other nodes' state and other trees are unchanged |
| CacheState.InvalidatedInNoTree | src/WINNT/afsrdr/kernel/AFSGeneric.cpp:1547-1557 | where every FileID tree holds each node under its own key in its own volume, an invalidated node is in no FileID tree |
| CacheState.NodeInvalidatedDropsOnlyIt | src/WINNT/afsrdr/kernel/AFSGeneric.cpp:1628-1643 | when no other node of the volume shares its key, AFSRemoveHashEntry on the node's TreeEntry drops that node's mapping and keeps every other node's |
| CacheState.WithDescendantInvalidated | src/WINNT/afsrdr/kernel/AFSGeneric.cpp:1607-1643 | the descendant ends invalidated and, if it is a file, cancelled |
| CacheState.WithNodeReleased | src/WINNT/afsrdr/kernel/AFSGeneric.cpp:1497-1559 | the bound node ends invalidated and cancelled; its entry is unbound; only cancelled-extents calls are logged |
| CacheState.BoundNode | src/WINNT/afsrdr/kernel/AFSGeneric.cpp:1494-1497 | the node an entry points at, when the entry has one in the arena |
| CacheState.WithChildPurged | src/WINNT/afsrdr/kernel/AFSGeneric.cpp:1492-1580 | the entry leaves the list; other directories, the entry ids, the reference counts and the targets are unchanged |
| CacheState.WithListPurged | src/WINNT/afsrdr/kernel/AFSGeneric.cpp:1487-1582 | the purge loop ends with an empty list, touching no other directory |
| CacheState.WithDirectoryPurged | src/WINNT/afsrdr/kernel/AFSGeneric.cpp:1480-1588 | the directory ends with no list and no tree entries, and DIRECTORY_ENUMERATED clear |
| CacheState.WithDescendantsInvalidated | src/WINNT/afsrdr/kernel/AFSGeneric.cpp:1591-1651 | the scan changes no entry, directory, log, reference count or target |
| CacheState.ChildPurgedKeeps | src/WINNT/afsrdr/kernel/AFSGeneric.cpp:1492-1580 | a turn of the purge loop undoes no invalidation or cancellation |
| CacheState.ChildPurgedKeepsLinked | src/WINNT/afsrdr/kernel/AFSGeneric.cpp:1492-1580 | a turn keeps entries and nodes pointing at each other and lists inside the arena |
| CacheState.ChildPurgedLeavesOther | src/WINNT/afsrdr/kernel/AFSGeneric.cpp:1492-1580 | a turn on an entry not bound to g leaves g's state alone |
| CacheState.ChildPurgedBindsNothing | src/WINNT/afsrdr/kernel/AFSGeneric.cpp:1492-1580 | a turn binds no entry to a new node |
| CacheState.ChildPurgedOnlyShrinks | src/WINNT/afsrdr/kernel/AFSGeneric.cpp:1492-1580 | a turn only adds entry flags and only removes tree keys |
| CacheState.ListPurgeKeeps | src/WINNT/afsrdr/kernel/AFSGeneric.cpp:1487-1582 | invalidation and cancellation survive the rest of the loop |
| CacheState.ListPurgeReleasesChildren | src/WINNT/afsrdr/kernel/AFSGeneric.cpp:1487-1582 | every node bound to an entry of the list ends invalidated, and cancelled if it is a file |
| CacheState.ListPurgeLogsCancelledCalls | src/WINNT/afsrdr/kernel/AFSGeneric.cpp:1505-1532 | every call the loop makes is a flush or teardown of extents already cancelled |
| CacheState.ListPurgeLeavesOthers | src/WINNT/afsrdr/kernel/AFSGeneric.cpp:1487-1582 | a node bound to no entry of the list keeps its flags and extent state |
| CacheState.ListPurgeKeepsLinked | src/WINNT/afsrdr/kernel/AFSGeneric.cpp:1487-1582 | the loop keeps entries and nodes linked and lists inside the arena |
| CacheState.ListPurgeOnlyShrinks | src/WINNT/afsrdr/kernel/AFSGeneric.cpp:1487-1582 | the loop only adds entry flags, keeps records, and only removes tree keys |
| CacheState.DescendantsKeep | src/WINNT/afsrdr/kernel/AFSGeneric.cpp:1591-1651 | invalidation and cancellation survive the rest of the scan |
| CacheState.DescendantsInvalidated | src/WINNT/afsrdr/kernel/AFSGeneric.cpp:1591-1651 | every listed node of which t is a strict ancestor ends invalidated, and cancelled if it is a file |
| CacheState.DescendantsLeaveOthers | src/WINNT/afsrdr/kernel/AFSGeneric.cpp:1591-1651 | any other node keeps its flags and extent state |
| CacheState.DescendantsShrinkTrees | src/WINNT/afsrdr/kernel/AFSGeneric.cpp:1591-1651 | the scan only removes FileID-tree keys |
| CacheState.Referenced | src/WINNT/afsrdr/kernel/AFSGeneric.cpp:1379 | one more open reference on f, none elsewhere |
| CacheState.Dereferenced | src/WINNT/afsrdr/kernel/AFSGeneric.cpp:1734-1738 | one open reference fewer on f, none elsewhere |
| CacheState.WithDetached | src/WINNT/afsrdr/kernel/AFSGeneric.cpp:1693-1720 | faults iff the entry is not yet released and the node has no parent; otherwise the entry is marked and absent from the parent's list, other directories are unchanged, and flags only grow; an already released entry changes nothing |
| CacheState.WithTypeInvalidated | src/WINNT/afsrdr/kernel/AFSGeneric.cpp:1477-1680 | the type step keeps the entry ids, reference counts and targets |
| CacheState.WithDeletedInvalidated | src/WINNT/afsrdr/kernel/AFSGeneric.cpp:1469-1722 | the DELETED case keeps the entry ids, reference counts and targets |
| CacheState.Locate | src/WINNT/afsrdr/kernel/AFSGeneric.cpp:1339-1387 | a node is found iff the high key is in the volume tree and the low key is in that root's FileID tree; the node found belongs to that volume and carries the low key |
| CacheState.Redirect | src/WINNT/afsrdr/kernel/AFSGeneric.cpp:1397-1461 | the target is in the arena; the status is a success; only targets and the log may change; a set TargetFcb is not changed |
| CacheState.Marked | src/WINNT/afsrdr/kernel/AFSGeneric.cpp:1376-1394 | one more reference on n; n's entry gains NOT_EVALUATED; entries only gain flags |
| CacheState.AfterInvalidation | src/WINNT/afsrdr/kernel/AFSGeneric.cpp:1310-1742 | WholeVolume only logs AFSRemoveAFSRoot; a missing volume or node gives UNSUCCESSFUL and changes nothing; only DELETED can fault; the entry ids are kept |
| CacheState.AfterLocated | src/WINNT/afsrdr/kernel/AFSGeneric.cpp:1376-1742 | only DELETED can fault, and a return keeps the entry ids |
| CacheState.Finished | src/WINNT/afsrdr/kernel/AFSGeneric.cpp:1463-1738 | only DELETED can fault, and a return keeps the entry ids |
| CacheState.DirectoryCaseUnfolds | src/WINNT/afsrdr/kernel/AFSGeneric.cpp:1477-1653 | a deleted directory is purged, then the flat list is scanned, then the entry is detached |
| CacheState.DeletedDirectoryEmptied | src/WINNT/afsrdr/kernel/AFSGeneric.cpp:1480-1588 | a deleted directory ends with no list, empty name trees and DIRECTORY_ENUMERATED clear |
| CacheState.DeletedDirectoryInvalidatesChildren | src/WINNT/afsrdr/kernel/AFSGeneric.cpp:1492-1559 | every node bound to an entry of the directory ends invalidated, and cancelled if it is a file |
| CacheState.DeletedDirectoryInvalidatesDescendants | src/WINNT/afsrdr/kernel/AFSGeneric.cpp:1591-1651 | every node of the volume's Fcb list below the directory ends invalidated, and cancelled if it is a file |
| CacheState.DeletedFileCancelledThenFlushed | src/WINNT/afsrdr/kernel/AFSGeneric.cpp:1656-1679 | a deleted file is cancelled before it is flushed and torn down, and both calls see CANCELLED |
| CacheState.DeletedCallsCancelled | src/WINNT/afsrdr/kernel/AFSGeneric.cpp:1469-1722 | the DELETED case only calls out to flush and tear down cancelled extents |
| CacheState.DirectoryPurgedKeeps | src/WINNT/afsrdr/kernel/AFSGeneric.cpp:1583-1588 | clearing the heads and the ENUMERATED flag keeps invalidation and cancellation |
| CacheState.DirectoryPurgedKeepsWellFormed | src/WINNT/afsrdr/kernel/AFSGeneric.cpp:1480-1588 | the purge keeps the cache well formed and only adds entry flags |
| CacheState.DescendantsKeepWellFormed | src/WINNT/afsrdr/kernel/AFSGeneric.cpp:1591-1651 | the scan keeps the cache well formed and the entries' flags |
| CacheState.DirectoryCaseKeepsWellFormed | src/WINNT/afsrdr/kernel/AFSGeneric.cpp:1477-1653 | purge and scan together keep the cache well formed |
| CacheState.DetachKeepsWellFormed | src/WINNT/afsrdr/kernel/AFSGeneric.cpp:1693-1720 | detaching keeps the cache well formed and only adds a flag |
| CacheState.DeletedKeepsWellFormed | src/WINNT/afsrdr/kernel/AFSGeneric.cpp:1469-1722 | the DELETED case keeps the cache well formed, only adds entry flags, and leaves the entry released |
| CacheState.DetachOnce | src/WINNT/afsrdr/kernel/AFSGeneric.cpp:1697-1715 | a second detach changes nothing: the entry leaves its parent at most once |
| CacheState.MarkedKeepsWellFormed | src/WINNT/afsrdr/kernel/AFSGeneric.cpp:1376-1394 | marking keeps the cache well formed |
| CacheState.RedirectKeepsWellFormed | src/WINNT/afsrdr/kernel/AFSGeneric.cpp:1397-1461 | following the link keeps the cache well formed |
| CacheState.FinishedKeepsWellFormed | src/WINNT/afsrdr/kernel/AFSGeneric.cpp:1463-1738 | the rest of the routine keeps the cache well formed |
| CacheState.FinishedKeepsFlags | src/WINNT/afsrdr/kernel/AFSGeneric.cpp:1463-1738 | the rest of the routine only adds entry flags |
| CacheState.FinishedCalls | src/WINNT/afsrdr/kernel/AFSGeneric.cpp:1463-1738 | the rest of the routine only logs cancelled-extents calls |
| CacheState.FinishedRefs | src/WINNT/afsrdr/kernel/AFSGeneric.cpp:1734-1738 | on return, exactly one reference is given back, on the target |
| CacheState.FinishedOtherReason | src/WINNT/afsrdr/kernel/AFSGeneric.cpp:1463-1742 | any reason but DELETED returns the status and leaves entries, lists, trees and extent state alone |
| CacheState.LocatedUnfolds | src/WINNT/afsrdr/kernel/AFSGeneric.cpp:1400-1421 | a failed build returns its status with the reference given back; otherwise the routine goes on at the target |
| CacheState.LocatedKeepsWellFormed | src/WINNT/afsrdr/kernel/AFSGeneric.cpp:1376-1742 | the located path keeps the cache well formed, returning or faulting |
| CacheState.InvalidationKeepsWellFormed | src/WINNT/afsrdr/kernel/AFSGeneric.cpp:1310-1742 | AFSInvalidateCache leaves a well-formed cache well formed |
| CacheState.PlainLocated | src/WINNT/afsrdr/kernel/AFSGeneric.cpp:1397-1461 | a node that is neither a link nor a mount point is its own target, and nothing is built |
| CacheState.LinkLocated | src/WINNT/afsrdr/kernel/AFSGeneric.cpp:1400-1461 | a link or mount point with TargetFcb set goes straight to it |
| CacheState.InvalidationMarksNotEvaluated | src/WINNT/afsrdr/kernel/AFSGeneric.cpp:1391-1394 | unless the call faults, the located node's entry ends NOT_EVALUATED |
| CacheState.OtherReasonLeavesStructure | src/WINNT/afsrdr/kernel/AFSGeneric.cpp:1463-1742 | a reason other than DELETED never faults and changes no list, tree, extent state or entry id |
| CacheState.PlainNodeRefsBalanced | src/WINNT/afsrdr/kernel/AFSGeneric.cpp:1376-1738 | for a plain node every open reference count ends as it began |
| CacheState.LinkReferenceMovesToTarget | src/WINNT/afsrdr/kernel/AFSGeneric.cpp:1376-1738 | for a link with TargetFcb set, the link's count ends one higher and the target's one lower |
| CacheState.UnresolvedMountPointFaults | src/WINNT/afsrdr/kernel/AFSGeneric.cpp:1431-1480 | a DELETED mount point with no TargetFcb and an unknown target volume dereferences NULL |
| CacheState.DeletedDirectoryLocated | src/WINNT/afsrdr/kernel/AFSGeneric.cpp:1469-1653 | a located directory reported DELETED ends emptied, with every node below it on the Fcb list invalidated and cancelled |
| CacheState.LocatedCalls | src/WINNT/afsrdr/kernel/AFSGeneric.cpp:1376-1742 | the only calls are one AFSBuildTargetDirectory for the located node, first, then flushes and teardowns of cancelled extents |
| CacheState.RedirectedCalls | src/WINNT/afsrdr/kernel/AFSGeneric.cpp:1397-1742 | the same, once the build has not failed |
| NameCache.DotEntryInfo | src/WINNT/afsrdr/kernel/AFSGeneric.cpp:790-800 | a zeroed record with type 0, the DIRECTORY attribute, and the parent's creation and access times; its last write time is the parent's last access time |
| NameCache.DotEntry | src/WINNT/afsrdr/kernel/AFSGeneric.cpp:790-872 | "." and ".." are unbound directories flagged NOT_EVALUATED and NOT_IN_PARENT_TREE, with the parent's FileId as ParentId |
| NameCache.EvaluateMountPointTarget | src/WINNT/afsrdr/kernel/AFSGeneric.cpp:1100-1126 | computes MountPointTarget |
| NameCache.Redirector.RootCalls | src/WINNT/afsrdr/kernel/AFSGeneric.cpp:1130-1152 | AFSInitRootFcb is called iff the entry is a mount point whose target volume is not in the volume tree |
| NameCache.Redirector.InitDirEntry | src/WINNT/afsrdr/kernel/AFSGeneric.cpp:921-1181 | fails iff an allocation or the mount-point evaluation fails, and then leaves entries, the next id and the memory level unchanged; otherwise the next id holds the new entry and the level grows by its length |
| NameCache.Redirector.AddDotEntry | src/WINNT/afsrdr/kernel/AFSGeneric.cpp:802-835 | adds a DotEntry under the next id iff both allocations succeed |
| NameCache.Redirector.InitializeDirectory | src/WINNT/afsrdr/kernel/AFSGeneric.cpp:767-898 | success iff all five allocations succeed, and then the list is exactly [".", ".."] with FileIndex −1 and −2 under the next two ids; on failure INSUFFICIENT_RESOURCES, an empty list, and the arena gains only a "." already built; no other directory changes; a "." already built stays counted in the memory level; a well-formed cache stays well formed |
| NameCache.EntriesAddedKeepsWellFormed | src/WINNT/afsrdr/kernel/AFSGeneric.cpp:921-1181 | adding entries bound to no node, and pointing one list at entries of the arena, keeps the cache well formed |
| NameCache.DotEntriesKeepWellFormed | src/WINNT/afsrdr/kernel/AFSGeneric.cpp:767-898 | what AFSInitializeDirectory does, on success or failure, keeps the cache well formed |
| NameCache.Redirector.EvaluateNode | src/WINNT/afsrdr/kernel/AFSGeneric.cpp:1236-1307 | the node's entry becomes Refreshed and the status is Refreshed's |
| NameCache.Redirector.CancelExtents | src/WINNT/afsrdr/kernel/AFSGeneric.cpp:1509-1521 | the object becomes WithExtentsCancelled |
| NameCache.Redirector.CancelAndFlushExtents | src/WINNT/afsrdr/kernel/AFSGeneric.cpp:1656-1679 | the object becomes WithExtentsFlushed |
| NameCache.Redirector.MarkInvalid | src/WINNT/afsrdr/kernel/AFSGeneric.cpp:1628-1643 | the object becomes WithNodeInvalidated |
| NameCache.Redirector.ReleaseNode | src/WINNT/afsrdr/kernel/AFSGeneric.cpp:1497-1559 | the object becomes WithNodeReleased |
| NameCache.Redirector.RemoveDirNode | src/WINNT/afsrdr/kernel/AFSGeneric.cpp:1561-1570 | only the directory changes, to RemovedFrom |
| NameCache.Redirector.PurgeChild | src/WINNT/afsrdr/kernel/AFSGeneric.cpp:1492-1580 | the object becomes WithChildPurged |
| NameCache.Redirector.PurgeDirectory | src/WINNT/afsrdr/kernel/AFSGeneric.cpp:1480-1588 | the loop leaves the object as WithDirectoryPurged |
| NameCache.Redirector.InvalidateDescendants | src/WINNT/afsrdr/kernel/AFSGeneric.cpp:1591-1651 | the loop over the flat list leaves the object as WithDescendantsInvalidated |
| NameCache.Redirector.Detach | src/WINNT/afsrdr/kernel/AFSGeneric.cpp:1693-1720 | fails exactly when WithDetached faults, and otherwise leaves the object as WithDetached |
| NameCache.Redirector.InvalidateByType | src/WINNT/afsrdr/kernel/AFSGeneric.cpp:1477-1680 | the object becomes WithTypeInvalidated |
| NameCache.Redirector.InvalidateDeleted | src/WINNT/afsrdr/kernel/AFSGeneric.cpp:1469-1722 | fails exactly when WithDeletedInvalidated faults, and otherwise leaves the object as it says |
| NameCache.Redirector.MarkLocated | src/WINNT/afsrdr/kernel/AFSGeneric.cpp:1376-1394 | the object becomes Marked |
| NameCache.Redirector.FollowLink | src/WINNT/afsrdr/kernel/AFSGeneric.cpp:1397-1461 | fails exactly on BuildFails, giving the reference back; otherwise agrees with Redirect |
| NameCache.Redirector.Finish | src/WINNT/afsrdr/kernel/AFSGeneric.cpp:1463-1738 | the outcome and, on return, the object are those of Finished |
| NameCache.Redirector.InvalidateLocated | src/WINNT/afsrdr/kernel/AFSGeneric.cpp:1376-1742 | the outcome and, on return, the object are those of the located path |
| NameCache.Redirector.InvalidateCache | src/WINNT/afsrdr/kernel/AFSGeneric.cpp:1310-1742 | the outcome and, on return, the object are those of AfterInvalidation |
| NameCache.InitDirEntryLevelAsWritten | src/WINNT/afsrdr/kernel/AFSGeneric.cpp:957-1176 | the source's accounting: a failed paged allocation changes nothing; with both blocks, the level grows by the length on success and is restored on a failed evaluation |
| NameCache.NonPagedFailureReleasesTwice | src/WINNT/afsrdr/kernel/AFSGeneric.cpp:966-1176 | a failed non-paged allocation leaves the level below where it started |

## Left out

- Locks, critical regions and interlocked operations are plain sequential updates. Lock ordering and the unmatched release on the failed-build path of `AFSInvalidateCache` are not modelled.
- The code outside the core (AFSRemoveAFSRoot, AFSInitRootFcb, AFSFlushExtents, AFSTearDownFcbExtents, AFSBuildTargetDirectory, AFSEvaluateTargetByID, pool allocation) is a parameter or a logged call.
- `RtlUpcaseUnicodeString` is modelled as upcasing ASCII letters only. Full Unicode case mapping is not part of this model.
- Building the node arena, the ParentFcb pointers, the flat Fcb lists and the volume tree (AFSInitFcb, AFSInitRootFcb, tree inserts) is not part of this model. These are constants of the `Redirector` object; its constructor takes any well-formed state.
- Directory lists are sequences. The doubly linked `ListEntry` pointers and `DirectoryNodeListTail` are not modelled, so the tail left set by the purge is not captured.
- Freeing memory is not modelled. This covers the entries of a purged directory, the sysname nodes, and the buffers freed through `FreePathName`.
- `AFSAllocationMemoryLevel` is modelled only for `AFSInitDirEntry` and `AFSInitializeDirectory`.
- The `_WIN64` branch of `AFSSubstituteSysName`, and the 64-bit list of `AFSSetSysNameInformation`, are not modelled. The model is the 32-bit build.
- TargetResolution.RetrieveTargetFid: the source loop has no bound. The model takes a hop budget and reports when it runs out, so walks longer than the budget are not described.
- NameCache.Redirector.InvalidateCache: the method states its result against `AfterInvalidation`. It does not state `Valid()` after the call; that is `CacheState.InvalidationKeepsWellFormed`, a lemma about the function. The state after a `BugCheck` is not described.
- PathSubstitution.SubstituteNameInPath: the intended routine refuses a name whose byte length exceeds a USHORT, and caps the new MaximumLength at 65535. The source does neither (see Findings).
- SysName.SysNameLists.SubstituteSysName: the intended routine refuses a substitute whose byte length exceeds a USHORT. The source does not (see Findings).
- CacheState.NodeInvalidatedDropsOnlyIt: it takes as a hypothesis that no two nodes of a volume share a low index (`KeyOwnedBy`). That holds because distinct FileIds have distinct low indices, but building the tree is not part of this model, so well-formedness does not include it.
- The path of `AFSInvalidateCache` where the located node's DirEntry is NULL is not modelled; every node has its entry.
- `AFSInitNonPagedDirEntry`, the registry readers, the request plumbing and the other kernel routines of the file are not part of this model.

## Findings

| source | as written | input that shows it | evidently intended | confidence | as-written member | corrected member |
|---|---|---|---|---|---|---|
| src/WINNT/afsrdr/kernel/AFSGeneric.cpp:2178-2197 | SubstituteName->Length is a USHORT holding the prefix length plus the name's length; the buffer is allocated with that Length and both copies are made in full | a list name of 32767 units and the component "a@sys": 2 + 65534 bytes wrap to a Length of 0, and 65536 bytes are copied | a substitute that does not fit a USHORT is refused | not executed | SysName.SubstituteLengthWraps | SysName.SysNameLists.SubstituteSysName |
| src/WINNT/afsrdr/kernel/AFSGeneric.cpp:2234-2244 | in place, the prefix length is used as a byte count without doubling, and one unit is added to every index | "@sys" at the start of a buffer with room, substitute "xy": the text reads "@x" | the substitute written at the component's offset | not executed | PathSubstitution.InPlaceMisplacesSubstitute | PathSubstitution.SubstituteNameInPath |
| src/WINNT/afsrdr/kernel/AFSGeneric.cpp:2261-2294 | the new buffer is MaximumLength + PAGE_SIZE, whatever the new length | a 100-unit path whose 4-unit component becomes 2100 units needs 4392 bytes but gets 4296 | a new buffer at least as large as the new name | not executed | PathSubstitution.ReallocationSmallerThanName | PathSubstitution.SubstituteNameInPath |
| src/WINNT/afsrdr/kernel/AFSGeneric.cpp:2261 | the new MaximumLength is cast to USHORT | MaximumLength 62000 grows to 560, and a 62990-byte name is copied into it | a size that does not wrap | not executed | PathSubstitution.ReallocationSizeWraps | PathSubstitution.SubstituteNameInPath |
| src/WINNT/afsrdr/kernel/AFSGeneric.cpp:966-1176 | when the non-paged allocation fails, the paged block is freed and its length taken off, but the pointer stays set, so the exit frees it and takes the length off again | pagedOk and not nonPagedOk, entry length 100: the level ends 100 below where it started | the level is restored once | not executed | NameCache.NonPagedFailureReleasesTwice | NameCache.Redirector.InitDirEntry |
