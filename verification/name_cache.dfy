/**
  The redirector's name cache as one object: the volume tree, each volume
  root's FileID tree and flat list of cache nodes (Fcbs), each directory's
  list and name trees of entries, and the flags and counters the source
  updates in place. Fcbs and directory entries live in arenas indexed by
  FcbId and DirId; every pointer of the source is one of these indices.

  Calls into code that is not part of this model (AFSRemoveAFSRoot,
  AFSInitRootFcb, AFSFlushExtents, AFSTearDownFcbExtents) are appended to a
  log; AFSEvaluateTargetByID and AFSBuildTargetDirectory are parameters
  giving their answers.

  The invalidation methods are proved to leave the object as the functions
  of CacheState say, on the Snapshot of the fields they change and the
  Layout of those they only read.
*/
module NameCache {
  import opened Types
  import FileIndex
  import opened DirEntries
  import ParentChain
  import opened CacheState

  /** The enumeration record AFSInitializeDirectory gives "." and "..": a zeroed record with the parent's times. */
  function DotEntryInfo(p: ObjectInfo): (info: ObjectInfo)
    ensures info.fileType == FileTypeUnknown && info.fileAttributes == FileAttributeDirectory
    ensures info.creationTime == p.creationTime && info.lastAccessTime == p.lastAccessTime
    ensures info.lastWriteTime == p.lastAccessTime
  {
    ZeroInfo.(creationTime := p.creationTime, lastAccessTime := p.lastAccessTime,
              lastWriteTime := p.lastAccessTime, fileAttributes := FileAttributeDirectory)
  }

  /**
    The "." or ".." entry AFSInitializeDirectory builds from p, the record of
    the directory's parent: a directory of unknown type that still needs
    evaluation, is never entered in the parent's name trees, carries the
    parent's FileId as ParentId and the parent's last access time as its
    last write time.
  */
  function DotEntry(p: ObjectInfo, name: Name, index: bv32): (e: DirEntry)
    ensures e.flags == {NotEvaluated, NotInParentTree} && e.fcb.None?
    ensures e.fileName == name && e.targetName == [] && e.fileIndex == index && e.parentId == p.fileId
    ensures e.info.fileType == FileTypeDirectory && e.info.fileAttributes == FileAttributeDirectory
    ensures e.info.creationTime == p.creationTime && e.info.lastAccessTime == p.lastAccessTime
    ensures e.info.lastWriteTime == p.lastAccessTime
  {
    var e := NewEntry(p.fileId, name, [], DotEntryInfo(p), index, ZeroFileId);
    e.(flags := e.flags + {NotInParentTree})
  }

  /** An evaluation that is never consulted ("." and ".." are never mount points). */
  const NoEvaluation := EvalResult(StatusUnsuccessful, ZeroInfo)

  /**
    The mount-point step of AFSInitDirEntry: a mount point whose record has
    no target identifier asks the evaluator for one, and fails when the
    evaluation fails.
  */
  method EvaluateMountPointTarget(info: ObjectInfo, evaluation: EvalResult) returns (target: Option<FileId>)
    ensures target == MountPointTarget(info, evaluation)
  {
    target := Some(info.targetFileId);
    if info.fileType == FileTypeMountPoint && info.targetFileId.hash == 0 {
      var r := evaluation;
      if !NtSuccess(r.status) {
        target := None;
      } else if r.info.targetFileId.hash != 0 {
        target := Some(r.info.targetFileId);
      }
    }
  }

  /** after keeps every entry of before, and every entry it adds is bound to no cache node. */
  ghost predicate UnboundAdded(before: map<DirId, DirEntry>, after: map<DirId, DirEntry>) {
    (forall e :: e in before ==> e in after && after[e] == before[e]) &&
    (forall e :: e in after && e !in before ==> after[e].fcb.None?)
  }

  /**
    The cache stays well formed when unbound entries are added and one
    directory list is pointed at entries of the arena: what AFSInitDirEntry
    and AFSInitializeDirectory do.
  */
  lemma EntriesAddedKeepsWellFormed(c: Cache, c2: Cache, lay: Layout, rank: map<FcbId, nat>, d: FcbId)
    requires WellFormed(c, lay, rank)
    requires c2 == c.(entries := c2.entries, dirs := c2.dirs)
    requires UnboundAdded(c.entries, c2.entries)
    requires c2.dirs == c.dirs[d := c2.Dir(d)] && forall x :: x in c2.List(d) ==> x in c2.entries
    ensures WellFormed(c2, lay, rank)
  {
  }

  /**
    The cache stays well formed after what AFSInitializeDirectory does to
    it: "." (when dotBuilt) and ".." (when success) added unbound under the
    ids next and next + 1, and the directory's list pointed at both or
    emptied.
  */
  lemma DotEntriesKeepWellFormed(c: Cache, c2: Cache, lay: Layout, rank: map<FcbId, nat>, dcb: FcbId,
                                 p: ObjectInfo, next: DirId, dotBuilt: bool, success: bool)
    requires forall e :: e in c.entries ==> e < next
    requires c2 == c.(entries := c2.entries, dirs := c2.dirs)
    requires success ==> dotBuilt
    requires success ==>
               c2.entries == c.entries[next := DotEntry(p, [Dot], DotIndex)][next + 1 := DotEntry(p, [Dot, Dot], DotDotIndex)]
    requires dotBuilt && !success ==> c2.entries == c.entries[next := DotEntry(p, [Dot], DotIndex)]
    requires !dotBuilt ==> c2.entries == c.entries
    requires c2.dirs == c.dirs[dcb := c.Dir(dcb).(list := if success then [next, next + 1] else [])]
    ensures WellFormed(c, lay, rank) ==> WellFormed(c2, lay, rank)
  {
    if WellFormed(c, lay, rank) {
      EntriesAddedKeepsWellFormed(c, c2, lay, rank, dcb);
    }
  }

  /**
    The node arena, the ParentFcb pointers, the flat lists and the volume
    tree are constants of the object: no operation of this model creates or
    frees a cache node.
  */
  class Redirector {
    const fcbs: map<FcbId, FcbNode>
    const parent: map<FcbId, FcbId>                     // ParentFcb, where not NULL
    ghost const rank: map<FcbId, nat>                   // witnesses that ParentFcb chains end
    var state: map<FcbId, FcbState>
    var openRefs: map<FcbId, int>                       // OpenReferenceCount
    var targetFcb: map<FcbId, FcbId>                    // SymbolicLink/MountPoint.TargetFcb, where not NULL
    var entries: map<DirId, DirEntry>
    var nextDirId: DirId
    var dirs: map<FcbId, DirNodes>                      // Specific.Directory of directory nodes
    var fileIdTree: map<FcbId, map<TreeKey, FcbId>>     // per volume root: low index -> node
    const fcbList: map<FcbId, seq<FcbId>>               // per volume root: FcbListHead .. in fLink order
    const volumeTree: map<TreeKey, FcbId>               // high index -> volume root
    var memoryLevel: int                                // AFSAllocationMemoryLevel
    var log: seq<Call>
    const entryHeaderSize: nat                          // sizeof( AFSDirEntryCB)

    /** The fields invalidation changes, as a value. */
    function Snapshot(): Cache
      reads this`entries, this`dirs, this`state, this`fileIdTree, this`openRefs, this`targetFcb, this`log
    {
      Cache(entries, dirs, state, fileIdTree, openRefs, targetFcb, log)
    }

    /** The constant fields, as a value. */
    function LayoutNow(): Layout {
      Layout(fcbs, parent, fcbList, volumeTree)
    }

    function State(f: FcbId): FcbState
      reads this`state
    {
      StateOf(state, f)
    }

    function Flags(f: FcbId): set<FcbFlag>
      reads this`state
    {
      State(f).flags
    }

    function ExtentsStatus(f: FcbId): NtStatus
      reads this`state
    {
      State(f).extentsRequestStatus
    }

    function Refs(f: FcbId): int
      reads this`openRefs
    {
      RefsOf(openRefs, f)
    }

    function Dir(d: FcbId): DirNodes
      reads this`dirs
    {
      DirOf(dirs, d)
    }

    function List(d: FcbId): seq<DirId>
      reads this`dirs
    {
      Dir(d).list
    }

    function IdTree(r: FcbId): map<TreeKey, FcbId>
      reads this`fileIdTree
    {
      TreeOf(fileIdTree, r)
    }

    function FcbList(r: FcbId): seq<FcbId> {
      ListOf(fcbList, r)
    }

    /** The bytes AFSInitDirEntry allocates for an entry: the header and both names. */
    function EntryLength(name: Name, targetName: Name): nat {
      entryHeaderSize + 2 * |name| + 2 * |targetName|
    }

    /** No entry id at or beyond nextDirId is in use. */
    ghost predicate IdsFresh()
      reads this`entries, this`nextDirId
    {
      forall e :: e in entries ==> e < nextDirId
    }

    /**
      The shape of the cache the code relies on: parent chains end, entries
      and nodes point at each other, every list, tree and pointer leads into
      the arenas, and fresh entry ids are unused.
    */
    ghost predicate Valid()
      reads this`entries, this`dirs, this`fileIdTree, this`state, this`openRefs, this`targetFcb, this`nextDirId, this`log
    {
      WellFormed(Snapshot(), LayoutNow(), rank) && IdsFresh()
    }

    /**
      An object over the well-formed cache c with layout lay; next is a
      DirId above every entry in use. How the cache was built is not part of
      this model.
    */
    constructor (headerSize: nat, c: Cache, lay: Layout, ghost ranks: map<FcbId, nat>, next: DirId)
      requires WellFormed(c, lay, ranks)
      requires forall e :: e in c.entries ==> e < next
      ensures Snapshot() == c && LayoutNow() == lay && rank == ranks && nextDirId == next
      ensures memoryLevel == 0 && entryHeaderSize == headerSize
      ensures Valid()
    {
      fcbs, parent, rank, fcbList, volumeTree := lay.nodes, lay.parent, ranks, lay.fcbList, lay.volumeTree;
      entries, dirs, state, fileIdTree := c.entries, c.dirs, c.state, c.fileIdTree;
      openRefs, targetFcb, log := c.openRefs, c.targetFcb, c.log;
      nextDirId, memoryLevel := next, 0;
      entryHeaderSize := headerSize;
    }

    /** The AFSInitRootFcb call AFSInitDirEntry makes for a mount point whose target volume is not in the volume tree. */
    function RootCalls(id: DirId, info: ObjectInfo, target: FileId): (calls: seq<Call>)
      ensures calls == [] || calls == [InitRootFcb(id)]
      ensures calls != [] <==> info.fileType == FileTypeMountPoint && KeyOf(FileIndex.HighIndex(target)) !in volumeTree
    {
      if info.fileType == FileTypeMountPoint && KeyOf(FileIndex.HighIndex(target)) !in volumeTree then [InitRootFcb(id)]
      else []
    }

    /**
      AFSInitDirEntry. pagedOk and nonPagedOk are the outcomes of the entry's
      two allocations and evaluation is the answer AFSEvaluateTargetByID
      gives for the record's FileId. The entry takes
      the next free id. Each failure gives the entry's bytes back to
      AFSAllocationMemoryLevel once; InitDirEntryLevelAsWritten is the
      accounting of the source, which gives them back twice when the
      non-paged allocation fails.
    */
    method InitDirEntry(parentId: FileId, name: Name, targetName: Name, enumEntry: ObjectInfo,
                        fileIndex: bv32, pagedOk: bool, nonPagedOk: bool, evaluation: EvalResult)
      returns (entry: Option<DirId>)
      requires IdsFresh()
      modifies this`entries, this`nextDirId, this`memoryLevel, this`log
      ensures IdsFresh()
      ensures entry.None? <==> !pagedOk || !nonPagedOk || MountPointTarget(enumEntry, evaluation).None?
      ensures entry.None? ==> entries == old(entries) && nextDirId == old(nextDirId) && memoryLevel == old(memoryLevel)
      ensures entry.Some? ==>
                entry.value == old(nextDirId) && nextDirId == entry.value + 1 && entry.value !in old(entries) &&
                entries == old(entries)[entry.value := NewEntry(parentId, name, targetName, enumEntry, fileIndex,
                                                               MountPointTarget(enumEntry, evaluation).value)] &&
                memoryLevel == old(memoryLevel) + EntryLength(name, targetName)
      ensures pagedOk && nonPagedOk && MountPointTarget(enumEntry, evaluation).Some? ==>
                log == old(log) + RootCalls(old(nextDirId), enumEntry, MountPointTarget(enumEntry, evaluation).value)
      ensures !(pagedOk && nonPagedOk && MountPointTarget(enumEntry, evaluation).Some?) ==> log == old(log)
    {
      entry := None;
      if pagedOk {
        var length := EntryLength(name, targetName);
        memoryLevel := memoryLevel + length;
        if !nonPagedOk {
          memoryLevel := memoryLevel - length;
        } else {
          var target := EvaluateMountPointTarget(enumEntry, evaluation);
          if target.None? {
            memoryLevel := memoryLevel - length;
          } else {
            var id := nextDirId;
            log := log + RootCalls(id, enumEntry, target.value);
            var info := Decorated(enumEntry).(targetFileId := target.value);
            entries := entries[id := DirEntry(InitialFlags(enumEntry), None, name, targetName, fileIndex, parentId, info)];
            nextDirId := id + 1;
            entry := Some(id);
          }
        }
      }
    }

    /**
      One of the two entries of AFSInitializeDirectory: AFSInitDirEntry on the
      record built from the parent's record p, then NOT_IN_PARENT_TREE set.
    */
    method AddDotEntry(p: ObjectInfo, name: Name, index: bv32, pagedOk: bool, nonPagedOk: bool)
      returns (dot: Option<DirId>)
      requires IdsFresh()
      modifies this`entries, this`nextDirId, this`memoryLevel, this`log
      ensures IdsFresh() && log == old(log)
      ensures dot.None? <==> !pagedOk || !nonPagedOk
      ensures dot.None? ==> entries == old(entries) && nextDirId == old(nextDirId) && memoryLevel == old(memoryLevel)
      ensures dot.Some? ==>
                dot.value == old(nextDirId) && nextDirId == dot.value + 1 && dot.value !in old(entries) &&
                entries == old(entries)[dot.value := DotEntry(p, name, index)] &&
                memoryLevel == old(memoryLevel) + EntryLength(name, [])
    {
      dot := InitDirEntry(p.fileId, name, [], DotEntryInfo(p), index, pagedOk, nonPagedOk, NoEvaluation);
      if dot.Some? {
        entries := entries[dot.value := entries[dot.value].(flags := entries[dot.value].flags + {NotInParentTree})];
      }
    }

    /**
      AFSInitializeDirectory. nameBufferOk is the outcome of the allocation
      of the name buffer; the other four are those of the two allocations of
      "." and of "..". The parent's entry supplies the ParentId and the times.
      On failure the head of the list is freed and the list emptied; freeing
      is not modelled, so a "." that was built stays in the arena, unlisted
      and unbound, and its bytes stay counted in AFSAllocationMemoryLevel.
    */
    method InitializeDirectory(dcb: FcbId, nameBufferOk: bool, dotPaged: bool, dotNonPaged: bool,
                               dotDotPaged: bool, dotDotNonPaged: bool) returns (status: NtStatus)
      requires IdsFresh()
      requires dcb in parent && parent[dcb] in fcbs && fcbs[parent[dcb]].dirEntry in entries
      modifies this`entries, this`nextDirId, this`memoryLevel, this`log, this`dirs
      ensures IdsFresh()
      ensures WellFormed(old(Snapshot()), LayoutNow(), rank) ==> WellFormed(Snapshot(), LayoutNow(), rank)
      ensures NtSuccess(status) <==> nameBufferOk && dotPaged && dotNonPaged && dotDotPaged && dotDotNonPaged
      ensures !NtSuccess(status) ==> status == StatusInsufficientResources && List(dcb) == []
      ensures var p := old(entries[fcbs[parent[dcb]].dirEntry].info);
              var dot, dotDot := old(nextDirId), old(nextDirId) + 1;
              var dotBuilt := nameBufferOk && dotPaged && dotNonPaged;
              nextDirId == old(nextDirId) + (if dotBuilt then 1 else 0) + (if NtSuccess(status) then 1 else 0) &&
              (NtSuccess(status) ==>
                 status == StatusSuccess && List(dcb) == [dot, dotDot] &&
                 dot !in old(entries) && dotDot !in old(entries) &&
                 entries == old(entries)[dot := DotEntry(p, [Dot], DotIndex)][dotDot := DotEntry(p, [Dot, Dot], DotDotIndex)]) &&
              (!NtSuccess(status) ==>
                 entries == if dotBuilt then old(entries)[dot := DotEntry(p, [Dot], DotIndex)] else old(entries))
      ensures dirs == old(dirs)[dcb := old(Dir(dcb)).(list := List(dcb))]
      ensures memoryLevel == old(memoryLevel) +
                (if nameBufferOk && dotPaged && dotNonPaged then EntryLength([Dot], []) else 0) +
                (if NtSuccess(status) then EntryLength([Dot, Dot], []) else 0)
      ensures log == old(log)
    {
      ghost var parentInfo := entries[fcbs[parent[dcb]].dirEntry].info;
      status := StatusSuccess;
      var list := List(dcb);
      if !nameBufferOk {
        status := StatusInsufficientResources;
      } else {
        var p := entries[fcbs[parent[dcb]].dirEntry].info;
        var dot := AddDotEntry(p, [Dot], DotIndex, dotPaged, dotNonPaged);
        if dot.None? {
          status := StatusInsufficientResources;
        } else {
          list := [dot.value];
          var dotDot := AddDotEntry(p, [Dot, Dot], DotDotIndex, dotDotPaged, dotDotNonPaged);
          if dotDot.None? {
            status := StatusInsufficientResources;
          } else {
            list := [dot.value, dotDot.value];
          }
        }
      }
      if !NtSuccess(status) {
        list := [];
      }
      dirs := dirs[dcb := Dir(dcb).(list := list)];
      DotEntriesKeepWellFormed(old(Snapshot()), Snapshot(), LayoutNow(), rank, dcb, parentInfo, old(nextDirId),
                               nameBufferOk && dotPaged && dotNonPaged, NtSuccess(status));
    }

    /**
      AFSEvaluateNode on node f. evaluation is the answer
      AFSEvaluateTargetByID gives for the FileId of the node's entry.
    */
    method EvaluateNode(f: FcbId, evaluation: EvalResult) returns (status: NtStatus)
      requires f in fcbs && fcbs[f].dirEntry in entries
      modifies this`entries
      ensures var e := fcbs[f].dirEntry;
              var r := Refreshed(old(entries[e].info), evaluation);
              status == r.0 && entries == old(entries)[e := old(entries[e]).(info := r.1)]
    {
      var e := fcbs[f].dirEntry;
      var current := entries[e].info;
      if !NtSuccess(evaluation.status) || evaluation.info.fileType == FileTypeUnknown {
        status := StatusObjectNameNotFound;
      } else {
        var attributes := RefreshedAttributes(evaluation.info.fileType, evaluation.info.fileAttributes);
        var info := evaluation.info.(fileId := current.fileId, fileAttributes := attributes);
        entries := entries[e := entries[e].(info := info)];
        status := evaluation.status;
      }
    }


    // -------------------------------------------------------------------------
    // AFSInvalidateCache, step by step
    // -------------------------------------------------------------------------

    /** Fail the extent requests of f with STATUS_CANCELLED and signal ExtentsRequestComplete. */
    method CancelExtents(f: FcbId)
      modifies this`state
      ensures Snapshot() == WithExtentsCancelled(old(Snapshot()), f)
    {
      state := state[f := State(f).(extentsRequestStatus := StatusCancelled, extentsRequestComplete := true)];
    }

    /** Cancel the extent requests of file node f, then AFSFlushExtents and AFSTearDownFcbExtents on it. */
    method CancelAndFlushExtents(f: FcbId)
      modifies this`state, this`log
      ensures Snapshot() == WithExtentsFlushed(old(Snapshot()), f)
    {
      CancelExtents(f);
      log := log + [FlushExtents(f, ExtentsStatus(f)), TearDownFcbExtents(f, ExtentsStatus(f))];
    }

    /** Set AFS_FCB_INVALID on f, remove it from its root's FileID tree and clear AFS_FCB_INSERTED_ID_TREE. */
    method MarkInvalid(f: FcbId)
      requires f in fcbs
      modifies this`state, this`fileIdTree
      ensures Snapshot() == WithNodeInvalidated(old(Snapshot()), fcbs, f)
    {
      state := state[f := State(f).(flags := Flags(f) + {Invalid})];
      var r := fcbs[f].root;
      fileIdTree := fileIdTree[r := IdTree(r) - {fcbs[f].treeKey}];
      state := state[f := State(f).(flags := Flags(f) - {InsertedIdTree})];
    }

    /**
      The purge loop's work on a bound node f: a file's extents are
      cancelled, flushed and torn down, the node's entry is unbound and marked
      AFS_DIR_RELEASE_DIRECTORY_NODE, and the node is invalidated.
    */
    method ReleaseNode(f: FcbId)
      requires f in fcbs
      modifies this`entries, this`state, this`fileIdTree, this`log
      ensures Snapshot() == WithNodeReleased(old(Snapshot()), fcbs, f)
    {
      if fcbs[f].nodeType == FileFcb {
        CancelAndFlushExtents(f);
      }
      var x := fcbs[f].dirEntry;
      if x in entries {
        entries := entries[x := Unbound(entries[x])];
      }
      MarkInvalid(f);
    }

    /**
      AFSRemoveDirNodeFromParent and AFSDeleteDirEntry as far as directory d
      is concerned: entry e leaves its list and both name trees.
    */
    method RemoveDirNode(d: FcbId, e: DirId)
      modifies this`dirs
      ensures Snapshot() == old(Snapshot()).(dirs := old(dirs)[d := RemovedFrom(old(Dir(d)), e)])
    {
      dirs := dirs[d := DirNodes(Without(List(d), e), Dir(d).caseSensitive - {e}, Dir(d).caseInsensitive - {e})];
    }

    /**
      One turn of the purge loop on entry e of directory d: the node bound
      to e, if any, is released, and either way e leaves the directory.
    */
    method PurgeChild(d: FcbId, e: DirId)
      modifies this`entries, this`dirs, this`state, this`fileIdTree, this`log
      ensures Snapshot() == WithChildPurged(old(Snapshot()), fcbs, d, e)
    {
      if e in entries && entries[e].fcb.Some? && entries[e].fcb.value in fcbs {
        ReleaseNode(entries[e].fcb.value);
      }
      RemoveDirNode(d, e);
    }

    /**
      The directory half of AFSInvalidateCache on a deleted directory d:
      entries are taken off the head of the list until it is empty, then
      both tree heads and the list head are cleared and
      AFS_FCB_DIRECTORY_ENUMERATED is cleared.
    */
    method PurgeDirectory(d: FcbId)
      modifies this`entries, this`dirs, this`state, this`fileIdTree, this`log
      ensures Snapshot() == WithDirectoryPurged(old(Snapshot()), fcbs, d)
    {
      ghost var c0 := Snapshot();
      while List(d) != []
        invariant WithListPurged(Snapshot(), fcbs, d) == WithListPurged(c0, fcbs, d)
        decreases |List(d)|
      {
        PurgeChild(d, List(d)[0]);
      }
      dirs := dirs[d := NoDirNodes];
      state := state[d := State(d).(flags := Flags(d) - {DirectoryEnumerated})];
    }

    /**
      The scan of the flat Fcb list of t's volume root: every node that
      AFSIsChildOfParent places below t has a file's extents cancelled and is
      invalidated.
    */
    method InvalidateDescendants(t: FcbId)
      requires ParentChain.Ranked(parent, rank) && t in fcbs
      modifies this`state, this`fileIdTree
      ensures Snapshot() == WithDescendantsInvalidated(old(Snapshot()), fcbs, parent, rank, t, FcbList(fcbs[t].root))
    {
      ghost var c0 := Snapshot();
      var l := FcbList(fcbs[t].root);
      var i := 0;
      while i < |l|
        invariant 0 <= i <= |l|
        invariant WithDescendantsInvalidated(Snapshot(), fcbs, parent, rank, t, l[i..]) ==
                  WithDescendantsInvalidated(c0, fcbs, parent, rank, t, l)
      {
        var g := l[i];
        assert l[i..][1..] == l[i + 1..];
        if g in fcbs {
          var isChild := ParentChain.IsChildOfParent(parent, rank, t, g);
          if isChild {
            if fcbs[g].nodeType == FileFcb {
              CancelExtents(g);
            }
            MarkInvalid(g);
          }
        }
        i := i + 1;
      }
    }

    /**
      Unless t's entry already carries AFS_DIR_RELEASE_DIRECTORY_NODE, the
      entry is removed from the parent directory and marked; false when t
      has no parent (the source dereferences NULL).
    */
    method Detach(ghost c: Cache, ghost lay: Layout, t: FcbId) returns (ok: bool)
      requires c == Snapshot() && lay == LayoutNow() && t in lay.nodes && lay.nodes[t].dirEntry in c.entries
      modifies this`entries, this`dirs
      ensures ok == WithDetached(c, lay, t).Some?
      ensures ok ==> Snapshot() == WithDetached(c, lay, t).value
    {
      var x := fcbs[t].dirEntry;
      if ReleaseDirectoryNode in entries[x].flags {
        return true;
      }
      if t !in parent {
        return false;
      }
      var p := parent[t];
      RemoveDirNode(p, x);
      entries := entries[x := entries[x].(flags := entries[x].flags + {ReleaseDirectoryNode})];
      ok := true;
    }

    /** The part of the DELETED case on node t that depends on the type recorded in its entry. */
    method InvalidateByType(ghost c: Cache, ghost lay: Layout, t: FcbId)
      requires c == Snapshot() && lay == LayoutNow() && ParentChain.Ranked(lay.parent, rank)
      requires t in lay.nodes && lay.nodes[t].dirEntry in c.entries
      modifies this`entries, this`dirs, this`state, this`fileIdTree, this`log
      ensures Snapshot() == WithTypeInvalidated(c, lay, rank, t)
    {
      var fileType := entries[fcbs[t].dirEntry].info.fileType;
      if fileType == FileTypeDirectory {
        PurgeDirectory(t);
        InvalidateDescendants(t);
      } else if fileType == FileTypeFile {
        CancelAndFlushExtents(t);
      }
    }

    /** The DELETED case on node t; false for a NULL dereference. */
    method InvalidateDeleted(ghost c: Cache, ghost lay: Layout, t: FcbId) returns (ok: bool)
      requires c == Snapshot() && lay == LayoutNow() && ParentChain.Ranked(lay.parent, rank)
      requires t in lay.nodes && lay.nodes[t].dirEntry in c.entries
      modifies this`entries, this`dirs, this`state, this`fileIdTree, this`log
      ensures ok == WithDeletedInvalidated(c, lay, rank, t).Some?
      ensures ok ==> Snapshot() == WithDeletedInvalidated(c, lay, rank, t).value
    {
      ghost var c1 := WithTypeInvalidated(c, lay, rank, t);
      assert lay.nodes[t].dirEntry in c1.entries;
      InvalidateByType(c, lay, t);
      ok := Detach(c1, lay, t);
    }

    /** Reference the located node n and mark its entry AFS_DIR_ENTRY_NOT_EVALUATED. */
    method MarkLocated(ghost c: Cache, ghost lay: Layout, n: FcbId)
      requires c == Snapshot() && lay == LayoutNow() && n in lay.nodes && lay.nodes[n].dirEntry in c.entries
      modifies this`openRefs, this`entries
      ensures Snapshot() == Marked(c, lay.nodes, n)
    {
      openRefs := openRefs[n := Refs(n) + 1];
      var x := fcbs[n].dirEntry;
      entries := entries[x := entries[x].(flags := entries[x].flags + {NotEvaluated})];
    }

    /**
      Follow a located symbolic link or mount point to its target, building
      or looking the target up when TargetFcb is not set; any other node is
      its own target. failed is a symbolic link whose build failed: its
      reference has been given back and the call returns the build status.
    */
    method FollowLink(ghost c: Cache, ghost lay: Layout, n: FcbId, build: BuildOutcome)
      returns (failed: bool, status: NtStatus, target: Option<FcbId>)
      requires c == Snapshot() && lay == LayoutNow() && PointersClosed(c, lay)
      requires n in lay.nodes && lay.nodes[n].dirEntry in c.entries
      requires build.target.Some? ==> build.target.value in lay.nodes
      modifies this`log, this`targetFcb, this`openRefs
      ensures failed == BuildFails(c, lay, n, build)
      ensures failed ==> status == build.status &&
                         Snapshot() == Dereferenced(c.(log := c.log + [BuildTargetDirectory(n)]), n)
      ensures !failed ==> Redirection(status, target, Snapshot()) == Redirect(c, lay, n, build)
    {
      failed, status, target := false, StatusSuccess, Some(n);
      var info := entries[fcbs[n].dirEntry].info;
      if info.fileType == FileTypeSymLink {
        if n in targetFcb {
          target := Some(targetFcb[n]);
        } else {
          log := log + [BuildTargetDirectory(n)];
          if !NtSuccess(build.status) {
            openRefs := openRefs[n := Refs(n) - 1];
            return true, build.status, None;
          }
          if build.target.Some? {
            targetFcb := targetFcb[n := build.target.value];
          }
          status, target := build.status, build.target;
        }
      } else if info.fileType == FileTypeMountPoint {
        if n in targetFcb {
          target := Some(targetFcb[n]);
        } else {
          var high := KeyOf(FileIndex.HighIndex(info.targetFileId));
          if high in volumeTree {
            targetFcb := targetFcb[n := volumeTree[high]];
            target := Some(volumeTree[high]);
          } else {
            target := None;
          }
        }
      }
    }

    /**
      The end of AFSInvalidateCache once its target is known: with DELETED
      the target is invalidated and detached (a missing target or parent
      faults), then the reference is given back on the target.
    */
    method Finish(ghost rd: Redirection, ghost lay: Layout, status: NtStatus, target: Option<FcbId>, reason: Reason)
      returns (outcome: Outcome)
      requires rd == Redirection(status, target, Snapshot()) && lay == LayoutNow()
      requires ParentChain.Ranked(lay.parent, rank)
      requires target.Some? ==> target.value in lay.nodes && lay.nodes[target.value].dirEntry in rd.cache.entries
      modifies this`entries, this`dirs, this`state, this`fileIdTree, this`log, this`openRefs
      ensures outcome == Finished(rd, lay, rank, reason).0
      ensures outcome.Returned? ==> Snapshot() == Finished(rd, lay, rank, reason).1
    {
      if reason == Deleted && target.None? {
        outcome := BugCheck;
      } else {
        var ok := true;
        if reason == Deleted {
          ok := InvalidateDeleted(rd.cache, lay, target.value);
        }
        if !ok {
          outcome := BugCheck;
        } else {
          if target.Some? {
            openRefs := openRefs[target.value := Refs(target.value) - 1];
          }
          outcome := Returned(status);
        }
      }
    }

    /**
      AFSInvalidateCache from the moment node n has been found; c and lay
      are the object's state and layout at that point. n is referenced and
      its entry marked; a symbolic link whose build fails returns the build
      status, any other node goes on at its target.
    */
    method InvalidateLocated(ghost c: Cache, ghost lay: Layout, n: FcbId, reason: Reason, build: BuildOutcome)
      returns (outcome: Outcome)
      requires c == Snapshot() && lay == LayoutNow() && ParentChain.Ranked(lay.parent, rank)
      requires n in lay.nodes && lay.nodes[n].dirEntry in c.entries
      requires build.target.Some? ==> build.target.value in lay.nodes
      requires var c1 := Marked(c, lay.nodes, n);
               PointersClosed(c1, lay) &&
               (!BuildFails(c1, lay, n, build) ==>
                  var rd := Redirect(c1, lay, n, build);
                  rd.target.Some? ==> lay.nodes[rd.target.value].dirEntry in rd.cache.entries)
      modifies this`entries, this`dirs, this`state, this`fileIdTree, this`openRefs, this`targetFcb, this`log
      ensures var c1 := Marked(c, lay.nodes, n);
              if BuildFails(c1, lay, n, build) then
                outcome == Returned(build.status) &&
                Snapshot() == Dereferenced(c1.(log := c1.log + [BuildTargetDirectory(n)]), n)
              else
                var r := Finished(Redirect(c1, lay, n, build), lay, rank, reason);
                outcome == r.0 && (outcome.Returned? ==> Snapshot() == r.1)
    {
      ghost var c1 := Marked(c, lay.nodes, n);
      MarkLocated(c, lay, n);
      var failed, status, target := FollowLink(c1, lay, n, build);
      if failed {
        return Returned(status);
      }
      outcome := Finish(Redirect(c1, lay, n, build), lay, status, target, reason);
    }

    /**
      AFSInvalidateCache for the request req; build is what
      AFSBuildTargetDirectory answers if it is called. The state after a
      bug check is not described. A call that returns leaves the object
      Valid again, by CacheState.InvalidationKeepsWellFormed on the state the
      postcondition names (the entry ids are unchanged, so they stay below
      nextDirId).
    */
    method InvalidateCache(ghost c: Cache, ghost lay: Layout, req: InvalidateRequest, build: BuildOutcome)
      returns (outcome: Outcome)
      requires c == Snapshot() && lay == LayoutNow() && Valid()
      requires build.target.Some? ==> build.target.value in fcbs
      modifies this`entries, this`dirs, this`state, this`fileIdTree, this`openRefs, this`targetFcb, this`log
      ensures outcome == AfterInvalidation(c, lay, rank, req, build).0
      ensures outcome.Returned? ==> Snapshot() == AfterInvalidation(c, lay, rank, req, build).1
    {
      if req.wholeVolume {
        log := log + [RemoveAFSRoot];
        outcome := Returned(StatusSuccess);
      } else {
        var located := Locate(Snapshot(), LayoutNow(), KeyOf(FileIndex.HighIndex(req.fileId)),
                              KeyOf(FileIndex.LowIndex(req.fileId)));
        if located.None? {
          outcome := Returned(StatusUnsuccessful);
        } else {
          LocatedUnfolds(c, lay, rank, req.reason, located.value, build);
          outcome := InvalidateLocated(c, lay, located.value, req.reason, build);
        }
      }
    }
  }

  /**
    The change AFSInitDirEntry makes to AFSAllocationMemoryLevel, as written:
    the entry's length is counted once the paged block exists, taken off in
    the branch where the non-paged block cannot be allocated, and taken off
    again at the exit, where the paged pointer was left non-NULL.
  */
  function InitDirEntryLevelAsWritten(level: int, length: nat, pagedOk: bool, nonPagedOk: bool,
                                      targetOk: bool): (r: int)
    ensures !pagedOk ==> r == level
    ensures pagedOk && nonPagedOk ==> r == (if targetOk then level + length else level)
  {
    if !pagedOk then level
    else
      var counted := level + length;
      if !nonPagedOk then
        var released := counted - length;   // the branch that frees the paged block
        released - length                   // the exit, which frees it again
      else if !targetOk then counted - length
      else counted
  }

  /**
    A failed non-paged allocation gives the entry's bytes back twice, so the
    level ends below where it started, where Redirector.InitDirEntry leaves
    it unchanged.
  */
  lemma NonPagedFailureReleasesTwice(level: int, length: nat)
    requires length > 0
    ensures InitDirEntryLevelAsWritten(level, length, true, false, true) == level - length < level
  {
  }
}
