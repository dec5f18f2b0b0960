/**
  Directory entries (AFSDirEntryCB) as values, and the two rules that shape
  their attributes: the decoration applied when an entry is built from an
  enumeration record (AFSInitDirEntry) and the refresh applied when a cache
  node is re-evaluated (AFSEvaluateNode).
*/
module DirEntries {
  import opened Types
  import Crc

  /** AFS_DIR_ENTRY_NOT_EVALUATED, AFS_DIR_ENTRY_NOT_IN_PARENT_TREE, AFS_DIR_RELEASE_DIRECTORY_NODE. */
  datatype DirFlag = NotEvaluated | NotInParentTree | ReleaseDirectoryNode

  datatype DirEntry = DirEntry(
    flags: set<DirFlag>,
    fcb: Option<FcbId>,            // the cache node bound to this entry, if materialised
    fileName: Name,
    targetName: Name,
    fileIndex: bv32,
    parentId: FileId,
    info: ObjectInfo)              // the DirectoryEntry block
  {
    /**
      CaseSensitiveTreeEntry.HashIndex: AFSInitDirEntry sets it to the hash
      of the stored name (0 for an empty name) and nothing changes either
      afterwards, so the model derives it from the name.
    */
    function CaseSensitiveHash(): bv32 {
      Crc.NameHash(fileName, false)
    }

    /** CaseInsensitiveTreeEntry.HashIndex, derived the same way from the upcased name. */
    function CaseInsensitiveHash(): bv32 {
      Crc.NameHash(fileName, true)
    }
  }

  /** The FileIndex values of "." and "..": (ULONG)-1 and (ULONG)-2. */
  const DotIndex: bv32 := 0xFFFF_FFFF
  const DotDotIndex: bv32 := 0xFFFF_FFFE

  predicate IsDirectoryLike(fileType: bv32) {
    fileType == FileTypeDirectory || fileType == FileTypeSymLink
  }

  /**
    The decoration of AFSInitDirEntry: an unknown type (0) becomes a
    directory, directories and symbolic links gain the directory attribute,
    mount points gain the reparse-point and directory attributes.
  */
  function Decorated(info: ObjectInfo): (d: ObjectInfo)
    ensures d.fileType == (if info.fileType == FileTypeUnknown then FileTypeDirectory else info.fileType)
    ensures IsDirectoryLike(d.fileType) ==> d.fileAttributes == info.fileAttributes | FileAttributeDirectory
    ensures d.fileType == FileTypeMountPoint ==>
              d.fileAttributes == info.fileAttributes | FileAttributeReparsePoint | FileAttributeDirectory
    ensures !IsDirectoryLike(d.fileType) && d.fileType != FileTypeMountPoint ==>
              d.fileAttributes == info.fileAttributes
    ensures d == info.(fileType := d.fileType, fileAttributes := d.fileAttributes)
  {
    var fileType := if info.fileType == FileTypeUnknown then FileTypeDirectory else info.fileType;
    var attributes :=
      if IsDirectoryLike(fileType) then info.fileAttributes | FileAttributeDirectory
      else if fileType == FileTypeMountPoint then
        info.fileAttributes | (FileAttributeReparsePoint | FileAttributeDirectory)
      else info.fileAttributes;
    info.(fileType := fileType, fileAttributes := attributes)
  }

  /** The flags a new entry starts with: NOT_EVALUATED exactly when its type was unknown. */
  function InitialFlags(info: ObjectInfo): (flags: set<DirFlag>)
    ensures NotEvaluated in flags <==> info.fileType == FileTypeUnknown
    ensures flags <= {NotEvaluated}
  {
    if info.fileType == FileTypeUnknown then {NotEvaluated} else {}
  }

  /** Decorating twice is decorating once. */
  lemma DecorationIdempotent(info: ObjectInfo)
    ensures Decorated(Decorated(info)) == Decorated(info)
  {
    var d := Decorated(info);
    var a := info.fileAttributes;
    if IsDirectoryLike(d.fileType) {
      assert (a | FileAttributeDirectory) | FileAttributeDirectory == a | FileAttributeDirectory;
    } else if d.fileType == FileTypeMountPoint {
      var bits := FileAttributeReparsePoint | FileAttributeDirectory;
      assert (a | bits) | bits == a | bits;
    }
  }

  /** Decoration only adds attribute bits and never yields the unknown type. */
  lemma DecorationOnlyAddsBits(info: ObjectInfo)
    ensures info.fileAttributes & !Decorated(info).fileAttributes == 0
    ensures Decorated(info).fileType != FileTypeUnknown
  {
  }

  /**
    The target a mount point resolves to while its entry is built, or None
    when evaluation fails. res is the answer AFSEvaluateTargetByID gives for
    the record's FileId; it is consulted only when the record needs it.
  */
  function MountPointTarget(info: ObjectInfo, res: EvalResult): (t: Option<FileId>)
    ensures t.None? <==> NeedsEvaluation(info) && !NtSuccess(res.status)
    ensures !NeedsEvaluation(info) ==> t == Some(info.targetFileId)
    ensures NeedsEvaluation(info) && t.Some? ==>
              t.value == (if res.info.targetFileId.hash != 0 then res.info.targetFileId else info.targetFileId)
  {
    if !NeedsEvaluation(info) then Some(info.targetFileId)
    else if !NtSuccess(res.status) then None
    else if res.info.targetFileId.hash != 0 then Some(res.info.targetFileId)
    else Some(info.targetFileId)
  }

  /** Only a mount point whose target identifier has no hash is sent to the evaluator. */
  predicate NeedsEvaluation(info: ObjectInfo) {
    info.fileType == FileTypeMountPoint && info.targetFileId.hash == 0
  }

  /** A mount point whose target is already known resolves the same way whatever the evaluation would say. */
  lemma KnownTargetIgnoresEvaluation(info: ObjectInfo, r1: EvalResult, r2: EvalResult)
    requires info.targetFileId.hash != 0
    ensures MountPointTarget(info, r1) == MountPointTarget(info, r2) == Some(info.targetFileId)
  {
  }

  /**
    The record AFSInitDirEntry builds once both allocations succeed and the
    mount-point target (if any) has resolved to target.
  */
  function NewEntry(parentId: FileId, name: Name, targetName: Name, enumEntry: ObjectInfo,
                    fileIndex: bv32, target: FileId): DirEntry
  {
    DirEntry(InitialFlags(enumEntry), None, name, targetName, fileIndex, parentId,
             Decorated(enumEntry).(targetFileId := target))
  }

  /**
    A new entry is unbound, NOT_EVALUATED exactly when its type was unknown,
    decorated, keyed in the case-insensitive tree by the hash of its upcased
    name, and keyed by 0 in both trees when its name is empty.
  */
  lemma NewEntryProperties(parentId: FileId, name: Name, targetName: Name, enumEntry: ObjectInfo,
                           fileIndex: bv32, target: FileId)
    ensures var e := NewEntry(parentId, name, targetName, enumEntry, fileIndex, target);
            e.fcb.None? && (NotEvaluated in e.flags <==> enumEntry.fileType == FileTypeUnknown) &&
            e.info.fileType != FileTypeUnknown && e.info.targetFileId == target &&
            e.info.fileAttributes == Decorated(enumEntry).fileAttributes &&
            e.CaseInsensitiveHash() == Crc.NameHash(UpcaseName(name), false) &&
            (name == [] ==> e.CaseSensitiveHash() == 0 && e.CaseInsensitiveHash() == 0)
  {
    Crc.UpcasedHash(name);
  }

  /** The attributes AFSEvaluateNode stores for an evaluated type and the attributes the evaluation reports. */
  function RefreshedAttributes(fileType: bv32, attributes: bv32): bv32 {
    if IsDirectoryLike(fileType) then attributes | FileAttributeDirectory
    else if fileType == FileTypeMountPoint then attributes | FileAttributeReparsePoint
    else attributes
  }

  /**
    Refreshing only ever adds bits; directories and symbolic links come out
    with DIRECTORY, mount points with REPARSE_POINT.
  */
  lemma RefreshedAttributesOnlyAdd(fileType: bv32, attributes: bv32)
    ensures attributes & !RefreshedAttributes(fileType, attributes) == 0
    ensures IsDirectoryLike(fileType) ==> RefreshedAttributes(fileType, attributes) & FileAttributeDirectory != 0
    ensures fileType == FileTypeMountPoint ==>
              RefreshedAttributes(fileType, attributes) & FileAttributeReparsePoint != 0
  {
  }

  /**
    AFSEvaluateNode on the DirectoryEntry block of a node: a failed
    evaluation, or one that reports type 0, leaves the block alone and
    yields OBJECT_NAME_NOT_FOUND; otherwise every field but FileId is copied
    from the evaluation, the attributes are refreshed for the type, and the
    evaluation's status is returned.
  */
  function Refreshed(current: ObjectInfo, res: EvalResult): (r: (NtStatus, ObjectInfo))
    ensures !NtSuccess(res.status) || res.info.fileType == FileTypeUnknown ==>
              r == (StatusObjectNameNotFound, current)
    ensures NtSuccess(res.status) && res.info.fileType != FileTypeUnknown ==>
              r.0 == res.status && NtSuccess(r.0) &&
              r.1 == res.info.(fileId := current.fileId,
                               fileAttributes := RefreshedAttributes(res.info.fileType, res.info.fileAttributes))
  {
    if !NtSuccess(res.status) || res.info.fileType == FileTypeUnknown then
      (StatusObjectNameNotFound, current)
    else
      (res.status, res.info.(fileId := current.fileId,
                             fileAttributes := RefreshedAttributes(res.info.fileType, res.info.fileAttributes)))
  }

  /** Re-applying the same evaluation changes nothing more. */
  lemma RefreshIdempotent(current: ObjectInfo, res: EvalResult)
    ensures Refreshed(Refreshed(current, res).1, res) == Refreshed(current, res)
  {
    var once := Refreshed(current, res).1;
    assert once.fileId == current.fileId;
  }

  /**
    The two decorations of a mount point differ: building an entry marks it a
    directory as well as a reparse point, refreshing it marks it only a
    reparse point.
  */
  lemma MountPointDecorationsDiffer(info: ObjectInfo, current: ObjectInfo)
    requires info.fileType == FileTypeMountPoint
    requires info.fileAttributes & FileAttributeDirectory == 0
    ensures Decorated(info).fileAttributes & FileAttributeDirectory != 0
    ensures Refreshed(current, EvalResult(StatusSuccess, info)).1.fileAttributes & FileAttributeDirectory == 0
    ensures Decorated(info).fileAttributes & FileAttributeReparsePoint != 0
    ensures Refreshed(current, EvalResult(StatusSuccess, info)).1.fileAttributes & FileAttributeReparsePoint != 0
  {
  }
}
