/**
  AFSCheckForReadOnlyAccess and AFSCheckAccess: the only access decision the
  name cache makes, a bitmask test that tells read-class requests from
  write-class ones. Rights values are those of winnt.h.
*/
module Access {

  type AccessMask = bv32

  const Delete: AccessMask := 0x0001_0000
  const ReadControl: AccessMask := 0x0002_0000
  const WriteDac: AccessMask := 0x0004_0000
  const WriteOwner: AccessMask := 0x0008_0000
  const Synchronize: AccessMask := 0x0010_0000
  const AccessSystemSecurity: AccessMask := 0x0100_0000
  const GenericWrite: AccessMask := 0x4000_0000

  /** FILE_READ_DATA, also spelled FILE_LIST_DIRECTORY. */
  const FileReadData: AccessMask := 0x0000_0001
  const FileListDirectory: AccessMask := FileReadData
  const FileWriteData: AccessMask := 0x0000_0002
  const FileAppendData: AccessMask := 0x0000_0004
  const FileReadEa: AccessMask := 0x0000_0008
  const FileWriteEa: AccessMask := 0x0000_0010
  /** FILE_EXECUTE, also spelled FILE_TRAVERSE. */
  const FileExecute: AccessMask := 0x0000_0020
  const FileTraverse: AccessMask := FileExecute
  const FileDeleteChild: AccessMask := 0x0000_0040
  const FileReadAttributes: AccessMask := 0x0000_0080
  const FileWriteAttributes: AccessMask := 0x0000_0100

  /** The rights the check knows about; every other bit of a request is dropped first. */
  const KnownRights: AccessMask :=
    Delete | ReadControl | WriteOwner | WriteDac | Synchronize | AccessSystemSecurity |
    FileWriteData | FileReadEa | FileWriteEa | FileReadAttributes | FileWriteAttributes |
    FileListDirectory | FileTraverse | FileDeleteChild | FileAppendData

  /** The rights a read-only request may hold. */
  const ReadOnlyRights: AccessMask :=
    ReadControl | WriteOwner | WriteDac | Synchronize | AccessSystemSecurity |
    FileReadData | FileReadEa | FileWriteEa | FileReadAttributes | FileWriteAttributes |
    FileExecute | FileListDirectory | FileTraverse

  /** The known rights outside the read-only set: what makes a request write-class. */
  const WriteRights: AccessMask := Delete | FileWriteData | FileDeleteChild | FileAppendData

  /** AFSCheckForReadOnlyAccess: mask away unknown bits, then look for any bit outside the read-only set. */
  function CheckForReadOnlyAccess(desired: AccessMask): (readOnly: bool)
    ensures readOnly <==> desired & WriteRights == 0
  {
    var known := desired & KnownRights;
    known & !ReadOnlyRights == 0
  }

  /** AFSCheckAccess: refused only when a write-class request meets a read-only grant. */
  function CheckAccess(desired: AccessMask, granted: AccessMask): (allowed: bool)
    ensures !allowed <==> desired & WriteRights != 0 && granted & WriteRights == 0
  {
    !(!CheckForReadOnlyAccess(desired) && CheckForReadOnlyAccess(granted))
  }

  /** The write-class rights are exactly the four the source singles out, each alone refused as read-only. */
  lemma WriteRightsAreFour()
    ensures KnownRights & !ReadOnlyRights == WriteRights
    ensures !CheckForReadOnlyAccess(Delete) && !CheckForReadOnlyAccess(FileWriteData)
    ensures !CheckForReadOnlyAccess(FileDeleteChild) && !CheckForReadOnlyAccess(FileAppendData)
  {
  }

  /** A request is always allowed against a grant equal to it. */
  lemma CheckAccessReflexive(x: AccessMask)
    ensures CheckAccess(x, x)
  {
  }

  /** Bits the check does not know, GENERIC_WRITE among them, change neither verdict. */
  lemma UnknownBitsIgnored(d: AccessMask, g: AccessMask, extra: AccessMask)
    requires extra & KnownRights == 0
    ensures CheckForReadOnlyAccess(d | extra) == CheckForReadOnlyAccess(d)
    ensures CheckAccess(d | extra, g) == CheckAccess(d, g)
    ensures CheckAccess(d, g | extra) == CheckAccess(d, g)
  {
    assert (d | extra) & WriteRights == d & WriteRights;
    assert (g | extra) & WriteRights == g & WriteRights;
  }

  lemma GenericWriteIgnored(d: AccessMask)
    ensures CheckForReadOnlyAccess(d | GenericWrite) == CheckForReadOnlyAccess(d)
  {
    UnknownBitsIgnored(d, 0, GenericWrite);
  }

  /** A read-only request is allowed whatever was granted. */
  lemma ReadOnlyRequestAllowed(d: AccessMask, g: AccessMask)
    requires CheckForReadOnlyAccess(d)
    ensures CheckAccess(d, g)
  {
  }

  /** Growing a grant never turns an allowed request into a refused one. */
  lemma LargerGrantStillAllows(d: AccessMask, g: AccessMask, more: AccessMask)
    requires CheckAccess(d, g)
    ensures CheckAccess(d, g | more)
  {
    assert (g | more) & WriteRights == (g & WriteRights) | (more & WriteRights);
  }

  /**
    The check is not a subset test: a request for FILE_WRITE_DATA against a
    grant of DELETE alone is allowed, because the grant is not read-only.
  */
  lemma WriteDataAgainstDeleteAllowed()
    ensures CheckAccess(FileWriteData, Delete)
    ensures Delete & FileWriteData == 0
  {
  }

  /** WRITE_DAC, WRITE_OWNER and the EA and attribute write rights count as read-only. */
  lemma MetadataWritesCountAsReadOnly()
    ensures CheckForReadOnlyAccess(WriteDac | WriteOwner | FileWriteEa | FileWriteAttributes)
  {
  }
}
