/**
  Shared vocabulary of the redirector's name cache: status codes, file
  identifiers, UTF-16 names and the record the file server returns when it
  evaluates an object.
*/
module Types {

  datatype Option<T> = None | Some(value: T)

  /** A 32-bit Windows status code (NTSTATUS). */
  type NtStatus = bv32

  const StatusSuccess: NtStatus := 0x0000_0000
  const StatusUnsuccessful: NtStatus := 0xC000_0001
  const StatusInvalidParameter: NtStatus := 0xC000_000D
  const StatusObjectNameNotFound: NtStatus := 0xC000_0034
  const StatusInsufficientResources: NtStatus := 0xC000_009A
  const StatusCancelled: NtStatus := 0xC000_0120

  /** NT_SUCCESS: the status, read as a signed 32-bit value, is not negative. */
  predicate NtSuccess(s: NtStatus) {
    s & 0x8000_0000 == 0
  }

  /** AFSFileID: the four-part object identifier plus the server's hash of it. */
  datatype FileId = FileId(hash: bv32, cell: bv32, volume: bv32, vnode: bv32, unique: bv32)

  const ZeroFileId := FileId(0, 0, 0, 0, 0)

  /** A UTF-16 code unit (WCHAR) and a counted name made of them. */
  type WChar = bv16
  type Name = seq<WChar>

  /** The largest value of a USHORT, and so of a UNICODE_STRING byte length. */
  const MaxUShort: nat := 0xFFFF

  const Dot: WChar := 0x2E
  const AtSign: WChar := 0x40

  /** Upcasing of one code unit; only the ASCII letters are mapped. */
  function Upcase(c: WChar): (u: WChar)
    ensures 0x61 <= c <= 0x7A ==> u == c - 0x20
    ensures !(0x61 <= c <= 0x7A) ==> u == c
  {
    if 0x61 <= c <= 0x7A then c - 0x20 else c
  }

  function UpcaseName(s: Name): (r: Name)
    ensures |r| == |s|
    ensures forall i :: 0 <= i < |s| ==> r[i] == Upcase(s[i])
  {
    seq(|s|, i requires 0 <= i < |s| => Upcase(s[i]))
  }

  /** Case-insensitive comparison of two names (RtlCompareUnicodeString with CaseInSensitive). */
  predicate EqualIgnoringCase(a: Name, b: Name) {
    UpcaseName(a) == UpcaseName(b)
  }

  /** AFS_FILE_TYPE_* values. */
  const FileTypeUnknown: bv32 := 0
  const FileTypeFile: bv32 := 1
  const FileTypeDirectory: bv32 := 2
  const FileTypeSymLink: bv32 := 3
  const FileTypeMountPoint: bv32 := 4

  /** FILE_ATTRIBUTE_* bits used by the decoration rules. */
  const FileAttributeDirectory: bv32 := 0x0000_0010
  const FileAttributeReparsePoint: bv32 := 0x0000_0400

  /**
    AFSDirEnumEntry, and the same fields as they are kept in a directory
    entry's DirectoryEntry block.
  */
  datatype ObjectInfo = ObjectInfo(
    fileId: FileId,
    targetFileId: FileId,
    expiration: int,
    dataVersion: int,
    fileType: bv32,
    creationTime: int,
    lastAccessTime: int,
    lastWriteTime: int,
    changeTime: int,
    endOfFile: int,
    allocationSize: int,
    fileAttributes: bv32,
    eaSize: bv32,
    links: bv32)

  /** An enumeration record cleared to zero (RtlZeroMemory). */
  const ZeroInfo := ObjectInfo(ZeroFileId, ZeroFileId, 0, 0, 0, 0, 0, 0, 0, 0, 0, 0, 0, 0)

  /**
    What AFSEvaluateTargetByID hands back: a status and, when the status is
    a success, the evaluated record.
  */
  datatype EvalResult = EvalResult(status: NtStatus, info: ObjectInfo)

  /** The file server's evaluation of an object, as seen by this core. */
  type Evaluator = FileId -> EvalResult

  /** Index of a cache node (AFSFcb) and of a directory entry (AFSDirEntryCB) in the arena. */
  type FcbId = nat
  type DirId = nat
}
