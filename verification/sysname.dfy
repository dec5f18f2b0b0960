/**
  The @sys list: the names the user-mode service registers for the "@sys"
  path component (AFSSetSysNameInformation, AFSResetSysNameList) and the
  substitution of one of them into a component (AFSSubstituteSysName). The
  model is the 32-bit build, which keeps a single list.
*/
module SysName {
  import opened Types

  /** The architecture a notification is for (AFS_SYSNAME_ARCH_32BIT or another). */
  datatype Architecture = Arch32 | Arch64

  /** "@SYS", the component that is replaced whole. */
  const AtSys: Name := [0x40, 0x53, 0x59, 0x53]

  /**
    A name as stored in its list node: its byte length is cast to USHORT, so
    only the first (2|n| mod 65536) bytes, that is |n| mod 32768 code units, are kept.
  */
  function Stored(n: Name): (s: Name)
    ensures |n| < 32768 ==> s == n
    ensures s == n[..|n| % 32768]
  {
    n[..|n| % 32768]
  }

  /** The list AFSSetSysNameInformation builds from a notification, node by node in order. */
  function StoredList(names: seq<Name>): (l: seq<Name>)
    ensures |l| == |names|
    ensures forall k :: 0 <= k < |names| ==> l[k] == Stored(names[k])
  {
    seq(|names|, k requires 0 <= k < |names| => Stored(names[k]))
  }

  /** Position of the first '@' in s. */
  function FirstAt(s: Name): (j: nat)
    requires AtSign in s
    ensures j < |s| && s[j] == AtSign
    ensures forall i :: 0 <= i < j ==> s[i] != AtSign
  {
    if s[0] == AtSign then 0 else 1 + FirstAt(s[1..])
  }

  /** The list position StringIndex selects: 1-based, with 0 read as 1. */
  function Selected(stringIndex: nat): nat {
    if stringIndex <= 1 then 0 else stringIndex - 1
  }

  /** The replacement for a component: the whole name for "@SYS", else the part before '@' then the name. */
  function Substitution(component: Name, sysName: Name): Name
    requires AtSign in component
  {
    if EqualIgnoringCase(AtSys, component) then sysName
    else component[..FirstAt(component)] + sysName
  }

  /** The replacement's byte length can be held in the USHORT SubstituteName->Length. */
  predicate SubstitutionFits(component: Name, sysName: Name)
    requires AtSign in component
  {
    2 * |Substitution(component, sysName)| <= MaxUShort
  }

  /** The outcome of AFSSubstituteSysName as written, once a list node is selected. */
  datatype SysSubstituted =
    | Substituted(buffer: Name, length: nat)   // SubstituteName, its Length in bytes
    | NotSubstituted(status: NtStatus)
    | Overrun                                  // the copies write past the allocated buffer

  /**
    AFSSubstituteSysName as written, for the selected name sysName (whose
    byte length is a USHORT). SubstituteName->Length is a USHORT too: the
    prefix and the name together are cut to 16 bits, the buffer is allocated
    with that many bytes, and both copies are made in full.
  */
  function SubstituteSysNameAsWritten(component: Name, sysName: Name, allocOk: bool): (r: SysSubstituted)
    requires AtSign in component
    requires 2 * |sysName| <= MaxUShort
    ensures r.Substituted? ==> r.buffer == Substitution(component, sysName) && r.length == 2 * |r.buffer|
    ensures r.Substituted? <==> allocOk && SubstitutionFits(component, sysName)
    ensures r.Overrun? <==> allocOk && !SubstitutionFits(component, sysName)
  {
    var copied := 2 * |Substitution(component, sysName)|;
    var length := copied % 0x1_0000;
    if !allocOk then NotSubstituted(StatusInsufficientResources)
    else if copied > length then Overrun
    else Substituted(Substitution(component, sysName), length)
  }

  /** The control device's 32-bit sysname list (SysName32ListHead), as the sequence of its names. */
  class SysNameLists {
    var sysName32: seq<Name>

    constructor ()
      ensures sysName32 == []
    {
      sysName32 := [];
    }

    /** AFSResetSysNameList followed by the caller clearing the head: every node is released. */
    method ResetSysNameList()
      modifies this
      ensures sysName32 == []
    {
      sysName32 := [];
    }

    /**
      AFSSetSysNameInformation. failAt is the index of the first name whose
      node allocation fails, if any.
    */
    method SetSysNameInformation(arch: Architecture, names: seq<Name>, failAt: Option<nat>)
      returns (status: NtStatus)
      modifies this
      ensures arch != Arch32 ==> status == StatusInvalidParameter && sysName32 == old(sysName32)
      ensures arch == Arch32 && failAt.Some? && failAt.value < |names| ==>
                status == StatusInsufficientResources && sysName32 == []
      ensures arch == Arch32 && !(failAt.Some? && failAt.value < |names|) ==>
                status == StatusSuccess && sysName32 == StoredList(names)
    {
      if arch != Arch32 {
        return StatusInvalidParameter;
      }
      if sysName32 != [] {
        ResetSysNameList();
      }
      var i := 0;
      while i < |names|
        invariant 0 <= i <= |names|
        invariant sysName32 == StoredList(names[..i])
        invariant failAt.Some? && failAt.value < i ==> false
      {
        if failAt == Some(i) {
          ResetSysNameList();
          return StatusInsufficientResources;
        }
        sysName32 := sysName32 + [Stored(names[i])];
        i := i + 1;
      }
      assert names[..i] == names;
      status := StatusSuccess;
    }

    /**
      AFSSubstituteSysName, 32-bit build. The component must contain an '@'
      (it is an @sys component); allocOk is the outcome of the allocation of
      the substitute's buffer. A substitute whose byte length does not fit a
      USHORT is refused before anything is allocated.
    */
    method SubstituteSysName(component: Name, stringIndex: nat, allocOk: bool)
      returns (status: NtStatus, substitute: Name)
      requires AtSign in component
      ensures Selected(stringIndex) >= |sysName32| ==>
                status == StatusObjectNameNotFound && substitute == []
      ensures Selected(stringIndex) < |sysName32| &&
              !(allocOk && SubstitutionFits(component, sysName32[Selected(stringIndex)])) ==>
                status == StatusInsufficientResources && substitute == []
      ensures Selected(stringIndex) < |sysName32| && allocOk &&
              SubstitutionFits(component, sysName32[Selected(stringIndex)]) ==>
                status == StatusSuccess &&
                substitute == Substitution(component, sysName32[Selected(stringIndex)])
      ensures NtSuccess(status) ==> 2 * |substitute| <= MaxUShort
    {
      var node := 0;
      var index := 1;
      while node < |sysName32| && index < stringIndex
        invariant 0 <= node <= |sysName32|
        invariant index == node + 1
        invariant node <= Selected(stringIndex)
        invariant node < Selected(stringIndex) ==> index < stringIndex
      {
        node := node + 1;
        index := index + 1;
      }
      if node == |sysName32| {
        return StatusObjectNameNotFound, [];
      }
      var sysName := sysName32[node];
      var prefix: Name := [];
      if !EqualIgnoringCase(AtSys, component) {
        var at := 0;
        while component[at] != AtSign
          invariant 0 <= at <= FirstAt(component)
          decreases FirstAt(component) - at
        {
          at := at + 1;
        }
        prefix := component[..at];
      }
      if 2 * (|prefix| + |sysName|) > MaxUShort || !allocOk {
        return StatusInsufficientResources, [];
      }
      substitute := prefix + sysName;
      status := StatusSuccess;
    }
  }

  /** Names short enough for a USHORT byte length are stored unchanged, so the list reads back as given. */
  lemma StoredListRoundTrip(names: seq<Name>)
    requires forall k :: 0 <= k < |names| ==> |names[k]| < 32768
    ensures StoredList(names) == names
  {
  }

  /** A longer name is cut: one of 32768 code units is stored as the empty name. */
  lemma LongNameTruncated(n: Name)
    requires |n| == 32768
    ensures Stored(n) == []
  {
  }

  /** For "@sys" itself the general rule (prefix before '@', then the name) gives the same result as the special case. */
  lemma {:induction false} AtSysCaseAgreesWithGeneralRule(component: Name, sysName: Name)
    requires EqualIgnoringCase(AtSys, component)
    ensures AtSign in component
    ensures Substitution(component, sysName) == component[..FirstAt(component)] + sysName
  {
    assert UpcaseName(component)[0] == UpcaseName(AtSys)[0] == AtSign;
    assert component[0] == AtSign;
    assert FirstAt(component) == 0;
  }

  /** A component written in any letter case is replaced whole. */
  lemma AnyCaseOfAtSysReplacedWhole(sysName: Name)
    ensures Substitution([0x40, 0x73, 0x79, 0x73], sysName) == sysName
    ensures Substitution([0x40, 0x53, 0x79, 0x53], sysName) == sysName
  {
    assert UpcaseName([0x40, 0x73, 0x79, 0x73]) == AtSys;
    assert UpcaseName([0x40, 0x53, 0x79, 0x53]) == AtSys;
    assert UpcaseName(AtSys) == AtSys;
  }

  /**
    A name of 32767 units is stored whole, but substituted after the one-unit
    prefix of "a@sys" its byte length is 2 + 65534 = 65536, which the USHORT
    Length holds as 0: the buffer is allocated empty and 65536 bytes are
    copied into it. The intended substitution refuses it.
  */
  lemma SubstituteLengthWraps(sysName: Name)
    requires |sysName| == 32767
    ensures Stored(sysName) == sysName
    ensures SubstituteSysNameAsWritten([0x61, 0x40, 0x73, 0x79, 0x73], sysName, true) == Overrun
    ensures !SubstitutionFits([0x61, 0x40, 0x73, 0x79, 0x73], sysName)
  {
    var component: Name := [0x61, 0x40, 0x73, 0x79, 0x73];
    assert !EqualIgnoringCase(AtSys, component) by {
      assert |UpcaseName(AtSys)| != |UpcaseName(component)|;
    }
    assert FirstAt(component) == 1 by {
      assert component[1..][0] == AtSign;
    }
  }
}
