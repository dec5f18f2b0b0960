/**
  AFSSubstituteNameInPath: replaces one component of a path (a counted
  UNICODE_STRING) by another name, in the path's own buffer when it has room
  and in a new buffer otherwise. Lengths in UNICODE_STRING are byte counts
  held in a USHORT; the model keeps the text as code units and the lengths
  in bytes, as the source does.

  SubstituteNameInPath is the behaviour the routine is written to have (the
  component replaced by the substitute in either buffer, and a new buffer
  that holds the new name); SubstituteNameInPathAsWritten follows the
  source's arithmetic, which places the substitute at the wrong offset in the
  in-place branch and may size the new buffer below the new name.
*/
module PathSubstitution {
  import opened Types

  /** PAGE_SIZE on x86 and x64. */
  const PageSize: nat := 4096

  datatype Substituted =
    | InPlace(buffer: seq<WChar>, length: nat)                          // the caller's buffer, rewritten
    | Reallocated(buffer: seq<WChar>, length: nat, maximumLength: nat)  // a fresh buffer
    | Failed(status: NtStatus)
    | Overrun                                                           // a copy would write past its buffer

  /** The path with the count units at start replaced by sub. */
  function Spliced(path: Name, start: nat, count: nat, sub: Name): (p: Name)
    requires start + count <= |path|
    ensures |p| == |path| - count + |sub|
    ensures p[..start] == path[..start]
    ensures p[start..start + |sub|] == sub
    ensures p[start + |sub|..] == path[start + count..]
  {
    path[..start] + sub + path[start + count..]
  }

  /**
    The substitution as intended. path is the string's current text, whose
    byte length is 2|path| and whose buffer holds maxLength bytes; the
    component is the count units at start; allocOk is the outcome of the
    allocation of a new buffer. A name longer than a USHORT can count is
    refused.
  */
  function SubstituteNameInPath(path: Name, maxLength: nat, start: nat, count: nat, sub: Name,
                                allocOk: bool): (r: Substituted)
    requires 2 * |path| <= maxLength <= MaxUShort
    requires start + count <= |path|
    requires 2 * |sub| <= MaxUShort
    ensures !r.Overrun?
    ensures r.InPlace? <==> maxLength > 2 * (|path| - count + |sub|)
    ensures r.InPlace? || r.Reallocated? ==>
              r.buffer == Spliced(path, start, count, sub) && r.length == 2 * |r.buffer|
    ensures r.InPlace? ==> r.length < maxLength
    ensures r.Reallocated? ==> r.length <= r.maximumLength <= MaxUShort && maxLength < r.maximumLength
    ensures r.Failed? ==> r.status == StatusInsufficientResources
    ensures r.Failed? <==> !r.InPlace? && (!allocOk || 2 * (|path| - count + |sub|) > MaxUShort)
  {
    var newText := Spliced(path, start, count, sub);
    var newLength := 2 * |newText|;
    if maxLength > newLength then InPlace(newText, newLength)
    else if newLength > MaxUShort || !allocOk then Failed(StatusInsufficientResources)
    else
      var maximumLength := if newLength + PageSize <= MaxUShort then newLength + PageSize else MaxUShort;
      Reallocated(newText, newLength, maximumLength)
  }

  /** Putting the original component back where the substitute went restores the path. */
  lemma SubstituteBack(path: Name, maxLength: nat, start: nat, count: nat, sub: Name)
    requires 2 * |path| <= maxLength <= MaxUShort
    requires start + count <= |path|
    requires 2 * |sub| <= MaxUShort
    requires SubstituteNameInPath(path, maxLength, start, count, sub, true).InPlace?
    ensures Spliced(SubstituteNameInPath(path, maxLength, start, count, sub, true).buffer,
                    start, |sub|, path[start..start + count]) == path
  {
    var p := Spliced(path, start, count, sub);
    var back := Spliced(p, start, |sub|, path[start..start + count]);
    assert back == path[..start] + path[start..start + count] + path[start + count..];
    assert path == path[..start] + path[start..start + count] + path[start + count..];
  }

  /** A component replaced by itself leaves the text unchanged. */
  lemma SelfSubstitutionKeepsText(path: Name, maxLength: nat, start: nat, count: nat, allocOk: bool)
    requires 2 * |path| < maxLength <= MaxUShort
    requires start + count <= |path|
    ensures SubstituteNameInPath(path, maxLength, start, count, path[start..start + count], allocOk)
              == InPlace(path, 2 * |path|)
  {
    assert path == path[..start] + path[start..start + count] + path[start + count..];
  }

  /** buf with the n units at src copied over the n units at dst, as RtlMoveMemory does. */
  function Moved(buf: seq<WChar>, dst: nat, src: nat, n: nat): (b: seq<WChar>)
    requires dst + n <= |buf| && src + n <= |buf|
    ensures |b| == |buf|
    ensures b[dst..dst + n] == buf[src..src + n]
  {
    buf[..dst] + buf[src..src + n] + buf[dst + n..]
  }

  /**
    AFSSubstituteNameInPath as written. buffer is the whole allocation of the
    path (maxLength bytes), pathLength its text in units, prefix the
    component's offset from the start of the buffer (a pointer difference,
    in units), count the component's length in units.

    In place, the prefix is used as a byte count without being doubled and
    one unit is added to every index. A new buffer is given the old
    MaximumLength plus PAGE_SIZE, cast to USHORT, whatever the new length.
  */
  function SubstituteNameInPathAsWritten(buffer: seq<WChar>, pathLength: nat, maxLength: nat,
                                         prefix: nat, count: nat, sub: Name, allocOk: bool): (r: Substituted)
    requires |buffer| == maxLength / 2 && maxLength <= MaxUShort
    requires prefix + count <= pathLength <= |buffer|
    requires 2 * |sub| <= MaxUShort
    ensures r.InPlace? ==> |r.buffer| == |buffer|
    ensures r.Reallocated? ==> r.maximumLength == (maxLength + PageSize) % 0x1_0000
  {
    var fullLength := 2 * pathLength;
    var compLength := 2 * count;
    var subLength := 2 * |sub|;
    var newLength := fullLength - compLength + subLength;
    if maxLength > newLength then
      var moved :=
        if fullLength > prefix + compLength then
          var dst := (prefix + subLength) / 2 + 1;
          var src := (prefix + compLength) / 2 + 1;
          var n := (fullLength - prefix - compLength) / 2;
          if dst + n <= |buffer| && src + n <= |buffer| then Some(Moved(buffer, dst, src, n)) else None
        else Some(buffer);
      var at := prefix / 2 + 1;
      if moved.None? || at + |sub| > |buffer| then Overrun
      else InPlace(moved.value[..at] + sub + moved.value[at + |sub|..], newLength)
    else
      var newMax := (maxLength + PageSize) % 0x1_0000;
      if !allocOk then Failed(StatusInsufficientResources)
      else if newLength > newMax then Overrun
      else
        var text := Spliced(buffer[..pathLength], prefix, count, sub);
        Reallocated(text + seq(newMax / 2 - |text|, _ => 0), newLength % 0x1_0000, newMax)
  }

  /**
    In place, a component at the very start of the path is overwritten from
    its second unit on: "@sys" with room to spare and substitute "xy" reads
    "@x" afterwards instead of "xy".
  */
  lemma InPlaceMisplacesSubstitute()
    ensures var buffer: seq<WChar> := [0x40, 0x73, 0x79, 0x73, 0, 0, 0, 0, 0, 0];
            var r := SubstituteNameInPathAsWritten(buffer, 4, 20, 0, 4, [0x78, 0x79], true);
            r.InPlace? && r.length == 4 && r.buffer[..2] == [0x40, 0x78]
    ensures SubstituteNameInPath([0x40, 0x73, 0x79, 0x73], 20, 0, 4, [0x78, 0x79], true)
              == InPlace([0x78, 0x79], 4)
  {
    var buffer: seq<WChar> := [0x40, 0x73, 0x79, 0x73, 0, 0, 0, 0, 0, 0];
    var sub: Name := [0x78, 0x79];
    var after := buffer[..1] + sub + buffer[3..];
    assert after[..2] == [0x40, 0x78];
    var path: Name := [0x40, 0x73, 0x79, 0x73];
    assert Spliced(path, 0, 4, sub) == sub;
  }

  /**
    A substitute longer than a page plus the free room overruns the new
    buffer: a full 100-unit path whose 4-unit component becomes 2100 units
    needs 4392 bytes but gets 4296.
  */
  lemma ReallocationSmallerThanName(buffer: seq<WChar>, sub: Name)
    requires |buffer| == 100 && |sub| == 2100
    ensures SubstituteNameInPathAsWritten(buffer, 100, 200, 10, 4, sub, true) == Overrun
    ensures SubstituteNameInPath(buffer, 200, 10, 4, sub, true).Reallocated?
  {
  }

  /**
    Near the USHORT limit the new MaximumLength wraps: a 62000-byte buffer
    grows to (62000 + 4096) mod 65536 = 560 bytes, and the 62990-byte name
    copied into it overruns it.
  */
  lemma ReallocationSizeWraps(buffer: seq<WChar>, sub: Name)
    requires |buffer| == 31000 && |sub| == 1000
    ensures SubstituteNameInPathAsWritten(buffer, 30500, 62000, 100, 5, sub, true) == Overrun
    ensures SubstituteNameInPath(buffer[..30500], 62000, 100, 5, sub, true).Reallocated?
  {
  }
}
