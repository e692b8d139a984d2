// Byte decoding and name tables of the NTFS explorer (Source/NTFS/Utility.*).

module NtfsUtility {
  import opened Bytes

  /** The value `Convert2LE` yields: `size` bytes from `offset`, least significant
      first, accumulated in an unsigned 64-bit integer. */
  function Field(buffer: seq<byte>, offset: nat, size: nat): (v: nat)
    requires offset + size <= |buffer|
    ensures v < TWO_64
    ensures size == 0 ==> v == 0
  {
    LittleEndian(buffer[offset..offset + size]) % TWO_64
  }

  /** Up to eight bytes fit in the accumulator, so nothing is lost. */
  lemma FieldExact(buffer: seq<byte>, offset: nat, size: nat)
    requires offset + size <= |buffer| && size <= 8
    ensures Field(buffer, offset, size) == LittleEndian(buffer[offset..offset + size])
    ensures Field(buffer, offset, size) < Pow256(size)
  {
    var s := buffer[offset..offset + size];
    LittleEndianBound(s);
    Pow256Monotone(size, 8);
    Pow256Values();
    ModUnique(LittleEndian(s), 0, LittleEndian(s), TWO_64);
  }

  /** A field written with the little-endian encoding reads back as the value written,
      whatever surrounds it. */
  lemma FieldOfEncoded(prefix: seq<byte>, v: nat, size: nat, suffix: seq<byte>)
    requires size <= 8 && v < Pow256(size)
    ensures var buffer := prefix + LittleEndianBytes(v, size) + suffix;
      |prefix| + size <= |buffer| && Field(buffer, |prefix|, size) == v
  {
    var buffer := prefix + LittleEndianBytes(v, size) + suffix;
    assert buffer[|prefix|..|prefix| + size] == LittleEndianBytes(v, size);
    ReadEncoded(v, size);
    FieldExact(buffer, |prefix|, size);
  }

  /** Convert2LE: the loop runs from the last byte down, shifting the accumulator
      left by eight bits each time. */
  method Convert2LE(buffer: seq<byte>, offset: nat, size: nat) returns (result: nat)
    requires offset + size <= |buffer|
    ensures result == Field(buffer, offset, size)
  {
    result := 0;
    var i: int := size - 1;
    while i >= 0
      invariant -1 <= i < size
      invariant result == LittleEndian(buffer[offset + i + 1..offset + size]) % TWO_64
      decreases i + 1
    {
      assert buffer[offset + i..offset + size][1..] == buffer[offset + i + 1..offset + size];
      ModStep(LittleEndian(buffer[offset + i + 1..offset + size]), buffer[offset + i], TWO_64);
      result := (result * 256 + buffer[offset + i]) % TWO_64;
      i := i - 1;
    }
  }

  /** The attribute type codes of the enumeration: the multiples of 0x10 from 0x10 to 0x100. */
  predicate KnownAttributeType(t: nat) {
    t % 0x10 == 0 && 0x10 <= t <= 0x100
  }

  /** ConvertAttributeTypeToString. */
  function AttributeTypeName(t: nat): (name: string)
    ensures |name| > 1 && name[0] == '$'
    ensures name == "$UNKNOWN" <==> !KnownAttributeType(t)
  {
    if t == 0x10 then "$STANDARD_INFORMATION"
    else if t == 0x20 then "$ATTRIBUTE_LIST"
    else if t == 0x30 then "$FILE_NAME"
    else if t == 0x40 then "$OBJECT_ID"
    else if t == 0x50 then "$SECURITY_DESCRIPTOR"
    else if t == 0x60 then "$VOLUME_NAME"
    else if t == 0x70 then "$VOLUME_INFORMATION"
    else if t == 0x80 then "$DATA"
    else if t == 0x90 then "$INDEX_ROOT"
    else if t == 0xA0 then "$INDEX_ALLOCATION"
    else if t == 0xB0 then "$BITMAP"
    else if t == 0xC0 then "$REPARSE_POINT"
    else if t == 0xD0 then "$EA_INFORMATION"
    else if t == 0xE0 then "$EA"
    else if t == 0xF0 then "$PROPERTY_SET"
    else if t == 0x100 then "$LOGGED_UTILITY_STREAM"
    else "$UNKNOWN"
  }

  /** Distinct known types get distinct names, so the name identifies the type. */
  lemma AttributeTypeNameInjective(a: nat, b: nat)
    requires KnownAttributeType(a) && KnownAttributeType(b)
    requires AttributeTypeName(a) == AttributeTypeName(b)
    ensures a == b
  {
    var n := AttributeTypeName(a);
    assert |n| > 2;
    assert n[1] == AttributeTypeName(b)[1];
  }

  /** The three low flag bits of $STANDARD_INFORMATION, as words. */
  function FlagWords(flags: nat): seq<string> {
    (if flags % 2 == 1 then ["Read Only"] else [])
    + (if flags / 2 % 2 == 1 then ["Hidden"] else [])
    + (if flags / 4 % 2 == 1 then ["System"] else [])
  }

  function Joined(words: seq<string>): string
    decreases |words|
  {
    if |words| == 0 then ""
    else if |words| == 1 then words[0]
    else words[0] + ", " + Joined(words[1..])
  }

  /** ConvertStandardInformationFlagsToString. */
  function FlagsName(flags: nat): (name: string)
    ensures name == "Unknown" <==> !(flags < 8 || flags == 0x20)
  {
    if flags == 0x0000 then "Directory"
    else if flags == 0x0001 then "Read Only"
    else if flags == 0x0002 then "Hidden"
    else if flags == 0x0003 then "Read Only, Hidden"
    else if flags == 0x0004 then "System"
    else if flags == 0x0005 then "Read Only, System"
    else if flags == 0x0006 then "Hidden, System"
    else if flags == 0x0007 then "Read Only, Hidden, System"
    else if flags == 0x0020 then "Archive"
    else "Unknown"
  }

  /** For the combinations of read-only, hidden and system the name lists exactly the
      bits that are set, in bit order, separated by a comma. */
  lemma FlagsNameListsBits(flags: nat)
    requires 1 <= flags < 8
    ensures FlagsName(flags) == Joined(FlagWords(flags))
  {
    assert Joined(["Hidden", "System"]) == "Hidden, System";
    assert Joined(["Read Only", "System"]) == "Read Only, System";
    assert Joined(["Read Only", "Hidden"]) == "Read Only, Hidden";
    assert Joined(["Read Only", "Hidden", "System"]) == "Read Only, Hidden, System";
  }
}
