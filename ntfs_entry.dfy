// MFT entries of the NTFS explorer (Source/NTFS/Entry.cpp and Entry.h): the attribute
// headers, the walk over the attribute list up to its 0xFFFFFFFF terminator, the three
// attribute kinds whose contents are decoded, and the queries on a decoded entry.

module NtfsEntry {
  import opened Bytes
  import opened NtfsUtility

  const STANDARD_INFORMATION := 0x10
  const FILE_NAME := 0x30
  const DATA := 0x80
  /** The type field that ends an entry's attribute list. */
  const END_OF_ATTRIBUTES := 0xFFFF_FFFF
  /** Bytes of a resident attribute header that ReadAttributeHeader decodes. */
  const HEADER_SIZE := 0x16
  /** Bytes of the entry header that ReadEntry decodes (up to the 4-byte id at 0x2C). */
  const ENTRY_HEADER_SIZE := 0x30
  const NOT_TEXT := "This file is not a text file. Pls use another method to read the content of the file."
  const UNKNOWN := "Unknown"

  datatype Header = Header(
    kind: nat,
    sizeOfAttribute: nat,
    isNonResident: bool,
    nameLength: nat,
    nameOffset: nat,
    flags: nat,
    instance: nat,
    sizeOfContent: nat,
    startOffsetOfContent: nat)

  /** The decoded part of an attribute; every other type keeps only its header. */
  datatype Content =
    | StandardInformation(siFlags: nat)
    | FileName(parentDirectory: nat, namespaceType: nat, filename: string)
    | Data(data: seq<byte>)
    | Unknown

  datatype Attribute = Attribute(header: Header, content: Content)

  datatype Entry = Entry(
    startOffsetOfAttribute: nat,
    flags: nat,
    baseEntryRef: nat,
    id: nat,
    attributes: seq<Attribute>)

  /** How the walk over the attribute list ended: at the terminator, on a read past the
      end of the buffer, or on exhausting the bound on the number of attributes. */
  datatype WalkEnd = Terminated | Overrun | OutOfSteps

  // ---------------------------------------------------------------- headers

  predicate HeaderFits(buffer: seq<byte>, at: nat) {
    at + HEADER_SIZE <= |buffer|
  }

  /** Each header field's width, as declared in the Attribute class. */
  predicate InWidths(h: Header) {
    h.kind < TWO_32 && h.sizeOfAttribute < TWO_32 && h.nameLength < 256
    && h.nameOffset < TWO_16 && h.flags < TWO_16 && h.instance < TWO_16
    && h.sizeOfContent < TWO_32 && h.startOffsetOfContent < TWO_16
  }

  /** The header ReadAttributeHeader decodes at offset `at`. */
  function HeaderAt(buffer: seq<byte>, at: nat): (h: Header)
    requires HeaderFits(buffer, at)
    ensures InWidths(h)
  {
    FieldExact(buffer, at, 4);
    FieldExact(buffer, at + 0x04, 4);
    FieldExact(buffer, at + 0x09, 1);
    FieldExact(buffer, at + 0x0A, 2);
    FieldExact(buffer, at + 0x0C, 2);
    FieldExact(buffer, at + 0x0E, 2);
    FieldExact(buffer, at + 0x10, 4);
    FieldExact(buffer, at + 0x14, 2);
    Pow256Values();
    Header(
      Field(buffer, at, 4),
      Field(buffer, at + 0x04, 4),
      Field(buffer, at + 0x08, 1) != 0,
      Field(buffer, at + 0x09, 1),
      Field(buffer, at + 0x0A, 2),
      Field(buffer, at + 0x0C, 2),
      Field(buffer, at + 0x0E, 2),
      Field(buffer, at + 0x10, 4),
      Field(buffer, at + 0x14, 2))
  }

  /** ReadAttributeHeader. */
  method ReadAttributeHeader(buffer: seq<byte>, at: nat) returns (h: Header)
    requires HeaderFits(buffer, at)
    ensures h == HeaderAt(buffer, at)
  {
    var kind := Convert2LE(buffer, at + 0x00, 4);
    var size := Convert2LE(buffer, at + 0x04, 4);
    var nonResident := Convert2LE(buffer, at + 0x08, 1);
    var nameLength := Convert2LE(buffer, at + 0x09, 1);
    var nameOffset := Convert2LE(buffer, at + 0x0A, 2);
    var flags := Convert2LE(buffer, at + 0x0C, 2);
    var instance := Convert2LE(buffer, at + 0x0E, 2);
    var contentSize := Convert2LE(buffer, at + 0x10, 4);
    var contentOffset := Convert2LE(buffer, at + 0x14, 2);
    h := Header(kind, size, nonResident != 0, nameLength, nameOffset, flags, instance,
                contentSize, contentOffset);
  }

  /** The on-disk layout of a resident attribute header. */
  function EncodeHeader(h: Header): (s: seq<byte>)
    ensures |s| == HEADER_SIZE
  {
    LittleEndianBytes(h.kind, 4) + LittleEndianBytes(h.sizeOfAttribute, 4)
    + [if h.isNonResident then 1 else 0] + LittleEndianBytes(h.nameLength, 1)
    + LittleEndianBytes(h.nameOffset, 2) + LittleEndianBytes(h.flags, 2)
    + LittleEndianBytes(h.instance, 2) + LittleEndianBytes(h.sizeOfContent, 4)
    + LittleEndianBytes(h.startOffsetOfContent, 2)
  }

  lemma FieldIs(buffer: seq<byte>, at: nat, v: nat, size: nat)
    requires size <= 8 && v < Pow256(size) && at + size <= |buffer|
    requires buffer[at..at + size] == LittleEndianBytes(v, size)
    ensures Field(buffer, at, size) == v
  {
    ReadEncoded(v, size);
    FieldExact(buffer, at, size);
  }

  /** A field whose bytes, index by index, are the encoding of v reads as v. */
  lemma FieldOfBytes(buffer: seq<byte>, at: nat, v: nat, size: nat)
    requires size <= 8 && v < Pow256(size) && at + size <= |buffer|
    requires forall i :: 0 <= i < size ==> buffer[at + i] == LittleEndianBytes(v, size)[i]
    ensures Field(buffer, at, size) == v
  {
    assert buffer[at..at + size] == LittleEndianBytes(v, size);
    FieldIs(buffer, at, v, size);
  }

  /** Every header whose fields fit their widths reads back from its encoding. */
  lemma HeaderRoundTrip(h: Header, rest: seq<byte>)
    requires InWidths(h)
    ensures HeaderFits(EncodeHeader(h) + rest, 0)
    ensures HeaderAt(EncodeHeader(h) + rest, 0) == h
  {
    var b := EncodeHeader(h) + rest;
    Pow256Values();
    FieldOfBytes(b, 0x00, h.kind, 4);
    FieldOfBytes(b, 0x04, h.sizeOfAttribute, 4);
    assert b[0x08..0x09] == [if h.isNonResident then 1 else 0];
    FieldExact(b, 0x08, 1);
    assert LittleEndian(b[0x08..0x09]) == b[0x08];
    FieldOfBytes(b, 0x09, h.nameLength, 1);
    FieldOfBytes(b, 0x0A, h.nameOffset, 2);
    FieldOfBytes(b, 0x0C, h.flags, 2);
    FieldOfBytes(b, 0x0E, h.instance, 2);
    FieldOfBytes(b, 0x10, h.sizeOfContent, 4);
    FieldOfBytes(b, 0x14, h.startOffsetOfContent, 2);
  }

  /** GetEndOffsetOfAttribute: the end of the content, in 32-bit arithmetic. */
  function EndOffsetOfContent(h: Header): (e: nat)
    ensures e < TWO_32
    ensures h.startOffsetOfContent + h.sizeOfContent < TWO_32 ==> e - h.startOffsetOfContent == h.sizeOfContent
  {
    (h.startOffsetOfContent + h.sizeOfContent) % TWO_32
  }

  // ---------------------------------------------------------------- contents

  /** Characters outside the printable ASCII range of a name are shown as '.'. */
  function Printable(unit: nat): (c: char)
    ensures ' ' <= c <= '~'
    ensures 0x20 <= unit <= 0x7E ==> c as nat == unit
    ensures !(0x20 <= unit <= 0x7E) ==> c == '.'
  {
    if unit < 0x20 || unit > 0x7E then '.' else unit as char
  }

  /** The `n` two-byte name units from `start`, one character each. */
  function NameAt(buffer: seq<byte>, start: nat, n: nat): (name: string)
    requires start + 2 * n <= |buffer|
    ensures |name| == n
    ensures forall i :: 0 <= i < n ==> name[i] == Printable(Field(buffer, start + 2 * i, 2))
    decreases n
  {
    if n == 0 then ""
    else NameAt(buffer, start, n - 1) + [Printable(Field(buffer, start + 2 * (n - 1), 2))]
  }

  /** Whether the content of the attribute with header `h` at `at` lies inside the buffer. */
  predicate ContentFits(buffer: seq<byte>, at: nat, h: Header) {
    var base := at + h.startOffsetOfContent;
    if h.kind == STANDARD_INFORMATION then base + 0x24 <= |buffer|
    else if h.kind == FILE_NAME then
      base + 0x42 <= |buffer| && base + 0x42 + 2 * Field(buffer, base + 0x40, 1) <= |buffer|
    else if h.kind == DATA then base + h.sizeOfContent <= |buffer|
    else true
  }

  /** The content kind agrees with the header's type. */
  predicate Typed(a: Attribute) {
    (a.header.kind == STANDARD_INFORMATION <==> a.content.StandardInformation?)
    && (a.header.kind == FILE_NAME <==> a.content.FileName?)
    && (a.header.kind == DATA <==> a.content.Data?)
  }

  /** The content ReadAttributeContent decodes for the attribute with header `h` at `at`. */
  function ContentAt(buffer: seq<byte>, at: nat, h: Header): (c: Content)
    requires ContentFits(buffer, at, h)
    ensures Typed(Attribute(h, c))
  {
    var base := at + h.startOffsetOfContent;
    if h.kind == STANDARD_INFORMATION then
      StandardInformation(Field(buffer, base + 0x20, 4) % TWO_16)
    else if h.kind == FILE_NAME then
      FileName(Field(buffer, base, 6), Field(buffer, base + 65, 1),
               NameAt(buffer, base + 66, Field(buffer, base + 0x40, 1)))
    else if h.kind == DATA then
      Data(buffer[base..base + h.sizeOfContent])
    else
      Unknown
  }

  /** ReadFileName: the parent reference, the namespace and the name, unit by unit. */
  method ReadFileName(buffer: seq<byte>, at: nat, h: Header) returns (c: Content)
    requires h.kind == FILE_NAME && ContentFits(buffer, at, h)
    ensures c == ContentAt(buffer, at, h)
  {
    var base := at + h.startOffsetOfContent;
    var parent := Convert2LE(buffer, base + 0x00, 6);
    var nameLength := Convert2LE(buffer, base + 0x40, 1);
    var namespaceType := Convert2LE(buffer, base + 65, 1);
    var offset := base + 66;
    var filename := "";
    for i := 0 to nameLength
      invariant offset == base + 66 + 2 * i
      invariant filename == NameAt(buffer, base + 66, i)
    {
      var n := Convert2LE(buffer, offset, 2);
      if n < 0x20 || n > 0x7E {
        filename := filename + ".";
      } else {
        filename := filename + [n as char];
      }
      offset := offset + 2;
    }
    c := FileName(parent, namespaceType, filename);
  }

  /** ReadAttributeContent of the three decoded kinds (ReadStandardInformation, ReadFileName,
      ReadData); any other type has no content. */
  method ReadAttributeContent(buffer: seq<byte>, at: nat, h: Header) returns (c: Content)
    requires ContentFits(buffer, at, h)
    ensures c == ContentAt(buffer, at, h)
  {
    var base := at + h.startOffsetOfContent;
    if h.kind == STANDARD_INFORMATION {
      var flags := Convert2LE(buffer, base + 0x20, 4);
      c := StandardInformation(flags % TWO_16);
    } else if h.kind == FILE_NAME {
      c := ReadFileName(buffer, at, h);
    } else if h.kind == DATA {
      c := Data(buffer[base..base + h.sizeOfContent]);
    } else {
      c := Unknown;
    }
  }

  /** A $DATA attribute's content covers its declared size, up to GetEndOffsetOfAttribute. */
  lemma DataSpansContent(buffer: seq<byte>, at: nat, h: Header)
    requires h.kind == DATA && ContentFits(buffer, at, h) && InWidths(h)
    requires h.startOffsetOfContent + h.sizeOfContent < TWO_32
    ensures |ContentAt(buffer, at, h).data| == EndOffsetOfContent(h) - h.startOffsetOfContent
    ensures ContentAt(buffer, at, h).data
            == buffer[at + h.startOffsetOfContent..at + EndOffsetOfContent(h)]
  {
  }

  // ---------------------------------------------------------------- the attribute walk

  /** The offsets of the attributes from `at` on, each the previous one plus its size in
      32-bit arithmetic, and how the walk ends; `steps` bounds the number of attributes. */
  function AttributeOffsets(buffer: seq<byte>, at: nat, steps: nat): (r: (seq<nat>, WalkEnd))
    ensures |r.0| <= steps
    ensures forall k :: 0 <= k < |r.0| ==> HeaderFits(buffer, r.0[k])
    decreases steps
  {
    if at + 4 > |buffer| then ([], Overrun)
    else if Field(buffer, at, 4) == END_OF_ATTRIBUTES then ([], Terminated)
    else if steps == 0 then ([], OutOfSteps)
    else if !HeaderFits(buffer, at) then ([], Overrun)
    else
      var rest := AttributeOffsets(buffer, NextOffset(buffer, at), steps - 1);
      ([at] + rest.0, rest.1)
  }

  /** The offset of the attribute after the one at `at`: its size field added in 32-bit
      arithmetic. */
  function NextOffset(buffer: seq<byte>, at: nat): nat
    requires HeaderFits(buffer, at)
  {
    (at + Field(buffer, at + 0x04, 4)) % TWO_32
  }

  /** The walk starts at `at` and each offset follows from the previous one's size. */
  lemma {:induction false} OffsetsChain(buffer: seq<byte>, at: nat, steps: nat)
    ensures var offsets := AttributeOffsets(buffer, at, steps).0;
      (offsets != [] ==> offsets[0] == at)
      && forall k :: 0 <= k < |offsets| - 1 ==> offsets[k + 1] == NextOffset(buffer, offsets[k])
    decreases steps
  {
    var offsets := AttributeOffsets(buffer, at, steps).0;
    if offsets != [] {
      var next := NextOffset(buffer, at);
      OffsetsChain(buffer, next, steps - 1);
      var rest := AttributeOffsets(buffer, next, steps - 1).0;
      assert offsets == [at] + rest;
      forall k | 0 <= k < |offsets| - 1
        ensures offsets[k + 1] == NextOffset(buffer, offsets[k])
      {
        if k > 0 {
          assert offsets[k] == rest[k - 1] && offsets[k + 1] == rest[k];
        }
      }
    }
  }

  /** A walk that ends at the terminator found it right after the last attribute. */
  lemma {:induction false} WalkFindsTerminator(buffer: seq<byte>, at: nat, steps: nat)
    requires AttributeOffsets(buffer, at, steps).1 == Terminated
    ensures var offsets := AttributeOffsets(buffer, at, steps).0;
      var stop := if offsets == [] then at else NextOffset(buffer, offsets[|offsets| - 1]);
      stop + 4 <= |buffer| && Field(buffer, stop, 4) == END_OF_ATTRIBUTES
    decreases steps
  {
    var offsets := AttributeOffsets(buffer, at, steps).0;
    if offsets != [] {
      var next := NextOffset(buffer, at);
      WalkFindsTerminator(buffer, next, steps - 1);
      var rest := AttributeOffsets(buffer, next, steps - 1).0;
      assert offsets == [at] + rest;
      if rest != [] {
        assert offsets[|offsets| - 1] == rest[|rest| - 1];
      }
    }
  }

  /** An attribute of size zero that is not the terminator makes the walk spin in place
      until the bound runs out. */
  lemma {:induction false} ZeroSizeNeverTerminates(buffer: seq<byte>, at: nat, steps: nat)
    requires at < TWO_32 && HeaderFits(buffer, at)
    requires Field(buffer, at, 4) != END_OF_ATTRIBUTES && HeaderAt(buffer, at).sizeOfAttribute == 0
    ensures AttributeOffsets(buffer, at, steps).1 == OutOfSteps
    ensures |AttributeOffsets(buffer, at, steps).0| == steps
    decreases steps
  {
    if steps > 0 {
      assert NextOffset(buffer, at) == at;
      ZeroSizeNeverTerminates(buffer, at, steps - 1);
    }
  }

  /** When every header in the buffer has a positive size that does not wrap the offset,
      a bound of one step per remaining byte is never the reason the walk stops. */
  lemma {:induction false} WalkEndsWithinBuffer(buffer: seq<byte>, at: nat, steps: nat)
    requires forall j: nat :: HeaderFits(buffer, j) ==>
      (0 < HeaderAt(buffer, j).sizeOfAttribute && j + HeaderAt(buffer, j).sizeOfAttribute < TWO_32)
    requires steps >= |buffer| - at
    ensures AttributeOffsets(buffer, at, steps).1 != OutOfSteps
    decreases steps
  {
    if at + 4 <= |buffer| && Field(buffer, at, 4) != END_OF_ATTRIBUTES && HeaderFits(buffer, at) {
      var next := NextOffset(buffer, at);
      assert next > at;
      WalkEndsWithinBuffer(buffer, next, steps - 1);
    }
  }

  /** None of the offsets the walk yields holds the terminator. */
  lemma {:induction false} OffsetsSkipTerminator(buffer: seq<byte>, at: nat, steps: nat)
    ensures forall k :: 0 <= k < |AttributeOffsets(buffer, at, steps).0| ==>
      Field(buffer, AttributeOffsets(buffer, at, steps).0[k], 4) != END_OF_ATTRIBUTES
    decreases steps
  {
    var offsets := AttributeOffsets(buffer, at, steps).0;
    if at + 4 <= |buffer| && Field(buffer, at, 4) != END_OF_ATTRIBUTES && steps > 0 && HeaderFits(buffer, at) {
      var next := NextOffset(buffer, at);
      OffsetsSkipTerminator(buffer, next, steps - 1);
      var rest := AttributeOffsets(buffer, next, steps - 1).0;
      assert offsets == [at] + rest;
      forall k | 0 <= k < |offsets|
        ensures Field(buffer, offsets[k], 4) != END_OF_ATTRIBUTES
      {
        if k > 0 {
          assert offsets[k] == rest[k - 1];
        } else {
          assert offsets[k] == at;
        }
      }
    }
  }

  /** The walk ends here without another attribute. */
  lemma WalkStops(buffer: seq<byte>, at: nat, steps: nat, prefix: seq<nat>)
    requires at + 4 > |buffer| || Field(buffer, at, 4) == END_OF_ATTRIBUTES || steps == 0
             || !HeaderFits(buffer, at)
    ensures prefix + AttributeOffsets(buffer, at, steps).0 == prefix
    ensures AttributeOffsets(buffer, at, steps).1
            == if at + 4 > |buffer| then Overrun
               else if Field(buffer, at, 4) == END_OF_ATTRIBUTES then Terminated
               else if steps == 0 then OutOfSteps
               else Overrun
  {
    assert AttributeOffsets(buffer, at, steps).0 == [];
  }

  /** The walk records this attribute and goes on at the next one. */
  lemma WalkAdvances(buffer: seq<byte>, at: nat, steps: nat, prefix: seq<nat>)
    requires HeaderFits(buffer, at) && Field(buffer, at, 4) != END_OF_ATTRIBUTES && steps > 0
    ensures prefix + AttributeOffsets(buffer, at, steps).0
            == (prefix + [at]) + AttributeOffsets(buffer, NextOffset(buffer, at), steps - 1).0
    ensures AttributeOffsets(buffer, at, steps).1
            == AttributeOffsets(buffer, NextOffset(buffer, at), steps - 1).1
  {
    var rest := AttributeOffsets(buffer, NextOffset(buffer, at), steps - 1).0;
    assert AttributeOffsets(buffer, at, steps).0 == [at] + rest;
    assert prefix + ([at] + rest) == (prefix + [at]) + rest;
  }

  /** One step of ReadEntry's first loop: the header is read and the offset advanced by
      the attribute's size, in 32-bit arithmetic. */
  method FollowingAttribute(buffer: seq<byte>, at: nat) returns (next: nat)
    requires HeaderFits(buffer, at)
    ensures next == NextOffset(buffer, at)
  {
    var h := ReadAttributeHeader(buffer, at);
    next := (at + h.sizeOfAttribute) % TWO_32;
  }

  /** ReadEntry's first loop: collects the attribute offsets up to the terminator. */
  method WalkAttributes(buffer: seq<byte>, start: nat, maxAttributes: nat)
    returns (offsets: seq<nat>, end: WalkEnd)
    ensures (offsets, end) == AttributeOffsets(buffer, start, maxAttributes)
  {
    ghost var whole := AttributeOffsets(buffer, start, maxAttributes);
    offsets := [];
    var endOffset: nat := start;
    var steps: nat := maxAttributes;
    while true
      invariant whole.0 == offsets + AttributeOffsets(buffer, endOffset, steps).0
      invariant whole.1 == AttributeOffsets(buffer, endOffset, steps).1
      decreases steps
    {
      if endOffset + 4 > |buffer| {
        WalkStops(buffer, endOffset, steps, offsets);
        return offsets, Overrun;
      }
      var mark := Convert2LE(buffer, endOffset, 4);
      if mark == END_OF_ATTRIBUTES || steps == 0 || endOffset + HEADER_SIZE > |buffer| {
        WalkStops(buffer, endOffset, steps, offsets);
        end := if mark == END_OF_ATTRIBUTES then Terminated
               else if steps == 0 then OutOfSteps
               else Overrun;
        return;
      }
      var next := FollowingAttribute(buffer, endOffset);
      WalkAdvances(buffer, endOffset, steps, offsets);
      offsets := offsets + [endOffset];
      endOffset := next;
      steps := steps - 1;
    }
  }

  // ---------------------------------------------------------------- decoding

  /** The attribute decoded at offset `at`: the header read there and the content it describes. */
  predicate DecodedAt(buffer: seq<byte>, at: nat, a: Attribute)
    requires HeaderFits(buffer, at)
  {
    a.header == HeaderAt(buffer, at) && ContentFits(buffer, at, a.header)
    && a.content == ContentAt(buffer, at, a.header)
  }

  /** The attributes at the first `n` offsets, in order; decoding stops at the first one
      whose content runs past the buffer, and the flag says whether all of them fitted. */
  function DecodedUpTo(buffer: seq<byte>, offsets: seq<nat>, n: nat): (r: (seq<Attribute>, bool))
    requires n <= |offsets|
    requires forall k :: 0 <= k < |offsets| ==> HeaderFits(buffer, offsets[k])
    ensures |r.0| <= n && (r.1 ==> |r.0| == n)
    ensures forall k :: 0 <= k < |r.0| ==> DecodedAt(buffer, offsets[k], r.0[k])
    ensures forall k :: 0 <= k < |r.0| ==> Typed(r.0[k])
    decreases n
  {
    if n == 0 then ([], true)
    else
      var before := DecodedUpTo(buffer, offsets, n - 1);
      var at := offsets[n - 1];
      var h := HeaderAt(buffer, at);
      if !before.1 then before
      else if !ContentFits(buffer, at, h) then (before.0, false)
      else (before.0 + [Attribute(h, ContentAt(buffer, at, h))], true)
  }

  /** ReadEntry's second loop: each offset's header is read again and its content decoded
      according to its type. */
  method ReadAttributes(buffer: seq<byte>, offsets: seq<nat>) returns (attributes: seq<Attribute>, ok: bool)
    requires forall k :: 0 <= k < |offsets| ==> HeaderFits(buffer, offsets[k])
    ensures (attributes, ok) == DecodedUpTo(buffer, offsets, |offsets|)
  {
    attributes := [];
    ok := true;
    for i := 0 to |offsets|
      invariant (attributes, ok) == DecodedUpTo(buffer, offsets, i)
    {
      if ok {
        var h := ReadAttributeHeader(buffer, offsets[i]);
        if ContentFits(buffer, offsets[i], h) {
          var c := ReadAttributeContent(buffer, offsets[i], h);
          attributes := attributes + [Attribute(h, c)];
        } else {
          ok := false;
        }
      }
    }
  }

  /** The entry ReadEntry decodes from an MFT record, and how its attribute list ended. */
  function EntryOf(buffer: seq<byte>, maxAttributes: nat): (r: (Entry, WalkEnd))
    requires |buffer| >= ENTRY_HEADER_SIZE
    ensures r.0.startOffsetOfAttribute < TWO_16 && r.0.id < TWO_32
    ensures forall k :: 0 <= k < |r.0.attributes| ==> Typed(r.0.attributes[k])
    ensures r.1 == Terminated ==> |r.0.attributes| == |AttributeOffsets(buffer, r.0.startOffsetOfAttribute, maxAttributes).0|
  {
    FieldExact(buffer, 0x14, 2);
    FieldExact(buffer, 0x2C, 4);
    Pow256Values();
    var start := Field(buffer, 0x14, 2);
    var walk := AttributeOffsets(buffer, start, maxAttributes);
    var decoded := DecodedUpTo(buffer, walk.0, |walk.0|);
    (Entry(start, Field(buffer, 0x16, 2), Field(buffer, 0x20, 8), Field(buffer, 0x2C, 4), decoded.0),
     if decoded.1 then walk.1 else Overrun)
  }

  /** ReadEntry. */
  method ReadEntry(buffer: seq<byte>, maxAttributes: nat) returns (entry: Entry, end: WalkEnd)
    requires |buffer| >= ENTRY_HEADER_SIZE
    ensures (entry, end) == EntryOf(buffer, maxAttributes)
  {
    var start := Convert2LE(buffer, 0x14, 2);
    var flags := Convert2LE(buffer, 0x16, 2);
    var baseEntryRef := Convert2LE(buffer, 0x20, 8);
    var id := Convert2LE(buffer, 0x2C, 4);
    var offsets, walkEnd := WalkAttributes(buffer, start, maxAttributes);
    var attributes, ok := ReadAttributes(buffer, offsets);
    entry := Entry(start, flags, baseEntryRef, id, attributes);
    end := if ok then walkEnd else Overrun;
  }

  // ---------------------------------------------------------------- queries

  /** The index of the first attribute of the given type, or |attributes| when none is. */
  function FirstOfKind(attributes: seq<Attribute>, kind: nat): (i: nat)
    ensures i <= |attributes|
    ensures i < |attributes| ==> attributes[i].header.kind == kind
    ensures forall j :: 0 <= j < i ==> attributes[j].header.kind != kind
    decreases |attributes|
  {
    if |attributes| == 0 then 0
    else if attributes[0].header.kind == kind then 0
    else 1 + FirstOfKind(attributes[1..], kind)
  }

  /** The loop the queries share: the first attribute of a type. */
  method FindAttribute(attributes: seq<Attribute>, kind: nat) returns (i: nat)
    ensures i == FirstOfKind(attributes, kind)
  {
    i := 0;
    while i < |attributes| && attributes[i].header.kind != kind
      invariant i <= |attributes|
      invariant forall j :: 0 <= j < i ==> attributes[j].header.kind != kind
    {
      i := i + 1;
    }
  }

  function ParentOf(c: Content): nat {
    if c.FileName? then c.parentDirectory else 0
  }

  function FlagsOf(c: Content): nat {
    if c.StandardInformation? then c.siFlags else 0
  }

  function NameOf(c: Content): string {
    if c.FileName? then c.filename else ""
  }

  /** GetParentDirectory's value: the parent of the first $FILE_NAME, or 0. */
  function ParentDirectory(attributes: seq<Attribute>): nat {
    var i := FirstOfKind(attributes, FILE_NAME);
    if i < |attributes| then ParentOf(attributes[i].content) else 0
  }

  /** GetFileName's value: the name in the first $FILE_NAME, or "Unknown". */
  function FileNameOf(attributes: seq<Attribute>): string {
    var i := FirstOfKind(attributes, FILE_NAME);
    if i < |attributes| then NameOf(attributes[i].content) else UNKNOWN
  }

  /** GetStandardInformationFlags's value: the flags of the first $STANDARD_INFORMATION, or 0. */
  function StandardInformationFlags(attributes: seq<Attribute>): nat {
    var i := FirstOfKind(attributes, STANDARD_INFORMATION);
    if i < |attributes| then FlagsOf(attributes[i].content) else 0
  }

  method GetParentDirectory(entry: Entry) returns (parent: nat)
    ensures parent == ParentDirectory(entry.attributes)
    ensures (exists k :: 0 <= k < |entry.attributes| && entry.attributes[k].header.kind == FILE_NAME)
            || parent == 0
  {
    var i := FindAttribute(entry.attributes, FILE_NAME);
    parent := if i < |entry.attributes| then ParentOf(entry.attributes[i].content) else 0;
  }

  method GetFileName(entry: Entry) returns (name: string)
    ensures name == FileNameOf(entry.attributes)
    ensures (exists k :: 0 <= k < |entry.attributes| && entry.attributes[k].header.kind == FILE_NAME)
            || name == UNKNOWN
  {
    var i := FindAttribute(entry.attributes, FILE_NAME);
    name := if i < |entry.attributes| then NameOf(entry.attributes[i].content) else UNKNOWN;
  }

  method GetStandardInformationFlags(entry: Entry) returns (flags: nat)
    ensures flags == StandardInformationFlags(entry.attributes)
    ensures (exists k :: 0 <= k < |entry.attributes| && entry.attributes[k].header.kind == STANDARD_INFORMATION)
            || flags == 0
  {
    var i := FindAttribute(entry.attributes, STANDARD_INFORMATION);
    flags := if i < |entry.attributes| then FlagsOf(entry.attributes[i].content) else 0;
  }

  /** std::string::find of `part` in `s` succeeds. */
  predicate Contains(s: string, part: string) {
    exists k :: 0 <= k <= |s| - |part| && OccursAt(s, part, k)
  }

  predicate OccursAt(s: string, part: string, k: nat) {
    k + |part| <= |s| && s[k..k + |part|] == part
  }

  /** A $FILE_NAME attribute whose name does not contain ".txt". */
  predicate NotTextName(a: Attribute) {
    a.header.kind == FILE_NAME && !Contains(NameOf(a.content), ".txt")
  }

  function Chars(data: seq<byte>): (s: string)
    ensures |s| == |data| && forall k :: 0 <= k < |s| ==> s[k] as int == data[k]
  {
    seq(|data|, k requires 0 <= k < |data| => data[k] as char)
  }

  /** GetTextFileData's value. */
  function TextFileData(attributes: seq<Attribute>): string {
    if exists j :: 0 <= j < |attributes| && NotTextName(attributes[j]) then NOT_TEXT
    else
      var i := FirstOfKind(attributes, DATA);
      if i < |attributes| && attributes[i].content.Data? then Chars(attributes[i].content.data)
      else UNKNOWN
  }

  /** GetTextFileData: every name is checked for ".txt" before the first $DATA is shown. */
  method GetTextFileData(entry: Entry) returns (text: string)
    ensures text == TextFileData(entry.attributes)
  {
    var attributes := entry.attributes;
    for j := 0 to |attributes|
      invariant forall k :: 0 <= k < j ==> !NotTextName(attributes[k])
    {
      if attributes[j].header.kind == FILE_NAME && !Contains(NameOf(attributes[j].content), ".txt") {
        return NOT_TEXT;
      }
    }
    var i := FindAttribute(attributes, DATA);
    if i < |attributes| && attributes[i].content.Data? {
      text := Chars(attributes[i].content.data);
    } else {
      text := UNKNOWN;
    }
  }

  /** A name without ".txt" anywhere in the entry hides the data, whatever it holds. */
  lemma NonTextHidesData(attributes: seq<Attribute>, j: nat)
    requires j < |attributes| && attributes[j].header.kind == FILE_NAME
    requires !Contains(NameOf(attributes[j].content), ".txt")
    ensures TextFileData(attributes) == NOT_TEXT
  {
    assert NotTextName(attributes[j]);
  }

  /** When every name contains ".txt", the first $DATA's bytes are shown one character
      per byte; its absence shows "Unknown". */
  lemma TextShowsFirstData(attributes: seq<Attribute>)
    requires forall k :: 0 <= k < |attributes| ==> Typed(attributes[k]) && !NotTextName(attributes[k])
    ensures var i := FirstOfKind(attributes, DATA);
      var text := TextFileData(attributes);
      if i < |attributes| then
        attributes[i].content.Data? && |text| == |attributes[i].content.data|
        && forall k :: 0 <= k < |text| ==> text[k] as int == attributes[i].content.data[k]
      else text == UNKNOWN
  {
    var i := FirstOfKind(attributes, DATA);
    if i < |attributes| {
      assert Typed(attributes[i]);
    }
  }
}
