// The FAT32 explorer's Volume: boot-sector decoding, cluster arithmetic,
// the FAT chain walk, the 32-byte directory records, the directory map,
// and the cd path stack. Field offsets and formulas are those of
// Microsoft's FAT32 File System Specification, version 1.03 (sections
// "Boot Sector and BPB", "FAT Data Structure" and "FAT Directory
// Structure"). Device reads are parameters: the boot sector, the FAT, and
// the records ReadRdet leaves in Entry for a given start cluster.

module Fat32 {
  import opened Wrappers
  import opened Bytes
  import opened Console

  const BOOTSECTOR_SIZE := 512
  const ENTRY_SIZE := 32
  /** Cluster::ENDED, the FAT value the chain walk stops at. */
  const ENDED := 0x0FFF_FFFF

  const DIRECTORY: byte := 0x10
  const DELETED: byte := 0xE5
  const SPECIAL: byte := 0x0F
  const LONGNAME: byte := 0x7E
  const SPACE: byte := 0x20
  const DOT: byte := 0x2E

  // ---------------------------------------------------------------------
  // ExtractSector: a little-endian reading accumulated in a uint64
  // ---------------------------------------------------------------------

  /** What ExtractSector(sector, start, end) returns: bytes start..end inclusive, modulo 2^64. */
  function Extracted(sector: seq<byte>, start: int, end: int): (v: nat)
    requires end < start || (0 <= start && end < |sector|)
    ensures v < TWO_64
  {
    if end < start then 0 else LittleEndian(sector[start..end + 1]) % TWO_64
  }

  /** Up to eight bytes fit a uint64: the reading is exact. */
  lemma ExtractedExact(sector: seq<byte>, start: int, end: int)
    requires 0 <= start <= end < |sector| && end - start < 8
    ensures Extracted(sector, start, end) == LittleEndian(sector[start..end + 1])
  {
    LittleEndianBound(sector[start..end + 1]);
    Pow256Monotone(end + 1 - start, 8);
    Pow256Values();
  }

  /** ExtractSector: decimal := decimal * 256 + sector[i] for i from end down to start. */
  method ExtractSector(sector: seq<byte>, start: int, end: int) returns (decimal: nat)
    requires end < start || (0 <= start && end < |sector|)
    ensures decimal == Extracted(sector, start, end)
  {
    decimal := 0;
    var i := end;
    while i >= start
      invariant start <= end ==> start - 1 <= i <= end
      invariant end < start ==> i == end
      invariant start <= end ==> decimal == LittleEndian(sector[i + 1..end + 1]) % TWO_64
      invariant end < start ==> decimal == 0
      decreases i - start + 1
    {
      assert sector[i..end + 1][1..] == sector[i + 1..end + 1];
      ModStep(LittleEndian(sector[i + 1..end + 1]), sector[i], TWO_64);
      decimal := (decimal * 256 + sector[i]) % TWO_64;
      i := i - 1;
    }
  }

  // ---------------------------------------------------------------------
  // Cluster arithmetic (section "FAT Data Structure")
  // ---------------------------------------------------------------------

  /** RootDirSectors of the specification; 0 on FAT32, whose root entry count is 0. */
  function RootDirSectors(rootEntCnt: nat, bytsPerSec: nat): nat
    requires bytsPerSec > 0
  {
    (rootEntCnt * 32 + (bytsPerSec - 1)) / bytsPerSec
  }

  /** FirstDataSector and FirstSectorofCluster of the specification. */
  function FirstSectorOfCluster(n: nat, rsvdSecCnt: nat, numFats: nat, fatSz: nat, secPerClus: nat,
                                rootEntCnt: nat, bytsPerSec: nat): int
    requires bytsPerSec > 0
  {
    var firstDataSector := rsvdSecCnt + numFats * fatSz + RootDirSectors(rootEntCnt, bytsPerSec);
    (n - 2) * secPerClus + firstDataSector
  }

  // ---------------------------------------------------------------------
  // The FAT chain walk
  // ---------------------------------------------------------------------

  /**
   * The cluster GetRdetCluster moves to from c: bytes 4c..4c+4 of the FAT
   * (five of them) read into a uint64 and stored in a uint32; 4c is
   * computed in uint32. None when that reads outside the FAT, which the
   * source does not check.
   */
  function NextCluster(fat: seq<byte>, c: nat): (n: Option<nat>)
    ensures n.Some? ==> n.value < TWO_32
  {
    var i := (4 * c) % TWO_32;
    if i + 4 < |fat| then Some(Extracted(fat, i, i + 4) % TWO_32) else None
  }

  /** The fifth byte is lost in the store to a uint32: the next cluster is the 4-byte entry. */
  lemma NextIsFourByteEntry(fat: seq<byte>, c: nat)
    requires NextCluster(fat, c).Some?
    ensures var i := (4 * c) % TWO_32; NextCluster(fat, c).value == LittleEndian(fat[i..i + 4])
  {
    var i := (4 * c) % TWO_32;
    var five := fat[i..i + 5];
    assert five == fat[i..i + 4] + [fat[i + 4]];
    LittleEndianAppend(fat[i..i + 4], [fat[i + 4]]);
    LittleEndianBound(fat[i..i + 4]);
    Pow256Values();
    ExtractedExact(fat, i, i + 4);
    assert LittleEndian([fat[i + 4]]) == fat[i + 4] by {
      assert [fat[i + 4]][1..] == [];
    }
    ModUnique(LittleEndian(five), fat[i + 4], LittleEndian(fat[i..i + 4]), TWO_32);
  }

  datatype WalkEnd =
    | Ended        // the walk reached ENDED
    | BadRead      // the next entry lies outside the FAT
    | OutOfSteps   // the step bound ran out first

  /** The clusters GetRdetCluster pushes from c, within a bound on the number of steps. */
  function Walk(fat: seq<byte>, c: nat, steps: nat): (r: (seq<nat>, WalkEnd))
    ensures |r.0| <= steps
    decreases steps
  {
    if c == ENDED then ([], Ended)
    else if steps == 0 then ([], OutOfSteps)
    else match NextCluster(fat, c)
      case None => ([c], BadRead)
      case Some(n) => var (cs, e) := Walk(fat, n, steps - 1); ([c] + cs, e)
  }

  /**
   * The walk starts at c, follows the FAT from each cluster to the next,
   * never outputs ENDED, and when it ends normally the last cluster's
   * entry is ENDED.
   */
  lemma {:induction false} WalkFollowsFat(fat: seq<byte>, c: nat, steps: nat)
    ensures var (cs, e) := Walk(fat, c, steps);
      (cs != [] ==> cs[0] == c)
      && (forall i :: 0 <= i < |cs| ==> cs[i] != ENDED)
      && (forall i :: 0 <= i < |cs| - 1 ==> NextCluster(fat, cs[i]) == Some(cs[i + 1]))
      && (e == Ended && cs != [] ==> NextCluster(fat, cs[|cs| - 1]) == Some(ENDED))
      && (e == Ended && cs == [] ==> c == ENDED)
    decreases steps
  {
    if c != ENDED && steps > 0 && NextCluster(fat, c).Some? {
      var n := NextCluster(fat, c).value;
      WalkFollowsFat(fat, n, steps - 1);
      var (cs, e) := Walk(fat, n, steps - 1);
      assert forall i :: 1 <= i < |cs| + 1 ==> ([c] + cs)[i] == cs[i - 1];
    }
  }

  /** A walk that ended is not changed by a larger bound ... */
  lemma {:induction false} WalkStable(fat: seq<byte>, c: nat, steps: nat, more: nat)
    requires Walk(fat, c, steps).1 != OutOfSteps && steps <= more
    ensures Walk(fat, c, more) == Walk(fat, c, steps)
    decreases steps
  {
    if c != ENDED && NextCluster(fat, c).Some? {
      WalkStable(fat, NextCluster(fat, c).value, steps - 1, more - 1);
    }
  }

  /** ... while a cluster whose entry points to itself keeps the walk going whatever the bound. */
  lemma {:induction false} SelfLoopNeverEnds(fat: seq<byte>, c: nat, steps: nat)
    requires c != ENDED && NextCluster(fat, c) == Some(c)
    ensures Walk(fat, c, steps).1 == OutOfSteps
    decreases steps
  {
    if steps > 0 {
      SelfLoopNeverEnds(fat, c, steps - 1);
    }
  }

  // ---------------------------------------------------------------------
  // Directory records (section "FAT Directory Structure")
  // ---------------------------------------------------------------------

  /** A whole 32-byte record starts at start. */
  predicate HasRecord(entry: seq<byte>, start: nat) {
    start % ENTRY_SIZE == 0 && start + ENTRY_SIZE <= |entry|
  }

  /** IsFolder: DIR_Attr is exactly ATTR_DIRECTORY, so of the six attribute bits only D is set. */
  function IsFolder(entry: seq<byte>, start: nat): (r: bool)
    requires HasRecord(entry, start)
    ensures r ==> Bit(entry[start + 11], 4)
    ensures r ==> !Bit(entry[start + 11], 0) && !Bit(entry[start + 11], 1) && !Bit(entry[start + 11], 2)
                  && !Bit(entry[start + 11], 3) && !Bit(entry[start + 11], 5)
  {
    assert Pow2(5) == 32 && Pow2(4) == 16 && Pow2(3) == 8 && Pow2(2) == 4 && Pow2(1) == 2;
    entry[start + 11] == DIRECTORY
  }

  /** IsDeletedEntry: DIR_Name[0] is 0xE5, which is never the 0x00 end-of-directory mark. */
  function IsDeletedEntry(entry: seq<byte>, start: nat): (r: bool)
    requires HasRecord(entry, start)
    ensures r ==> entry[start] != 0x00
  {
    entry[start] == DELETED
  }

  /**
   * IsSpecialEntry: DIR_Attr is ATTR_LONG_NAME (0x0F), the read-only, hidden,
   * system and volume-id bits together; such a record is never a folder.
   */
  function IsSpecialEntry(entry: seq<byte>, start: nat): (r: bool)
    requires HasRecord(entry, start)
    ensures r ==> !IsFolder(entry, start)
    ensures r ==> Bit(entry[start + 11], 0) && Bit(entry[start + 11], 1) && Bit(entry[start + 11], 2)
                  && Bit(entry[start + 11], 3) && !Bit(entry[start + 11], 4) && !Bit(entry[start + 11], 5)
  {
    assert Pow2(5) == 32 && Pow2(4) == 16 && Pow2(3) == 8 && Pow2(2) == 4 && Pow2(1) == 2;
    entry[start + 11] == SPECIAL
  }

  /** IsLongNameEntry: byte 6 is '~', the mark of a generated "~N" short name. */
  function IsLongNameEntry(entry: seq<byte>, start: nat): (r: bool)
    requires HasRecord(entry, start)
    ensures r <==> entry[start + 6] as char == '~'
  {
    entry[start + 6] == LONGNAME
  }

  /** A record ExtractEntry names: neither deleted nor a long-name slot. */
  predicate Live(entry: seq<byte>, start: nat)
    requires HasRecord(entry, start)
  {
    !IsDeletedEntry(entry, start) && !IsSpecialEntry(entry, start)
  }

  /** (char)b for each byte. */
  function Chars(bs: seq<byte>): (s: string)
    ensures |s| == |bs|
    ensures forall i :: 0 <= i < |bs| ==> s[i] as int == bs[i]
  {
    if bs == [] then [] else Chars(bs[..|bs| - 1]) + [bs[|bs| - 1] as char]
  }

  /** The characters of the bytes other than spaces, in order. */
  function NonSpace(bs: seq<byte>): (s: string)
    ensures |s| <= |bs|
    ensures forall i :: 0 <= i < |s| ==> s[i] != ' '
  {
    if bs == [] then []
    else NonSpace(bs[..|bs| - 1]) + (if bs[|bs| - 1] == SPACE then [] else [bs[|bs| - 1] as char])
  }

  /** The '~' that marks a generated short name survives into the key the record is listed under. */
  lemma LongNameMarkKept(entry: seq<byte>, start: nat)
    requires HasRecord(entry, start) && IsLongNameEntry(entry, start)
    ensures '~' in ShortName(entry, start)
  {
    var base := NonSpace(entry[start..start + 8]);
    NonSpaceKeeps(entry[start..start + 8], 6);
    if !IsFolder(entry, start) {
      var i :| 0 <= i < |base| && base[i] == '~';
      assert ShortName(entry, start)[i] == '~';
    }
  }

  /** A byte other than a space survives into NonSpace. */
  lemma {:induction false} NonSpaceKeeps(bs: seq<byte>, i: nat)
    requires i < |bs| && bs[i] != SPACE
    ensures bs[i] as char in NonSpace(bs)
    decreases |bs|
  {
    if i < |bs| - 1 {
      NonSpaceKeeps(bs[..|bs| - 1], i);
    }
  }

  /**
   * The key ReadShortName stores: DIR_Name bytes 0..7 without spaces, then,
   * unless the record is a folder, '.' and bytes 8..10 as they are.
   */
  function ShortName(entry: seq<byte>, start: nat): (name: string)
    requires HasRecord(entry, start)
    ensures |name| <= 12
    ensures !IsFolder(entry, start) ==> |name| >= 4 && name[|name| - 4] == '.'
  {
    var base := NonSpace(entry[start..start + 8]);
    if IsFolder(entry, start) then base else base + "." + Chars(entry[start + 8..start + 11])
  }

  /** A file's key ends in '.' and its three extension bytes; a folder's key is its spaceless base name. */
  lemma ShortNameShape(entry: seq<byte>, start: nat)
    requires HasRecord(entry, start)
    ensures var name := ShortName(entry, start);
      (!IsFolder(entry, start) ==>
         |name| >= 4 && name[|name| - 4] == '.' && name[|name| - 3..] == Chars(entry[start + 8..start + 11]))
      && (IsFolder(entry, start) ==> ' ' !in name && |name| <= 8)
  {
  }

  /** A non-folder record whose extension bytes hold no '.' has exactly those bytes as its file extension. */
  lemma ShortNameExtension(entry: seq<byte>, start: nat)
    requires HasRecord(entry, start) && !IsFolder(entry, start)
    requires DOT !in entry[start + 8..start + 11]
    ensures GetFileExtension(ShortName(entry, start)) == Chars(entry[start + 8..start + 11])
  {
    var ext := Chars(entry[start + 8..start + 11]);
    var name := ShortName(entry, start);
    ShortNameShape(entry, start);
    assert '.' !in ext by {
      forall i | 0 <= i < 3
        ensures ext[i] != '.'
      {
        assert ext[i] as int == entry[start + 8..start + 11][i];
      }
    }
    var r := GetFileExtension(name);
    assert '.' in name by {
      assert name[|name| - 4] == '.';
    }
    SuffixAfterLastDot(name, ext, r);
  }

  /** The extension is the dot-free tail after the last '.'; a dot-free tail preceded by '.' is that tail. */
  lemma SuffixAfterLastDot(name: string, ext: string, r: string)
    requires |ext| < |name| && name[|name| - |ext|..] == ext && name[|name| - |ext| - 1] == '.'
    requires '.' !in ext
    requires r == GetFileExtension(name)
    ensures r == ext
  {
    assert '.' in name by {
      assert name[|name| - |ext| - 1] == '.';
    }
  }

  // ---------------------------------------------------------------------
  // The directory map ExtractEntry builds
  // ---------------------------------------------------------------------

  /** The name ReadLongName stores for the record at an offset; ReadLongName is not part of this model. */
  type LongNames = (seq<byte>, nat) -> string

  /** The key a live record gets: its long name when byte 6 is '~', else its short name. */
  function Key(entry: seq<byte>, longName: LongNames, start: nat): string
    requires HasRecord(entry, start)
  {
    if IsLongNameEntry(entry, start) then longName(entry, start) else ShortName(entry, start)
  }

  predicate WholeRecords(entry: seq<byte>) {
    |entry| % ENTRY_SIZE == 0
  }

  /** The map after the records before offset upto: each live record maps its key to its offset, later ones winning. */
  function ListingUpTo(entry: seq<byte>, longName: LongNames, upto: nat): (d: map<string, nat>)
    requires upto % ENTRY_SIZE == 0 && upto <= |entry|
    decreases upto
  {
    if upto == 0 then map[]
    else
      var s := upto - ENTRY_SIZE;
      var prev := ListingUpTo(entry, longName, s);
      if Live(entry, s) then prev[Key(entry, longName, s) := s] else prev
  }

  /** How many live records lie before offset upto. */
  function NamedUpTo(entry: seq<byte>, upto: nat): (n: nat)
    requires upto % ENTRY_SIZE == 0 && upto <= |entry|
    ensures n <= upto / ENTRY_SIZE
    decreases upto
  {
    if upto == 0 then 0
    else NamedUpTo(entry, upto - ENTRY_SIZE) + (if Live(entry, upto - ENTRY_SIZE) then 1 else 0)
  }

  function Listing(entry: seq<byte>, longName: LongNames): map<string, nat>
    requires WholeRecords(entry)
  {
    ListingUpTo(entry, longName, |entry|)
  }

  /** Every key maps to a live record with that key ... */
  lemma {:induction false} ListingSound(entry: seq<byte>, longName: LongNames, upto: nat, k: string)
    requires upto % ENTRY_SIZE == 0 && upto <= |entry|
    requires k in ListingUpTo(entry, longName, upto)
    ensures var s := ListingUpTo(entry, longName, upto)[k];
      s < upto && HasRecord(entry, s) && Live(entry, s) && Key(entry, longName, s) == k
    decreases upto
  {
    var s := upto - ENTRY_SIZE;
    if !(Live(entry, s) && Key(entry, longName, s) == k) {
      ListingSound(entry, longName, s, k);
    }
  }

  /** ... every live record's key is present, held by that record or a later one ... */
  lemma {:induction false} ListingComplete(entry: seq<byte>, longName: LongNames, upto: nat, s: nat)
    requires upto % ENTRY_SIZE == 0 && upto <= |entry|
    requires s < upto && HasRecord(entry, s) && Live(entry, s)
    ensures Key(entry, longName, s) in ListingUpTo(entry, longName, upto)
    ensures ListingUpTo(entry, longName, upto)[Key(entry, longName, s)] >= s
    decreases upto
  {
    if s < upto - ENTRY_SIZE {
      ListingComplete(entry, longName, upto - ENTRY_SIZE, s);
      ListingKeeps(entry, longName, upto, s);
    } else {
      SameRecord(s, upto - ENTRY_SIZE);
      ListingLast(entry, longName, upto);
    }
  }

  /** A key the records before the last one hold at an offset of at least s is still held so after it. */
  lemma ListingKeeps(entry: seq<byte>, longName: LongNames, upto: nat, s: nat)
    requires upto % ENTRY_SIZE == 0 && ENTRY_SIZE <= upto <= |entry|
    requires s < upto - ENTRY_SIZE && HasRecord(entry, s)
    requires Key(entry, longName, s) in ListingUpTo(entry, longName, upto - ENTRY_SIZE)
    requires ListingUpTo(entry, longName, upto - ENTRY_SIZE)[Key(entry, longName, s)] >= s
    ensures Key(entry, longName, s) in ListingUpTo(entry, longName, upto)
    ensures ListingUpTo(entry, longName, upto)[Key(entry, longName, s)] >= s
  {
    var t := upto - ENTRY_SIZE;
    ListingStep(entry, longName, upto);
    UpdateKeeps(ListingUpTo(entry, longName, t), ListingUpTo(entry, longName, upto), Live(entry, t),
                Key(entry, longName, s), s, Key(entry, longName, t), t);
  }

  /** One step of ListingUpTo: the last record, when live, sets its key to its offset. */
  lemma ListingStep(entry: seq<byte>, longName: LongNames, upto: nat)
    requires upto % ENTRY_SIZE == 0 && ENTRY_SIZE <= upto <= |entry|
    ensures var t := upto - ENTRY_SIZE;
      ListingUpTo(entry, longName, upto)
      == (if Live(entry, t) then ListingUpTo(entry, longName, t)[Key(entry, longName, t) := t]
          else ListingUpTo(entry, longName, t))
  {
  }

  /** The last record, when live, holds its own key. */
  lemma ListingLast(entry: seq<byte>, longName: LongNames, upto: nat)
    requires upto % ENTRY_SIZE == 0 && ENTRY_SIZE <= upto <= |entry|
    requires Live(entry, upto - ENTRY_SIZE)
    ensures Key(entry, longName, upto - ENTRY_SIZE) in ListingUpTo(entry, longName, upto)
    ensures ListingUpTo(entry, longName, upto)[Key(entry, longName, upto - ENTRY_SIZE)] == upto - ENTRY_SIZE
  {
  }

  /** Setting some key to a value at least s keeps a key already mapped to at least s. */
  lemma UpdateKeeps(m: map<string, nat>, m': map<string, nat>, update: bool, k: string, s: nat, k2: string, v: nat)
    requires k in m && m[k] >= s && v >= s
    requires m' == if update then m[k2 := v] else m
    ensures k in m' && m'[k] >= s
  {
  }

  /** Two record offsets less than a record apart are the same. */
  lemma SameRecord(s: nat, t: nat)
    requires s % ENTRY_SIZE == 0 && t % ENTRY_SIZE == 0 && t <= s < t + ENTRY_SIZE
    ensures s == t
  {
  }

  /** ... and there are no more keys than named records. */
  lemma {:induction false} ListingSize(entry: seq<byte>, longName: LongNames, upto: nat)
    requires upto % ENTRY_SIZE == 0 && upto <= |entry|
    ensures |ListingUpTo(entry, longName, upto)| <= NamedUpTo(entry, upto)
    decreases upto
  {
    if upto > 0 {
      ListingSize(entry, longName, upto - ENTRY_SIZE);
    }
  }

  // ---------------------------------------------------------------------
  // Dir's attribute column
  // ---------------------------------------------------------------------

  const ATTRIBUTE_LETTERS := " RHSVDA "

  function Pow2(k: nat): (p: nat)
    ensures p >= 1
  {
    if k == 0 then 1 else 2 * Pow2(k - 1)
  }

  /** (a >> k) & 1. */
  predicate Bit(a: byte, k: nat) {
    (a / Pow2(k)) % 2 == 1
  }

  /** The letters stand for DIR_Attr's ATTR_READ_ONLY, HIDDEN, SYSTEM, VOLUME_ID, DIRECTORY and ARCHIVE bits. */
  lemma AttributeBits(a: byte)
    ensures Bit(a, 0) <==> (a as bv8) & 0x01 != 0
    ensures Bit(a, 1) <==> (a as bv8) & 0x02 != 0
    ensures Bit(a, 2) <==> (a as bv8) & 0x04 != 0
    ensures Bit(a, 3) <==> (a as bv8) & 0x08 != 0
    ensures Bit(a, 4) <==> (a as bv8) & 0x10 != 0
    ensures Bit(a, 5) <==> (a as bv8) & 0x20 != 0
  {
    assert Pow2(5) == 32 && Pow2(4) == 16 && Pow2(3) == 8 && Pow2(2) == 4 && Pow2(1) == 2;
  }

  // ---------------------------------------------------------------------
  // Start clusters, the path, cd
  // ---------------------------------------------------------------------

  /** GetStartCluster: DIR_FstClusHI (bytes 20..21) times 65536 plus DIR_FstClusLO (bytes 26..27). */
  function StartCluster(entry: seq<byte>, anchor: nat): (c: nat)
    requires HasRecord(entry, anchor)
    ensures c < TWO_32
  {
    var high := LittleEndian(entry[anchor + 20..anchor + 22]);
    var low := LittleEndian(entry[anchor + 26..anchor + 28]);
    LittleEndianBound(entry[anchor + 20..anchor + 22]);
    LittleEndianBound(entry[anchor + 26..anchor + 28]);
    assert Pow256(2) == TWO_16;
    (high * TWO_16 + low) % TWO_32
  }

  /** Both halves come back out of the start cluster: the high word above, the low word below. */
  lemma StartClusterHalves(entry: seq<byte>, anchor: nat)
    requires HasRecord(entry, anchor)
    ensures StartCluster(entry, anchor) / TWO_16 == LittleEndian(entry[anchor + 20..anchor + 22])
    ensures StartCluster(entry, anchor) % TWO_16 == LittleEndian(entry[anchor + 26..anchor + 28])
  {
    var high := LittleEndian(entry[anchor + 20..anchor + 22]);
    var low := LittleEndian(entry[anchor + 26..anchor + 28]);
    LittleEndianBound(entry[anchor + 20..anchor + 22]);
    LittleEndianBound(entry[anchor + 26..anchor + 28]);
    assert Pow256(2) == TWO_16;
    assert high * TWO_16 + low < TWO_32;
    ModUnique(high * TWO_16 + low, 0, high * TWO_16 + low, TWO_32);
    ModUnique(high * TWO_16 + low, high, low, TWO_16);
  }

  /** GetURL's value: "." followed by "/" and each folder name. */
  function Url(urls: seq<string>): (path: string)
    ensures |path| >= 1 && path[0] == '.'
  {
    if urls == [] then "." else Url(urls[..|urls| - 1]) + "/" + urls[|urls| - 1]
  }

  /** The cluster cd records for a start cluster: 0 (the root's "..") stands for cluster 2. */
  function DirectoryCluster(c: nat): (r: nat)
    ensures r != 0 && (c != 0 ==> r == c)
  {
    if c != 0 then c else c + 2
  }

  /** The folder stack after cd enters f: ".." pops when there is something to pop; any other name is pushed. */
  function Entered(urls: seq<string>, f: string): (r: seq<string>)
  {
    if f != ".." then urls + [f] else if |urls| > 0 then urls[..|urls| - 1] else urls
  }

  /** Entering a folder and then ".." leaves the stack where it was. */
  lemma EnterThenLeave(urls: seq<string>, f: string)
    requires f != ".."
    ensures Entered(Entered(urls, f), "..") == urls
    ensures Url(Entered(urls, f)) == Url(urls) + "/" + f
  {
    assert (urls + [f])[..|urls|] == urls;
  }

  /** What ReadSector leaves in its buffer for (first byte, byte count); a failed read leaves no records. */
  type Disk = (nat, nat) -> seq<byte>

  /** How ReadSector's device access went: CreateFileW failed, ReadFile failed, or both succeeded. */
  datatype DeviceOutcome = OpenFailed | ReadFailed | Done

  const SECTOR_SIZE := 512

  /** The offset of the first 32-byte record at or after i whose first byte is 0x00, if any. */
  function FirstEmptyFrom(buffer: seq<byte>, i: nat): (r: Option<nat>)
    requires i % ENTRY_SIZE == 0
    ensures r.Some? ==> i <= r.value < |buffer| && r.value % ENTRY_SIZE == 0 && buffer[r.value] == 0
    ensures forall j :: i <= j < (if r.Some? then r.value else |buffer|) && j % ENTRY_SIZE == 0 ==> buffer[j] != 0
    decreases |buffer| - i
  {
    if i >= |buffer| then None else if buffer[i] == 0 then Some(i) else FirstEmptyFrom(buffer, i + ENTRY_SIZE)
  }

  /**
   * ReadEntry's filter: the records of a cluster up to the first one whose
   * first byte is 0x00 (the end-of-directory mark); a cluster without that
   * mark contributes nothing.
   */
  function EntryRecords(buffer: seq<byte>): (r: seq<byte>)
    ensures WholeRecords(r) && r <= buffer
    ensures forall j :: 0 <= j < |r| && j % ENTRY_SIZE == 0 ==> r[j] != 0
    ensures r != [] ==> |r| < |buffer| && buffer[|r|] == 0
  {
    match FirstEmptyFrom(buffer, 0)
    case Some(i) => buffer[..i]
    case None => []
  }

  /** A cluster whose records all are in use (no 0x00 mark) yields no records at all. */
  lemma UnmarkedClusterIsDropped(buffer: seq<byte>)
    requires forall j :: 0 <= j < |buffer| && j % ENTRY_SIZE == 0 ==> buffer[j] != 0
    ensures EntryRecords(buffer) == []
  {
    assert FirstEmptyFrom(buffer, 0).None?;
  }

  /** One step of the walk, as GetRdetCluster takes it. */
  lemma WalkStep(fat: seq<byte>, c: nat, steps: nat, before: seq<nat>)
    requires c != ENDED && steps > 0
    requires (4 * c) % TWO_32 + 4 < |fat|
    ensures var n := Extracted(fat, (4 * c) % TWO_32, (4 * c) % TWO_32 + 4) % TWO_32;
      before + Walk(fat, c, steps).0 == (before + [c]) + Walk(fat, n, steps - 1).0
      && Walk(fat, c, steps).1 == Walk(fat, n, steps - 1).1
  {
    var n := Extracted(fat, (4 * c) % TWO_32, (4 * c) % TWO_32 + 4) % TWO_32;
    assert NextCluster(fat, c) == Some(n);
    assert before + ([c] + Walk(fat, n, steps - 1).0) == (before + [c]) + Walk(fat, n, steps - 1).0;
  }

  /** The walk ends on a cluster whose FAT entry lies outside the FAT. */
  lemma WalkBadRead(fat: seq<byte>, c: nat, steps: nat)
    requires c != ENDED && steps > 0
    requires (4 * c) % TWO_32 + 4 >= |fat|
    ensures Walk(fat, c, steps) == ([c], BadRead)
  {
    assert NextCluster(fat, c) == None;
  }

  /** The walk from ENDED, or with no steps left, adds nothing. */
  lemma WalkLast(fat: seq<byte>, c: nat, steps: nat, before: seq<nat>)
    requires c == ENDED || steps == 0
    ensures before + Walk(fat, c, steps).0 == before
    ensures Walk(fat, c, steps).1 == if c == ENDED then Ended else OutOfSteps
  {
    assert before + [] == before;
  }

  datatype CdState = CdState(ok: bool, urls: seq<string>, cluster: nat, entry: seq<byte>)

  /** The boot-sector values cluster addressing depends on, together with the FAT. */
  datatype Layout = Layout(fat: seq<byte>, reserved: nat, fatSectors: nat, fats: nat, perCluster: nat)

  /**
   * ConvertClusterToSector in uint32 arithmetic: reserved sectors, plus
   * the FATs, plus (c - 2) clusters.
   */
  function ConvertClusterToSector(l: Layout, c: nat): (s: nat)
    ensures s < TWO_32
  {
    (l.reserved + l.fatSectors * l.fats + (c - 2) * l.perCluster) % TWO_32
  }

  /** The bytes ReadEntry reads for a cluster: SECTOR_SIZE * SecPerClus bytes from sector * 512, a uint32. */
  function ClusterBytes(l: Layout, disk: Disk, c: nat): seq<byte> {
    disk((ConvertClusterToSector(l, c) * SECTOR_SIZE) % TWO_32, SECTOR_SIZE * l.perCluster)
  }

  /** What ReadRdet leaves in Entry: each cluster of the chain is read in turn and replaces the last. */
  function RdetEntry(l: Layout, disk: Disk, start: nat, steps: nat, prior: seq<byte>): (e: seq<byte>)
    ensures WholeRecords(prior) ==> WholeRecords(e)
  {
    var chain := Walk(l.fat, start, steps).0;
    if chain == [] then prior else EntryRecords(ClusterBytes(l, disk, chain[|chain| - 1]))
  }

  /**
   * One component of cd: the root directory is read again from the current
   * cluster; a missing (or empty) component stops with ok false and the
   * stack as it was; otherwise the stack is updated and the component's
   * start cluster becomes current.
   */
  function CdStep(l: Layout, st: CdState, f: string, disk: Disk, longName: LongNames, steps: nat): (r: CdState)
    requires WholeRecords(st.entry)
    ensures WholeRecords(r.entry)
    ensures r.entry == RdetEntry(l, disk, st.cluster, steps, st.entry)
    ensures r.ok <==> f in Listing(r.entry, longName) && f != []
    ensures !r.ok ==> r.urls == st.urls && r.cluster == st.cluster
    ensures r.ok ==> r.urls == Entered(st.urls, f)
  {
    var e := RdetEntry(l, disk, st.cluster, steps, st.entry);
    var dir := Listing(e, longName);
    if f !in dir || f == [] then CdState(false, st.urls, st.cluster, e)
    else
      ListingSound(e, longName, |e|, f);
      CdState(true, Entered(st.urls, f), DirectoryCluster(StartCluster(e, dir[f])), e)
  }

  /** cd over the components still to visit, stopping at the first one that is not found. */
  function CdWalk(l: Layout, st: CdState, folders: seq<string>, disk: Disk, longName: LongNames, steps: nat): (r: CdState)
    requires WholeRecords(st.entry)
    ensures WholeRecords(r.entry)
    decreases |folders|
  {
    if folders == [] then st
    else
      var next := CdStep(l, st, folders[0], disk, longName, steps);
      if !next.ok then next else CdWalk(l, next, folders[1..], disk, longName, steps)
  }

  class Volume {
    var drivePath: string
    var fat: seq<byte>
    var bootsector: seq<byte>
    var bytePerSector: nat
    var sectorPerCluster: nat
    var numberOfSectorOfBootsector: nat
    var numberOfFat: nat
    var sectorPerFatTable: nat
    var entry: seq<byte>
    var startClusterRdet: nat
    var numberEntryOfRdet: nat
    var urls: seq<string>
    var directory: map<string, nat>

    /** Every name in the directory map is anchored at a whole record of Entry. */
    predicate Anchored()
      reads this
    {
      forall k :: k in directory ==> HasRecord(entry, directory[k])
    }

    /** Volume(): Init, which empties every buffer and zeroes every field. */
    constructor ()
      ensures fat == [] && bootsector == [] && entry == [] && urls == [] && directory == map[]
      ensures bytePerSector == 0 && sectorPerCluster == 0 && numberOfSectorOfBootsector == 0
      ensures numberOfFat == 0 && sectorPerFatTable == 0 && startClusterRdet == 0 && numberEntryOfRdet == 0
    {
      drivePath := [];
      fat := [];
      bootsector := [];
      bytePerSector := 0;
      sectorPerCluster := 0;
      numberOfSectorOfBootsector := 0;
      numberOfFat := 0;
      sectorPerFatTable := 0;
      entry := [];
      startClusterRdet := 0;
      numberEntryOfRdet := 0;
      urls := [];
      directory := map[];
    }

    /** ReadBootSector: the field at offset, length bytes, stored in a uint32. */
    method ReadBootSector(offset: nat, length: nat) returns (data: nat)
      requires 1 <= length <= 4 && offset + length <= |bootsector|
      ensures data == LittleEndian(bootsector[offset..offset + length])
    {
      var wide := ExtractSector(bootsector, offset, offset + length - 1);
      ExtractedExact(bootsector, offset, offset + length - 1);
      LittleEndianBound(bootsector[offset..offset + length]);
      Pow256Monotone(length, 4);
      Pow256Values();
      data := wide % TWO_32;
    }

    /**
     * SetupBootsector over the result of reading sector 0 (None when the
     * read fails, which leaves the fields as they were). The fields are the
     * little-endian values at the specification's offsets: BytsPerSec at
     * 11, SecPerClus at 13, RsvdSecCnt at 14, NumFATs at 16, FATSz32 at 36,
     * RootClus at 44. The root entry count is read as 4 bytes at 17, one
     * more field than the 2-byte BPB_RootEntCnt.
     */
    method SetupBootsector(sector: Option<seq<byte>>) returns (ok: bool)
      requires sector.Some? ==> |sector.value| == BOOTSECTOR_SIZE
      modifies this`bootsector, this`bytePerSector, this`sectorPerCluster, this`numberOfSectorOfBootsector,
               this`numberOfFat, this`numberEntryOfRdet, this`sectorPerFatTable, this`startClusterRdet
      ensures ok <==> sector.Some?
      ensures !ok ==>
                (bootsector == [] && bytePerSector == old(bytePerSector)
                 && sectorPerCluster == old(sectorPerCluster) && numberOfSectorOfBootsector == old(numberOfSectorOfBootsector)
                 && numberOfFat == old(numberOfFat) && numberEntryOfRdet == old(numberEntryOfRdet)
                 && sectorPerFatTable == old(sectorPerFatTable) && startClusterRdet == old(startClusterRdet))
      ensures ok ==> bootsector == sector.value
      ensures ok ==> bytePerSector == LittleEndian(bootsector[0x0B..0x0D])
      ensures ok ==> sectorPerCluster == LittleEndian(bootsector[0x0D..0x0E])
      ensures ok ==> numberOfSectorOfBootsector == LittleEndian(bootsector[0x0E..0x10])
      ensures ok ==> numberOfFat == LittleEndian(bootsector[0x10..0x11])
      ensures ok ==> numberEntryOfRdet == LittleEndian(bootsector[0x11..0x15])
      ensures ok ==> sectorPerFatTable == LittleEndian(bootsector[0x24..0x28])
      ensures ok ==> startClusterRdet == LittleEndian(bootsector[0x2C..0x30])
    {
      bootsector := [];
      if sector == None {
        return false;
      }
      bootsector := sector.value;
      ReadBootFields();
      return true;
    }

    /** The seven ReadBootSector calls of SetupBootsector. */
    method ReadBootFields()
      requires |bootsector| == BOOTSECTOR_SIZE
      modifies this`bytePerSector, this`sectorPerCluster, this`numberOfSectorOfBootsector,
               this`numberOfFat, this`numberEntryOfRdet, this`sectorPerFatTable, this`startClusterRdet
      ensures bytePerSector == LittleEndian(bootsector[0x0B..0x0D])
      ensures sectorPerCluster == LittleEndian(bootsector[0x0D..0x0E])
      ensures numberOfSectorOfBootsector == LittleEndian(bootsector[0x0E..0x10])
      ensures numberOfFat == LittleEndian(bootsector[0x10..0x11])
      ensures numberEntryOfRdet == LittleEndian(bootsector[0x11..0x15])
      ensures sectorPerFatTable == LittleEndian(bootsector[0x24..0x28])
      ensures startClusterRdet == LittleEndian(bootsector[0x2C..0x30])
    {
      bytePerSector := ReadBootSector(0x0B, 2);
      sectorPerCluster := ReadBootSector(0x0D, 1);
      numberOfSectorOfBootsector := ReadBootSector(0x0E, 2);
      numberOfFat := ReadBootSector(0x10, 1);
      numberEntryOfRdet := ReadBootSector(0x11, 4);
      sectorPerFatTable := ReadBootSector(0x24, 4);
      startClusterRdet := ReadBootSector(0x2C, 4);
    }

    /** The fields cluster addressing reads. */
    function Geometry(): Layout
      reads this`fat, this`numberOfSectorOfBootsector, this`sectorPerFatTable, this`numberOfFat, this`sectorPerCluster
    {
      Layout(fat, numberOfSectorOfBootsector, sectorPerFatTable, numberOfFat, sectorPerCluster)
    }

    /** GetRdetCluster over the FAT, within a bound on the number of steps. */
    method GetRdetCluster(startCluster: nat, maxSteps: nat) returns (clusters: seq<nat>, end: WalkEnd)
      ensures (clusters, end) == Walk(fat, startCluster, maxSteps)
    {
      ghost var whole := Walk(fat, startCluster, maxSteps);
      clusters := [];
      var current: nat := startCluster;
      var steps: nat := maxSteps;
      while current != ENDED
        invariant whole.0 == clusters + Walk(fat, current, steps).0 && whole.1 == Walk(fat, current, steps).1
        decreases steps
      {
        if steps == 0 {
          WalkLast(fat, current, steps, clusters);
          return clusters, OutOfSteps;
        }
        var i := (4 * current) % TWO_32;
        if i + 4 >= |fat| {
          WalkBadRead(fat, current, steps);
          clusters := clusters + [current];
          return clusters, BadRead;
        }
        var next := ExtractSector(fat, i, i + 4);
        WalkStep(fat, current, steps, clusters);
        clusters := clusters + [current];
        current := next % TWO_32;
        steps := steps - 1;
      }
      WalkLast(fat, current, steps, clusters);
      return clusters, Ended;
    }

    /** ReadEntry: Entry becomes the records of the cluster's bytes up to the end-of-directory mark. */
    method ReadEntry(cluster: nat, disk: Disk)
      modifies this`entry
      ensures entry == EntryRecords(ClusterBytes(Geometry(), disk, cluster))
    {
      entry := [];
      var buffer := ClusterBytes(Geometry(), disk, cluster);
      var i := 0;
      while i < |buffer|
        invariant i % ENTRY_SIZE == 0 && FirstEmptyFrom(buffer, i) == FirstEmptyFrom(buffer, 0)
        invariant entry == []
        decreases |buffer| - i
      {
        if buffer[i] == 0 {
          entry := buffer[..i];
          return;
        }
        i := i + ENTRY_SIZE;
      }
    }

    /** ReadRdet: the chain from startClusterRdet, each cluster through ReadEntry. */
    method ReadRdet(disk: Disk, maxSteps: nat) returns (ok: bool)
      modifies this`entry
      ensures ok && entry == RdetEntry(Geometry(), disk, startClusterRdet, maxSteps, old(entry))
    {
      var clus, end := GetRdetCluster(startClusterRdet, maxSteps);
      for i := 0 to |clus|
        invariant i > 0 ==> entry == EntryRecords(ClusterBytes(Geometry(), disk, clus[i - 1]))
        invariant i == 0 ==> entry == old(entry)
      {
        ReadEntry(clus[i], disk);
      }
      assert clus == Walk(fat, startClusterRdet, maxSteps).0;
      return true;
    }

    /** ReadShortName: the eight name bytes without spaces, then '.' and the three extension bytes unless a folder. */
    method ReadShortName(start: nat)
      requires HasRecord(entry, start)
      modifies this`directory
      ensures directory == old(directory)[ShortName(entry, start) := start]
    {
      var name: string := [];
      for i := start to start + 8
        invariant name == NonSpace(entry[start..i])
      {
        assert entry[start..i + 1] == entry[start..i] + [entry[i]];
        if entry[i] != SPACE {
          name := name + [entry[i] as char];
        }
      }
      if !IsFolder(entry, start) {
        name := name + ".";
        var ext: string := [];
        for i := start + 8 to start + 11
          invariant ext == Chars(entry[start + 8..i])
        {
          assert entry[start + 8..i + 1] == entry[start + 8..i] + [entry[i]];
          ext := ext + [entry[i] as char];
        }
        name := name + ext;
      }
      directory := directory[name := start];
    }

    /**
     * ExtractEntry: every record not deleted and not a long-name slot is
     * entered under its key; the result counts them.
     */
    method ExtractEntry(longName: LongNames) returns (nameCount: nat)
      requires WholeRecords(entry)
      modifies this`directory
      ensures directory == Listing(entry, longName) && Anchored()
      ensures nameCount == NamedUpTo(entry, |entry|)
    {
      nameCount := 0;
      directory := map[];
      var start := 0;
      while start < |entry|
        invariant start % ENTRY_SIZE == 0 && start <= |entry|
        invariant directory == ListingUpTo(entry, longName, start)
        invariant nameCount == NamedUpTo(entry, start)
      {
        if !IsDeletedEntry(entry, start) && !IsSpecialEntry(entry, start) {
          if IsLongNameEntry(entry, start) {
            directory := directory[longName(entry, start) := start];
          } else {
            ReadShortName(start);
          }
          nameCount := nameCount + 1;
        }
        start := start + ENTRY_SIZE;
      }
      forall k | k in directory
        ensures HasRecord(entry, directory[k])
      {
        ListingSound(entry, longName, |entry|, k);
      }
    }

    /** GetURL: "." then "/" and each folder of the stack. */
    method GetURL() returns (path: string)
      ensures path == Url(urls)
    {
      path := ".";
      for i := 0 to |urls|
        invariant path == Url(urls[..i])
      {
        assert urls[..i + 1][..i] == urls[..i];
        path := path + "/" + urls[i];
      }
      assert urls[..|urls|] == urls;
    }

    /** Dir: ReadRdet, ExtractEntry, then one attribute line per name of the directory. The
        source prints the lines in ascending name order, the key order of its std::map; the
        map returned here holds the same lines keyed by name. */
    method Dir(disk: Disk, longName: LongNames, maxSteps: nat) returns (lines: map<string, string>)
      requires WholeRecords(entry)
      modifies this`entry, this`directory
      ensures entry == RdetEntry(Geometry(), disk, startClusterRdet, maxSteps, old(entry))
      ensures directory == Listing(entry, longName) && Anchored()
      ensures lines.Keys == directory.Keys
      ensures forall k :: k in directory ==> k in lines && DescribesAttributes(lines[k], AttributeOf(entry, directory[k]), k)
    {
      var ok := ReadRdet(disk, maxSteps);
      var count := ExtractEntry(longName);
      lines := AttributeLines(entry, directory);
    }

    /** Open's check: the name is in the directory and its extension is TXT in any case. */
    predicate OpenAccepted(fileFullName: string)
      reads this
    {
      fileFullName in directory && CaseSensitiveEq(GetFileExtension(fileFullName), "TXT")
    }

    /**
     * ReadContent's output for the record at anchor: the first sector of the
     * file's start cluster, cut to DIR_FileSize (bytes 28..31) in so far as
     * the sector holds it.
     */
    function FileText(disk: Disk, anchor: nat): (text: seq<byte>)
      reads this`entry, this`fat, this`numberOfSectorOfBootsector, this`sectorPerFatTable, this`numberOfFat, this`sectorPerCluster
      requires HasRecord(entry, anchor)
      ensures var sector := disk((ConvertClusterToSector(Geometry(), StartCluster(entry, anchor)) * SECTOR_SIZE) % TWO_32, SECTOR_SIZE);
        text <= sector && (|text| == |sector| || |text| == LittleEndian(entry[anchor + 28..anchor + 32]))
    {
      var sector := disk((ConvertClusterToSector(Geometry(), StartCluster(entry, anchor)) * SECTOR_SIZE) % TWO_32, SECTOR_SIZE);
      var size := LittleEndian(entry[anchor + 28..anchor + 32]);
      if size <= |sector| then sector[..size] else sector
    }

    /** Open: a name in the directory with extension TXT has its content read; anything else is refused. */
    method Open(fileFullName: string, disk: Disk) returns (ok: bool, text: seq<byte>)
      requires Anchored()
      ensures ok <==> OpenAccepted(fileFullName)
      ensures ok ==> text == FileText(disk, directory[fileFullName])
      ensures !ok ==> text == []
    {
      var ext := GetFileExtension(fileFullName);
      if fileFullName in directory && CaseSensitiveEq(ext, "TXT") {
        text := ReadContent(fileFullName, disk);
        return true, text;
      }
      return false, [];
    }

    /** ReadContent: the file's bytes, one at a time from the sector buffer. */
    method ReadContent(archiveName: string, disk: Disk) returns (text: seq<byte>)
      requires archiveName in directory && Anchored()
      ensures text == FileText(disk, directory[archiveName])
    {
      var anchor := directory[archiveName];
      var start := StartCluster(entry, anchor);
      var wide := ExtractSector(entry, anchor + 28, anchor + 31);
      ExtractedExact(entry, anchor + 28, anchor + 31);
      LittleEndianBound(entry[anchor + 28..anchor + 32]);
      Pow256Values();
      var size := wide % TWO_32;
      var buffer := disk((ConvertClusterToSector(Geometry(), start) * SECTOR_SIZE) % TWO_32, SECTOR_SIZE);
      text := [];
      var i := 0;
      assert size == LittleEndian(entry[anchor + 28..anchor + 32]);
      while i < size && i < |buffer|
        invariant i <= |buffer| && i <= size && text == buffer[..i]
      {
        assert buffer[..i + 1] == buffer[..i] + [buffer[i]];
        text := text + [buffer[i]];
        i := i + 1;
      }
      assert buffer[..|buffer|] == buffer;
    }

    /** Cd over the components split_str finds in the path at '/' and '\\'. */
    method Cd(pathToFile: string, disk: Disk, longName: LongNames, maxSteps: nat) returns (ok: bool)
      requires WholeRecords(entry)
      modifies this`entry, this`directory, this`urls, this`startClusterRdet
      ensures var r := CdWalk(Geometry(), CdState(true, old(urls), old(startClusterRdet), old(entry)), Split(pathToFile, "/\\"), disk, longName, maxSteps);
        ok == r.ok && urls == r.urls && startClusterRdet == r.cluster && entry == r.entry
      ensures Split(pathToFile, "/\\") == [] ==> directory == old(directory)
      ensures Split(pathToFile, "/\\") != [] ==> directory == Listing(entry, longName)
    {
      var folders := SplitStr(pathToFile, "/\\");
      ghost var layout := Geometry();
      ghost var walked := CdWalk(layout, CdState(true, urls, startClusterRdet, entry), folders, disk, longName, maxSteps);
      for i := 0 to |folders|
        invariant WholeRecords(entry) && Geometry() == layout
        invariant CdWalk(layout, CdState(true, urls, startClusterRdet, entry), folders[i..], disk, longName, maxSteps) == walked
        invariant if i == 0 then directory == old(directory) else directory == Listing(entry, longName)
      {
        assert folders[i..] == [folders[i]] + folders[i + 1..];
        var found := EnterFolder(folders[i], disk, longName, maxSteps);
        if !found {
          assert folders != [];
          return false;
        }
      }
      assert folders[|folders|..] == [];
      return true;
    }

    /** The body of cd's loop for one component: read the directory, stop if the component is missing, else enter it. */
    method EnterFolder(folder: string, disk: Disk, longName: LongNames, maxSteps: nat) returns (found: bool)
      requires WholeRecords(entry)
      modifies this`entry, this`directory, this`urls, this`startClusterRdet
      ensures WholeRecords(entry) && directory == Listing(entry, longName)
      ensures CdState(found, urls, startClusterRdet, entry)
              == CdStep(Geometry(), CdState(true, old(urls), old(startClusterRdet), old(entry)), folder, disk, longName, maxSteps)
    {
      var read := ReadRdet(disk, maxSteps);
      var count := ExtractEntry(longName);
      if folder !in directory || folder == [] {
        return false;
      }
      var cluster := StartCluster(entry, directory[folder]);
      urls := Entered(urls, folder);
      startClusterRdet := DirectoryCluster(cluster);
      return true;
    }

    /** Init: every buffer emptied, every boot-sector field zeroed, the path stack and the directory cleared. */
    method Init() returns (ok: bool)
      modifies this`fat, this`bootsector, this`bytePerSector, this`sectorPerCluster, this`numberOfSectorOfBootsector,
               this`numberOfFat, this`sectorPerFatTable, this`entry, this`startClusterRdet, this`numberEntryOfRdet,
               this`urls, this`directory
      ensures ok && fat == [] && bootsector == [] && entry == [] && urls == [] && directory == map[]
      ensures bytePerSector == 0 && sectorPerCluster == 0 && numberOfSectorOfBootsector == 0
      ensures numberOfFat == 0 && sectorPerFatTable == 0 && startClusterRdet == 0 && numberEntryOfRdet == 0
    {
      fat := [];
      bootsector := [];
      bytePerSector := 0;
      sectorPerCluster := 0;
      numberOfSectorOfBootsector := 0;
      numberOfFat := 0;
      sectorPerFatTable := 0;
      entry := [];
      startClusterRdet := 0;
      numberEntryOfRdet := 0;
      urls := [];
      directory := map[];
      return true;
    }

    /**
     * ReadFat: NumFATs * FATSz32 sectors from the first sector after the
     * reserved ones, offsets in uint32. The flag is ReadSector's: false when
     * the device does not open (the FAT stays cleared) or ReadFile fails
     * (the resized buffer keeps whatever the device left in it).
     */
    method ReadFat(disk: Disk, device: DeviceOutcome) returns (ok: bool)
      modifies this`fat
      ensures ok <==> device == Done
      ensures device == OpenFailed ==> fat == []
      ensures device != OpenFailed ==>
                fat == disk((numberOfSectorOfBootsector * SECTOR_SIZE) % TWO_32,
                            (sectorPerFatTable * numberOfFat * SECTOR_SIZE) % TWO_32)
    {
      var startByte := (numberOfSectorOfBootsector * SECTOR_SIZE) % TWO_32;
      var totalSize := (sectorPerFatTable * numberOfFat * SECTOR_SIZE) % TWO_32;
      fat := [];
      if device == OpenFailed {
        return false;
      }
      fat := disk(startByte, totalSize);
      return device == Done;
    }

    /**
     * Connect: Init, remember the path, start the stack at the drive name,
     * read the boot sector and the FAT. The results of both reads are
     * dropped, so Connect always reports true.
     */
    method Connect(path: string, sector: Option<seq<byte>>, disk: Disk, device: DeviceOutcome) returns (ok: bool)
      requires sector.Some? ==> |sector.value| == BOOTSECTOR_SIZE
      modifies this
      ensures ok && drivePath == path && urls == [GetDriveName(path)] && entry == [] && directory == map[]
      ensures sector.Some? ==> bootsector == sector.value && startClusterRdet == LittleEndian(sector.value[0x2C..0x30])
      ensures sector.None? ==> bootsector == [] && startClusterRdet == 0 && bytePerSector == 0
      ensures device == OpenFailed ==> fat == []
      ensures device != OpenFailed ==>
                fat == disk((numberOfSectorOfBootsector * SECTOR_SIZE) % TWO_32,
                            (sectorPerFatTable * numberOfFat * SECTOR_SIZE) % TWO_32)
    {
      ok := Init();
      drivePath := path;
      urls := [GetDriveName(path)];
      ok := SetupBootsector(sector);
      ok := ReadFat(disk, device);
      return true;
    }
  }

  /** The attribute line Dir prints for a record: the name after eight columns, each letter kept only when its bit is set. */
  predicate DescribesAttributes(info: string, attr: byte, name: string) {
    |info| == 8 + |name| && info[8..] == name && info[0] == ' ' && info[7] == ' '
    && forall k :: 1 <= k <= 6 ==> info[k] == (if Bit(attr, k - 1) then ATTRIBUTE_LETTERS[k] else '-')
  }

  /** Dir's line for one record: " RHSVDA " and the name, with letter k turned into '-' when bit k-1 of the attribute byte is clear. */
  method AttributeLine(attr: byte, name: string) returns (info: string)
    ensures DescribesAttributes(info, attr, name)
  {
    info := ATTRIBUTE_LETTERS + name;
    for bit := 1 to 7
      invariant |info| == 8 + |name| && info[8..] == name
      invariant info[0] == ' ' && info[7] == ' '
      invariant forall k :: 1 <= k < bit ==> info[k] == (if Bit(attr, k - 1) then ATTRIBUTE_LETTERS[k] else '-')
      invariant forall k :: bit <= k <= 6 ==> info[k] == ATTRIBUTE_LETTERS[k]
    {
      if !Bit(attr, bit - 1) {
        info := info[bit := '-'];
      }
    }
  }

  /** DIR_Attr, byte 11 of a record. */
  function AttributeOf(entry: seq<byte>, start: nat): byte
    requires HasRecord(entry, start)
  {
    entry[start + 11]
  }

  /** The attribute line of every name in a directory map, each describing the attribute byte of its record. */
  method AttributeLines(entry: seq<byte>, directory: map<string, nat>) returns (lines: map<string, string>)
    requires forall k :: k in directory ==> HasRecord(entry, directory[k])
    ensures lines.Keys == directory.Keys
    ensures forall k :: k in directory ==> k in lines && DescribesAttributes(lines[k], AttributeOf(entry, directory[k]), k)
  {
    lines := map[];
    var todo := directory.Keys;
    while todo != {}
      invariant todo <= directory.Keys && lines.Keys == directory.Keys - todo
      invariant forall k :: k in directory && k !in todo ==> k in lines && DescribesAttributes(lines[k], AttributeOf(entry, directory[k]), k)
      decreases |todo|
    {
      var name :| name in todo;
      var info := AttributeLine(AttributeOf(entry, directory[name]), name);
      lines := lines[name := info];
      todo := todo - {name};
    }
  }

  /** With no root directory region (FAT32) and no wrap-around, the sector is the specification's FirstSectorofCluster. */
  lemma ClusterSectorIsStandard(l: Layout, n: nat, bytsPerSec: nat)
    requires bytsPerSec > 0 && n >= 2
    requires l.reserved + l.fatSectors * l.fats + (n - 2) * l.perCluster < TWO_32
    ensures ConvertClusterToSector(l, n) == FirstSectorOfCluster(n, l.reserved, l.fats, l.fatSectors, l.perCluster, 0, bytsPerSec)
  {
    var x := l.reserved + l.fatSectors * l.fats + (n - 2) * l.perCluster;
    ModUnique(x, 0, x, TWO_32);
    assert RootDirSectors(0, bytsPerSec) == 0;
  }

  /** ReadRdet keeps only the last cluster of a chain: the earlier clusters' records do not reach Entry. */
  lemma RdetKeepsLastCluster(l: Layout, disk: Disk, start: nat, steps: nat, prior: seq<byte>)
    requires |Walk(l.fat, start, steps).0| >= 2
    ensures var chain := Walk(l.fat, start, steps).0;
      RdetEntry(l, disk, start, steps, prior) == EntryRecords(ClusterBytes(l, disk, chain[|chain| - 1]))
  {
  }

  /** "txt" and "TXT" both pass Open's extension test. */
  lemma TxtExtension(ext: string)
    requires ext == "txt" || ext == "TXT"
    ensures CaseSensitiveEq(ext, "TXT")
  {
    assert ToUpper(ext[0]) == 'T' && ToUpper(ext[1]) == 'X' && ToUpper(ext[2]) == 'T';
  }

  /** Open accepts a file record whose extension bytes spell TXT in either case exactly when its name is in the directory. */
  lemma OpenShortTxt(v: Volume, start: nat)
    requires HasRecord(v.entry, start) && !IsFolder(v.entry, start)
    requires Chars(v.entry[start + 8..start + 11]) == "txt" || Chars(v.entry[start + 8..start + 11]) == "TXT"
    ensures v.OpenAccepted(ShortName(v.entry, start)) <==> ShortName(v.entry, start) in v.directory
  {
    var ext := v.entry[start + 8..start + 11];
    forall i | 0 <= i < 3
      ensures ext[i] != DOT
    {
      assert Chars(ext)[i] as int == ext[i];
    }
    ShortNameExtension(v.entry, start);
    TxtExtension(Chars(ext));
  }

  /** cd stops with false, the stack untouched, at a component missing from the directory it reads. */
  lemma CdStopsAtMissing(l: Layout, st: CdState, f: string, rest: seq<string>, disk: Disk, longName: LongNames, steps: nat)
    requires WholeRecords(st.entry)
    requires f !in Listing(RdetEntry(l, disk, st.cluster, steps, st.entry), longName)
    ensures var r := CdWalk(l, st, [f] + rest, disk, longName, steps); !r.ok && r.urls == st.urls && r.cluster == st.cluster
  {
    assert ([f] + rest)[0] == f;
  }

  /** cd into a folder and back out through its ".." returns to the same path. */
  lemma CdThereAndBack(l: Layout, st: CdState, f: string, disk: Disk, longName: LongNames, steps: nat)
    requires WholeRecords(st.entry) && f != "" && f != ".."
    requires f in Listing(RdetEntry(l, disk, st.cluster, steps, st.entry), longName)
    ensures var mid := CdWalk(l, st, [f], disk, longName, steps);
      mid.ok && mid.urls == st.urls + [f]
      && (".." in Listing(RdetEntry(l, disk, mid.cluster, steps, mid.entry), longName) ==>
            var back := CdWalk(l, mid, [".."], disk, longName, steps); back.ok && back.urls == st.urls)
  {
    assert [f][1..] == [];
    assert [".."][1..] == [];
    EnterThenLeave(st.urls, f);
  }

  /** A path is walked component by component: cd of p + q is cd of q after a successful cd of p. */
  lemma {:induction false} CdWalkAppend(l: Layout, st: CdState, p: seq<string>, q: seq<string>, disk: Disk, longName: LongNames, steps: nat)
    requires WholeRecords(st.entry) && st.ok
    ensures var mid := CdWalk(l, st, p, disk, longName, steps);
      CdWalk(l, st, p + q, disk, longName, steps) == (if mid.ok then CdWalk(l, mid, q, disk, longName, steps) else mid)
    decreases |p|
  {
    if p == [] {
      assert p + q == q;
    } else {
      assert (p + q)[0] == p[0] && (p + q)[1..] == p[1..] + q;
      var next := CdStep(l, st, p[0], disk, longName, steps);
      if next.ok {
        CdWalkAppend(l, next, p[1..], q, disk, longName, steps);
      }
    }
  }
}
