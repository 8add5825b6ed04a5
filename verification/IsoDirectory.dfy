/**
 * ISO 9660 directories as they lie on the disk (ECMA-119, sections 6.8.1, 6.8.2.1 and 9.1),
 * and what it means to list a directory tree in pre-order.  Nothing here knows about the
 * explicit stack of the firmware; IsoWalk.dfy shows that the stack machine agrees with it.
 */
module IsoDirectory {
  import opened Bytes

  const SECTOR_SIZE := 2048
  /** Size of the fixed part of a directory record. */
  const HEADER_SIZE := 33
  const MAX_DEPTH := 8
  const PRIMARY_VD_SECTOR := 16
  /** Where the root's directory record sits in the primary volume descriptor. */
  const ROOT_RECORD := 156

  type Sector = s: seq<byte> | |s| == SECTOR_SIZE witness seq(SECTOR_SIZE, _ => 0)

  /** The readable sectors of the disk; a sector outside the domain cannot be read. */
  type Disk = map<uint32, Sector>

  /** What the firmware looks at in a directory record. */
  datatype Record = Record(extent: uint32, size: uint32, isDirectory: bool)

  function RecordAt(bytes: seq<byte>, off: nat): Record
    requires off + HEADER_SIZE <= |bytes|
  {
    Record(Be32(bytes, off + 6), Be32(bytes, off + 14), bytes[off + 25] / 2 % 2 == 1)
  }

  /** From `off` on, the sector holds whole records and then, if room is left, padding. */
  predicate SectorOk(s: Sector, off: nat)
    decreases SECTOR_SIZE - off
  {
    off == SECTOR_SIZE ||
    (off < SECTOR_SIZE &&
     (s[off] == 0 ||
      (HEADER_SIZE <= s[off] && off + s[off] <= SECTOR_SIZE && SectorOk(s, off + s[off]))))
  }

  function SectorRecords(s: Sector, off: nat): seq<Record>
    requires SectorOk(s, off)
    decreases SECTOR_SIZE - off
  {
    if off == SECTOR_SIZE || s[off] == 0 then []
    else [RecordAt(s, off)] + SectorRecords(s, off + s[off])
  }

  /** The extent from byte `off` of sector `loc` up to sector `end` can be read and is well formed. */
  predicate ExtentOk(disk: Disk, loc: nat, off: nat, end: nat)
    decreases end - loc
  {
    loc >= end ||
    (loc < TWO32 && loc in disk && SectorOk(disk[loc], off) && ExtentOk(disk, loc + 1, 0, end))
  }

  function ExtentRecords(disk: Disk, loc: nat, off: nat, end: nat): seq<Record>
    requires ExtentOk(disk, loc, off, end)
    decreases end - loc
  {
    if loc >= end then []
    else SectorRecords(disk[loc], off) + ExtentRecords(disk, loc + 1, 0, end)
  }

  /** Where the records of the directory at `loc` start: after the self and the parent record. */
  function FirstOffset(s: seq<byte>): nat
    requires |s| == SECTOR_SIZE
  {
    var self: int := s[0];
    self + s[self]
  }

  /** The first sector after the directory at `loc`; its self record gives the length. */
  function EndOf(disk: Disk, loc: uint32): nat
    requires loc in disk
  {
    loc + RecordAt(disk[loc], 0).size / SECTOR_SIZE
  }

  /** The directory at `loc` fills whole sectors, at least one, and starts with its self and parent records. */
  predicate DirectoryOk(disk: Disk, loc: uint32) {
    loc in disk &&
    var s := disk[loc];
    HEADER_SIZE <= s[0] && HEADER_SIZE <= s[s[0]] &&
    RecordAt(s, 0).size > 0 && RecordAt(s, 0).size % SECTOR_SIZE == 0 &&
    EndOf(disk, loc) <= TWO32 &&
    ExtentOk(disk, loc, FirstOffset(s), EndOf(disk, loc))
  }

  function DirectoryRecords(disk: Disk, loc: uint32): seq<Record>
    requires DirectoryOk(disk, loc)
  {
    ExtentRecords(disk, loc, FirstOffset(disk[loc]), EndOf(disk, loc))
  }

  /** Subdirectories are entered only above the last level. */
  predicate Entered(r: Record, level: nat) {
    r.isDirectory && level + 1 < MAX_DEPTH
  }

  /** Every directory that is met down to the last level is well formed. */
  predicate RecordsOk(disk: Disk, records: seq<Record>, level: nat)
    decreases MAX_DEPTH - level, 0, |records|
  {
    records == [] ||
    ((Entered(records[0], level) ==> TreeOk(disk, records[0].extent, level + 1)) &&
     RecordsOk(disk, records[1..], level))
  }

  predicate TreeOk(disk: Disk, loc: uint32, level: nat)
    decreases MAX_DEPTH - level, 1
  {
    DirectoryOk(disk, loc) && RecordsOk(disk, DirectoryRecords(disk, loc), level)
  }

  /**
   * Pre-order listing: each record is followed by the listing of the directory it names.
   * Level 0 is the root; what lies in a directory of the last level is not descended into.
   */
  function ListRecords(disk: Disk, records: seq<Record>, level: nat): seq<Record>
    requires RecordsOk(disk, records, level)
    decreases MAX_DEPTH - level, 0, |records|
  {
    if records == [] then []
    else
      [records[0]] +
      (if Entered(records[0], level) then ListTree(disk, records[0].extent, level + 1) else []) +
      ListRecords(disk, records[1..], level)
  }

  function ListTree(disk: Disk, loc: uint32, level: nat): seq<Record>
    requires TreeOk(disk, loc, level)
    decreases MAX_DEPTH - level, 1
  {
    ListRecords(disk, DirectoryRecords(disk, loc), level)
  }

  function RootOf(disk: Disk): uint32
    requires PRIMARY_VD_SECTOR in disk
  {
    RecordAt(disk[PRIMARY_VD_SECTOR], ROOT_RECORD).extent
  }

  /** The volume descriptor can be read and names a well-formed tree. */
  predicate VolumeOk(disk: Disk) {
    PRIMARY_VD_SECTOR in disk && TreeOk(disk, RootOf(disk), 0)
  }

  function Listing(disk: Disk): seq<Record>
    requires VolumeOk(disk)
  {
    ListTree(disk, RootOf(disk), 0)
  }

  /** Record `r` is reached from `records`, at stack level `level`, by taking the entries that `path` numbers. */
  ghost predicate OnPath(disk: Disk, records: seq<Record>, level: nat, path: seq<nat>, r: Record)
    decreases |path|
  {
    path != [] && path[0] < |records| &&
    var step := records[path[0]];
    if |path| == 1 then r == step
    else
      Entered(step, level) && DirectoryOk(disk, step.extent) &&
      OnPath(disk, DirectoryRecords(disk, step.extent), level + 1, path[1..], r)
  }

  lemma {:induction false} ListedHasPath(disk: Disk, records: seq<Record>, level: nat, r: Record)
    returns (path: seq<nat>)
    requires RecordsOk(disk, records, level) && r in ListRecords(disk, records, level)
    ensures OnPath(disk, records, level, path, r)
    decreases MAX_DEPTH - level, |records|
  {
    if r == records[0] {
      path := [0];
    } else if Entered(records[0], level) && r in ListTree(disk, records[0].extent, level + 1) {
      var rest := ListedHasPath(disk, DirectoryRecords(disk, records[0].extent), level + 1, r);
      path := [0] + rest;
      assert path[1..] == rest;
    } else {
      var rest := ListedHasPath(disk, records[1..], level, r);
      path := [rest[0] + 1] + rest[1..];
      assert path[1..] == rest[1..] && records[path[0]] == records[1..][rest[0]];
    }
  }

  lemma {:induction false} PathIsListed(disk: Disk, records: seq<Record>, level: nat, path: seq<nat>, r: Record)
    requires RecordsOk(disk, records, level) && OnPath(disk, records, level, path, r)
    ensures r in ListRecords(disk, records, level)
    decreases MAX_DEPTH - level, |records|
  {
    if path[0] > 0 {
      var rest := [path[0] - 1] + path[1..];
      assert rest[1..] == path[1..] && records[1..][rest[0]] == records[path[0]];
      PathIsListed(disk, records[1..], level, rest, r);
    } else if |path| > 1 {
      PathIsListed(disk, DirectoryRecords(disk, records[0].extent), level + 1, path[1..], r);
    }
  }

  /** The listing holds exactly the records that lie at most MAX_DEPTH directories deep. */
  lemma ListingIsReachable(disk: Disk, r: Record)
    requires VolumeOk(disk)
    ensures r in Listing(disk) <==>
      exists path :: |path| <= MAX_DEPTH && OnPath(disk, DirectoryRecords(disk, RootOf(disk)), 0, path, r)
  {
    var records := DirectoryRecords(disk, RootOf(disk));
    if r in Listing(disk) {
      var path := ListedHasPath(disk, records, 0, r);
      PathIsShort(disk, records, 0, path, r);
    }
    if path :| |path| <= MAX_DEPTH && OnPath(disk, records, 0, path, r) {
      PathIsListed(disk, records, 0, path, r);
    }
  }

  lemma {:induction false} PathIsShort(disk: Disk, records: seq<Record>, level: nat, path: seq<nat>, r: Record)
    requires level < MAX_DEPTH && OnPath(disk, records, level, path, r)
    ensures |path| <= MAX_DEPTH - level
    decreases |path|
  {
    if |path| > 1 {
      PathIsShort(disk, DirectoryRecords(disk, records[path[0]].extent), level + 1, path[1..], r);
    }
  }

  /** `i` is the first position in `records` whose extent starts at `rba`. */
  ghost predicate IsFirstMatch(records: seq<Record>, rba: uint32, i: nat) {
    i < |records| && records[i].extent == rba &&
    forall k :: 0 <= k < i ==> records[k].extent != rba
  }

  ghost predicate NoMatch(records: seq<Record>, rba: uint32) {
    forall k :: 0 <= k < |records| ==> records[k].extent != rba
  }
}
