/**
 * Booting from an ISO 9660 image after El Torito: the catalogue is found through the volume
 * descriptors, one of its entries is chosen, and the length of its image is looked up in the
 * directory tree.
 */
module BootCatalogue {
  import opened Bytes
  import opened IsoDirectory
  import opened FiniteSets
  import IsoWalk

  const ENTRY_SIZE := 32
  const ENTRIES := 64

  /** The start of a Linux kernel image for s390, from its byte 8 on. */
  const LINUX_MAGIC: seq<byte> := [
    0x02, 0, 0, 0x18, 0x60, 0, 0, 0x50, 0x02, 0, 0, 0x68, 0x60, 0, 0, 0x50,
    0x40, 0x40, 0x40, 0x40, 0x40, 0x40, 0x40, 0x40]

  /** "EL TORITO SPECIFICATION", filled up with zeros. */
  const EL_TORITO: seq<byte> := [
    0x45, 0x4C, 0x20, 0x54, 0x4F, 0x52, 0x49, 0x54, 0x4F, 0x20, 0x53, 0x50, 0x45, 0x43, 0x49, 0x46,
    0x49, 0x43, 0x41, 0x54, 0x49, 0x4F, 0x4E, 0, 0, 0, 0, 0, 0, 0, 0, 0]

  /** "CD001" */
  const CD001: seq<byte> := [0x43, 0x44, 0x30, 0x30, 0x31]

  /** The little-endian word at offset `o`. */
  function Le32(s: seq<byte>, o: nat): uint32
    requires o + 4 <= |s|
  {
    var top: int := s[o + 3];
    var high: int := s[o + 2];
    var middle: int := s[o + 1];
    top * 0x100_0000 + high * 0x1_0000 + middle * 0x100 + s[o]
  }

  // ---------- Finding the catalogue ----------

  predicate IsDescriptor(s: Sector) {
    s[1..6] == CD001 && s[6] == 1 && s[0] <= 3
  }

  predicate IsElTorito(s: Sector) {
    s[0] == 0 && s[7..39] == EL_TORITO
  }

  /** The search goes on behind this sector. */
  predicate Passed(disk: Disk, loc: uint32) {
    loc in disk && IsDescriptor(disk[loc]) && !IsElTorito(disk[loc])
  }

  datatype Search = Halt | Absent | At(loc: uint32)

  /** What the first sector that is not passed says. */
  function Verdict(disk: Disk, loc: uint32): Search {
    if loc !in disk then (if loc == PRIMARY_VD_SECTOR then Absent else Halt)
    else if IsDescriptor(disk[loc]) && Le32(disk[loc], 71) != 0 then At(Le32(disk[loc], 71))
    else Absent
  }

  ghost predicate StopsFirst(disk: Disk, stop: uint32) {
    PRIMARY_VD_SECTOR <= stop && !Passed(disk, stop) && forall b: uint32 :: PRIMARY_VD_SECTOR <= b < stop ==>
      Passed(disk, b)
  }

  /** The scan of the volume descriptors, for a disk on which they come to an end (`last`). */
  method FindCatalogue(w: IsoWalk.Walker, ghost last: uint32) returns (found: Search, ghost stop: uint32)
    requires w.Valid() && PRIMARY_VD_SECTOR <= last && !Passed(w.disk, last)
    modifies w.sec
    ensures StopsFirst(w.disk, stop) && found == Verdict(w.disk, stop)
  {
    hide Le32;
    stop := PRIMARY_VD_SECTOR;
    var ok := w.ReadSector(PRIMARY_VD_SECTOR, 0);
    if !ok {
      return Absent, stop;
    }
    var next: uint32 := PRIMARY_VD_SECTOR + 1;
    while IsDescriptor(w.sec[..SECTOR_SIZE])
      invariant next == Plus32(stop, 1) && PRIMARY_VD_SECTOR <= stop <= last
      invariant stop in w.disk && w.sec[..SECTOR_SIZE] == w.disk[stop]
      invariant forall b: uint32 :: PRIMARY_VD_SECTOR <= b < stop ==> Passed(w.disk, b)
      decreases last - stop
    {
      var s := w.sec[..SECTOR_SIZE];
      if IsElTorito(s) {
        var at := Le32(s, 71);
        return if at == 0 then Absent else At(at), stop;
      }
      assert Passed(w.disk, stop) && stop < last;
      stop := next;
      ok := w.ReadSector(next, 0);
      if !ok {
        return Halt, stop;
      }
      next := Plus32(next, 1);
    }
    return Absent, stop;
  }

  // ---------- Choosing an entry ----------

  /** Entry 0 is the validation entry. */
  predicate IsValidation(s: Sector) {
    s[0] == 1 && s[1] <= 2 && s[30] == 0x55 && s[31] == 0xAA && s[2] == 0 && s[3] == 0
  }

  function ImageOf(s: Sector, i: nat): uint32
    requires i < ENTRIES
  {
    Le32(s, i * ENTRY_SIZE + 8)
  }

  /** Entry `i` is bootable and sound, so that its image gets looked at. */
  predicate Probed(s: Sector, i: nat)
    requires i < ENTRIES
  {
    s[i * ENTRY_SIZE] == 0x88 && s[i * ENTRY_SIZE + 5] == 0 &&
    (s[i * ENTRY_SIZE + 6] != 0 || s[i * ENTRY_SIZE + 7] != 0)
  }

  predicate HasMagic(image: Sector) {
    image[8..32] == LINUX_MAGIC
  }

  /** Entry `i` can be booted: it is probed, and its image starts as a kernel does. */
  predicate Suitable(disk: Disk, s: Sector, i: nat)
    requires i < ENTRIES
  {
    Probed(s, i) && ImageOf(s, i) in disk && HasMagic(disk[ImageOf(s, i)])
  }

  /** The suitable entries before entry `i`. */
  ghost function SuitableBefore(disk: Disk, s: Sector, i: nat): set<nat>
    requires i <= ENTRIES
  {
    set k: nat | 1 <= k < i && Suitable(disk, s, k)
  }

  /** Every image that is looked at before entry `i` can be read. */
  ghost predicate ReadableBefore(disk: Disk, s: Sector, i: nat)
    requires i <= ENTRIES
  {
    forall k :: 1 <= k < i && Probed(s, k) ==> ImageOf(s, k) in disk
  }

  /** Entry `i` is suitable number `wanted`, counted from 1, and nothing before it is in the way. */
  ghost predicate Chosen(disk: Disk, s: Sector, wanted: nat, i: nat) {
    1 <= i < ENTRIES && Suitable(disk, s, i) && |SuitableBefore(disk, s, i)| + 1 == wanted && ReadableBefore(disk, s, i)
  }

  lemma BeforeMore(disk: Disk, s: Sector, i: nat)
    requires 1 <= i < ENTRIES
    ensures |SuitableBefore(disk, s, i + 1)| == |SuitableBefore(disk, s, i)| + (if Suitable(disk, s, i) then 1 else 0)
  {
    assert SuitableBefore(disk, s, i + 1) == SuitableBefore(disk, s, i) + (if Suitable(disk, s, i) then {i} else {});
  }

  lemma BeforeGrows(disk: Disk, s: Sector, i: nat, j: nat)
    requires i <= j <= ENTRIES
    ensures |SuitableBefore(disk, s, i)| <= |SuitableBefore(disk, s, j)|
  {
    Smaller(SuitableBefore(disk, s, i), SuitableBefore(disk, s, j));
  }

  /** At most one entry is chosen. */
  lemma ChosenUnique(disk: Disk, s: Sector, wanted: nat, i: nat, j: nat)
    requires Chosen(disk, s, wanted, i) && Chosen(disk, s, wanted, j)
    ensures i == j
  {
    if i != j {
      var (low, high) := if i < j then (i, j) else (j, i);
      BeforeMore(disk, s, low);
      BeforeGrows(disk, s, low + 1, high);
    }
  }

  /** Where all images can be read, there is a choice exactly when there are enough suitable entries. */
  lemma {:induction false} ChoiceExists(disk: Disk, s: Sector, wanted: nat, n: nat)
    requires 1 <= wanted && 1 <= n <= ENTRIES && ReadableBefore(disk, s, n)
    ensures (exists i: nat :: i < n && Chosen(disk, s, wanted, i)) <==> wanted <= |SuitableBefore(disk, s, n)|
  {
    hide Suitable, Probed, ImageOf;
    if n == 1 {
      assert SuitableBefore(disk, s, 1) == {};
    } else {
      ChoiceExists(disk, s, wanted, n - 1);
      BeforeMore(disk, s, n - 1);
      if wanted <= |SuitableBefore(disk, s, n)| && wanted > |SuitableBefore(disk, s, n - 1)| {
        assert Chosen(disk, s, wanted, n - 1);
      }
    }
  }

  datatype Choice = Panic | Entry(index: nat)

  /** The number a boot parameter asks for; 0 and 1 both mean the first. */
  function Wanted(loadparm: uint32): nat {
    if loadparm <= 1 then 1 else loadparm
  }

  /** Read the first sector of an entry's image into the second half of the scratch space and compare. */
  method IsCompatible(w: IsoWalk.Walker, i: nat) returns (ok: bool, compatible: bool)
    requires w.Valid() && 1 <= i < ENTRIES && w.sec[i * ENTRY_SIZE] == 0x88
    modifies w.sec
    ensures w.sec[..SECTOR_SIZE] == old(w.sec[..SECTOR_SIZE])
    ensures ok <==> (Probed(old(w.sec[..SECTOR_SIZE]), i) ==> ImageOf(old(w.sec[..SECTOR_SIZE]), i) in w.disk)
    ensures ok ==> (compatible <==> Suitable(w.disk, old(w.sec[..SECTOR_SIZE]), i))
  {
    hide Le32;
    var s := w.sec[..SECTOR_SIZE];
    if s[i * ENTRY_SIZE + 5] != 0 || (s[i * ENTRY_SIZE + 6] == 0 && s[i * ENTRY_SIZE + 7] == 0) {
      return true, false;
    }
    ok := w.ReadSector(Le32(s, i * ENTRY_SIZE + 8), SECTOR_SIZE);
    compatible := w.Buffer()[8..32] == LINUX_MAGIC;
  }

  /** With too few suitable entries before `n`, nothing before `n` is chosen. */
  lemma NoneBefore(disk: Disk, s: Sector, wanted: nat, n: nat, i: nat)
    requires n <= ENTRIES && |SuitableBefore(disk, s, n)| < wanted && Chosen(disk, s, wanted, i)
    ensures n <= i
  {
    if i < n {
      BeforeMore(disk, s, i);
      BeforeGrows(disk, s, i + 1, n);
    }
  }

  /** Nothing is chosen from an entry on whose image cannot be read. */
  lemma NoneBehind(disk: Disk, s: Sector, wanted: nat, n: nat, i: nat)
    requires n < ENTRIES && Probed(s, n) && ImageOf(s, n) !in disk && Chosen(disk, s, wanted, i) && 1 <= n
    ensures i < n
  {
  }

  lemma ReadableMore(disk: Disk, s: Sector, i: nat)
    requires 1 <= i < ENTRIES && ReadableBefore(disk, s, i) && (Probed(s, i) ==> ImageOf(s, i) in disk)
    ensures ReadableBefore(disk, s, i + 1)
  {
  }

  lemma NothingBefore(disk: Disk, s: Sector)
    ensures SuitableBefore(disk, s, 1) == {} && ReadableBefore(disk, s, 1)
  {
  }

  lemma NotChosen(disk: Disk, s: Sector, wanted: nat, n: nat)
    requires 1 <= n <= ENTRIES && |SuitableBefore(disk, s, n)| < wanted
    requires n < ENTRIES ==> Probed(s, n) && ImageOf(s, n) !in disk
    ensures forall i :: !Chosen(disk, s, wanted, i)
  {
    hide Suitable, Probed, ImageOf, SuitableBefore;
    forall i
      ensures !Chosen(disk, s, wanted, i)
    {
      if Chosen(disk, s, wanted, i) {
        NoneBefore(disk, s, wanted, n, i);
        if n < ENTRIES {
          NoneBehind(disk, s, wanted, n, i);
        }
      }
    }
  }

  lemma OnlyChosen(disk: Disk, s: Sector, wanted: nat, n: nat)
    requires Chosen(disk, s, wanted, n)
    ensures forall i :: Chosen(disk, s, wanted, i) <==> i == n
  {
    forall i | Chosen(disk, s, wanted, i)
      ensures i == n
    {
      ChosenUnique(disk, s, wanted, i, n);
    }
  }

  /** The scan of the catalogue: the choice is `loadparm`'s entry, and it fails only if there is none. */
  method FindEntry(w: IsoWalk.Walker, loadparm: uint32) returns (choice: Choice)
    requires w.Valid()
    modifies w.sec
    ensures w.sec[..SECTOR_SIZE] == old(w.sec[..SECTOR_SIZE])
    ensures forall i :: choice == Entry(i) <==> Chosen(w.disk, old(w.sec[..SECTOR_SIZE]), Wanted(loadparm), i)
  {
    hide HasMagic, ImageOf, ReadableBefore, SuitableBefore;
    ghost var s: Sector := w.sec[..SECTOR_SIZE];
    var left := loadparm;
    NothingBefore(w.disk, s);
    for i := 1 to ENTRIES
      invariant w.sec[..SECTOR_SIZE] == s
      invariant |SuitableBefore(w.disk, s, i)| + Wanted(left) == Wanted(loadparm)
      invariant ReadableBefore(w.disk, s, i)
    {
      BeforeMore(w.disk, s, i);
      if w.sec[i * ENTRY_SIZE] == 0x88 {
        var ok, compatible := IsCompatible(w, i);
        if !ok {
          NotChosen(w.disk, s, Wanted(loadparm), i);
          return Panic;
        }
        if compatible {
          if left <= 1 {
            OnlyChosen(w.disk, s, Wanted(loadparm), i);
            return Entry(i);
          }
          left := left - 1;
        }
      }
      ReadableMore(w.disk, s, i);
    }
    NotChosen(w.disk, s, Wanted(loadparm), ENTRIES);
    return Panic;
  }

  // ---------- Loading the image ----------

  datatype Boot = Stopped | NoCatalogue | Load(start: uint32, address: uint16, sectors: uint32)

  /** The catalogue counts in units of 512 bytes, the directory in bytes. */
  function SectorsOf(count: uint16, size: uint32): uint32 {
    if size != 0 then Plus32(size, SECTOR_SIZE - 1) / SECTOR_SIZE else count / 4
  }

  /**
   * The sectors of a file of known size hold all of it and no sector is superfluous, unless the
   * rounding overflows: then nothing at all would be loaded.
   */
  lemma SectorsFit(count: uint16, size: uint32)
    requires size > 0
    ensures var n := SectorsOf(count, size);
      ((n - 1) * SECTOR_SIZE < size <= n * SECTOR_SIZE) <==> size <= TWO32 - SECTOR_SIZE
    ensures size > TWO32 - SECTOR_SIZE ==> SectorsOf(count, size) == 0
  {
  }

  function Le16(s: seq<byte>, o: nat): uint16
    requires o + 2 <= |s|
  {
    var high: int := s[o + 1];
    high * 0x100 + s[o]
  }

  /** What booting entry `i` means for a file of the given size, 0 if unknown. */
  function Loaded(s: Sector, i: nat, size: uint32): Boot
    requires i < ENTRIES
  {
    Load(ImageOf(s, i), Le16(s, i * ENTRY_SIZE + 2), SectorsOf(Le16(s, i * ENTRY_SIZE + 6), size))
  }

  /** The catalogue at `loc` can be used, and entry `i` is what `loadparm` asks for. */
  ghost predicate Selects(disk: Disk, found: Search, loadparm: uint32, i: nat) {
    found.At? && found.loc in disk && IsValidation(disk[found.loc]) &&
      Chosen(disk, disk[found.loc], Wanted(loadparm), i)
  }

  method SelectEntry(w: IsoWalk.Walker, loadparm: uint32, ghost last: uint32)
    returns (absent: bool, choice: Choice, ghost found: Search, ghost stop: uint32)
    requires w.Valid() && PRIMARY_VD_SECTOR <= last && !Passed(w.disk, last)
    modifies w.sec
    ensures StopsFirst(w.disk, stop) && found == Verdict(w.disk, stop) && (absent <==> found.Absent?)
    ensures forall i :: choice == Entry(i) <==> Selects(w.disk, found, loadparm, i)
    ensures choice.Entry? ==>
      found.At? && found.loc in w.disk && choice.index < ENTRIES && w.sec[..SECTOR_SIZE] == w.disk[found.loc]
  {
    hide Le32, Passed, Verdict, StopsFirst;
    var catalogue;
    catalogue, stop := FindCatalogue(w, last);
    found, absent, choice := catalogue, catalogue.Absent?, Panic;
    if catalogue.At? {
      var ok := w.ReadSector(catalogue.loc, 0);
      if ok && IsValidation(w.sec[..SECTOR_SIZE]) {
        choice := FindEntry(w, loadparm);
      }
    }
  }

  /**
   * From the volume descriptors to what is loaded.  The directory walk reuses the scratch space
   * that holds the chosen entry, so the entry is put aside before.
   */
  method Start(w: IsoWalk.Walker, loadparm: uint32, ghost last: uint32) returns (boot: Boot, ghost stop: uint32)
    requires w.Valid() && VolumeOk(w.disk) && PRIMARY_VD_SECTOR <= last && !Passed(w.disk, last)
    modifies w.sec, w.secLoc, w.secOffset, w.dirRem
    ensures StopsFirst(w.disk, stop)
    ensures boot == NoCatalogue <==> Verdict(w.disk, stop) == Absent
    ensures boot.Load? ==> exists i :: Selects(w.disk, Verdict(w.disk, stop), loadparm, i)
    ensures forall i: nat, k: nat :: Selects(w.disk, Verdict(w.disk, stop), loadparm, i) ==>
      var s := w.disk[Verdict(w.disk, stop).loc];
      (IsFirstMatch(Listing(w.disk), ImageOf(s, i), k) ==> boot == Loaded(s, i, Listing(w.disk)[k].size)) &&
      (NoMatch(Listing(w.disk), ImageOf(s, i)) ==> boot == if w.stray in w.disk then Loaded(s, i, 0) else Stopped)
  {
    hide Le32, Chosen, Passed, StopsFirst, Verdict, IsValidation, IsoDirectory.VolumeOk, IsoDirectory.Listing,
      SectorsOf, Le16;
    var absent, choice;
    ghost var found;
    absent, choice, found, stop := SelectEntry(w, loadparm, last);
    if absent {
      return NoCatalogue, stop;
    }
    match choice
    case Panic =>
      return Stopped, stop;
    case Entry(i) =>
      assert Selects(w.disk, found, loadparm, i);
      var start := ImageOf(w.sec[..SECTOR_SIZE], i);
      var address := Le16(w.sec[..SECTOR_SIZE], i * ENTRY_SIZE + 2);
      var count := Le16(w.sec[..SECTOR_SIZE], i * ENTRY_SIZE + 6);
      var size := w.GetFileSize(start);
      boot := if size.Halted? then Stopped else Load(start, address, SectorsOf(count, size.size));
  }
}
