/**
 * The explicit-stack directory walk that looks up the size of a boot image.
 * Three parallel arrays hold, per level, the current sector, the offset in it and the bytes
 * left; one sector buffer is shared by all levels.
 */
module IsoWalk {
  import opened Bytes
  import opened IsoDirectory

  datatype Outcome = Halted | Size(size: uint32)

  /**
   * One level of the stack: the directory whose bytes from (`loc`, `off`) up to sector `end` are
   * still to be gone through, and the part `rest` of the listing that these bytes stand for.
   */
  datatype Frame = Frame(loc: nat, off: nat, end: nat, entered: bool, rest: seq<Record>)

  /** The bytes of an entered directory after the current position. */
  function Left(f: Frame): int {
    if f.entered then (f.end - f.loc) * SECTOR_SIZE - f.off else 0
  }

  /** `f` is a well-formed directory at stack level `level`, and `rest` is what it still lists. */
  ghost predicate Sound(disk: Disk, f: Frame, level: nat) {
    if f.entered then
      f.loc <= f.end <= TWO32 && f.off <= SECTOR_SIZE && (f.loc == f.end ==> f.off == 0) && Left(f) < TWO32 &&
      ExtentOk(disk, f.loc, f.off, f.end) &&
      RecordsOk(disk, ExtentRecords(disk, f.loc, f.off, f.end), level) &&
      f.rest == ListRecords(disk, ExtentRecords(disk, f.loc, f.off, f.end), level)
    else
      f.loc < TWO32 && f.off == 0 && TreeOk(disk, f.loc, level) && f.rest == ListTree(disk, f.loc, level)
  }

  function Opened(disk: Disk, f: Frame): Frame
    requires 0 <= f.loc < TWO32 && f.loc in disk
  {
    Frame(f.loc, FirstOffset(disk[f.loc]), EndOf(disk, f.loc), true, f.rest)
  }

  /** Entering a directory lists nothing; it only skips the self and parent records. */
  lemma EnterDirectory(disk: Disk, f: Frame, level: nat)
    requires !f.entered && Sound(disk, f, level)
    ensures f.loc < TWO32 && f.loc in disk && f.off == 0
    ensures var g := Opened(disk, f);
      Sound(disk, g, level) && g.loc < g.end && 0 < g.off &&
      Left(g) == RecordAt(disk[f.loc], 0).size - g.off && 0 < Left(g) < TWO32
  {
  }

  /** Passing over padding, or the end of a sector, lists nothing. */
  lemma SkipPadding(disk: Disk, f: Frame, level: nat)
    requires f.entered && Sound(disk, f, level) && f.loc < f.end && f.loc < TWO32 && f.loc in disk
    requires f.off == SECTOR_SIZE || disk[f.loc][f.off] == 0
    ensures var g := Frame(f.loc + 1, 0, f.end, true, f.rest);
      Sound(disk, g, level) && Left(g) == Left(f) - (SECTOR_SIZE - f.off)
  {
    var rest := ExtentRecords(disk, f.loc + 1, 0, f.end);
    assert ExtentRecords(disk, f.loc, f.off, f.end) == [] + rest == rest;
  }

  /** The level `f` after passing over record `r`, of length `len`, when `sub` is what the record's directory lists. */
  function Passed(f: Frame, len: nat, sub: seq<Record>): Frame
    requires |sub| < |f.rest|
  {
    f.(off := f.off + len, rest := f.rest[1 + |sub|..])
  }

  /** Passing over a record lists that record, then the directory it names if that is entered. */
  lemma TakeRecord(disk: Disk, f: Frame, level: nat) returns (sub: seq<Record>)
    requires f.entered && Sound(disk, f, level) && f.loc < f.end && f.loc < TWO32 && f.loc in disk
    requires f.off < SECTOR_SIZE && disk[f.loc][f.off] != 0
    ensures HEADER_SIZE <= disk[f.loc][f.off] && f.off + disk[f.loc][f.off] <= SECTOR_SIZE
    ensures
      var r := RecordAt(disk[f.loc], f.off);
      |sub| < |f.rest| && f.rest == [r] + sub + f.rest[1 + |sub|..] &&
      Sound(disk, Passed(f, disk[f.loc][f.off], sub), level) &&
      if Entered(r, level) then Sound(disk, Frame(r.extent, 0, 0, false, sub), level + 1) else sub == []
  {
    var r := RecordAt(disk[f.loc], f.off);
    var off' := f.off + disk[f.loc][f.off];
    var rest := ExtentRecords(disk, f.loc + 1, 0, f.end);
    var records := ExtentRecords(disk, f.loc, f.off, f.end);
    assert records == [r] + (SectorRecords(disk[f.loc], off') + rest);
    assert records[1..] == ExtentRecords(disk, f.loc, off', f.end);
    sub := if Entered(r, level) then ListTree(disk, r.extent, level + 1) else [];
    assert f.rest == [r] + sub + ListRecords(disk, records[1..], level);
  }

  /** A directory whose bytes are used up has nothing left to list. */
  lemma ExhaustedDirectory(disk: Disk, f: Frame, level: nat)
    requires f.entered && Sound(disk, f, level) && Left(f) == 0
    ensures f.rest == []
  {
    if f.loc < f.end {
      SkipPadding(disk, f, level);
    }
  }

  /** A level the walk may be at: its sector can be read, and nothing wraps. */
  lemma SoundBounds(disk: Disk, f: Frame, level: nat)
    requires Sound(disk, f, level) && (f.entered ==> f.loc < f.end)
    ensures f.loc < TWO32 && f.loc in disk && f.off <= SECTOR_SIZE && 0 <= Left(f) < TWO32
    ensures f.entered && f.off == 0 ==> Left(f) > 0
  {
  }

  /** What the whole stack still has to list, innermost level first. */
  ghost function Pending(frames: seq<Frame>): seq<Record> {
    if frames == [] then []
    else frames[|frames| - 1].rest + Pending(frames[..|frames| - 1])
  }

  /** Bytes and sector ends not yet passed over; the inner part of the termination measure. */
  ghost function Work(frames: seq<Frame>): int {
    if frames == [] then 0
    else
      var f := frames[|frames| - 1];
      Work(frames[..|frames| - 1]) + 1 + if f.entered then (f.end - f.loc) * (SECTOR_SIZE + 1) - f.off else 0
  }

  lemma {:induction false} WorkNonNegative(frames: seq<Frame>)
    requires forall i :: 0 <= i < |frames| && frames[i].entered ==>
               frames[i].loc < frames[i].end && frames[i].off <= SECTOR_SIZE
    ensures Work(frames) >= 0
  {
    if frames != [] {
      WorkNonNegative(frames[..|frames| - 1]);
    }
  }

  /** Changing the innermost level changes only that level's share of the pending listing. */
  lemma ReplaceTop(frames: seq<Frame>, f: Frame)
    requires frames != []
    ensures var frames' := frames[|frames| - 1 := f];
      Pending(frames') == f.rest + Pending(frames[..|frames| - 1]) &&
      Work(frames') == Work(frames) - Work([frames[|frames| - 1]]) + Work([f])
  {
    var frames' := frames[|frames| - 1 := f];
    assert frames'[..|frames| - 1] == frames[..|frames| - 1];
    assert [f][..0] == [] && [frames[|frames| - 1]][..0] == [];
  }

  lemma PushTop(frames: seq<Frame>, f: Frame)
    ensures Pending(frames + [f]) == f.rest + Pending(frames)
  {
    assert (frames + [f])[..|frames|] == frames;
  }

  /** The levels of `frames` are sound, and every one with a level above it is under way. */
  ghost predicate Stacked(disk: Disk, frames: seq<Frame>) {
    (forall i :: 0 <= i < |frames| ==> Sound(disk, frames[i], i)) &&
    (forall i :: 0 <= i < |frames| - 1 ==> frames[i].entered && frames[i].loc < frames[i].end)
  }

  lemma StackEnter(disk: Disk, frames: seq<Frame>)
    requires frames != [] && Stacked(disk, frames) && !frames[|frames| - 1].entered
    ensures var f := frames[|frames| - 1];
      f.loc < TWO32 && f.loc in disk && f.off == 0 &&
      var g := Opened(disk, f);
      var frames' := frames[|frames| - 1 := g];
      Stacked(disk, frames') && g.loc < g.end && 0 < g.off &&
      Left(g) == RecordAt(disk[f.loc], 0).size - g.off && 0 < Left(g) < TWO32 &&
      Pending(frames') == Pending(frames)
  {
    hide Sound;
    var f := frames[|frames| - 1];
    EnterDirectory(disk, f, |frames| - 1);
    ReplaceTop(frames, Opened(disk, f));
  }

  lemma StackPadding(disk: Disk, frames: seq<Frame>)
    requires frames != [] && Stacked(disk, frames)
    requires var f := frames[|frames| - 1];
      f.entered && f.loc < f.end && f.loc < TWO32 && f.loc in disk && (f.off == SECTOR_SIZE || disk[f.loc][f.off] == 0)
    ensures var f := frames[|frames| - 1];
      var g := Frame(f.loc + 1, 0, f.end, true, f.rest);
      var frames' := frames[|frames| - 1 := g];
      Stacked(disk, frames') && Left(g) == Left(f) - (SECTOR_SIZE - f.off) &&
      Pending(frames') == Pending(frames) && Work(frames') < Work(frames)
  {
    hide Sound;
    var f := frames[|frames| - 1];
    SoundBounds(disk, f, |frames| - 1);
    SkipPadding(disk, f, |frames| - 1);
    ReplaceTop(frames, Frame(f.loc + 1, 0, f.end, true, f.rest));
  }

  /** The stack after passing over record `r`, of length `len`, whose directory lists `sub`. */
  function Advanced(frames: seq<Frame>, r: Record, len: nat, sub: seq<Record>): seq<Frame>
    requires frames != [] && |sub| < |frames[|frames| - 1].rest|
  {
    var level := |frames| - 1;
    var frames' := frames[level := Passed(frames[level], len, sub)];
    if Entered(r, level) then frames' + [Frame(r.extent, 0, 0, false, sub)] else frames'
  }

  /** Passing over a record takes exactly that record off the pending listing. */
  lemma PendingAdvanced(frames: seq<Frame>, r: Record, len: nat, sub: seq<Record>)
    requires frames != [] && |sub| < |frames[|frames| - 1].rest|
    requires var f := frames[|frames| - 1]; f.rest == [r] + sub + f.rest[1 + |sub|..]
    requires !Entered(r, |frames| - 1) ==> sub == []
    ensures Pending(frames) == [r] + Pending(Advanced(frames, r, len, sub))
  {
    var level := |frames| - 1;
    var g := Passed(frames[level], len, sub);
    var outer := Pending(frames[..level]);
    ReplaceTop(frames, g);
    if Entered(r, level) {
      PushTop(frames[level := g], Frame(r.extent, 0, 0, false, sub));
    }
    assert ([r] + sub + g.rest) + outer == [r] + (sub + (g.rest + outer));
  }

  lemma StackRecord(disk: Disk, frames: seq<Frame>) returns (sub: seq<Record>)
    requires frames != [] && Stacked(disk, frames)
    requires var f := frames[|frames| - 1];
      f.entered && f.loc < f.end && f.loc < TWO32 && f.loc in disk && f.off < SECTOR_SIZE && disk[f.loc][f.off] != 0
    ensures var f := frames[|frames| - 1]; var len := disk[f.loc][f.off];
      HEADER_SIZE <= len && f.off + len <= SECTOR_SIZE && |sub| < |f.rest| &&
      var r := RecordAt(disk[f.loc], f.off);
      var frames' := Advanced(frames, r, len, sub);
      Stacked(disk, frames') && Pending(frames) == [r] + Pending(frames')
  {
    hide Sound, Pending;
    var f := frames[|frames| - 1];
    sub := TakeRecord(disk, f, |frames| - 1);
    PendingAdvanced(frames, RecordAt(disk[f.loc], f.off), disk[f.loc][f.off], sub);
  }

  lemma StackLeave(disk: Disk, frames: seq<Frame>)
    requires frames != [] && Stacked(disk, frames)
    requires frames[|frames| - 1].entered && Left(frames[|frames| - 1]) == 0
    ensures var frames' := frames[..|frames| - 1];
      Stacked(disk, frames') && Pending(frames') == Pending(frames) && Work(frames') < Work(frames)
    ensures |frames| == 1 ==> Pending(frames) == []
    ensures |frames| > 1 ==>
      var parent := frames[|frames| - 2];
      parent.entered && parent.loc < parent.end && parent.loc < TWO32 && parent.loc in disk
  {
    hide Sound;
    if |frames| > 1 {
      SoundBounds(disk, frames[|frames| - 2], |frames| - 2);
    }
    ExhaustedDirectory(disk, frames[|frames| - 1], |frames| - 1);
  }

  /** What the loop needs to know of the innermost level. */
  lemma StackTop(disk: Disk, frames: seq<Frame>)
    requires frames != [] && Stacked(disk, frames)
    requires var f := frames[|frames| - 1]; f.entered ==> f.loc < f.end
    ensures var f := frames[|frames| - 1];
      f.loc < TWO32 && f.loc in disk && f.off <= SECTOR_SIZE && 0 <= Left(f) < TWO32 &&
      (f.entered && f.off == 0 ==> Left(f) > 0)
    ensures Work(frames) >= 0
  {
    SoundBounds(disk, frames[|frames| - 1], |frames| - 1);
    WorkNonNegative(frames);
  }

  lemma StackStart(disk: Disk)
    requires VolumeOk(disk)
    ensures var frames := [Frame(RootOf(disk), 0, 0, false, Listing(disk))];
      Stacked(disk, frames) && Pending(frames) == Listing(disk)
  {
    var f := Frame(RootOf(disk), 0, 0, false, Listing(disk));
    assert Sound(disk, f, 0);
    assert [f][..0] == [];
  }

  lemma HeadOfRest(all: seq<Record>, n: nat, r: Record, rest: seq<Record>)
    requires n <= |all| && all[n..] == [r] + rest
    ensures n < |all| && all[n] == r && all[n + 1..] == rest && all[..n + 1] == all[..n] + [r]
  {
    assert all[n..][0] == r && all[n..][1..] == rest;
  }

  lemma NothingYet(all: seq<Record>, rba: uint32)
    ensures all[0..] == all && NoMatch(all[..0], rba)
  {
  }

  lemma MatchAt(all: seq<Record>, rba: uint32, n: nat)
    requires n < |all| && NoMatch(all[..n], rba) && all[n].extent == rba
    ensures !NoMatch(all, rba) && forall i: nat :: IsFirstMatch(all, rba, i) <==> i == n
  {
  }

  lemma MatchLater(all: seq<Record>, rba: uint32, n: nat)
    requires n < |all| && NoMatch(all[..n], rba) && all[n].extent != rba
    ensures NoMatch(all[..n + 1], rba)
  {
  }

  lemma MatchNowhere(all: seq<Record>, rba: uint32)
    requires NoMatch(all[..|all|], rba)
    ensures NoMatch(all, rba) && forall i: nat :: !IsFirstMatch(all, rba, i)
  {
    assert all[..|all|] == all;
  }

  class Walker {
    const disk: Disk
    /** Scratch space: the volume descriptor in the first 2048 bytes, the directory sector in the next. */
    const sec: array<byte>
    const secLoc: array<uint32>
    const secOffset: array<uint32>
    const dirRem: array<uint32>
    /** The word stored just before `secLoc`: the walk reads it once the root is exhausted. */
    const stray: uint32

    ghost predicate Valid() {
      sec.Length == 16384 &&
      secLoc.Length == MAX_DEPTH && secOffset.Length == MAX_DEPTH && dirRem.Length == MAX_DEPTH &&
      secLoc != secOffset && secOffset != dirRem && secLoc != dirRem &&
      sec as object != secLoc && sec as object != secOffset && sec as object != dirRem
    }

    constructor (disk: Disk, stray: uint32)
      ensures Valid() && this.disk == disk && this.stray == stray
      ensures fresh(sec) && fresh(secLoc) && fresh(secOffset) && fresh(dirRem)
    {
      this.disk := disk;
      this.stray := stray;
      sec := new byte[16384](_ => 0);
      secLoc := new uint32[MAX_DEPTH](_ => 0);
      secOffset := new uint32[MAX_DEPTH](_ => 0);
      dirRem := new uint32[MAX_DEPTH](_ => 0);
    }

    /** The sector buffer shared by all levels. */
    function Buffer(): (s: seq<byte>)
      requires Valid()
      reads sec
      ensures |s| == SECTOR_SIZE
    {
      sec[SECTOR_SIZE..2 * SECTOR_SIZE]
    }

    method ReadSector(loc: uint32, at: nat) returns (ok: bool)
      requires Valid() && (at == 0 || at == SECTOR_SIZE)
      modifies sec
      ensures ok <==> loc in disk
      ensures ok ==> sec[at..at + SECTOR_SIZE] == disk[loc]
      ensures sec[..at] == old(sec[..at])
    {
      ok := loc in disk;
      if ok {
        forall i | 0 <= i < SECTOR_SIZE {
          sec[at + i] := disk[loc][i];
        }
      }
    }

    /** Pass over the self and parent records at the start of the buffer. */
    method SkipSelfAndParent(level: nat)
      requires Valid() && level < MAX_DEPTH && secOffset[level] == 0 && dirRem[level] == 0
      modifies secOffset, dirRem
      ensures secOffset[..] == old(secOffset[..])[level := FirstOffset(Buffer())]
      ensures dirRem[..] == old(dirRem[..])[level := Minus32(RecordAt(Buffer(), 0).size, FirstOffset(Buffer()))]
    {
      hide IsoDirectory.RecordAt, Bytes.Minus32;
      var buffer := Buffer();
      var self: int := buffer[0];
      var parent: int := buffer[self];
      var size: int := RecordAt(buffer, 0).size;
      Minus32Twice(size, self, parent);
      dirRem[level] := Minus32(size, self);
      secOffset[level] := self;
      dirRem[level] := Minus32(dirRem[level], parent);
      secOffset[level] := self + parent;
    }

    /** The stack arrays hold the levels of `frames`. */
    ghost predicate Holds(frames: seq<Frame>)
      requires Valid()
      reads secLoc, secOffset, dirRem
    {
      |frames| <= MAX_DEPTH &&
      forall i :: 0 <= i < |frames| ==>
        secLoc[i] == U32(frames[i].loc) && secOffset[i] == frames[i].off && dirRem[i] == Left(frames[i])
    }

    /** The innermost level has been entered, is not used up, and its sector is in the buffer. */
    ghost predicate UnderWay(frames: seq<Frame>)
      requires Valid()
      reads sec
    {
      frames != [] &&
      var f := frames[|frames| - 1];
      f.entered && f.loc < f.end && f.loc < TWO32 && f.loc in disk && Buffer() == disk[f.loc]
    }

    /** Zero padding, or the end of the sector: on to the next sector. */
    method PassPadding(level: nat)
      requires Valid() && level < MAX_DEPTH && secOffset[level] <= SECTOR_SIZE
      modifies secLoc, secOffset, dirRem
      ensures dirRem[..] == old(dirRem[..])[level := Minus32(old(dirRem[level]), SECTOR_SIZE - old(secOffset[level]))]
      ensures secOffset[..] == old(secOffset[..])[level := 0]
      ensures secLoc[..] == old(secLoc[..])[level := Plus32(old(secLoc[level]), 1)]
    {
      dirRem[level] := Minus32(dirRem[level], SECTOR_SIZE - secOffset[level]);
      secOffset[level] := 0;
      secLoc[level] := Plus32(secLoc[level], 1);
    }

    /** A record: pass over its bytes. */
    method PassRecord(level: nat, len: byte)
      requires Valid() && level < MAX_DEPTH && secOffset[level] <= SECTOR_SIZE
      modifies secOffset, dirRem
      ensures dirRem[..] == old(dirRem[..])[level := Minus32(old(dirRem[level]), len)]
      ensures secOffset[..] == old(secOffset[..])[level := Plus32(old(secOffset[level]), len)]
    {
      dirRem[level] := Minus32(dirRem[level], len);
      secOffset[level] := Plus32(secOffset[level], len);
    }

    /** Enter the innermost directory, whose first sector is in the buffer. */
    method Enter(level: nat, ghost frames: seq<Frame>) returns (ghost frames': seq<Frame>)
      requires Valid() && Holds(frames) && Stacked(disk, frames) && level == |frames| - 1
      requires !frames[level].entered && frames[level].loc < TWO32 && frames[level].loc in disk
      requires frames[level].off == 0 && Buffer() == disk[frames[level].loc]
      modifies secOffset, dirRem
      ensures Holds(frames') && Stacked(disk, frames') && |frames'| == |frames| && UnderWay(frames')
      ensures Pending(frames') == Pending(frames) && frames'[level].off <= SECTOR_SIZE
    {
      hide Stacked, IsoDirectory.RecordAt, Pending;
      StackEnter(disk, frames);
      frames' := frames[level := Opened(disk, frames[level])];
      SkipSelfAndParent(level);
    }

    /** At offset 0 the sector has to be read, and a directory met for the first time is entered. */
    method LoadSector(level: nat, ghost frames: seq<Frame>) returns (ok: bool, entered: bool, ghost frames': seq<Frame>)
      requires Valid() && Holds(frames) && Stacked(disk, frames) && level == |frames| - 1
      requires frames[level].entered ==> frames[level].loc < frames[level].end
      requires frames[level].off != 0 ==> UnderWay(frames)
      modifies sec, secOffset, dirRem
      ensures ok && Holds(frames') && Stacked(disk, frames') && |frames'| == |frames| && UnderWay(frames')
      ensures Pending(frames') == Pending(frames) && frames'[level].off <= SECTOR_SIZE
      ensures if entered then !frames[level].entered else frames' == frames
    {
      hide Stacked, IsoDirectory.RecordAt, Pending;
      StackTop(disk, frames);
      ok, entered, frames' := true, false, frames;
      if secOffset[level] == 0 {
        ok := ReadSector(secLoc[level], SECTOR_SIZE);
        if dirRem[level] == 0 {
          entered := true;
          frames' := Enter(level, frames);
        }
      }
    }

    /** Zero padding, or the end of the sector. */
    method EndSector(level: nat, ghost frames: seq<Frame>) returns (ghost frames': seq<Frame>)
      requires Valid() && Holds(frames) && Stacked(disk, frames) && UnderWay(frames) && level == |frames| - 1
      requires frames[level].off <= SECTOR_SIZE
      requires frames[level].off == SECTOR_SIZE || Buffer()[frames[level].off] == 0
      modifies secLoc, secOffset, dirRem
      ensures Holds(frames') && Stacked(disk, frames') && |frames'| == |frames|
      ensures frames'[level].entered && frames'[level].off == 0 && frames'[level].loc <= frames'[level].end
      ensures Pending(frames') == Pending(frames) && Work(frames') < Work(frames)
    {
      hide Stacked, IsoDirectory.RecordAt, Pending, Work;
      ghost var f := frames[level];
      StackPadding(disk, frames);
      frames' := frames[level := Frame(f.loc + 1, 0, f.end, true, f.rest)];
      PassPadding(level);
    }

    /**
     * A record that is not the one looked for: pass over it, and go down into a subdirectory unless this
     * is the last level.
     */
    method Descend(level: nat, record: Record, ghost frames: seq<Frame>, ghost sub: seq<Record>) returns (down: bool)
      requires Valid() && Holds(frames) && UnderWay(frames) && level == |frames| - 1
      requires |sub| < |frames[level].rest| && frames[level].off < SECTOR_SIZE
      requires Buffer()[frames[level].off] <= Left(frames[level]) < TWO32
      requires frames[level].off + Buffer()[frames[level].off] <= SECTOR_SIZE
      modifies secLoc, secOffset, dirRem
      ensures down == Entered(record, level)
      ensures var frames' := Advanced(frames, record, Buffer()[frames[level].off], sub);
        Holds(frames') &&
        if down then |frames'| == |frames| + 1 && !frames'[level + 1].entered && frames'[level + 1].off == 0
        else |frames'| == |frames| && UnderWay(frames')
    {
      hide IsoDirectory.RecordAt;
      PassRecord(level, Buffer()[secOffset[level]]);
      ghost var passed := frames[level := Passed(frames[level], Buffer()[frames[level].off], sub)];
      assert Holds(passed);
      down := record.isDirectory && level != MAX_DEPTH - 1;
      if down {
        secLoc[level + 1] := record.extent;
        secOffset[level + 1] := 0;
        dirRem[level + 1] := 0;
      }
    }

    /** The record at the current position, and, unless it is the one looked for, the step past it. */
    method PassRecordAt(level: nat, rba: uint32, ghost frames: seq<Frame>)
      returns (record: Record, down: bool, ghost frames': seq<Frame>)
      requires Valid() && Holds(frames) && Stacked(disk, frames) && UnderWay(frames) && level == |frames| - 1
      requires frames[level].off < SECTOR_SIZE && Buffer()[frames[level].off] != 0
      modifies secLoc, secOffset, dirRem
      ensures Stacked(disk, frames') && Pending(frames) == [record] + Pending(frames')
      ensures record.extent != rba ==>
        Holds(frames') &&
        if down then |frames'| == |frames| + 1 && !frames'[level + 1].entered && frames'[level + 1].off == 0
        else |frames'| == |frames| && UnderWay(frames')
    {
      hide Stacked, IsoDirectory.RecordAt, Pending;
      ghost var f := frames[level];
      StackTop(disk, frames);
      ghost var sub := StackRecord(disk, frames);
      down := false;
      record := RecordAt(Buffer(), secOffset[level]);
      frames' := Advanced(frames, record, Buffer()[f.off], sub);
      if record.extent != rba {
        down := Descend(level, record, frames, sub);
      }
    }

    /**
     * Nothing remaining: back to the parent, whose sector is read again; leaving the root reads the word
     * before the stack.
     */
    method Leave(level: nat, ghost frames: seq<Frame>) returns (ok: bool)
      requires Valid() && Holds(frames) && Stacked(disk, frames) && level == |frames| - 1
      requires frames[level].entered && Left(frames[level]) == 0
      modifies sec
      ensures var frames' := frames[..level];
        Holds(frames') && Stacked(disk, frames') &&
        Pending(frames') == Pending(frames) && Work(frames') < Work(frames)
      ensures if level == 0 then Pending(frames) == [] && ok == (stray in disk) else ok && UnderWay(frames[..level])
    {
      hide Stacked, IsoDirectory.RecordAt, Pending, Work;
      StackLeave(disk, frames);
      if level == 0 {
        ok := ReadSector(stray, SECTOR_SIZE);
      } else {
        ok := ReadSector(secLoc[level - 1], SECTOR_SIZE);
      }
    }

    method Start()
      requires Valid() && VolumeOk(disk)
      modifies sec, secLoc, secOffset, dirRem
      ensures secLoc[0] == RootOf(disk) && secOffset[0] == 0 && dirRem[0] == 0
    {
      var ok := ReadSector(PRIMARY_VD_SECTOR, 0);
      secLoc[0] := RecordAt(sec[0..SECTOR_SIZE], ROOT_RECORD).extent;
      dirRem[0] := 0;
      secOffset[0] := 0;
    }

    /**
     * One turn of the walk at a level whose sector is in the buffer: past padding, or past a record that
     * is not the one looked for, possibly down into the directory it names.
     */
    method Advance(level: nat, rba: uint32, ghost all: seq<Record>, ghost n: nat, ghost frames: seq<Frame>)
      returns (hit: bool, size: uint32, down: bool, ghost n': nat, ghost frames': seq<Frame>)
      requires Valid() && Holds(frames) && Stacked(disk, frames) && UnderWay(frames) && level == |frames| - 1
      requires frames[level].off <= SECTOR_SIZE && n <= |all| && Pending(frames) == all[n..] && NoMatch(all[..n], rba)
      modifies secLoc, secOffset, dirRem
      ensures hit ==>
        n < |all| && size == all[n].size && !NoMatch(all, rba) && forall i: nat :: IsFirstMatch(all, rba, i) <==> i == n
      ensures !hit ==>
        Holds(frames') && Stacked(disk, frames') && n <= n' <= |all| && Pending(frames') == all[n'..] &&
          NoMatch(all[..n'], rba) &&
        if down then n < n' && |frames'| == |frames| + 1 && !frames'[level + 1].entered && frames'[level + 1].off == 0
        else
          |frames'| == |frames| && (n < n' || Work(frames') < Work(frames)) && frames'[level].entered &&
          frames'[level].loc <= frames'[level].end && (frames'[level].off != 0 ==> UnderWay(frames'))
    {
      hide Stacked, IsoDirectory.RecordAt, Pending, Work, Advanced, IsoDirectory.IsFirstMatch, IsoDirectory.NoMatch;
      hit, size, down, n' := false, 0, false, n;
      if sec[SECTOR_SIZE + secOffset[level]] == 0 || secOffset[level] == SECTOR_SIZE {
        assert frames[level].off < SECTOR_SIZE ==> Buffer()[frames[level].off] == sec[SECTOR_SIZE + secOffset[level]];
        frames' := EndSector(level, frames);
      } else {
        assert Buffer()[frames[level].off] == sec[SECTOR_SIZE + secOffset[level]];
        var record;
        record, down, frames' := PassRecordAt(level, rba, frames);
        HeadOfRest(all, n, record, Pending(frames'));
        hit, size := rba == record.extent, record.size;
        if hit {
          MatchAt(all, rba, n);
        } else {
          MatchLater(all, rba, n);
          n' := n + 1;
        }
      }
    }

    /** The walk proper, from a stack that holds just the root directory, whose listing is `all`. */
    method Walk(rba: uint32, ghost root: Frame, ghost all: seq<Record>) returns (r: Outcome)
      requires Valid() && Holds([root]) && Stacked(disk, [root]) && Pending([root]) == all && !root.entered &&
        root.off == 0
      modifies sec, secLoc, secOffset, dirRem
      ensures forall i: nat :: IsFirstMatch(all, rba, i) ==> r == Size(all[i].size)
      ensures NoMatch(all, rba) ==> r == if stray in disk then Size(0) else Halted
    {
      hide Stacked, IsoDirectory.RecordAt, Pending, Work, Advanced, IsoDirectory.IsFirstMatch, IsoDirectory.NoMatch;
      var level := 0;
      ghost var n := 0;
      ghost var frames := [root];
      NothingYet(all, rba);
      while level >= 0
        invariant -1 <= level == |frames| - 1 < MAX_DEPTH
        invariant Holds(frames) && Stacked(disk, frames)
        invariant level >= 0 && frames[level].entered ==> frames[level].loc < frames[level].end
        invariant level >= 0 && frames[level].off != 0 ==> UnderWay(frames)
        invariant n <= |all| && Pending(frames) == all[n..]
        invariant NoMatch(all[..n], rba)
        invariant level < 0 ==> n == |all| && stray in disk
        decreases |all| - n, if level >= 0 && !frames[level].entered then 1 else 0, Work(frames)
      {
        StackTop(disk, frames);
        if secOffset[level] > SECTOR_SIZE {
          return Halted;
        }
        var ok, entered;
        ok, entered, frames := LoadSector(level, frames);
        if !ok {
          return Halted;
        }
        if entered {
          continue;
        }
        var hit, size, down;
        hit, size, down, n, frames := Advance(level, rba, all, n, frames);
        if hit {
          return Size(size);
        }
        if down {
          level := level + 1;
          continue;
        }
        if dirRem[level] == 0 {
          ok := Leave(level, frames);
          frames := frames[..level];
          level := level - 1;
          if !ok {
            MatchNowhere(all, rba);
            return Halted;
          }
        }
      }
      MatchNowhere(all, rba);
      return Size(0);
    }

    /** The size of the file whose extent starts at `rba`, or 0 if no directory within reach records it. */
    method GetFileSize(rba: uint32) returns (r: Outcome)
      requires Valid() && VolumeOk(disk)
      modifies sec, secLoc, secOffset, dirRem
      ensures forall i: nat :: IsFirstMatch(Listing(disk), rba, i) ==> r == Size(Listing(disk)[i].size)
      ensures NoMatch(Listing(disk), rba) ==> r == if stray in disk then Size(0) else Halted
    {
      Start();
      StackStart(disk);
      hide Stacked, IsoDirectory.TreeOk;
      r := Walk(rba, Frame(RootOf(disk), 0, 0, false, Listing(disk)), Listing(disk));
    }
  }
}
