/**
 * Loading a component from a SCSI disk.  The tables differ from the ECKD ones, and the data
 * transfer goes through a packed record that narrows the block number to a signed 32-bit integer, before
 * the device takes its share of it.
 */
module ScsiLoader {
  import opened Bytes
  import opened Storage
  import opened BlockChains
  import opened PointerTables
  import ScsiRead

  const SEC_SIZE := 16384
  const ENTRY_SIZE := 16
  const MAX_ENTRIES := 256
  /** What the transfer returns for a wrong block length, and what the caller tests its result against. */
  const FAILED: uint64 := 0xffff_ffff_ffff_ffff

  type Buffer = b: seq<byte> | |b| == SEC_SIZE witness seq(SEC_SIZE, _ => 0)

  function BlockAt(buf: Buffer, j: nat): uint64
    requires j < MAX_ENTRIES
  {
    Be64(buf, ENTRY_SIZE * j)
  }

  function SizeAt(buf: Buffer, j: nat): uint16
    requires j < MAX_ENTRIES
  {
    Be16(buf, ENTRY_SIZE * j + 8)
  }

  function CountAt(buf: Buffer, j: nat): uint16
    requires j < MAX_ENTRIES
  {
    Be16(buf, ENTRY_SIZE * j + 10)
  }

  /** Entry `i` carries no data: it ends the chain or links to another table. */
  predicate NoData(buf: Buffer, i: nat)
    requires i < MAX_ENTRIES
  {
    BlockAt(buf, i) == 0 || i == MAX_ENTRIES - 1 ||
    (CountAt(buf, i) == 0 && Unused(buf, ENTRY_SIZE * (i + 1), ENTRY_SIZE))
  }

  method IsLast(buf: Buffer, i: nat) returns (last: bool)
    requires i < MAX_ENTRIES
    ensures last <==> NoData(buf, i)
    ensures !last ==> i + 1 < MAX_ENTRIES
  {
    last := BlockAt(buf, i) == 0 || i == MAX_ENTRIES - 1;
    if !last && CountAt(buf, i) == 0 {
      last := UnusedSpace(buf, ENTRY_SIZE * (i + 1), ENTRY_SIZE);
    }
  }

  /** The table in `buf` from entry `j` on, on a disk of blocks of `size` bytes. */
  function RawFrom(size: nat, buf: Buffer, j: nat): Raw
    requires j < MAX_ENTRIES
    decreases MAX_ENTRIES - j
  {
    var block := BlockAt(buf, j);
    if block == 0 then Raw([], Finish)
    else if NoData(buf, j) then Raw([], Link(block))
    else if SizeAt(buf, j) != size then Raw([], Stop)
    else
      var rest := RawFrom(size, buf, j + 1);
      Raw([Pointer(block, CountAt(buf, j) as int + 1)] + rest.pointers, rest.end)
  }

  ghost predicate DiskOk(size: nat, disk: Disk) {
    size <= SEC_SIZE && forall b :: b in disk ==> |disk[b]| == size
  }

  ghost function RawsOf(size: nat, disk: Disk): Raws
    requires DiskOk(size, disk)
  {
    map b | b in disk :: RawFrom(size, Filled(disk[b], SEC_SIZE), 0)
  }

  /** What entry `i` contributes, after the extents in `here`. */
  lemma TableStep(io: Io, size: nat, disk: Disk, buf: Buffer, i: nat, here: seq<Extent>)
    requires IoOk(io) && i < MAX_ENTRIES
    ensures var t := Carried(io, disk, RawFrom(size, buf, i));
      var e := Transfer(io, BlockAt(buf, i), CountAt(buf, i) as int + 1);
      if NoData(buf, i) then t == Table([], if BlockAt(buf, i) == 0 then Finish else Link(TableAt(io, BlockAt(buf, i))))
      else if SizeAt(buf, i) != size || !Readable(disk, e) then t == Table([], Stop)
      else
        i + 1 < MAX_ENTRIES &&
        var rest := Carried(io, disk, RawFrom(size, buf, i + 1));
        here + t.extents == (here + [e]) + rest.extents && t.end == rest.end
  {
    hide BlockAt, CountAt, SizeAt, Storage.Unused, Storage.Readable, TableAt, Transfer;
    var raw := RawFrom(size, buf, i);
    if raw.pointers != [] {
      var rest := RawFrom(size, buf, i + 1);
      assert raw.pointers[1..] == rest.pointers && Raw(raw.pointers[1..], raw.end) == rest;
    }
  }

  lemma {:induction false} RawCounted(size: nat, buf: Buffer, j: nat)
    requires j < MAX_ENTRIES
    ensures CountedIn(RawFrom(size, buf, j).pointers)
    decreases MAX_ENTRIES - j
  {
    hide BlockAt, SizeAt, Storage.Unused;
    if j + 1 < MAX_ENTRIES {
      RawCounted(size, buf, j + 1);
    }
  }

  lemma AllCounted(size: nat, disk: Disk)
    requires DiskOk(size, disk)
    ensures Counted(RawsOf(size, disk))
  {
    hide RawFrom;
    forall b | b in disk
      ensures CountedIn(RawFrom(size, Filled(disk[b], SEC_SIZE), 0).pointers)
    {
      RawCounted(size, Filled(disk[b], SEC_SIZE), 0);
    }
  }

  // ---------- What is described and what is loaded ----------

  /** The tables and pointers of the chain that starts at `block`. */
  ghost function TableNumbers(size: nat, disk: Disk, block: uint64): seq<uint64>
    requires DiskOk(size, disk)
  {
    Trace(TablesOf(Stated, disk, RawsOf(size, disk)), block, {})
  }

  ghost function DataPointers(size: nat, disk: Disk, block: uint64): seq<Pointer>
    requires DiskOk(size, disk)
  {
    PointersOf(RawsOf(size, disk), block, {})
  }

  /** Both loads, from `block` on, read the same tables and blocks, and end alike. */
  ghost predicate LoadsDescribed(route: Route, size: nat, disk: Disk, block: uint64)
    requires RouteOk(route) && DiskOk(size, disk)
  {
    var (io, raws) := (Through(route, true), RawsOf(size, disk));
    SameReads(TablesOf(io, disk, raws), TableAt(io, block), TablesOf(Stated, disk, raws), block, {})
  }

  /**
   * On a virtio-blk disk a complete chain is loaded as described exactly when every table can be named
   * in sectors, and every data block lies below 2^31 or among the last 2^31 that can be named.
   */
  lemma BlkExactly(factor: nat, size: nat, disk: Disk, block: uint64)
    requires RouteOk(VirtioBlk(factor))
    requires DiskOk(size, disk) && ChainOf(Stated, disk, RawsOf(size, disk), block).verdict == Complete
    ensures var reach := TWO64 / factor;
      LoadsDescribed(VirtioBlk(factor), size, disk, block) <==>
        (forall b :: b in TableNumbers(size, disk, block) ==> b < reach) &&
        (forall p :: p in DataPointers(size, disk, block) ==>
          p.block < 0x8000_0000 || reach - 0x8000_0000 <= p.block < reach)
  {
    hide PointersOf, BlockChains.Trace, BlockChains.Flatten, SameReads, TablesOf;
    AllCounted(size, disk);
    var io := Through(VirtioBlk(factor), true);
    CompleteExactly(io, disk, RawsOf(size, disk), block);
    forall b: uint64
      ensures TableAt(io, b) == b <==> b < TWO64 / factor
    {
      TableReach(io, b);
    }
    assert TWO64 / factor >= TWO32;
  }

  /**
   * On a virtio-scsi disk it is loaded as described exactly when all its tables, and the last chunk of
   * every transfer, start below block 2^32; the narrowing does not matter there.
   */
  lemma ScsiExactly(limit: uint32, size: nat, disk: Disk, block: uint64)
    requires RouteOk(VirtioScsi(limit))
    requires DiskOk(size, disk) && ChainOf(Stated, disk, RawsOf(size, disk), block).verdict == Complete
    ensures LoadsDescribed(VirtioScsi(limit), size, disk, block) <==>
      (forall b :: b in TableNumbers(size, disk, block) ==> b < TWO32) &&
      (forall p :: p in DataPointers(size, disk, block) ==>
        p.block + p.count - ScsiRead.LastChunk(p.count, limit) < TWO32)
  {
    hide PointersOf, BlockChains.Trace, BlockChains.Flatten, SameReads, TablesOf, ScsiRead.LastChunk;
    AllCounted(size, disk);
    var io := Through(VirtioScsi(limit), true);
    CompleteExactly(io, disk, RawsOf(size, disk), block);
    forall b: uint64
      ensures TableAt(io, b) == b <==> b < TWO32
    {
      TableReach(io, b);
    }
  }

  // ---------- Disks of 512-byte blocks ----------

  /** A table with one entry, for one block of 512 bytes; what follows it ends the table. */
  function OneEntry(block: seq<byte>, rest: byte): seq<byte>
    requires |block| == 8
  {
    block + [2, 0, 0, 0, 0, 0, 0, 0] + seq(496, _ => rest)
  }

  /** Block 1 is a table that names the block `number`, given in eight bytes, and that block is filled with `data`. */
  function DataDisk(block: seq<byte>, number: uint64, data: byte): Disk
    requires |block| == 8
  {
    map[1 := OneEntry(block, 0)][number := seq(512, _ => data)]
  }

  /** Block 1 is a table that links to the block `number`, which is an empty table. */
  function LinkDisk(block: seq<byte>, number: uint64): Disk
    requires |block| == 8
  {
    map[1 := OneEntry(block, FILLER)][number := seq(512, _ => 0)]
  }

  lemma SmallTable(block: seq<byte>, number: uint64)
    requires |block| == 8 && Be64(block, 0) == number > 1
    ensures RawFrom(512, Filled(OneEntry(block, 0), SEC_SIZE), 0) == Raw([Pointer(number, 1)], Finish)
    ensures RawFrom(512, Filled(OneEntry(block, FILLER), SEC_SIZE), 0) == Raw([], Link(number))
    ensures RawFrom(512, Filled(seq(512, _ => 0), SEC_SIZE), 0) == Raw([], Finish)
  {
    EntryReads(block, number, 0);
    EntryReads(block, number, FILLER);
    assert BlockAt(Filled(seq(512, _ => 0), SEC_SIZE), 0) == 0;
    var (end, link) := (Filled(OneEntry(block, 0), SEC_SIZE), Filled(OneEntry(block, FILLER), SEC_SIZE));
    assert end[16] != FILLER && !Unused(end, 16, 16) && Unused(link, 16, 16);
    hide BlockAt, SizeAt, CountAt, Storage.Unused, Filled, OneEntry;
    assert RawFrom(512, end, 1) == Raw([], Finish);
  }

  lemma EntryReads(block: seq<byte>, number: uint64, rest: byte)
    requires |block| == 8 && Be64(block, 0) == number
    ensures var buf := Filled(OneEntry(block, rest), SEC_SIZE);
      BlockAt(buf, 0) == number && SizeAt(buf, 0) == 512 && CountAt(buf, 0) == 0 && (rest == 0 ==> BlockAt(buf, 1) == 0)
  {
    var buf := Filled(OneEntry(block, rest), SEC_SIZE);
    assert buf[..8] == block;
    assert buf[8] == 2 && buf[16] == rest;
  }

  /** A chain of one table with one pointer. */
  lemma {:induction false} OneTable(disk: Disk, raws: Raws, p: Pointer)
    requires 1 in raws && raws[1] == Raw([p], Finish) && Readable(disk, Run(p.block, p.count))
    ensures ChainOf(Stated, disk, raws, 1).verdict == Complete
    ensures Trace(TablesOf(Stated, disk, raws), 1, {}) == [1] && PointersOf(raws, 1, {}) == [p]
  {
    assert Transfer(Stated, p.block, p.count) == Run(p.block, p.count);
    hide Storage.Run, Storage.Readable, Transfer;
    assert raws[1].pointers[1..] == [];
    assert Carried(Stated, disk, Raw([], Finish)) == Table([], Finish);
    assert Carried(Stated, disk, raws[1]).end == Finish;
    assert TablesOf(Stated, disk, raws)[1] == Carried(Stated, disk, raws[1]);
  }

  /** A chain of two tables without pointers. */
  lemma {:induction false} TwoTables(disk: Disk, raws: Raws, next: uint64)
    requires 1 in raws && raws[1] == Raw([], Link(next)) && next in raws && next != 1 && raws[next] == Raw([], Finish)
    ensures ChainOf(Stated, disk, raws, 1) == Flat([], Complete)
    ensures Trace(TablesOf(Stated, disk, raws), 1, {}) == [1, next] && PointersOf(raws, 1, {}) == []
  {
    var tables := TablesOf(Stated, disk, raws);
    assert tables[1] == Table([], Link(next)) && tables[next] == Table([], Finish);
    hide Carried, TablesOf;
    LinkedTables(tables, next);
    RawsShrink(raws, 1, {});
    assert PointersOf(raws, next, {} + {1}) == [];
  }

  lemma {:induction false} LinkedTables(tables: Tables, next: uint64)
    requires 1 in tables && tables[1] == Table([], Link(next)) && next in tables && next != 1 &&
      tables[next] == Table([], Finish)
    ensures Flatten(tables, 1, {}) == Flat([], Complete) && Trace(tables, 1, {}) == [1, next]
  {
    Shrinks(tables, 1, {});
    assert Flatten(tables, next, {} + {1}) == Flat([], Complete) && Trace(tables, next, {} + {1}) == [next];
  }

  lemma {:induction false} DataChain(block: seq<byte>, number: uint64, data: byte)
    requires |block| == 8 && Be64(block, 0) == number > 1
    ensures var disk := DataDisk(block, number, data);
      DiskOk(512, disk) && ChainOf(Stated, disk, RawsOf(512, disk), 1).verdict == Complete &&
      TableNumbers(512, disk, 1) == [1] && DataPointers(512, disk, 1) == [Pointer(number, 1)]
  {
    SmallTable(block, number);
    var disk := DataDisk(block, number, data);
    assert disk[1] == OneEntry(block, 0) && Readable(disk, Run(number, 1));
    hide RawFrom, Filled, OneEntry, Storage.Run, Storage.Readable, Carried, BlockChains.Flatten, BlockChains.Trace,
      PointersOf;
    assert RawsOf(512, disk)[1] == RawFrom(512, Filled(disk[1], SEC_SIZE), 0);
    OneTable(disk, RawsOf(512, disk), Pointer(number, 1));
  }

  lemma {:induction false} LinkChain(block: seq<byte>, number: uint64)
    requires |block| == 8 && Be64(block, 0) == number > 1
    ensures var disk := LinkDisk(block, number);
      DiskOk(512, disk) && ChainOf(Stated, disk, RawsOf(512, disk), 1) == Flat([], Complete) &&
      TableNumbers(512, disk, 1) == [1, number] && DataPointers(512, disk, 1) == []
  {
    SmallTable(block, number);
    var disk := LinkDisk(block, number);
    assert disk[1] == OneEntry(block, FILLER) && disk[number] == seq(512, _ => 0);
    hide RawFrom, Filled, OneEntry, Carried, BlockChains.Flatten, BlockChains.Trace, PointersOf;
    assert RawsOf(512, disk)[1] == RawFrom(512, Filled(disk[1], SEC_SIZE), 0);
    assert RawsOf(512, disk)[number] == RawFrom(512, Filled(disk[number], SEC_SIZE), 0);
    TwoTables(disk, RawsOf(512, disk), number);
  }

  /** The boundaries, met from both sides by data and by a link. */
  lemma {:induction false} SmallDisks(data: byte, limit: uint32)
    requires RouteOk(VirtioScsi(limit))
    ensures var disk := DataDisk([0, 0, 0, 0, 0, 0, 0, 2], 2, data);
      DiskOk(512, disk) && LoadsDescribed(VirtioBlk(1), 512, disk, 1) && LoadsDescribed(VirtioScsi(limit), 512, disk, 1)
    ensures var disk := DataDisk([0, 0, 0, 0, 0x80, 0, 0, 0], 0x8000_0000, data);
      DiskOk(512, disk) && !LoadsDescribed(VirtioBlk(1), 512, disk, 1) &&
        LoadsDescribed(VirtioScsi(limit), 512, disk, 1)
    ensures var disk := DataDisk([255, 255, 255, 255, 255, 255, 255, 255], TWO64 - 1, data);
      DiskOk(512, disk) && LoadsDescribed(VirtioBlk(1), 512, disk, 1) &&
        !LoadsDescribed(VirtioScsi(limit), 512, disk, 1)
    ensures var disk := LinkDisk([0, 0, 0, 1, 0, 0, 0, 0], TWO32);
      DiskOk(512, disk) && LoadsDescribed(VirtioBlk(1), 512, disk, 1) &&
        !LoadsDescribed(VirtioScsi(limit), 512, disk, 1)
  {
    hide RawFrom, DataDisk, LinkDisk, DataPointers, TableNumbers, RawsOf, ChainOf, LoadsDescribed;
    DataDecides([0, 0, 0, 0, 0, 0, 0, 2], 2, data, limit);
    DataDecides([0, 0, 0, 0, 0x80, 0, 0, 0], 0x8000_0000, data, limit);
    DataDecides([255, 255, 255, 255, 255, 255, 255, 255], TWO64 - 1, data, limit);
    LinkDecides([0, 0, 0, 1, 0, 0, 0, 0], TWO32, limit);
  }

  lemma {:induction false} LinkDecides(block: seq<byte>, number: uint64, limit: uint32)
    requires |block| == 8 && Be64(block, 0) == number > 1 && RouteOk(VirtioScsi(limit))
    ensures var disk := LinkDisk(block, number);
      DiskOk(512, disk) && LoadsDescribed(VirtioBlk(1), 512, disk, 1) &&
      (LoadsDescribed(VirtioScsi(limit), 512, disk, 1) <==> number < TWO32)
  {
    hide RawFrom, LinkDisk, DataPointers, TableNumbers, RawsOf, ChainOf, LoadsDescribed;
    LinkChain(block, number);
    var disk := LinkDisk(block, number);
    BlkExactly(1, 512, disk, 1);
    ScsiExactly(limit, 512, disk, 1);
    assert TableNumbers(512, disk, 1)[1] == number;
    assert number in TableNumbers(512, disk, 1);
  }

  lemma {:induction false} DataDecides(block: seq<byte>, number: uint64, data: byte, limit: uint32)
    requires |block| == 8 && Be64(block, 0) == number > 1 && RouteOk(VirtioScsi(limit))
    ensures var disk := DataDisk(block, number, data);
      DiskOk(512, disk) &&
      (LoadsDescribed(VirtioBlk(1), 512, disk, 1) <==> number < 0x8000_0000 || number >= TWO64 - 0x8000_0000) &&
      (LoadsDescribed(VirtioScsi(limit), 512, disk, 1) <==> number < TWO32)
  {
    hide RawFrom, DataDisk, DataPointers, TableNumbers, RawsOf, ChainOf, LoadsDescribed;
    DataChain(block, number, data);
    var disk := DataDisk(block, number, data);
    BlkExactly(1, 512, disk, 1);
    ScsiExactly(limit, 512, disk, 1);
    assert ScsiRead.LastChunk(1, limit) == 1;
    assert Pointer(number, 1) in [Pointer(number, 1)];
  }

  // ---------- The transfer record ----------

  function PackedSize(packed: uint64): nat {
    packed / 0x1_0000_0000_0000
  }

  function PackedCount(packed: uint64): nat {
    packed / TWO32 % TWO16 + 1
  }

  /** The shifts that unpack a transfer record recover the two fields of the table entry. */
  lemma PackedFields(buf: Buffer, j: nat)
    requires j < MAX_ENTRIES
    ensures var packed := Be64(buf, ENTRY_SIZE * j + 8);
      PackedSize(packed) == SizeAt(buf, j) && PackedCount(packed) == CountAt(buf, j) as int + 1
  {
    var packed := Be64(buf, ENTRY_SIZE * j + 8);
    assert packed / TWO32 == Be32(buf, ENTRY_SIZE * j + 8);
    assert packed / 0x1_0000_0000_0000 == packed / TWO32 / TWO16;
  }

  // ---------- The running address ----------

  /** After some extent the running address is the very number that stands for a failed transfer. */
  ghost predicate Collides(disk: Disk, load: uint64, extents: seq<Extent>) {
    exists k :: 0 < k <= |extents| && U64(load + |Payload(disk, extents[..k])|) == FAILED
  }

  lemma CollidesMore(disk: Disk, load: uint64, done: seq<Extent>, e: Extent)
    ensures Collides(disk, load, done + [e]) <==>
      Collides(disk, load, done) || U64(load + |Payload(disk, done + [e])|) == FAILED
  {
    var more := done + [e];
    assert more[..|more|] == more;
    assert forall k :: 0 <= k <= |done| ==> more[..k] == done[..k];
  }

  lemma CollidesPrefix(disk: Disk, load: uint64, a: seq<Extent>, b: seq<Extent>)
    requires Collides(disk, load, a)
    ensures Collides(disk, load, a + b)
  {
    var k :| 0 < k <= |a| && U64(load + |Payload(disk, a[..k])|) == FAILED;
    assert (a + b)[..k] == a[..k];
  }

  /** One block of 512 bytes that ends just below the top of the address space is enough. */
  lemma CollisionMet(data: byte)
    ensures Collides(map[2 := seq(512, _ => data)], 0xffff_ffff_ffff_fdff, [[2]])
  {
    var disk: Disk := map[2 := seq(512, _ => data)];
    var e: Extent := [2];
    assert Blocks(disk, e) == disk[2] + Blocks(disk, []);
    assert Payload(disk, [e]) == Blocks(disk, e) + Payload(disk, []);
    assert [e][..1] == [e];
  }

  /** What gets loaded of `extents`: up to and with the first after which the running address collides. */
  ghost predicate Reaches(disk: Disk, load: uint64, extents: seq<Extent>, reached: seq<Extent>) {
    reached <= extents &&
    if Collides(disk, load, extents) then
      reached != [] && Collides(disk, load, reached) && !Collides(disk, load, reached[..|reached| - 1])
    else reached == extents
  }

  lemma ReachesAll(disk: Disk, load: uint64, extents: seq<Extent>)
    requires !Collides(disk, load, extents)
    ensures Reaches(disk, load, extents, extents)
  {
  }

  lemma ReachesEnd(disk: Disk, load: uint64, extents: seq<Extent>, reached: seq<Extent>)
    requires Reaches(disk, load, extents, reached) && !Collides(disk, load, extents)
    ensures reached == extents
  {
  }

  lemma ReachesWithin(disk: Disk, load: uint64, a: seq<Extent>, b: seq<Extent>, reached: seq<Extent>)
    requires a <= b && Reaches(disk, load, a, reached) && (a == b || Collides(disk, load, a))
    ensures Reaches(disk, load, b, reached) && (Collides(disk, load, a) <==> Collides(disk, load, b))
  {
    if a != b {
      CollidesPrefix(disk, load, a, b[|a|..]);
      assert a + b[|a|..] == b;
    }
  }

  lemma ReachesCollision(disk: Disk, load: uint64, extents: seq<Extent>, here: seq<Extent>, e: Extent)
    requires here + [e] <= extents && !Collides(disk, load, here) && Collides(disk, load, here + [e])
    ensures Collides(disk, load, extents) && Reaches(disk, load, extents, here + [e])
  {
    var rest := extents[|here| + 1..];
    CollidesPrefix(disk, load, here + [e], rest);
    assert (here + [e]) + rest == extents && (here + [e])[..|here|] == here;
  }

  lemma NoCollision(disk: Disk, load: uint64)
    ensures !Collides(disk, load, [])
  {
  }

  lemma LastIsNoData(buf: Buffer, i: nat)
    requires i < MAX_ENTRIES
    ensures !NoData(buf, i) ==> i + 1 < MAX_ENTRIES
  {
  }

  class Loader {
    const blockSize: nat
    const disk: Disk
    const route: Route
    const sec: array<byte>
    var mem: Memory
    var address: uint64

    ghost predicate Valid() {
      sec.Length == SEC_SIZE && DiskOk(blockSize, disk) && DeviceOk(route, blockSize)
    }

    constructor (blockSize: nat, disk: Disk, route: Route, mem: Memory)
      requires DiskOk(blockSize, disk) && DeviceOk(route, blockSize)
      ensures Valid() && this.blockSize == blockSize && this.disk == disk && this.route == route && this.mem == mem
      ensures fresh(sec)
    {
      this.blockSize := blockSize;
      this.disk := disk;
      this.route := route;
      this.mem := mem;
      this.address := 0;
      sec := new byte[SEC_SIZE](_ => 0);
    }

    /** How this loader's block numbers end up on the device. */
    function Device(): (io: Io)
      requires RouteOk(route)
      ensures IoOk(io)
    {
      Through(route, true)
    }

    ghost function Tables(): (tables: Tables)
      requires Valid()
      ensures tables.Keys == disk.Keys
    {
      TablesOf(Device(), disk, RawsOf(blockSize, disk))
    }

    ghost function Chain(block: uint64): Flat
      requires Valid()
    {
      ChainOf(Device(), disk, RawsOf(blockSize, disk), block)
    }

    /** What the format says is to be loaded from `block`. */
    ghost function Described(block: uint64): Flat
      requires Valid()
    {
      ChainOf(Stated, disk, RawsOf(blockSize, disk), block)
    }

    /** Fill the table buffer and read a block into it. */
    method ReadTable(block: uint64) returns (ok: bool)
      requires Valid()
      modifies sec
      ensures ok <==> TableAt(Device(), block) in disk
      ensures ok ==> sec[..] == Filled(disk[TableAt(Device(), block)], SEC_SIZE)
    {
      ok := ReadFilled(disk, TableAt(Device(), block), sec);
    }

    /** The extents `done` have been copied since memory was `mem0` and the running address `load`. */
    ghost predicate Holds(mem0: Memory, load: uint64, done: seq<Extent>)
      reads this
    {
      Copied(disk, mem0, load, done, mem, address)
    }

    /** Memory holds just the extents `done`, wherever the running address may be. */
    ghost predicate Stores(mem0: Memory, load: uint64, done: seq<Extent>)
      reads this
    {
      mem == Store(mem0, load, Payload(disk, done))
    }

    /** Transfer by packed record: the result is the address after the data, or the failure mark for a wrong length. */
    method LoadDirect(rec1: uint64, rec2: uint64) returns (panicked: bool, end: uint64)
      requires Valid()
      modifies `mem
      ensures panicked <==>
        PackedSize(rec2) == blockSize && !Readable(disk, Transfer(Device(), rec1, PackedCount(rec2)))
      ensures PackedSize(rec2) != blockSize ==> end == FAILED
      ensures PackedSize(rec2) != blockSize || panicked ==> mem == old(mem)
      ensures PackedSize(rec2) == blockSize && !panicked ==>
        mem == Store(old(mem), address, Blocks(disk, Transfer(Device(), rec1, PackedCount(rec2)))) &&
        end == U64(address + |Blocks(disk, Transfer(Device(), rec1, PackedCount(rec2)))|)
    {
      var block := Narrowed(rec1);
      var count := PackedCount(rec2);
      var length := PackedSize(rec2);
      panicked, end := false, FAILED;
      if length != blockSize {
        return;
      }
      ghost var e := Transfer(Device(), rec1, count);
      TransferLength(Device(), rec1, count);
      assert e == Transfer(Through(route, false), block, count);
      hide Transfer, Narrowed, Storage.Store, Storage.Blocks, Storage.Readable;
      var mem';
      panicked, mem' := ReadMany(route, disk, blockSize, block, count, mem, address);
      if !panicked {
        BlocksLength(disk, blockSize, e);
        mem := mem';
        end := U64(address + count * blockSize);
      }
    }

    /** Entry `j` of the table `buf` is transferred to the running address, unless that halts the load. */
    method LoadEntry(buf: Buffer, j: nat, ghost mem0: Memory, ghost load: uint64, ghost done: seq<Extent>)
      returns (halted: bool, ghost e: Extent)
      requires Valid() && j < MAX_ENTRIES && Holds(mem0, load, done) && !Collides(disk, load, done)
      modifies `mem, `address
      ensures e == Transfer(Device(), BlockAt(buf, j), CountAt(buf, j) as int + 1)
      ensures halted <==> SizeAt(buf, j) != blockSize || !Readable(disk, e) || Collides(disk, load, done + [e])
      ensures !halted ==> Holds(mem0, load, done + [e])
      ensures var read := SizeAt(buf, j) == blockSize && Readable(disk, e);
        Stores(mem0, load, if read then done + [e] else done)
    {
      hide Storage.Payload, Storage.Store, Storage.Blocks, Storage.Readable, Transfer, BlockAt, CountAt, SizeAt,
        Bytes.Be64,
        Bytes.U64, PackedSize, PackedCount, Collides;
      PackedFields(buf, j);
      e := Transfer(Device(), BlockAt(buf, j), CountAt(buf, j) as int + 1);
      CopiedMore(disk, mem0, load, done, mem, address, e);
      CollidesMore(disk, load, done, e);
      var panicked, end := LoadDirect(BlockAt(buf, j), Be64(buf, ENTRY_SIZE * j + 8));
      if panicked {
        return true, e;
      }
      address := end;
      halted := address == FAILED;
    }

    /**
     * One pass over the table in the buffer; the result is the number of the next table, or 0 at the end
     * of the chain.
     */
    method LoadTable(ghost mem0: Memory, ghost load: uint64, ghost done: seq<Extent>)
      returns (halted: bool, block: uint64, ghost reached: seq<Extent>)
      requires Valid() && Holds(mem0, load, done) && !Collides(disk, load, done)
      modifies `mem, `address
      ensures var t := Carried(Device(), disk, RawFrom(blockSize, sec[..], 0));
        halted == (t.end.Stop? || Collides(disk, load, done + t.extents)) &&
        Reaches(disk, load, done + t.extents, reached) && Stores(mem0, load, reached)
      ensures var t := Carried(Device(), disk, RawFrom(blockSize, sec[..], 0));
        !halted ==>
          (Holds(mem0, load, done + t.extents) &&
           match t.end
           case Finish => block == 0
           case Link(next) => block != 0 && TableAt(Device(), block) == next
           case Stop => false)
    {
      hide RawFrom, Carried, NoData, Collides, Reaches, BlockAt, CountAt, SizeAt, TableAt, Transfer, Bytes.Be16,
        Bytes.Be64,
        Bytes.U64, Storage.Payload, Storage.Unused, Storage.Readable, Storage.Store, Storage.Blocks;
      var buf: Buffer := sec[..];
      ghost var t := Carried(Device(), disk, RawFrom(blockSize, buf, 0));
      reached := done;
      halted := false;
      var i := 0;
      while true
        invariant 0 <= i < MAX_ENTRIES
        invariant Holds(mem0, load, reached) && !Collides(disk, load, reached)
        invariant done + t.extents == reached + Carried(Device(), disk, RawFrom(blockSize, buf, i)).extents
        invariant t.end == Carried(Device(), disk, RawFrom(blockSize, buf, i)).end
        decreases MAX_ENTRIES - i
      {
        TableStep(Device(), blockSize, disk, buf, i, reached);
        assert reached + [] == reached;
        ReachesAll(disk, load, reached);
        LastIsNoData(buf, i);
        block := BlockAt(buf, i);
        var last := IsLast(buf, i);
        if last {
          return false, block, reached;
        }
        ghost var e;
        halted, e := LoadEntry(buf, i, mem0, load, reached);
        if halted {
          if SizeAt(buf, i) == blockSize && Readable(disk, e) {
            assert reached + [e] <= done + t.extents;
            ReachesCollision(disk, load, done + t.extents, reached, e);
            reached := reached + [e];
          }
          return;
        }
        reached := reached + [e];
        i := i + 1;
      }
    }

    lemma ChainFacts(block: uint64)
      requires Valid()
      ensures Chain(block).verdict != Endless ==> Continues(Chain(block), Tables(), TableAt(Device(), block), {}, [])
      ensures |Payload(disk, Chain(block).extents)| == BlockTotal(Chain(block).extents) * blockSize
      ensures ChainSound(Device(), disk, RawsOf(blockSize, disk), block, {}) <==>
        LoadsDescribed(route, blockSize, disk, block)
      ensures LoadsDescribed(route, blockSize, disk, block) ==> Chain(block) == Described(block)
    {
      hide RawFrom, BlockChains.Flatten, BlockChains.Trace, TableAt, Continues, ChainSound, TablesOf;
      ChainLength(Device(), disk, RawsOf(blockSize, disk), block, blockSize);
      AllCounted(blockSize, disk);
      ChainExactly(Device(), disk, RawsOf(blockSize, disk), block);
      StatedAt(block);
      if Chain(block).verdict != Endless {
        ContinuesStart(Tables(), TableAt(Device(), block));
      }
    }

    lemma StatedAt(block: uint64)
      ensures TableAt(Stated, block) == block
    {
    }

    /**
     * Load one component: whatever chain of tables starts at `block`, the bytes of its extents end
     * up one after the other from `load` on, and the address advances by the block size times the
     * number of their blocks.  The load halts exactly when the chain is stopped or the running address
     * meets the failure mark, and then what was `reached` has been stored.  What is read is what the
     * format describes exactly when no table and no pointer is harmed on the way to the device.
     */
    method LoadSegment(block: uint64, load: uint64) returns (halted: bool, ghost reached: seq<Extent>)
      requires Valid() && Chain(block).verdict != Endless
      modifies sec, `mem, `address
      ensures halted <==> Chain(block).verdict == Stopped || Collides(disk, load, Chain(block).extents)
      ensures Reaches(disk, load, Chain(block).extents, reached)
      ensures mem == Store(old(mem), load, Payload(disk, reached))
      ensures !halted ==>
        reached == Chain(block).extents && address == U64(load + BlockTotal(Chain(block).extents) * blockSize)
      ensures ChainSound(Device(), disk, RawsOf(blockSize, disk), block, {}) <==>
        LoadsDescribed(route, blockSize, disk, block)
      ensures LoadsDescribed(route, blockSize, disk, block) ==> Chain(block) == Described(block)
    {
      hide Chain, ChainSound, LoadsDescribed, Described, Collides, Continues, Reaches, Storage.Store,
        Storage.Payload, Bytes.U64,
        TableAt;
      ChainFacts(block);
      address := load;
      CopiedNothing(disk, mem, load);
      NoCollision(disk, load);
      halted, reached := LoadChain(block, Chain(block), mem, load);
      if !halted {
        ReachesEnd(disk, load, Chain(block).extents, reached);
      }
    }

    /** The loop over the tables of a chain. */
    method LoadChain(block: uint64, ghost flat: Flat, ghost mem0: Memory, ghost load: uint64)
      returns (halted: bool, ghost reached: seq<Extent>)
      requires Valid() && Continues(flat, Tables(), TableAt(Device(), block), {}, [])
      requires Holds(mem0, load, []) && !Collides(disk, load, []) && flat.verdict != Endless
      modifies sec, `mem, `address
      ensures halted <==> flat.verdict == Stopped || Collides(disk, load, flat.extents)
      ensures !halted ==> Holds(mem0, load, flat.extents)
      ensures Reaches(disk, load, flat.extents, reached) && Stores(mem0, load, reached)
    {
      hide Collides, Reaches, Unseen, RawFrom, Carried, Continues, TableAt, Storage.Store, Storage.Payload;
      var blockno := block;
      ghost var seen: set<uint64>, done: seq<Extent> := {}, [];
      var more := true;
      halted, reached := false, [];
      while more
        invariant !halted && Holds(mem0, load, done) && !Collides(disk, load, done) && reached == done
        invariant if more then Continues(flat, Tables(), TableAt(Device(), blockno), seen,
          done) else flat == Flat(done, Complete)
        decreases more, Unseen(Tables(), seen)
      {
        ReachesAll(disk, load, done);
        ghost var table := TableAt(Device(), blockno);
        var ok := ReadTable(blockno);
        if !ok {
          ContinuesUnreadable(flat, Tables(), table, seen, done);
          return true, done;
        }
        ContinuesTable(flat, Tables(), table, seen, done);
        halted, blockno, reached := LoadTable(mem0, load, done);
        seen := seen + {table};
        done := done + Tables()[table].extents;
        if halted {
          ReachesWithin(disk, load, done, flat.extents, reached);
          return;
        }
        reached := done;
        more := blockno != 0;
      }
      ReachesAll(disk, load, done);
    }
  }
}
