/**
 * Tables of block pointers as the format states them, and what the firmware makes of them on each
 * device.  A virtio-blk request counts 512-byte sectors in 64 bits; a virtio-scsi request carries a
 * 32-bit block address in each of its chunks.  The SCSI loader also narrows the number of a data block to
 * a signed 32-bit integer.  Where that does no harm the firmware loads what the format describes.
 */
module PointerTables {
  import opened Bytes
  import opened Storage
  import opened BlockChains
  import opened RingIndex
  import ScsiRead

  /** `count` blocks from `block` on are to be loaded. */
  datatype Pointer = Pointer(block: uint64, count: nat)

  /** A table as it is stored: its pointers to data, and how it ends. */
  datatype Raw = Raw(pointers: seq<Pointer>, end: End)

  type Raws = map<uint64, Raw>

  /** The device: how many sectors make a block, or how many blocks a chunk may have. */
  datatype Route = VirtioBlk(factor: nat) | VirtioScsi(limit: uint32)

  predicate RouteOk(route: Route) {
    match route
    case VirtioBlk(factor) => factor in {1, 2, 4, 8}
    case VirtioScsi(limit) => 1 <= limit <= ScsiRead.MAX_SECTORS
  }

  /** The device suits a disk of blocks of `size` bytes. */
  predicate DeviceOk(route: Route, size: nat) {
    RouteOk(route) && (route.VirtioBlk? ==> size == 512 * route.factor)
  }

  /** How block numbers are understood: as stated, or as the firmware handles them. */
  datatype Io = Stated | Through(route: Route, narrow: bool)

  predicate IoOk(io: Io) {
    io.Through? ==> RouteOk(io.route)
  }

  /** Storing a 64-bit number in a signed 32-bit integer and widening it again. */
  function Narrowed(block: uint64): uint64 {
    var low := block % TWO32;
    if low < TWO32 / 2 then low else TWO64 - TWO32 + low
  }

  /** The narrowing is harmless exactly below 2^31 and in the topmost 2^31 numbers. */
  lemma NarrowedExactly(block: uint64)
    ensures Narrowed(block) == block <==> block < 0x8000_0000 || block >= TWO64 - 0x8000_0000
  {
    assert block >= TWO64 - 0x8000_0000 ==> block / TWO32 == 0xffff_ffff;
  }

  /** A 32-bit block address undoes it. */
  lemma CutUndoesNarrowing(block: uint64)
    ensures Narrowed(block) % TWO32 == block % TWO32
  {
  }

  /** The first number it changes. */
  lemma NarrowedFails()
    ensures Narrowed(0x8000_0000) == 0xffff_ffff_8000_0000
  {
  }

  /** The block that a request for one block reads: sectors are counted in 64 bits, block addresses cut to 32. */
  function At(route: Route, block: uint64): uint64
    requires RouteOk(route)
  {
    match route
    case VirtioBlk(factor) => block * factor % TWO64 / factor
    case VirtioScsi(_) => block % TWO32
  }

  /** The first number that a request cannot name. */
  function Reach(route: Route): nat
    requires RouteOk(route)
  {
    match route
    case VirtioBlk(factor) => TWO64 / factor
    case VirtioScsi(_) => TWO32
  }

  lemma AtExactly(route: Route, block: uint64)
    requires RouteOk(route)
    ensures At(route, block) == block % Reach(route)
    ensures At(route, block) == block <==> block < Reach(route)
  {
    match route
    case VirtioBlk(factor) =>
      assert factor * Reach(route) == TWO64;
      SectorsWrap(block, factor, Reach(route));
    case VirtioScsi(_) =>
  }

  /** Counting sectors modulo 2^64 is counting blocks modulo a smaller number. */
  lemma SectorsWrap(block: uint64, factor: nat, reach: nat)
    requires factor > 0 && reach > 0 && factor * reach == TWO64
    ensures block * factor % TWO64 / factor == block % reach
  {
    var (q, r) := (block / reach, block % reach);
    assert block * factor == q * TWO64 + r * factor by {
      assert (q * reach + r) * factor == q * (factor * reach) + r * factor;
    }
    assert 0 <= r * factor < TWO64 by {
      assert r * factor <= (reach - 1) * factor;
    }
    DivModUnique(block * factor, q, r * factor, TWO64);
    assert r * factor / factor == r;
  }

  /** Where the table is read from. */
  function TableAt(io: Io, block: uint64): uint64
    requires IoOk(io)
  {
    match io
    case Stated => block
    case Through(route, _) => At(route, block)
  }

  /** The blocks that are read for a pointer. */
  function Transfer(io: Io, block: uint64, count: nat): Extent
    requires IoOk(io)
  {
    match io
    case Stated => Run(block, count)
    case Through(route, narrow) =>
      var start := if narrow then Narrowed(block) else block;
      match route
      case VirtioBlk(_) => Run(At(route, start), count)
      case VirtioScsi(limit) => ScsiRead.Chunks(start, count, limit)
  }

  /** The firmware reads for this pointer just the blocks it names. */
  predicate Fits(io: Io, p: Pointer)
    requires IoOk(io)
  {
    match io
    case Stated => true
    case Through(VirtioBlk(factor), narrow) =>
      var reach := TWO64 / factor;
      p.block < reach && (narrow ==> p.block < 0x8000_0000 || p.block >= reach - 0x8000_0000)
    case Through(VirtioScsi(limit), _) => p.block + p.count - ScsiRead.LastChunk(p.count, limit) < TWO32
  }

  lemma TransferLength(io: Io, block: uint64, count: nat)
    requires IoOk(io)
    ensures |Transfer(io, block, count)| == count
  {
  }

  lemma {:induction false} CutChunks(a: nat, b: nat, n: nat, step: nat)
    requires step > 0 && a % TWO32 == b % TWO32
    ensures ScsiRead.Chunks(a, n, step) == ScsiRead.Chunks(b, n, step)
    decreases n
  {
    if n > step {
      AddMod(a, b, step);
      CutChunks(a + step, b + step, n - step, step);
    }
  }

  lemma AddMod(a: nat, b: nat, step: nat)
    requires a % TWO32 == b % TWO32
    ensures (a + step) % TWO32 == (b + step) % TWO32
  {
    var (q, r) := (a / TWO32, b / TWO32);
    assert a + step == q * TWO32 + (a % TWO32 + step) && b + step == r * TWO32 + (a % TWO32 + step);
  }

  /** `Fits` is exact. */
  lemma TransferExactly(io: Io, p: Pointer)
    requires IoOk(io) && p.count > 0
    ensures Transfer(io, p.block, p.count) == Run(p.block, p.count) <==> Fits(io, p)
  {
    match io
    case Stated =>
    case Through(route, narrow) =>
      var start := if narrow then Narrowed(p.block) else p.block;
      match route
      case VirtioBlk(factor) =>
        hide Run;
        AtExactly(route, start);
        ScsiRead.SameRun(At(route, start), p.block, p.count);
        hide At;
        if narrow {
          NarrowedAt(route, p.block);
        }
      case VirtioScsi(limit) =>
        CutUndoesNarrowing(p.block);
        CutChunks(start, p.block, p.count, limit);
        ScsiRead.ChunksExactly(p.block, p.count, limit);
  }

  /**
   * After the narrowing a block of a virtio-blk disk is hit from below 2^31, and from 2^31 below the end
   * of the sectors.
   */
  lemma NarrowedAt(route: Route, block: uint64)
    requires RouteOk(route) && route.VirtioBlk?
    ensures Narrowed(block) % Reach(route) == block <==>
      block < 0x8000_0000 || Reach(route) - 0x8000_0000 <= block < Reach(route)
  {
    var (reach, low) := (Reach(route), block % TWO32);
    var k := reach / TWO32;
    assert reach == k * TWO32 && route.factor * reach == TWO64;
    assert Narrowed(block) == if low < TWO32 / 2 then low else TWO64 - TWO32 + low;
    hide Narrowed, Reach;
    if low >= TWO32 / 2 {
      NarrowedHigh(route.factor, reach, low);
      HighPart(block, k, low);
    } else {
      LowPart(block, k, low);
      assert low % reach == low;
    }
  }

  lemma NarrowedHigh(factor: nat, reach: nat, low: nat)
    requires factor > 0 && factor * reach == TWO64 && TWO32 <= reach && TWO32 / 2 <= low < TWO32
    ensures (TWO64 - TWO32 + low) % reach == reach - TWO32 + low
  {
    assert (factor - 1) * reach == TWO64 - reach;
    DivModUnique(TWO64 - TWO32 + low, factor - 1, reach - TWO32 + low, reach);
  }

  lemma HighPart(block: nat, k: nat, low: nat)
    requires k > 0 && low == block % TWO32 && TWO32 / 2 <= low
    ensures k * TWO32 - TWO32 + low == block <==> k * TWO32 - TWO32 / 2 <= block < k * TWO32
    ensures block >= TWO32 / 2
  {
    var high := block / TWO32;
    assert block == high * TWO32 + low;
  }

  lemma LowPart(block: nat, k: nat, low: nat)
    requires k > 0 && low == block % TWO32 && low < TWO32 / 2
    ensures low == block <==> block < TWO32 / 2 || k * TWO32 - TWO32 / 2 <= block < k * TWO32
  {
    var high := block / TWO32;
    assert block == high * TWO32 + low;
  }

  // ---------- What a table means ----------

  /** A table's pointers carried out in order, up to the first that cannot be read. */
  ghost function Carried(io: Io, disk: Disk, raw: Raw): Table
    requires IoOk(io)
    decreases |raw.pointers|
  {
    if raw.pointers == [] then
      Table([], if raw.end.Link? then Link(TableAt(io, raw.end.next)) else raw.end)
    else
      var e := Transfer(io, raw.pointers[0].block, raw.pointers[0].count);
      if !Readable(disk, e) then Table([], Stop)
      else
        var rest := Carried(io, disk, Raw(raw.pointers[1..], raw.end));
        Table([e] + rest.extents, rest.end)
  }

  ghost function TablesOf(io: Io, disk: Disk, raws: Raws): Tables
    requires IoOk(io)
  {
    map b | b in raws :: Carried(io, disk, raws[b])
  }

  /** The chain that is loaded when the table at `block` is asked for. */
  ghost function ChainOf(io: Io, disk: Disk, raws: Raws, block: uint64): Flat
    requires IoOk(io)
  {
    Flatten(TablesOf(io, disk, raws), TableAt(io, block), {})
  }

  lemma {:induction false} CarriedReadable(io: Io, disk: Disk, raw: Raw)
    requires IoOk(io)
    ensures AllReadable(disk, Carried(io, disk, raw).extents)
    decreases |raw.pointers|
  {
    hide Storage.Readable, Transfer;
    if raw.pointers != [] {
      CarriedReadable(io, disk, Raw(raw.pointers[1..], raw.end));
    }
  }

  /** The bytes of a flattened chain are as many as its blocks have. */
  lemma ChainLength(io: Io, disk: Disk, raws: Raws, block: uint64, size: nat)
    requires IoOk(io) && forall b :: b in disk ==> |disk[b]| == size
    ensures var extents := ChainOf(io, disk, raws, block).extents;
      |Payload(disk, extents)| == BlockTotal(extents) * size
  {
    hide Carried, BlockChains.Flatten;
    forall b | b in raws
      ensures AllReadable(disk, TablesOf(io, disk, raws)[b].extents)
    {
      CarriedReadable(io, disk, raws[b]);
    }
    FlattenReadable(disk, TablesOf(io, disk, raws), TableAt(io, block), {});
    PayloadLength(disk, size, ChainOf(io, disk, raws, block).extents);
  }

  /** Read several blocks into memory, on either device.  A transfer that fails is taken to have stored nothing. */
  method ReadMany(route: Route, disk: Disk, size: nat, start: uint64, count: nat, mem0: Memory, load: int)
    returns (halted: bool, mem: Memory)
    requires RouteOk(route) && count > 0 && size < 0x4_0000 && forall b :: b in disk ==> |disk[b]| == size
    ensures var e := Transfer(Through(route, false), start, count);
      (halted <==> !Readable(disk, e)) && mem == if halted then mem0 else Store(mem0, load, Blocks(disk, e))
  {
    match route
    case VirtioBlk(factor) =>
      var e := Run(At(route, start), count);
      halted := !Readable(disk, e);
      mem := if halted then mem0 else Store(mem0, load, Blocks(disk, e));
    case VirtioScsi(limit) =>
      hide Storage.Readable, Storage.Blocks, Storage.Store, ScsiRead.Chunks;
      var commands;
      halted, mem, commands := ScsiRead.ReadChunks(disk, size, 1, limit, start, count, mem0, load);
      assert ScsiRead.AllChunks(start, count, limit, 1) == ScsiRead.Chunks(start, count, limit);
      if halted {
        mem := mem0;
      }
  }

  // ---------- Where the firmware loads what is described ----------

  /** No harm is done to this pointer: it fits, or there is nothing to read either way. */
  predicate PointerSound(io: Io, disk: Disk, p: Pointer)
    requires IoOk(io)
  {
    Fits(io, p) || (!Readable(disk, Run(p.block, p.count)) && !Readable(disk, Transfer(io, p.block, p.count)))
  }

  /** So it is for every pointer that a load meets. */
  predicate PointersSound(io: Io, disk: Disk, pointers: seq<Pointer>)
    requires IoOk(io)
  {
    pointers == [] ||
    (PointerSound(io, disk, pointers[0]) &&
     (Readable(disk, Run(pointers[0].block, pointers[0].count)) ==> PointersSound(io, disk, pointers[1..])))
  }

  /** The table is read from where it is, or there is none at either place. */
  predicate TableSound(io: Io, raws: Raws, block: uint64)
    requires IoOk(io)
  {
    (io.Through? ==> block < Reach(io.route)) || (block !in raws && TableAt(io, block) !in raws)
  }

  /** So it is for every table that a load from `block` asks for, and for the pointers in it. */
  ghost predicate ChainSound(io: Io, disk: Disk, raws: Raws, block: uint64, seen: set<uint64>)
    requires IoOk(io)
    decreases |raws.Keys - seen|
  {
    TableSound(io, raws, block) &&
    (block in raws && block !in seen ==>
      PointersSound(io, disk, raws[block].pointers) &&
      match TablesOf(Stated, disk, raws)[block].end
      case Link(next) =>
        RawsShrink(raws, block, seen);
        ChainSound(io, disk, raws, next, seen + {block})
      case _ => true)
  }

  lemma RawsShrink(raws: Raws, block: uint64, seen: set<uint64>)
    requires block in raws && block !in seen
    ensures |raws.Keys - (seen + {block})| < |raws.Keys - seen|
  {
    assert raws.Keys - seen == (raws.Keys - (seen + {block})) + {block};
  }

  /** All pointers read at least one block. */
  ghost predicate Counted(raws: Raws) {
    forall b :: b in raws ==> CountedIn(raws[b].pointers)
  }

  predicate CountedIn(pointers: seq<Pointer>) {
    forall p :: p in pointers ==> p.count > 0
  }

  /** The end of a table when its link is read through `io`. */
  function EndThrough(io: Io, end: End): End
    requires IoOk(io)
  {
    if end.Link? then Link(TableAt(io, end.next)) else end
  }

  lemma {:induction false} SameTable(io: Io, disk: Disk, raw: Raw)
    requires IoOk(io) && CountedIn(raw.pointers) && PointersSound(io, disk, raw.pointers)
    ensures Carried(io, disk, raw).extents == Carried(Stated, disk, raw).extents
    ensures Carried(io, disk, raw).end == EndThrough(io, Carried(Stated, disk, raw).end)
    decreases |raw.pointers|
  {
    hide Storage.Readable, Fits, Storage.Run, Transfer;
    if raw.pointers != [] {
      var p := raw.pointers[0];
      TransferExactly(io, p);
      TransferStated(p);
      if Readable(disk, Run(p.block, p.count)) {
        SameTable(io, disk, Raw(raw.pointers[1..], raw.end));
      }
    }
  }

  lemma TransferStated(p: Pointer)
    ensures Transfer(Stated, p.block, p.count) == Run(p.block, p.count)
  {
  }

  /** Nothing follows the extents of a table at which the load stops. */
  predicate Continued(t: Table, more: seq<Extent>) {
    t.end.Stop? ==> more == []
  }

  /** Where a pointer is not sound, the blocks read differ, whatever the rest of the chains may hold. */
  lemma {:induction false} TableForced(io: Io, disk: Disk, raw: Raw, x: seq<Extent>, y: seq<Extent>)
    requires IoOk(io) && CountedIn(raw.pointers)
    requires Continued(Carried(io, disk, raw), x) && Continued(Carried(Stated, disk, raw), y)
    requires Carried(io, disk, raw).extents + x == Carried(Stated, disk, raw).extents + y
    ensures PointersSound(io, disk, raw.pointers)
    decreases |raw.pointers|
  {
    hide Storage.Readable, Fits, Storage.Run, Transfer;
    if raw.pointers != [] {
      var (p, rest) := (raw.pointers[0], Raw(raw.pointers[1..], raw.end));
      TransferExactly(io, p);
      TransferStated(p);
      var (e, f) := (Transfer(io, p.block, p.count), Run(p.block, p.count));
      if Readable(disk, e) && Readable(disk, f) {
        SameHeads(e, Carried(io, disk, rest).extents, x, f, Carried(Stated, disk, rest).extents, y);
        TableForced(io, disk, rest, x, y);
      }
    }
  }

  lemma SameHeads(e: Extent, r: seq<Extent>, x: seq<Extent>, f: Extent, t: seq<Extent>, y: seq<Extent>)
    requires ([e] + r) + x == ([f] + t) + y
    ensures e == f && r + x == t + y
  {
    var (a, b) := (([e] + r) + x, ([f] + t) + y);
    assert a[0] == e && b[0] == f && a[1..] == r + x && b[1..] == t + y;
  }

  /** The extents and tables behind those of the first table. */
  ghost function RestOf(tables: Tables, block: uint64, seen: set<uint64>): (rest: seq<Extent>)
    requires block in tables && block !in seen
    ensures Flatten(tables, block, seen).extents == tables[block].extents + rest
    ensures Continued(tables[block], rest)
    ensures match tables[block].end
      case Link(next) =>
        Flat(rest, Flatten(tables, block, seen).verdict) == Flatten(tables, next, seen + {block}) &&
        Trace(tables, block, seen) == [block] + Trace(tables, next, seen + {block})
      case Finish =>
        rest == [] && Flatten(tables, block, seen).verdict == Complete && Trace(tables, block, seen) == [block]
      case Stop =>
        rest == [] && Flatten(tables, block, seen).verdict == Stopped && Trace(tables, block, seen) == [block]
  {
    if tables[block].end.Link? then
      Shrinks(tables, block, seen);
      Flatten(tables, tables[block].end.next, seen + {block}).extents
    else
      assert tables[block].extents + [] == tables[block].extents;
      []
  }

  /** The tables in `seen` are where they are asked for. */
  ghost predicate Reached(io: Io, seen: set<uint64>)
    requires IoOk(io)
  {
    forall b :: b in seen ==> TableAt(io, b) == b
  }

  lemma TableReach(io: Io, block: uint64)
    requires IoOk(io)
    ensures TableAt(io, block) == block <==> (io.Through? ==> block < Reach(io.route))
  {
    if io.Through? {
      AtExactly(io.route, block);
    }
  }

  /** What two loads read is the same: the tables, the blocks of every transfer, and how it ends. */
  ghost predicate SameReads(a: Tables, p: uint64, b: Tables, q: uint64, seen: set<uint64>) {
    Flatten(a, p, seen) == Flatten(b, q, seen) && Trace(a, p, seen) == Trace(b, q, seen)
  }

  lemma {:induction false} SoundSame(io: Io, disk: Disk, raws: Raws, block: uint64, seen: set<uint64>)
    requires IoOk(io) && Counted(raws) && ChainSound(io, disk, raws, block, seen)
    ensures SameReads(TablesOf(io, disk, raws), TableAt(io, block), TablesOf(Stated, disk, raws), block, seen)
    decreases |raws.Keys - seen|
  {
    hide Carried, PointersSound, TableAt, BlockChains.Flatten, BlockChains.Trace;
    TableReach(io, block);
    var (a, b) := (TablesOf(io, disk, raws), TablesOf(Stated, disk, raws));
    Absent(a, TableAt(io, block), seen);
    Absent(b, block, seen);
    if block in raws && block !in seen {
      var (x, y) := (RestOf(a, block, seen), RestOf(b, block, seen));
      SameTable(io, disk, raws[block]);
      StatedEnd(raws[block].end);
      match b[block].end
      case Link(next) =>
        RawsShrink(raws, block, seen);
        SoundSame(io, disk, raws, next, seen + {block});
      case _ =>
    }
  }

  lemma StatedEnd(end: End)
    ensures EndThrough(Stated, end) == end
  {
  }

  lemma Absent(tables: Tables, block: uint64, seen: set<uint64>)
    ensures block !in tables ==> Flatten(tables, block, seen) == Flat([], Stopped) && Trace(tables, block, seen) == []
    ensures block in tables && block in seen ==>
      Flatten(tables, block, seen) == Flat([], Endless) && Trace(tables, block, seen) == []
    ensures block in tables && block !in seen ==>
      Trace(tables, block, seen) != [] && Trace(tables, block, seen)[0] == block
  {
  }

  /** Where not everything is sound, something that is read differs; if every table can be reached, the extents do. */
  lemma {:induction false} SameSound(io: Io, disk: Disk, raws: Raws, block: uint64, seen: set<uint64>)
    requires IoOk(io) && Counted(raws) && Reached(io, seen)
    requires var (a, b) := (TablesOf(io, disk, raws), TablesOf(Stated, disk, raws));
      Flatten(a, TableAt(io, block), seen).extents == Flatten(b, block, seen).extents &&
      ((io.Through? && Reach(io.route) < TWO64) ==> SameReads(a, TableAt(io, block), b, block, seen))
    ensures ChainSound(io, disk, raws, block, seen)
    decreases |raws.Keys - seen|
  {
    hide Carried, PointersSound, TableAt, BlockChains.Flatten, BlockChains.Trace;
    TableReach(io, block);
    var (a, b) := (TablesOf(io, disk, raws), TablesOf(Stated, disk, raws));
    Absent(a, TableAt(io, block), seen);
    Absent(b, block, seen);
    if block in raws && block !in seen {
      var (x, y) := (RestOf(a, block, seen), RestOf(b, block, seen));
      TableForced(io, disk, raws[block], x, y);
      SameTable(io, disk, raws[block]);
      match b[block].end
      case Link(next) =>
        RawsShrink(raws, block, seen);
        var own := b[block].extents;
        assert (own + x)[|own|..] == x && (own + y)[|own|..] == y;
        TailsEqual(block, Trace(a, TableAt(io, next), seen + {block}), Trace(b, next, seen + {block}));
        SameSound(io, disk, raws, next, seen + {block});
      case _ =>
    }
  }

  lemma TailsEqual(block: uint64, x: seq<uint64>, y: seq<uint64>)
    ensures [block] + x == [block] + y <==> x == y
  {
    assert ([block] + x)[1..] == x && ([block] + y)[1..] == y;
  }

  /**
   * The firmware reads what the format describes, tables and data, exactly when every table and
   * pointer it meets is sound.  On a device that can name all tables, extents alone tell the difference.
   */
  lemma ChainExactly(io: Io, disk: Disk, raws: Raws, block: uint64)
    requires IoOk(io) && Counted(raws)
    ensures ChainSound(io, disk, raws, block, {}) <==>
      SameReads(TablesOf(io, disk, raws), TableAt(io, block), TablesOf(Stated, disk, raws), block, {})
    ensures io.Stated? || Reach(io.route) == TWO64 ==>
      (ChainSound(io, disk, raws, block, {}) <==>
        ChainOf(io, disk, raws, block).extents == ChainOf(Stated, disk, raws, block).extents)
  {
    hide ChainSound, BlockChains.Flatten, BlockChains.Trace, TablesOf;
    if ChainSound(io, disk, raws, block, {}) {
      SoundSame(io, disk, raws, block, {});
    }
    var (a, b) := (TablesOf(io, disk, raws), TablesOf(Stated, disk, raws));
    if SameReads(a, TableAt(io, block), b, block, {}) {
      SameSound(io, disk, raws, block, {});
    }
    var (x, y) := (Flatten(a, TableAt(io, block), {}).extents, Flatten(b, block, {}).extents);
    if (io.Stated? || Reach(io.route) == TWO64) && x == y {
      SameSound(io, disk, raws, block, {});
    }
  }

  // ---------- Complete chains ----------

  /** The pointers of all tables of a chain, in order. */
  ghost function PointersOf(raws: Raws, block: uint64, seen: set<uint64>): seq<Pointer>
    decreases |raws.Keys - seen|
  {
    if block !in raws || block in seen then []
    else
      match raws[block].end
      case Link(next) =>
        RawsShrink(raws, block, seen);
        raws[block].pointers + PointersOf(raws, next, seen + {block})
      case _ => raws[block].pointers
  }

  ghost predicate AllFit(io: Io, pointers: seq<Pointer>)
    requires IoOk(io)
  {
    forall p :: p in pointers ==> Fits(io, p)
  }

  ghost predicate AllNamed(io: Io, tables: seq<uint64>)
    requires IoOk(io)
  {
    forall b :: b in tables ==> TableAt(io, b) == b
  }

  /** A table at which the load does not stop has all its pointers carried out. */
  lemma {:induction false} CarriedAll(io: Io, disk: Disk, raw: Raw)
    requires IoOk(io) && !Carried(Stated, disk, raw).end.Stop?
    ensures Carried(Stated, disk, raw).end == raw.end
    ensures PointersSound(io, disk, raw.pointers) <==> AllFit(io, raw.pointers)
    decreases |raw.pointers|
  {
    hide Storage.Readable, Fits, Storage.Run, Transfer;
    StatedEnd(raw.end);
    if raw.pointers != [] {
      var p := raw.pointers[0];
      TransferStated(p);
      CarriedAll(io, disk, Raw(raw.pointers[1..], raw.end));
      assert PointersSound(io, disk, raw.pointers) <==> Fits(io, p) && PointersSound(io, disk, raw.pointers[1..]);
      assert forall x :: x in raw.pointers <==> x == p || x in raw.pointers[1..];
    }
  }

  /** For a complete chain soundness means that every table can be named and every pointer fits. */
  lemma {:induction false} CompleteSound(io: Io, disk: Disk, raws: Raws, block: uint64, seen: set<uint64>)
    requires IoOk(io) && Flatten(TablesOf(Stated, disk, raws), block, seen).verdict == Complete
    ensures ChainSound(io, disk, raws, block, seen) <==>
      AllNamed(io, Trace(TablesOf(Stated, disk, raws), block, seen)) && AllFit(io, PointersOf(raws, block, seen))
    decreases |raws.Keys - seen|
  {
    hide Carried, PointersSound, TableAt, Fits;
    var tables := TablesOf(Stated, disk, raws);
    assert tables[block] == Carried(Stated, disk, raws[block]);
    CarriedAll(io, disk, raws[block]);
    TableReach(io, block);
    match raws[block].end
    case Link(next) =>
      RawsShrink(raws, block, seen);
      Shrinks(tables, block, seen);
      CompleteSound(io, disk, raws, next, seen + {block});
      assert forall b :: b in Trace(tables, block, seen) <==> b == block || b in Trace(tables, next, seen + {block});
      assert forall p :: p in PointersOf(raws, block, seen) <==>
        p in raws[block].pointers || p in PointersOf(raws, next, seen + {block});
    case _ =>
  }

  /**
   * A complete chain is loaded as the format describes it if and only if every table of it can be named
   * and every pointer fits.
   */
  lemma CompleteExactly(io: Io, disk: Disk, raws: Raws, block: uint64)
    requires IoOk(io) && Counted(raws) && ChainOf(Stated, disk, raws, block).verdict == Complete
    ensures SameReads(TablesOf(io, disk, raws), TableAt(io, block), TablesOf(Stated, disk, raws), block, {}) <==>
      AllNamed(io, Trace(TablesOf(Stated, disk, raws), block, {})) && AllFit(io, PointersOf(raws, block, {}))
  {
    hide ChainSound, BlockChains.Flatten, BlockChains.Trace, TablesOf, PointersOf, AllNamed, AllFit, SameReads;
    ChainExactly(io, disk, raws, block);
    CompleteSound(io, disk, raws, block, {});
  }
}
