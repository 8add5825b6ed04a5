/**
 * Loading a component from an ECKD disk: nested loops over tables of extents, with in-table
 * continue pointers and last-slot links, copying to a running address.
 */
module EckdLoader {
  import opened Bytes
  import opened Storage
  import opened BlockChains
  import opened PointerTables
  import opened EckdAddress

  const BPRS_SIZE := 8192
  const ENTRY_SIZE := 16
  const POINTER_SIZE := 8
  const MAX_ENTRIES := 512

  type Buffer = b: seq<byte> | |b| == BPRS_SIZE witness seq(BPRS_SIZE, _ => 0)

  function ChsAt(buf: Buffer, j: nat): Chs
    requires j < MAX_ENTRIES
  {
    Chs(Be16(buf, ENTRY_SIZE * j), Be16(buf, ENTRY_SIZE * j + 2), buf[ENTRY_SIZE * j + 4])
  }

  function SizeAt(buf: Buffer, j: nat): uint16
    requires j < MAX_ENTRIES
  {
    Be16(buf, ENTRY_SIZE * j + 5)
  }

  function CountAt(buf: Buffer, j: nat): byte
    requires j < MAX_ENTRIES
  {
    buf[ENTRY_SIZE * j + 7]
  }

  /** The table in `buf` from entry `j` on. */
  function RawFrom(g: Geometry, buf: Buffer, j: nat): Raw
    requires j < MAX_ENTRIES
    decreases MAX_ENTRIES - j
  {
    var block := BlockNum(g, ChsAt(buf, j));
    if block == NULL_BLOCK then Raw([], Finish)
    else if j == MAX_ENTRIES - 1 then Raw([], Link(block))
    else if SizeAt(buf, j) != g.blockSize || !ValidAddress(g, ChsAt(buf, j)) then Raw([], Stop)
    else if CountAt(buf, j) == 0 && Unused(buf, ENTRY_SIZE * (j + 1), POINTER_SIZE) then Raw([], Link(block))
    else
      var rest := RawFrom(g, buf, j + 1);
      Raw([Pointer(block, CountAt(buf, j) as int + 1)] + rest.pointers, rest.end)
  }

  ghost predicate DiskOk(g: Geometry, disk: Disk) {
    g.blockSize <= BPRS_SIZE && forall b :: b in disk ==> |disk[b]| == g.blockSize
  }

  ghost function RawsOf(g: Geometry, disk: Disk): Raws
    requires DiskOk(g, disk)
  {
    map b | b in disk :: RawFrom(g, Filled(disk[b], BPRS_SIZE), 0)
  }

  /** What entry `j` contributes, after the extents in `here`. */
  lemma TableStep(io: Io, g: Geometry, disk: Disk, buf: Buffer, j: nat, here: seq<Extent>)
    requires IoOk(io) && j < MAX_ENTRIES
    ensures var t := Carried(io, disk, RawFrom(g, buf, j));
      var block := BlockNum(g, ChsAt(buf, j));
      var e := Transfer(io, block, CountAt(buf, j) as int + 1);
      if block == NULL_BLOCK then t == Table([], Finish)
      else if j == MAX_ENTRIES - 1 then t == Table([], Link(TableAt(io, block)))
      else if SizeAt(buf, j) != g.blockSize || !ValidAddress(g, ChsAt(buf, j)) then t == Table([], Stop)
      else if CountAt(buf, j) == 0 && Unused(buf, ENTRY_SIZE * (j + 1), POINTER_SIZE) then
        t == Table([], Link(TableAt(io, block)))
      else if !Readable(disk, e) then t == Table([], Stop)
      else
        var rest := Carried(io, disk, RawFrom(g, buf, j + 1));
        here + t.extents == (here + [e]) + rest.extents && t.end == rest.end
  {
    hide BlockNum, ValidAddress, ChsAt, SizeAt, CountAt, Storage.Unused, Storage.Readable, TableAt, Transfer;
    var raw := RawFrom(g, buf, j);
    if raw.pointers != [] {
      var rest := RawFrom(g, buf, j + 1);
      assert raw.pointers[1..] == rest.pointers && Raw(raw.pointers[1..], raw.end) == rest;
    }
  }

  // ---------- What is described and what is loaded ----------

  lemma {:induction false} RawCounted(g: Geometry, buf: Buffer, j: nat)
    requires j < MAX_ENTRIES
    ensures CountedIn(RawFrom(g, buf, j).pointers)
    decreases MAX_ENTRIES - j
  {
    hide BlockNum, ValidAddress, ChsAt, SizeAt, Storage.Unused;
    if j + 1 < MAX_ENTRIES {
      RawCounted(g, buf, j + 1);
    }
  }

  /** Every number in a table is below 2^48. */
  predicate Small(raw: Raw) {
    (forall p :: p in raw.pointers ==> p.block < 0x1_0000_0000_0000) &&
    (raw.end.Link? ==> raw.end.next < 0x1_0000_0000_0000)
  }

  lemma {:induction false} RawSmall(g: Geometry, buf: Buffer, j: nat)
    requires j < MAX_ENTRIES
    ensures Small(RawFrom(g, buf, j))
    decreases MAX_ENTRIES - j
  {
    hide BlockNum, ValidAddress, ChsAt, SizeAt, CountAt, Linear, Storage.Unused;
    BlockNumWraps(g, ChsAt(buf, j));
    LinearBound(g, ChsAt(buf, j));
    if j + 1 < MAX_ENTRIES {
      RawSmall(g, buf, j + 1);
    }
  }

  /** The numbers of an ECKD disk are small enough for any virtio-blk device: there, every chain is sound. */
  lemma {:induction false} BlkSound(factor: nat, g: Geometry, disk: Disk, block: uint64, seen: set<uint64>)
    requires RouteOk(VirtioBlk(factor)) && DiskOk(g, disk) && block < 0x1_0000_0000_0000
    ensures ChainSound(Through(VirtioBlk(factor), false), disk, RawsOf(g, disk), block, seen)
    decreases |RawsOf(g, disk).Keys - seen|
  {
    hide RawFrom, Carried, PointersSound;
    var (io, raws) := (Through(VirtioBlk(factor), false), RawsOf(g, disk));
    if block in disk && block !in seen {
      var raw := RawFrom(g, Filled(disk[block], BPRS_SIZE), 0);
      assert raws[block] == raw;
      RawSmall(g, Filled(disk[block], BPRS_SIZE), 0);
      SmallSound(factor, disk, raw);
      StatedLink(disk, raw);
      match TablesOf(Stated, disk, raws)[block].end
      case Link(next) =>
        RawsShrink(raws, block, seen);
        BlkSound(factor, g, disk, next, seen + {block});
      case _ =>
    }
  }

  lemma {:induction false} SmallSound(factor: nat, disk: Disk, raw: Raw)
    requires RouteOk(VirtioBlk(factor)) && Small(raw)
    ensures PointersSound(Through(VirtioBlk(factor), false), disk, raw.pointers)
    decreases |raw.pointers|
  {
    hide Storage.Readable, Transfer;
    if raw.pointers != [] {
      assert Fits(Through(VirtioBlk(factor), false), raw.pointers[0]);
      SmallSound(factor, disk, Raw(raw.pointers[1..], raw.end));
    }
  }

  lemma {:induction false} StatedLink(disk: Disk, raw: Raw)
    ensures Carried(Stated, disk, raw).end.Link? ==> Carried(Stated, disk, raw).end == raw.end
    decreases |raw.pointers|
  {
    hide Storage.Readable, Transfer;
    if raw.pointers != [] {
      StatedLink(disk, Raw(raw.pointers[1..], raw.end));
    }
  }

  /**
   * The chain that is loaded is the one the format describes exactly when it is sound, and on virtio-blk,
   * for a number that an address stands for, it always is.
   */
  lemma LoadsDescribed(route: Route, g: Geometry, disk: Disk, block: uint64)
    requires RouteOk(route) && DiskOk(g, disk)
    ensures var (io, raws) := (Through(route, false), RawsOf(g, disk));
      ChainSound(io, disk, raws, block, {}) <==>
        SameReads(TablesOf(io, disk, raws), TableAt(io, block), TablesOf(Stated, disk, raws), block, {})
    ensures route.VirtioBlk? && block < 0x1_0000_0000_0000 ==>
      ChainOf(Through(route, false), disk, RawsOf(g, disk), block) == ChainOf(Stated, disk, RawsOf(g, disk), block)
  {
    hide RawFrom, ChainSound, TablesOf, BlockChains.Flatten, BlockChains.Trace;
    forall b | b in disk
      ensures CountedIn(RawFrom(g, Filled(disk[b], BPRS_SIZE), 0).pointers)
    {
      RawCounted(g, Filled(disk[b], BPRS_SIZE), 0);
    }
    ChainExactly(Through(route, false), disk, RawsOf(g, disk), block);
    if route.VirtioBlk? && block < 0x1_0000_0000_0000 {
      BlkSound(route.factor, g, disk, block, {});
    }
  }

  class Loader {
    const geometry: Geometry
    const disk: Disk
    const route: Route
    const bprs: array<byte>
    var mem: Memory
    var address: uint64

    ghost predicate Valid() {
      bprs.Length == BPRS_SIZE && DiskOk(geometry, disk) && DeviceOk(route, geometry.blockSize)
    }

    constructor (geometry: Geometry, disk: Disk, route: Route, mem: Memory)
      requires DiskOk(geometry, disk) && DeviceOk(route, geometry.blockSize)
      ensures Valid() && this.geometry == geometry && this.disk == disk && this.route == route && this.mem == mem
      ensures fresh(bprs)
    {
      this.geometry := geometry;
      this.disk := disk;
      this.route := route;
      this.mem := mem;
      this.address := 0;
      bprs := new byte[BPRS_SIZE](_ => 0);
    }

    /** How this device understands block numbers. */
    function Device(): (io: Io)
      requires RouteOk(route)
      ensures IoOk(io)
    {
      Through(route, false)
    }

    ghost function Tables(): (tables: Tables)
      requires Valid()
      ensures tables.Keys == disk.Keys
    {
      TablesOf(Device(), disk, RawsOf(geometry, disk))
    }

    ghost function Chain(block: uint64): Flat
      requires Valid()
    {
      ChainOf(Device(), disk, RawsOf(geometry, disk), block)
    }

    /** What the format says is to be loaded. */
    ghost function Described(block: uint64): Flat
      requires Valid()
    {
      ChainOf(Stated, disk, RawsOf(geometry, disk), block)
    }

    /** Fill the table buffer and read a block into it. */
    method ReadTable(block: uint64) returns (ok: bool)
      requires Valid()
      modifies bprs
      ensures ok <==> TableAt(Device(), block) in disk
      ensures ok ==> bprs[..] == Filled(disk[TableAt(Device(), block)], BPRS_SIZE)
    {
      ok := ReadFilled(disk, TableAt(Device(), block), bprs);
    }

    /** The extents `done` have been copied since memory was `mem0` and the running address `load`. */
    ghost predicate Holds(mem0: Memory, load: uint64, done: seq<Extent>)
      reads this
    {
      Copied(disk, mem0, load, done, mem, address)
    }

    /** Copy an extent to the running address and advance it. */
    method ReadBlocks(block: uint64, count: nat, ghost mem0: Memory, ghost load: uint64, ghost done: seq<Extent>)
      returns (ok: bool)
      requires Valid() && Holds(mem0, load, done) && count > 0
      modifies `mem, `address
      ensures ok <==> Readable(disk, Transfer(Device(), block, count))
      ensures Holds(mem0, load, if ok then done + [Transfer(Device(), block, count)] else done)
    {
      hide Storage.Payload, Storage.Store, Storage.Blocks, Storage.Readable, Bytes.U64, Copied;
      ghost var e := Transfer(Device(), block, count);
      TransferLength(Device(), block, count);
      hide Transfer;
      CopiedMore(disk, mem0, load, done, mem, address, e);
      var halted, mem' := ReadMany(route, disk, geometry.blockSize, block, count, mem, address);
      if !halted {
        BlocksLength(disk, geometry.blockSize, e);
        mem := mem';
        address := U64(address + count * geometry.blockSize);
      }
      return !halted;
    }

    /**
     * One pass over the table in the buffer.  A continue pointer reads the next table into the
     * buffer and asks for more; a link in the last slot only returns the number of the next table.
     */
    method LoadTable(ghost mem0: Memory, ghost load: uint64, ghost done: seq<Extent>)
      returns (halted: bool, block: uint64, more: bool)
      requires Valid() && Holds(mem0, load, done)
      modifies bprs, `mem, `address
      ensures var t := Carried(Device(), disk, RawFrom(geometry, old(bprs[..]), 0));
        Holds(mem0, load, done + t.extents) &&
        match t.end
        case Stop => halted && !more
        case Finish => !halted && !more && block == NULL_BLOCK
        case Link(next) =>
          block != NULL_BLOCK && TableAt(Device(), block) == next &&
          if more then halted == (next !in disk) && (!halted ==> bprs[..] == Filled(disk[next], BPRS_SIZE)) else !halted
    {
      hide Storage.Unused, Storage.Readable, BlockNum, ValidAddress, RawFrom, Carried, TableAt, Transfer, ChsAt, SizeAt,
        CountAt, Copied;
      halted, more := false, false;
      ghost var buf: Buffer := bprs[..];
      ghost var t := Carried(Device(), disk, RawFrom(geometry, buf, 0));
      ghost var here := done;
      var j := 0;
      while true
        invariant 0 <= j < MAX_ENTRIES && bprs[..] == buf && !halted && !more
        invariant Holds(mem0, load, here)
        invariant done + t.extents == here + Carried(Device(), disk, RawFrom(geometry, buf, j)).extents
        invariant t.end == Carried(Device(), disk, RawFrom(geometry, buf, j)).end
        decreases MAX_ENTRIES - j
      {
        TableStep(Device(), geometry, disk, buf, j, here);
        var table: Buffer := bprs[..];
        assert here + [] == here;
        block := BlockNum(geometry, ChsAt(table, j));
        if block == NULL_BLOCK || j == MAX_ENTRIES - 1 {
          return;
        }
        if SizeAt(table, j) != geometry.blockSize || !ValidAddress(geometry, ChsAt(table, j)) {
          return true, block, false;
        }
        var count: int := CountAt(table, j);
        if count == 0 {
          var unused := UnusedSpace(table, ENTRY_SIZE * (j + 1), POINTER_SIZE);
          if unused {
            var ok := ReadTable(block);
            return !ok, block, true;
          }
        }
        var ok := ReadBlocks(block, count + 1, mem0, load, here);
        if !ok {
          return true, block, false;
        }
        here := here + [Transfer(Device(), block, count + 1)];
        j := j + 1;
      }
    }

    /**
     * Load the table at `block` and those that continue it.  The result is the null block number
     * at the end of the chain, or the number of the table that the last slot links to.
     */
    method LoadSegments(block: uint64, ghost flat: Flat, ghost mem0: Memory, ghost load: uint64,
                        ghost seen: set<uint64>, ghost done: seq<Extent>)
      returns (halted: bool, next: uint64, ghost seen': set<uint64>, ghost done': seq<Extent>)
      requires Valid() && Continues(flat, Tables(), TableAt(Device(), block), seen, done) && Holds(mem0, load, done)
      modifies bprs, `mem, `address
      ensures Holds(mem0, load, done')
      ensures
        if halted then flat == Flat(done', Stopped)
        else if next == NULL_BLOCK then flat == Flat(done', Complete)
        else
          Continues(flat, Tables(), TableAt(Device(), next), seen', done') &&
          Unseen(Tables(), seen') < Unseen(Tables(), seen)
    {
      hide Copied, Continues, Unseen, RawFrom, Carried, TableAt;
      halted, seen', done', next := false, seen, done, block;
      var ok := ReadTable(next);
      if !ok {
        ContinuesUnreadable(flat, Tables(), TableAt(Device(), next), seen, done);
        return true, next, seen', done';
      }
      var more := true;
      while more
        invariant Holds(mem0, load, done') && !halted
        invariant more ==> TableAt(Device(), next) in disk
        invariant more ==> bprs[..] == Filled(disk[TableAt(Device(), next)], BPRS_SIZE)
        invariant more ==> Continues(flat, Tables(), TableAt(Device(), next), seen', done')
        invariant more ==> Unseen(Tables(), seen') <= Unseen(Tables(), seen)
        invariant !more && next == NULL_BLOCK ==> flat == Flat(done', Complete)
        invariant !more && next != NULL_BLOCK ==>
          Continues(flat, Tables(), TableAt(Device(), next), seen', done') &&
            Unseen(Tables(), seen') < Unseen(Tables(), seen)
        decreases more, Unseen(Tables(), seen')
      {
        ghost var table := TableAt(Device(), next);
        ContinuesTable(flat, Tables(), table, seen', done');
        halted, next, more := LoadTable(mem0, load, done');
        done' := done' + Tables()[table].extents;
        seen' := seen' + {table};
        if halted {
          if more {
            ContinuesUnreadable(flat, Tables(), TableAt(Device(), next), seen', done');
          }
          return;
        }
      }
    }

    /** The caller's loop: go on with the table that the last slot linked to, up to the null block number. */
    method LoadChain(block: uint64, ghost flat: Flat, ghost mem0: Memory, ghost load: uint64) returns (halted: bool)
      requires Valid() && Continues(flat, Tables(), TableAt(Device(), block), {}, []) && Holds(mem0, load, [])
      modifies bprs, `mem, `address
      ensures flat.verdict == (if halted then Stopped else Complete) && Holds(mem0, load, flat.extents)
    {
      hide Continues, Copied, Unseen, TableAt;
      ghost var seen, done;
      var next;
      halted, next, seen, done := LoadSegments(block, flat, mem0, load, {}, []);
      while !halted && next != NULL_BLOCK
        invariant Holds(mem0, load, done)
        invariant
          if halted then flat == Flat(done, Stopped)
          else if next == NULL_BLOCK then flat == Flat(done, Complete)
          else Continues(flat, Tables(), TableAt(Device(), next), seen, done)
        decreases !halted && next != NULL_BLOCK, Unseen(Tables(), seen)
      {
        halted, next, seen, done := LoadSegments(next, flat, mem0, load, seen, done);
      }
    }

    lemma ChainFacts(block: uint64)
      requires Valid()
      ensures Chain(block).verdict != Endless ==> Continues(Chain(block), Tables(), TableAt(Device(), block), {}, [])
      ensures |Payload(disk, Chain(block).extents)| == BlockTotal(Chain(block).extents) * geometry.blockSize
      ensures route.VirtioBlk? && block < 0x1_0000_0000_0000 ==> Chain(block) == Described(block)
    {
      hide RawFrom, BlockChains.Flatten, TableAt, Continues, ChainSound, SameReads, TablesOf;
      ChainLength(Device(), disk, RawsOf(geometry, disk), block, geometry.blockSize);
      LoadsDescribed(route, geometry, disk, block);
      if Chain(block).verdict != Endless {
        ContinuesStart(Tables(), TableAt(Device(), block));
      }
    }

    /**
     * Load one component: whatever chain of tables starts at `block`, the bytes of its extents end
     * up one after the other from `load` on, the address advances by the block size times the number
     * of their blocks, and the load halts exactly when the chain is stopped.  On virtio-blk the chain is
     * the one the format describes.
     */
    method LoadComponent(block: uint64, load: uint64) returns (halted: bool)
      requires Valid() && Chain(block).verdict != Endless
      modifies bprs, `mem, `address
      ensures halted <==> Chain(block).verdict == Stopped
      ensures mem == Store(old(mem), load, Payload(disk, Chain(block).extents))
      ensures address == U64(load + BlockTotal(Chain(block).extents) * geometry.blockSize)
      ensures route.VirtioBlk? && block < 0x1_0000_0000_0000 ==> Chain(block) == Described(block)
    {
      hide Chain, Described, Continues, TableAt;
      ChainFacts(block);
      address := load;
      CopiedNothing(disk, mem, load);
      halted := LoadChain(block, Chain(block), mem, load);
    }
  }
}
