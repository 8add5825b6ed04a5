/** Booting a program from a SCSI disk: a component table names what to load and where. */
module ScsiScript {
  import opened Bytes
  import opened Storage
  import opened BlockChains
  import opened PointerTables
  import opened BootScript
  import opened ScsiLoader

  const TABLE_SIZE := 4096
  const MAGIC: seq<byte> := [0x7A, 0x49, 0x50, 0x4C]
  /** The entries that the buffer has room for. */
  const ENTRIES := 127

  type Table = b: seq<byte> | |b| == TABLE_SIZE witness seq(TABLE_SIZE, _ => 0)

  /** The component table starts as it should. */
  predicate HeaderOk(s: Table) {
    s[..4] == MAGIC && s[4] == 0
  }

  /** Of `extents`, those up to and with the first after which the running address collides. */
  ghost function ReachedOf(disk: Disk, load: uint64, extents: seq<Extent>): seq<Extent>
    decreases |extents|
  {
    if extents != [] && Collides(disk, load, extents[..|extents| - 1]) then
      ReachedOf(disk, load, extents[..|extents| - 1])
    else extents
  }

  /** They are what a load reaches, and nothing else is. */
  lemma {:induction false} ReachesExactly(disk: Disk, load: uint64, extents: seq<Extent>, reached: seq<Extent>)
    requires Reaches(disk, load, extents, reached)
    ensures reached == ReachedOf(disk, load, extents)
    decreases |extents|
  {
    if extents != [] {
      var (init, last) := (extents[..|extents| - 1], extents[|extents| - 1]);
      assert init + [last] == extents;
      if Collides(disk, load, init) {
        CollidesPrefix(disk, load, init, [last]);
        if reached == extents {
          assert false;
        }
        ReachesExactly(disk, load, init, reached);
      } else if Collides(disk, load, extents) && reached != extents {
        assert reached + init[|reached|..] == init;
        CollidesPrefix(disk, load, reached, init[|reached|..]);
      }
    }
  }

  /** The component of an entry: its chain, cut short where the running address collides. */
  ghost function ComponentAt(io: Io, size: nat, disk: Disk, s: Table, i: nat): Component
    requires IoOk(io) && DiskOk(size, disk) && i < ENTRIES
  {
    var load := AddressOf(s, i);
    var flat := ChainOf(io, disk, RawsOf(size, disk), Be64(s, STEP + STEP * i));
    Component(load,
      if flat.verdict != Endless && Collides(disk, load, flat.extents) then
        Flat(ReachedOf(disk, load, flat.extents), Stopped)
      else flat)
  }

  /**
   * What the table says from entry `i` on.  The room is checked only after a component has been loaded,
   * so signatures can lead out of the buffer.
   */
  ghost function ScriptFrom(io: Io, size: nat, disk: Disk, s: Table, i: nat): Script
    requires IoOk(io) && DiskOk(size, disk) && i <= ENTRIES
    decreases ENTRIES - i
  {
    if i == ENTRIES then Script([], Astray)
    else if TypeOf(s, i) == SIGNATURE then ScriptFrom(io, size, disk, s, i + 1)
    else if TypeOf(s, i) == LOAD then
      var rest := if i + 1 < ENTRIES then ScriptFrom(io, size, disk, s, i + 1) else Script([], Halted);
      Script([ComponentAt(io, size, disk, s, i)] + rest.components, rest.outcome)
    else Script([], if TypeOf(s, i) == EXEC then Jump(AddressOf(s, i)) else Halted)
  }

  /**
   * A table leads out of its buffer exactly when every entry is a component or a signature and the last is
   * a signature.
   */
  lemma {:induction false} AstrayExactly(io: Io, size: nat, disk: Disk, s: Table, i: nat)
    requires IoOk(io) && DiskOk(size, disk) && i < ENTRIES
    ensures ScriptFrom(io, size, disk, s, i).outcome == Astray <==>
      (forall k :: i <= k < ENTRIES ==> TypeOf(s, k) in {LOAD, SIGNATURE}) && TypeOf(s, ENTRIES - 1) == SIGNATURE
    decreases ENTRIES - i
  {
    hide ComponentAt, TypeOf;
    if i + 1 < ENTRIES {
      AstrayExactly(io, size, disk, s, i + 1);
    }
  }

  class Booter {
    const loader: Loader
    /** The buffer for the component table, with what the stack held before. */
    const tmp: array<byte>

    ghost predicate Valid() {
      loader.Valid() && loader.blockSize <= TABLE_SIZE && tmp.Length == TABLE_SIZE && tmp != loader.sec
    }

    constructor (blockSize: nat, disk: Disk, route: Route, mem: Memory, stack: Table)
      requires DiskOk(blockSize, disk) && DeviceOk(route, blockSize) && blockSize <= TABLE_SIZE
      ensures Valid() && loader.blockSize == blockSize && loader.disk == disk && loader.route == route &&
        loader.mem == mem
      ensures tmp[..] == stack && fresh(loader) && fresh(loader.sec) && fresh(tmp)
    {
      loader := new Loader(blockSize, disk, route, mem);
      tmp := new byte[TABLE_SIZE](i requires 0 <= i < TABLE_SIZE => stack[i]);
    }

    /** Where a block of this disk is read from. */
    function At(block: uint64): uint64
      requires loader.Valid()
    {
      TableAt(loader.Device(), block)
    }

    /** The buffer after the table at `block` has been read over the old contents of the stack. */
    function TableOver(stack: Table, block: uint64): Table
      requires Valid() && At(block) in loader.disk
    {
      loader.disk[At(block)] + stack[loader.blockSize..]
    }

    /** Read the component table; the rest of the buffer keeps what it held. */
    method ReadHeader(block: uint64) returns (ok: bool)
      requires Valid()
      modifies tmp
      ensures ok <==> At(block) in loader.disk
      ensures ok ==> tmp[..] == TableOver(old(tmp[..]), block)
    {
      ok := At(block) in loader.disk;
      if ok {
        var content := loader.disk[At(block)];
        forall i | 0 <= i < |content| {
          tmp[i] := content[i];
        }
      }
    }

    ghost function EntryOf(s: Table, i: nat): Component
      requires Valid() && i < ENTRIES
    {
      ComponentAt(loader.Device(), loader.blockSize, loader.disk, s, i)
    }

    ghost function ScriptIn(s: Table): Script
      requires Valid()
    {
      ScriptFrom(loader.Device(), loader.blockSize, loader.disk, s, 0)
    }

    /** Load the component of entry `i`. */
    method LoadEntry(i: nat) returns (halted: bool)
      requires Valid() && i < ENTRIES && EntryOf(tmp[..], i).flat.verdict != Endless
      modifies loader.sec, loader`mem, loader`address
      ensures halted <==> EntryOf(tmp[..], i).flat.verdict == Stopped
      ensures loader.mem ==
        Store(old(loader.mem), EntryOf(tmp[..], i).load, BytesOf(loader.disk, EntryOf(tmp[..], i)))
    {
      hide ChainOf, Collides, Reaches, Store, Payload, AddressOf, ReachedOf, RawsOf;
      var block, load := Be64(tmp[..], STEP + STEP * i), AddressOf(tmp[..], i);
      ghost var reached;
      halted, reached := loader.LoadSegment(block, load);
      ReachesExactly(loader.disk, load, loader.Chain(block).extents, reached);
      if !Collides(loader.disk, load, loader.Chain(block).extents) {
        ReachesEnd(loader.disk, load, loader.Chain(block).extents, reached);
      }
    }

    /** Run the table in the buffer; loading components leaves it alone. */
    method RunTable() returns (outcome: Outcome)
      requires Valid() && AllEnd(ScriptIn(tmp[..]).components)
      modifies loader.sec, loader`mem, loader`address
      ensures var script := ScriptIn(tmp[..]);
        loader.mem == Loaded(loader.disk, old(loader.mem), script.components) &&
        outcome == if AllComplete(script.components) then script.outcome else Halted
    {
      hide Runs, ComponentAt, BytesOf, AddressOf, Store, Loaded, AllComplete, AllEnd;
      ghost var io, size, disk, mem0 := loader.Device(), loader.blockSize, loader.disk, loader.mem;
      ghost var s: Table := tmp[..];
      ghost var script := ScriptIn(s);
      RunsStart(disk, mem0, script);
      var i := 0;
      while i < ENTRIES && (tmp[STEP + STEP * i + 23] == LOAD || tmp[STEP + STEP * i + 23] == SIGNATURE)
        invariant 0 <= i <= ENTRIES && tmp[..] == s
        invariant Runs(disk, mem0, script, loader.mem, ScriptFrom(io, size, disk, s, i))
        decreases ENTRIES - i
      {
        assert TypeOf(s, i) == tmp[STEP + STEP * i + 23];
        ghost var rest := ScriptFrom(io, size, disk, s, i);
        if tmp[STEP + STEP * i + 23] == SIGNATURE {
          i := i + 1;
          continue;
        }
        RunsMore(disk, mem0, script, loader.mem, rest);
        var halted := LoadEntry(i);
        if halted {
          return Halted;
        }
        i := i + 1;
        if STEP + STEP * i + STEP > TABLE_SIZE {
          assert rest.components[1..] == [];
          RunsNothing(disk, mem0, script, loader.mem, Script([], Halted));
          return Halted;
        }
        assert rest.components[1..] == ScriptFrom(io, size, disk, s, i).components;
      }
      RunsNothing(disk, mem0, script, loader.mem, ScriptFrom(io, size, disk, s, i));
      if i == ENTRIES {
        return Astray;
      }
      assert TypeOf(s, i) == tmp[STEP + STEP * i + 23];
      if tmp[STEP + STEP * i + 23] != EXEC {
        return Halted;
      }
      return Jump(AddressOf(tmp[..], i));
    }

    /** The script of the program whose component table is at `block`. */
    ghost function ScriptOf(stack: Table, block: uint64): Script
      requires Valid()
    {
      if At(block) in loader.disk && HeaderOk(TableOver(stack, block)) then ScriptIn(TableOver(stack, block))
      else Script([], Halted)
    }

    /** From a program's entry to the new PSW: every component in its place, a halt, or a table read beyond its end. */
    method Run(block: uint64) returns (outcome: Outcome)
      requires Valid() && AllEnd(ScriptOf(tmp[..], block).components)
      modifies tmp, loader.sec, loader`mem, loader`address
      ensures var script := ScriptOf(old(tmp[..]), block);
        loader.mem == Loaded(loader.disk, old(loader.mem), script.components) &&
        outcome == if AllComplete(script.components) then script.outcome else Halted
    {
      hide AllComplete, AllEnd, ScriptIn, TableAt;
      var ok := ReadHeader(block);
      if !ok || tmp[..4] != MAGIC || tmp[4] != 0 {
        return Halted;
      }
      outcome := RunTable();
    }
  }
}
