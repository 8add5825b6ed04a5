/** Booting from an ECKD disk: the boot map table names a script, and the script names what to load and where. */
module EckdScript {
  import opened Bytes
  import opened Storage
  import opened BlockChains
  import opened PointerTables
  import opened BootScript
  import opened EckdAddress
  import opened EckdLoader

  const SEC_SIZE := 16384
  const MAX_BOOT_ENTRIES := 31
  const LAST_STEP := 510

  type Scratch = b: seq<byte> | |b| == SEC_SIZE witness seq(SEC_SIZE, _ => 0)

  function ChsOf(s: Scratch, at: nat): Chs
    requires at + 5 <= SEC_SIZE
  {
    Chs(Be16(s, at), Be16(s, at + 2), s[at + 4])
  }

  /** Entry `n` of the boot map table. */
  function TableEntry(g: Geometry, s: Scratch, n: nat): uint64
    requires n < MAX_BOOT_ENTRIES
  {
    BlockNum(g, ChsOf(s, 16 + 16 * n))
  }

  ghost function ComponentAt(io: Io, g: Geometry, disk: Disk, s: Scratch, i: nat): Component
    requires IoOk(io) && DiskOk(g, disk) && i <= LAST_STEP
  {
    Component(AddressOf(s, i), ChainOf(io, disk, RawsOf(g, disk), BlockNum(g, ChsOf(s, STEP + STEP * i))))
  }

  /** What the script in `s` says from entry `i` on; signatures are passed over. */
  ghost function ScriptFrom(io: Io, g: Geometry, disk: Disk, s: Scratch, i: nat): Script
    requires IoOk(io) && DiskOk(g, disk) && i <= LAST_STEP
    decreases LAST_STEP - i
  {
    if i == LAST_STEP || TypeOf(s, i) !in {LOAD, SIGNATURE} then
      Script([], if TypeOf(s, i) == EXEC then Jump(AddressOf(s, i)) else Halted)
    else
      var rest := ScriptFrom(io, g, disk, s, i + 1);
      if TypeOf(s, i) == SIGNATURE then rest
      else Script([ComponentAt(io, g, disk, s, i)] + rest.components, rest.outcome)
  }

  /** A script ends before its block does. */
  lemma EndsInBlock(content: seq<byte>, i: nat)
    requires |content| <= BPRS_SIZE && i <= LAST_STEP
    ensures TypeOf(Filled(content, SEC_SIZE), i) in {LOAD, SIGNATURE} ==> i < LAST_STEP - 1
  {
  }

  class Booter {
    const loader: Loader
    const sec: array<byte>

    ghost predicate Valid() {
      loader.Valid() && sec.Length == SEC_SIZE && sec != loader.bprs
    }

    constructor (geometry: Geometry, disk: Disk, route: Route, mem: Memory)
      requires DiskOk(geometry, disk) && DeviceOk(route, geometry.blockSize)
      ensures Valid() && loader.geometry == geometry && loader.disk == disk && loader.route == route &&
        loader.mem == mem
      ensures fresh(loader) && fresh(loader.bprs) && fresh(sec)
    {
      loader := new Loader(geometry, disk, route, mem);
      sec := new byte[SEC_SIZE](_ => 0);
    }

    /** Where a block of this disk is read from. */
    function At(block: uint64): uint64
      requires loader.Valid()
    {
      TableAt(loader.Device(), block)
    }

    /** Fill the scratch space and read a block into it. */
    method ReadBlock(block: uint64) returns (ok: bool)
      requires Valid()
      modifies sec
      ensures ok <==> At(block) in loader.disk
      ensures ok ==> sec[..] == Filled(loader.disk[At(block)], SEC_SIZE)
    {
      ok := ReadFilled(loader.disk, At(block), sec);
    }

    ghost function ScriptIn(s: Scratch): Script
      requires Valid()
    {
      ScriptFrom(loader.Device(), loader.geometry, loader.disk, s, 0)
    }

    ghost function EntryOf(s: Scratch, i: nat): Component
      requires Valid() && i <= LAST_STEP
    {
      ComponentAt(loader.Device(), loader.geometry, loader.disk, s, i)
    }

    /** Load the component of entry `i`. */
    method LoadEntry(i: nat) returns (halted: bool)
      requires Valid() && i <= LAST_STEP && EntryOf(sec[..], i).flat.verdict != Endless
      modifies loader.bprs, loader`mem, loader`address
      ensures halted <==> EntryOf(sec[..], i).flat.verdict == Stopped
      ensures loader.mem ==
        Store(old(loader.mem), EntryOf(sec[..], i).load, BytesOf(loader.disk, EntryOf(sec[..], i)))
    {
      hide BlockNum, AddressOf, ChsOf, ChainOf, Store, Payload;
      halted := loader.LoadComponent(BlockNum(loader.geometry, ChsOf(sec[..], STEP + STEP * i)), AddressOf(sec[..], i));
    }

    /** Run the script in the scratch space; loading components leaves it alone. */
    method RunScript(ghost content: seq<byte>) returns (outcome: Outcome)
      requires Valid() && |content| <= BPRS_SIZE && sec[..] == Filled(content, SEC_SIZE) &&
        AllEnd(ScriptIn(sec[..]).components)
      modifies loader.bprs, loader`mem, loader`address
      ensures var script := ScriptIn(sec[..]);
        loader.mem == Loaded(loader.disk, old(loader.mem), script.components) &&
        outcome == if AllComplete(script.components) then script.outcome else Halted
    {
      hide Runs, ComponentAt, BytesOf, AddressOf, Store, Loaded, AllComplete, AllEnd;
      ghost var io, g, disk, mem0, s: Scratch := loader.Device(), loader.geometry, loader.disk, loader.mem, sec[..];
      ghost var script := ScriptIn(s);
      RunsStart(disk, mem0, script);
      EndsInBlock(content, 0);
      var i := 0;
      while sec[STEP + STEP * i + 23] == LOAD || sec[STEP + STEP * i + 23] == SIGNATURE
        invariant 0 <= i < LAST_STEP && sec[..] == s
        invariant Runs(disk, mem0, script, loader.mem, ScriptFrom(io, g, disk, s, i))
        decreases LAST_STEP - i
      {
        EndsInBlock(content, i);
        assert TypeOf(s, i) == sec[STEP + STEP * i + 23];
        ghost var rest := ScriptFrom(io, g, disk, s, i);
        if sec[STEP + STEP * i + 23] == LOAD {
          RunsMore(disk, mem0, script, loader.mem, rest);
          assert rest.components[1..] == ScriptFrom(io, g, disk, s, i + 1).components;
          var halted := LoadEntry(i);
          if halted {
            return Halted;
          }
        }
        i := i + 1;
      }
      assert TypeOf(s, i) == sec[STEP + STEP * i + 23];
      RunsNothing(disk, mem0, script, loader.mem, ScriptFrom(io, g, disk, s, i));
      if sec[STEP + STEP * i + 23] != EXEC {
        return Halted;
      }
      return Jump(AddressOf(sec[..], i));
    }

    /** The script that a boot parameter leads to; without one there is nothing to load. */
    ghost function ScriptOf(bootMap: uint64, loadparm: uint32): Script
      requires Valid()
    {
      var none := Script([], Halted);
      if loadparm >= MAX_BOOT_ENTRIES || At(bootMap) !in loader.disk then none
      else
        var block := TableEntry(loader.geometry, Filled(loader.disk[At(bootMap)], SEC_SIZE), loadparm);
        if block == NULL_BLOCK || At(block) !in loader.disk then none
        else ScriptIn(Filled(loader.disk[At(block)], SEC_SIZE))
    }

    /** From the boot map table to the new PSW: every component in its place, or a halt. */
    method Run(bootMap: uint64, loadparm: uint32) returns (outcome: Outcome)
      requires Valid() && AllEnd(ScriptOf(bootMap, loadparm).components)
      modifies sec, loader.bprs, loader`mem, loader`address
      ensures var script := ScriptOf(bootMap, loadparm);
        loader.mem == Loaded(loader.disk, old(loader.mem), script.components) &&
        outcome == if AllComplete(script.components) then script.outcome else Halted
    {
      hide AllComplete, AllEnd, BlockNum, ScriptIn, TableAt;
      if loadparm >= MAX_BOOT_ENTRIES {
        return Halted;
      }
      var ok := ReadBlock(bootMap);
      if !ok {
        return Halted;
      }
      var block := TableEntry(loader.geometry, sec[..], loadparm);
      if block == NULL_BLOCK {
        return Halted;
      }
      ok := ReadBlock(block);
      if !ok {
        return Halted;
      }
      outcome := RunScript(loader.disk[At(block)]);
    }
  }
}
