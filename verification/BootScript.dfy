/**
 * Boot scripts: entries that name components to load, signatures that are passed over, and in the end
 * the PSW to start with.  ECKD and SCSI disks use the same layout of entries.
 */
module BootScript {
  import opened Bytes
  import opened Storage
  import opened BlockChains

  const EXEC: byte := 1
  const LOAD: byte := 2
  const SIGNATURE: byte := 3
  /** A script entry, and the header in front of the entries, are that long. */
  const STEP := 32

  /** Entry `i` lies within `s`. */
  predicate HasEntry(s: seq<byte>, i: int) {
    0 <= i && STEP + STEP * i + STEP <= |s|
  }

  function TypeOf(s: seq<byte>, i: nat): byte
    requires HasEntry(s, i)
  {
    s[STEP + STEP * i + 23]
  }

  function AddressOf(s: seq<byte>, i: nat): uint64
    requires HasEntry(s, i)
  {
    Be64(s, STEP + STEP * i + 24)
  }

  /** A component to load: where to, and what is loaded and with what verdict. */
  datatype Component = Component(load: uint64, flat: Flat)

  /** How a boot ends; a script that goes astray is read on behind its buffer. */
  datatype Outcome = Halted | Jump(psw: uint64) | Astray

  datatype Script = Script(components: seq<Component>, outcome: Outcome)

  ghost function BytesOf(disk: Disk, c: Component): seq<byte> {
    Payload(disk, c.flat.extents)
  }

  /** No chain goes on for ever, up to the first that is stopped; what lies behind that is never looked at. */
  ghost predicate AllEnd(components: seq<Component>)
    decreases |components|
  {
    components == [] ||
    (components[0].flat.verdict != Endless && (components[0].flat.verdict == Complete ==> AllEnd(components[1..])))
  }

  ghost predicate AllComplete(components: seq<Component>) {
    forall c :: c in components ==> c.flat.verdict == Complete
  }

  /** Memory after the components have been loaded one after the other, up to and with the first that is stopped. */
  ghost function Loaded(disk: Disk, mem: Memory, components: seq<Component>): Memory
    decreases |components|
  {
    if components == [] then mem
    else
      var c := components[0];
      var mem' := Store(mem, c.load, BytesOf(disk, c));
      if c.flat.verdict == Complete then Loaded(disk, mem', components[1..]) else mem'
  }

  /** Address `a` does not belong to the bytes of `c`. */
  ghost predicate Misses(disk: Disk, c: Component, a: uint64) {
    U64(a - c.load) >= |BytesOf(disk, c)|
  }

  ghost predicate AllMiss(disk: Disk, components: seq<Component>, a: uint64) {
    forall c :: c in components ==> Misses(disk, c, a)
  }

  lemma {:induction false} LoadedKeeps(disk: Disk, mem: Memory, components: seq<Component>, a: uint64)
    requires AllMiss(disk, components, a)
    ensures var after := Loaded(disk, mem, components);
      (a in after <==> a in mem) && (a in mem ==> after[a] == mem[a])
    decreases |components|
  {
    hide BytesOf;
    if components != [] {
      var c := components[0];
      assert Misses(disk, c, a);
      StoreKeeps(mem, c.load, BytesOf(disk, c), a);
      LoadedKeeps(disk, Store(mem, c.load, BytesOf(disk, c)), components[1..], a);
    }
  }

  /**
   * Every byte of every component is found where it belongs, provided no component that is loaded
   * later covers it.
   */
  lemma {:induction false} LoadedReads(disk: Disk, mem: Memory, components: seq<Component>, k: nat, i: nat)
    requires AllComplete(components) && k < |components| && i < |BytesOf(disk, components[k])| <= TWO64
    requires AllMiss(disk, components[k + 1..], U64(components[k].load + i))
    ensures var (after, a) := (Loaded(disk, mem, components), U64(components[k].load + i));
      a in after && after[a] == BytesOf(disk, components[k])[i]
    decreases k
  {
    hide BytesOf;
    var c := components[0];
    var mem' := Store(mem, c.load, BytesOf(disk, c));
    if k == 0 {
      StoreReads(mem, c.load, BytesOf(disk, c), i);
      LoadedKeeps(disk, mem', components[1..], U64(c.load + i));
    } else {
      assert components[1..][k..] == components[k + 1..];
      LoadedReads(disk, mem', components[1..], k - 1, i);
    }
  }

  /** The script has been run up to where only `rest` is left. */
  ghost predicate Runs(disk: Disk, mem0: Memory, script: Script, mem: Memory, rest: Script) {
    AllEnd(rest.components) && script.outcome == rest.outcome &&
    Loaded(disk, mem0, script.components) == Loaded(disk, mem, rest.components) &&
    (AllComplete(script.components) <==> AllComplete(rest.components))
  }

  lemma RunsMore(disk: Disk, mem0: Memory, script: Script, mem: Memory, rest: Script)
    requires Runs(disk, mem0, script, mem, rest) && rest.components != []
    ensures var c := rest.components[0];
      var mem' := Store(mem, c.load, BytesOf(disk, c));
      c.flat.verdict != Endless &&
      if c.flat.verdict == Stopped then
        Loaded(disk, mem0, script.components) == mem' && !AllComplete(script.components)
      else Runs(disk, mem0, script, mem', Script(rest.components[1..], rest.outcome))
  {
    hide BytesOf;
    assert forall c :: c in rest.components <==> c == rest.components[0] || c in rest.components[1..];
  }

  lemma RunsNothing(disk: Disk, mem0: Memory, script: Script, mem: Memory, rest: Script)
    requires Runs(disk, mem0, script, mem, rest) && rest.components == []
    ensures Loaded(disk, mem0, script.components) == mem && AllComplete(script.components) &&
      script.outcome == rest.outcome
  {
  }

  lemma RunsStart(disk: Disk, mem0: Memory, script: Script)
    requires AllEnd(script.components)
    ensures Runs(disk, mem0, script, mem0, script)
  {
  }
}
