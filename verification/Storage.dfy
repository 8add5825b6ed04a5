/** What disks and memory hold, what reading a list of blocks yields, and storing bytes at a running address. */
module Storage {
  import opened Bytes

  /** The blocks that can be read, by their number on the disk. */
  type Disk = map<uint64, seq<byte>>

  type Memory = map<uint64, byte>

  /** The numbers of the blocks that one transfer reads, in order. */
  type Extent = seq<nat>

  /** `count` consecutive blocks. */
  function Run(block: nat, count: nat): (e: Extent)
    ensures |e| == count
  {
    seq(count, i requires 0 <= i < count => block + i)
  }

  predicate Readable(disk: Disk, e: Extent) {
    forall b :: b in e ==> b < TWO64 && b in disk
  }

  /** The bytes of the blocks, one after the other. */
  function Blocks(disk: Disk, e: Extent): seq<byte> {
    if e == [] then []
    else (if e[0] < TWO64 && e[0] in disk then disk[e[0]] else []) + Blocks(disk, e[1..])
  }

  lemma {:induction false} BlocksAppend(disk: Disk, a: Extent, b: Extent)
    ensures Blocks(disk, a + b) == Blocks(disk, a) + Blocks(disk, b)
    ensures Readable(disk, a + b) <==> Readable(disk, a) && Readable(disk, b)
  {
    if a == [] {
      assert a + b == b;
    } else {
      assert (a + b)[1..] == a[1..] + b;
      BlocksAppend(disk, a[1..], b);
      assert forall x :: x in a <==> x == a[0] || x in a[1..];
      assert forall x :: x in a + b <==> x in a || x in b;
    }
  }

  lemma {:induction false} BlocksLength(disk: Disk, size: nat, e: Extent)
    requires Readable(disk, e) && forall b :: b in disk ==> |disk[b]| == size
    ensures |Blocks(disk, e)| == |e| * size
  {
    if e != [] {
      assert e[0] in e;
      BlocksLength(disk, size, e[1..]);
    }
  }

  lemma NoBlocks(disk: Disk)
    ensures Blocks(disk, []) == [] && Readable(disk, [])
  {
  }

  lemma RunAppend(block: nat, a: nat, b: nat)
    ensures Run(block, a + b) == Run(block, a) + Run(block + a, b)
  {
  }

  /** The bytes of the extents, one after the other. */
  function Payload(disk: Disk, extents: seq<Extent>): seq<byte> {
    if extents == [] then [] else Blocks(disk, extents[0]) + Payload(disk, extents[1..])
  }

  ghost predicate AllReadable(disk: Disk, extents: seq<Extent>) {
    forall e :: e in extents ==> Readable(disk, e)
  }

  /** The number of blocks in all extents. */
  function BlockTotal(extents: seq<Extent>): nat {
    if extents == [] then 0 else |extents[0]| + BlockTotal(extents[1..])
  }

  /** Extents that can be read carry the block size times the number of their blocks. */
  lemma {:induction false} PayloadLength(disk: Disk, size: nat, extents: seq<Extent>)
    requires AllReadable(disk, extents) && forall b :: b in disk ==> |disk[b]| == size
    ensures |Payload(disk, extents)| == BlockTotal(extents) * size
  {
    hide Readable, Blocks;
    if extents != [] {
      var e := extents[0];
      BlocksLength(disk, size, e);
      PayloadLength(disk, size, extents[1..]);
      assert (|e| + BlockTotal(extents[1..])) * size == |e| * size + BlockTotal(extents[1..]) * size;
    }
  }

  lemma {:induction false} PayloadAppend(disk: Disk, a: seq<Extent>, b: seq<Extent>)
    ensures Payload(disk, a + b) == Payload(disk, a) + Payload(disk, b)
  {
    if a == [] {
      assert a + b == b;
    } else {
      assert (a + b)[1..] == a[1..] + b;
      PayloadAppend(disk, a[1..], b);
    }
  }

  lemma PayloadMore(disk: Disk, done: seq<Extent>, e: Extent)
    ensures Payload(disk, done + [e]) == Payload(disk, done) + Blocks(disk, e)
  {
    PayloadAppend(disk, done, [e]);
    assert Payload(disk, [e]) == Blocks(disk, e) + Payload(disk, []);
  }

  /** Memory after `bytes` have been written from `address` on; addresses wrap at 64 bits. */
  function Store(mem: Memory, address: int, bytes: seq<byte>): Memory
    decreases |bytes|
  {
    if bytes == [] then mem
    else Store(mem[U64(address) := bytes[0]], address + 1, bytes[1..])
  }

  lemma {:induction false} StoreAppend(mem: Memory, address: int, a: seq<byte>, b: seq<byte>)
    ensures Store(Store(mem, address, a), address + |a|, b) == Store(mem, address, a + b)
    decreases |a|
  {
    if a == [] {
      assert a + b == b;
    } else {
      assert (a + b)[1..] == a[1..] + b;
      StoreAppend(mem[U64(address) := a[0]], address + 1, a[1..], b);
    }
  }

  lemma {:induction false} StoreWraps(mem: Memory, address: int, bytes: seq<byte>)
    ensures Store(mem, U64(address), bytes) == Store(mem, address, bytes)
    decreases |bytes|
  {
    if bytes != [] {
      var mem' := mem[U64(address) := bytes[0]];
      StoreWraps(mem', U64(address) + 1, bytes[1..]);
      StoreWraps(mem', address + 1, bytes[1..]);
    }
  }

  /** What storing means byte by byte, as long as the bytes do not go once around the address space. */
  lemma {:induction false} StoreReads(mem: Memory, address: int, bytes: seq<byte>, i: nat)
    requires i < |bytes| <= TWO64
    ensures var after := Store(mem, address, bytes);
      U64(address + i) in after && after[U64(address + i)] == bytes[i]
    decreases |bytes|
  {
    var mem' := mem[U64(address) := bytes[0]];
    if i == 0 {
      assert U64(U64(address) - (address + 1)) == TWO64 - 1;
      StoreKeeps(mem', address + 1, bytes[1..], U64(address));
    } else {
      StoreReads(mem', address + 1, bytes[1..], i - 1);
    }
  }

  lemma {:induction false} StoreKeeps(mem: Memory, address: int, bytes: seq<byte>, a: uint64)
    requires U64(a - address) >= |bytes|
    ensures var after := Store(mem, address, bytes);
      (a in after <==> a in mem) && (a in mem ==> after[a] == mem[a])
    decreases |bytes|
  {
    if bytes != [] {
      assert U64(a - (address + 1)) == U64(a - address) - 1;
      StoreKeeps(mem[U64(address) := bytes[0]], address + 1, bytes[1..], a);
    }
  }

  /** Storing at the running address, which has wrapped, continues what was stored before. */
  lemma StoreMore(mem: Memory, address: uint64, before: seq<byte>, bytes: seq<byte>)
    ensures Store(Store(mem, address, before), U64(address + |before|), bytes) == Store(mem, address, before + bytes)
    ensures U64(U64(address + |before|) + |bytes|) == U64(address + |before + bytes|)
  {
    hide Store;
    StoreWraps(Store(mem, address, before), address + |before|, bytes);
    StoreAppend(mem, address, before, bytes);
  }

  /** Memory holds just the extents `done`, stored from `load` on, and `address` is the address behind them. */
  ghost predicate Copied(disk: Disk, mem0: Memory, load: uint64, done: seq<Extent>, mem: Memory, address: uint64) {
    mem == Store(mem0, load, Payload(disk, done)) && address == U64(load + |Payload(disk, done)|)
  }

  lemma CopiedMore(disk: Disk, mem0: Memory, load: uint64, done: seq<Extent>, mem: Memory, address: uint64, e: Extent)
    requires Copied(disk, mem0, load, done, mem, address)
    ensures Copied(disk, mem0, load, done + [e], Store(mem, address, Blocks(disk, e)), U64(address + |Blocks(disk, e)|))
  {
    hide Store, Payload, Blocks, Bytes.U64;
    PayloadMore(disk, done, e);
    StoreMore(mem0, load, Payload(disk, done), Blocks(disk, e));
  }

  lemma CopiedNothing(disk: Disk, mem: Memory, load: uint64)
    ensures Copied(disk, mem, load, [], mem, load)
  {
  }

  // ---------- Buffers ----------

  /** What buffers are filled with before a block is read into them. */
  const FILLER: byte := 0xAA

  /** The contents of a buffer of `size` bytes that was filled before `content` was read into it. */
  function Filled(content: seq<byte>, size: nat): (buf: seq<byte>)
    requires |content| <= size
    ensures |buf| == size
  {
    content + seq(size - |content|, _ => FILLER)
  }

  /** Fill a buffer and read a block into it. */
  method ReadFilled(disk: Disk, block: uint64, buf: array<byte>) returns (ok: bool)
    requires block in disk ==> |disk[block]| <= buf.Length
    modifies buf
    ensures ok <==> block in disk
    ensures ok ==> buf[..] == Filled(disk[block], buf.Length)
  {
    forall i | 0 <= i < buf.Length {
      buf[i] := FILLER;
    }
    ok := block in disk;
    if ok {
      var content := disk[block];
      forall i | 0 <= i < |content| {
        buf[i] := content[i];
      }
    }
  }

  predicate Unused(s: seq<byte>, o: nat, size: nat)
    requires o + size <= |s|
  {
    forall i :: o <= i < o + size ==> s[i] == FILLER
  }

  /** The scan behind the test for unused space. */
  method UnusedSpace(s: seq<byte>, o: nat, size: nat) returns (unused: bool)
    requires o + size <= |s|
    ensures unused <==> Unused(s, o, size)
  {
    for i := o to o + size
      invariant forall k :: o <= k < i ==> s[k] == FILLER
    {
      if s[i] != FILLER {
        return false;
      }
    }
    return true;
  }
}
