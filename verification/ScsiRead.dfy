/** Reading many sectors from a SCSI disk in chunks that the host can take. */
module ScsiRead {
  import opened Bytes
  import opened Storage

  const MAX_SECTORS := 2048

  /** One READ(10) command: a 32-bit block address and a 16-bit length. */
  datatype Read10 = Read10(lba: uint32, length: uint16)

  /** The smaller of two limits, 0 meaning no limit. */
  function MinNonZero(a: int, b: int): int {
    if a == 0 then b else if b == 0 then a else if a < b then a else b
  }

  /** The transfer limit in force after set-up: the device's two limits and the firmware's own. */
  function Limit(maxSectors: uint32, maxTransfer: uint32): uint32 {
    MinNonZero(maxSectors, MinNonZero(MAX_SECTORS, maxTransfer))
  }

  /** It is never 0, and no limit anyone reported is exceeded. */
  lemma LimitIsMeet(maxSectors: uint32, maxTransfer: uint32)
    ensures var limit := Limit(maxSectors, maxTransfer);
      1 <= limit <= MAX_SECTORS && (maxSectors > 0 ==> limit <= maxSectors) && (maxTransfer > 0 ==>
        limit <= maxTransfer) &&
      (limit == MAX_SECTORS || limit == maxSectors || limit == maxTransfer)
  {
  }

  /** What a call transfers; the count that is not positive is taken for no limit. */
  function Transferred(sectors: int, limit: uint32): nat
    requires limit > 0
  {
    if sectors > 0 then sectors else limit
  }

  /** The number of sectors asked for. */
  function Asked(count: int): nat {
    if count > 0 then count else 0
  }

  // ---------- The blocks that chunks read ----------

  /** `n` blocks from `from` on, in chunks of `step`; the first number of each chunk is cut to 32 bits. */
  function Chunks(from: nat, n: nat, step: nat): (e: Extent)
    requires step > 0
    ensures |e| == n
    decreases n
  {
    if n <= step then Run(from % TWO32, n) else Run(from % TWO32, step) + Chunks(from + step, n - step, step)
  }

  /** The length of the last chunk. */
  function LastChunk(n: nat, step: nat): (last: nat)
    requires step > 0
    ensures last <= n && last <= step && (n > 0 ==> last > 0)
    decreases n
  {
    if n <= step then n else LastChunk(n - step, step)
  }

  /** Cutting the numbers does no harm exactly as long as the last chunk starts below block 2^32. */
  lemma {:induction false} ChunksExactly(from: nat, n: nat, step: nat)
    requires n > 0 && step > 0
    ensures Chunks(from, n, step) == Run(from, n) <==> from + n - LastChunk(n, step) < TWO32
    decreases n
  {
    SameRun(from % TWO32, from, if n <= step then n else step);
    if n > step {
      ChunksExactly(from + step, n - step, step);
      RunAppend(from, step, n - step);
      SameParts(Run(from % TWO32, step), Chunks(from + step, n - step, step), Run(from, step),
        Run(from + step, n - step));
    }
  }

  lemma SameRun(a: nat, b: nat, n: nat)
    requires n > 0
    ensures Run(a, n) == Run(b, n) <==> a == b
  {
    assert Run(a, n)[0] == a && Run(b, n)[0] == b;
  }

  lemma SameParts(a: Extent, b: Extent, c: Extent, d: Extent)
    requires |a| == |c|
    ensures a + b == c + d <==> a == c && b == d
  {
    assert (a + b)[..|a|] == a && (a + b)[|a|..] == b && (c + d)[..|a|] == c && (c + d)[|a|..] == d;
  }

  // ---------- Commands ----------

  /** The blocks that the commands read, in order. */
  function NumbersOf(commands: seq<Read10>): Extent
    decreases |commands|
  {
    if commands == [] then []
    else
      var last := commands[|commands| - 1];
      NumbersOf(commands[..|commands| - 1]) + Run(last.lba, last.length)
  }

  lemma NumbersMore(commands: seq<Read10>, c: Read10)
    ensures NumbersOf(commands + [c]) == NumbersOf(commands) + Run(c.lba, c.length)
    ensures (commands + [c])[..|commands|] == commands
  {
    assert (commands + [c])[..|commands|] == commands;
  }

  // ---------- Counting in sectors and in blocks ----------

  /** `n` things of `factor` parts each, in parts. */
  function InParts(n: nat, factor: nat): (parts: nat)
    ensures n > 0 && factor > 0 ==> parts > 0
  {
    n * factor
  }

  /** The address field of the command, a 32-bit word. */
  function LbaOf(sector: nat, factor: nat): uint32 {
    sector * factor % TWO32
  }

  /** The length field of the command, a halfword. */
  function LengthOf(chunk: nat, factor: nat): uint16 {
    chunk * factor % TWO16
  }

  function DataSize(chunk: nat, size: nat, factor: nat): nat {
    chunk * size * factor
  }

  lemma Scales(start: nat, done: nat, chunk: nat, left: nat, factor: nat, limit: nat)
    requires 0 < chunk <= limit <= MAX_SECTORS && chunk <= left && (factor == 1 || factor == 4)
    ensures InParts(done + chunk, factor) == InParts(done, factor) + LengthOf(chunk, factor)
    ensures LbaOf(start + done, factor) == (InParts(start, factor) + InParts(done, factor)) % TWO32
    ensures 1 <= LengthOf(chunk, factor) <= InParts(limit, factor)
    ensures InParts(left, factor) == LengthOf(chunk, factor) + InParts(left - chunk, factor)
    ensures chunk == limit ==> LengthOf(chunk, factor) == InParts(limit, factor)
    ensures left <= limit <==> InParts(left, factor) <= InParts(limit, factor)
  {
    if factor == 4 {
      assert InParts(done, 4) == 4 * done && InParts(start, 4) == 4 * start && InParts(left, 4) == 4 * left;
    } else {
      assert InParts(done, 1) == done && InParts(start, 1) == start && InParts(left, 1) == left;
    }
  }

  lemma Bytewise(blocks: nat, chunk: nat, factor: nat, size: nat)
    requires chunk <= MAX_SECTORS && (factor == 1 || factor == 4)
    ensures InParts(blocks + LengthOf(chunk, factor), size) == InParts(blocks, size) + DataSize(chunk, size, factor)
    ensures InParts(LengthOf(chunk, factor), size) == DataSize(chunk, size, factor)
  {
    var b := chunk * factor;
    assert LengthOf(chunk, factor) == b;
    assert (blocks + b) * size == blocks * size + b * size;
    assert b * size == chunk * size * factor;
  }

  lemma NoParts(factor: nat)
    ensures InParts(0, factor) == 0
  {
  }

  // ---------- The loop ----------

  /** What is left is another chunk and then what is left behind it. */
  lemma ChunkFirst(from: nat, n: nat, step: nat, length: nat)
    requires step > 0 && 0 < length <= n && length == (if n <= step then n else step)
    ensures Chunks(from, n, step) == Run(from % TWO32, length) + Chunks(from + length, n - length, step)
  {
    if n <= step {
      assert Chunks(from + length, 0, step) == [];
    }
  }

  /**
   * The chunks that have been read and those that are left make up `all`; one more is stored behind
   * the bytes of those before it.
   */
  lemma ChunkRead(disk: Disk, size: nat, all: Extent, done: Extent, e: Extent, rest: Extent, mem0: Memory, load: int)
    requires all == done + (e + rest) && forall b :: b in disk ==> |disk[b]| == size
    ensures all == (done + e) + rest
    ensures Readable(disk, all) <==> Readable(disk, done) && Readable(disk, e) && Readable(disk, rest)
    ensures Readable(disk, e) ==> |Blocks(disk, e)| == |e| * size
    ensures Blocks(disk, done + e) == Blocks(disk, done) + Blocks(disk, e)
    ensures Store(Store(mem0, load, Blocks(disk, done)), load + |Blocks(disk, done)|, Blocks(disk, e))
         == Store(mem0, load, Blocks(disk, done + e))
    ensures Readable(disk, done + e) <==> Readable(disk, done) && Readable(disk, e)
  {
    hide Readable, Blocks, Store;
    BlocksAppend(disk, done, e + rest);
    BlocksAppend(disk, e, rest);
    BlocksAppend(disk, done, e);
    StoreAppend(mem0, load, Blocks(disk, done), Blocks(disk, e));
    if Readable(disk, e) {
      BlocksLength(disk, size, e);
    }
  }

  /** The blocks that a call reads, counted in blocks: `factor` of them make a sector. */
  function AllChunks(start: nat, count: int, limit: uint32, factor: nat): Extent
    requires limit > 0 && factor > 0
  {
    Chunks(InParts(start, factor), InParts(Transferred(count, limit), factor), InParts(limit, factor))
  }

  /**
   * The chunks, for any start: the call halts exactly if one of the blocks cannot be read, with what was
   * read before that chunk in memory; otherwise the commands read all of them and memory is as after that.
   * With blocks of less than 2^18 bytes the byte count of a chunk fits the firmware's int.
   */
  method ReadChunks(disk: Disk, size: nat, factor: nat, limit: uint32, start: uint64, count: int, mem0: Memory,
    load: int)
    returns (halted: bool, mem: Memory, commands: seq<Read10>)
    requires size < 0x4_0000 && forall b :: b in disk ==> |disk[b]| == size
    requires 1 <= limit <= MAX_SECTORS && (factor == 1 || factor == 4)
    ensures halted <==> !Readable(disk, AllChunks(start, count, limit, factor))
    ensures !halted ==> NumbersOf(commands) == AllChunks(start, count, limit, factor)
    ensures halted ==> commands != [] && NumbersOf(commands) <= AllChunks(start, count, limit, factor)
    ensures mem == Store(mem0, load, Blocks(disk, NumbersOf(if halted then commands[..|commands| - 1] else commands)))
    ensures forall c :: c in commands ==> 1 <= c.length <= InParts(limit, factor)
  {
    hide Storage.Readable, Storage.Blocks, Storage.Store, Storage.Run, Chunks, NumbersOf, InParts, LbaOf, LengthOf,
      DataSize;
    ghost var total := Transferred(count, limit);
    ghost var first, step := InParts(start, factor), InParts(limit, factor);
    ghost var all := AllChunks(start, count, limit, factor);
    var sector: int, left, address := start, count, load;
    commands, mem := [], mem0;
    ghost var before: nat := 0;
    ghost var done: Extent := [];
    NothingRead(disk, mem0, load);
    NoParts(size);
    NoParts(factor);
    assert [] + all == all;
    while true
      invariant before < total && sector == start + before && left == count - before && (before > 0 ==> left > 0)
      invariant done == NumbersOf(commands)
      invariant all == done + Chunks(first + InParts(before, factor), InParts(total - before, factor), step)
      invariant Readable(disk, done) && mem == Store(mem0, load, Blocks(disk, done))
      invariant |Blocks(disk, done)| == InParts(InParts(before, factor), size) == address - load
      invariant forall c :: c in commands ==> 1 <= c.length <= InParts(limit, factor)
      decreases total - before
    {
      var chunk: nat := if 0 < left < limit then left else limit;
      Scales(start, before, chunk, total - before, factor, limit);
      Bytewise(InParts(before, factor), chunk, factor, size);
      var lba := LbaOf(sector, factor);
      var length := LengthOf(chunk, factor);
      ghost var e := Run(lba, length);
      ghost var here, next := InParts(before, factor), before + chunk;
      assert InParts(next, factor) == here + length;
      assert InParts(total - next, factor) == InParts(total - before, factor) - length;
      ghost var rest := Chunks(first + here + length, InParts(total - before, factor) - length, step);
      assert rest == Chunks(first + InParts(next, factor), InParts(total - next, factor), step);
      ChunkFirst(first + InParts(before, factor), InParts(total - before, factor), step, length);
      ChunkRead(disk, size, all, done, e, rest, mem0, load);
      NumbersMore(commands, Read10(lba, length));
      commands := commands + [Read10(lba, length)];
      if !Readable(disk, Run(lba, length)) {
        assert done + e <= all;
        return true, mem, commands;
      }
      done := done + e;
      ChunkBytes(e, size);
      mem := Store(mem, address, Blocks(disk, Run(lba, length)));
      address := address + DataSize(chunk, size, factor);
      sector := sector + chunk;
      left := left - chunk;
      if left <= 0 {
        NothingLeft(first + InParts(next, factor), step);
        assert rest == [] && done + [] == done;
        return false, mem, commands;
      }
      before := next;
    }
  }

  lemma NothingRead(disk: Disk, mem: Memory, load: int)
    ensures NumbersOf([]) == [] && Readable(disk, []) && Blocks(disk, []) == [] && Store(mem, load, []) == mem
  {
  }

  lemma NothingLeft(from: nat, step: nat)
    requires step > 0
    ensures Chunks(from, 0, step) == []
  {
  }

  lemma ChunkBytes(e: Extent, size: nat)
    ensures |e| * size == InParts(|e|, size)
  {
  }

  /** The last chunk starts at a block number that the command can hold. */
  predicate StartFits(start: nat, total: nat, limit: uint32, factor: nat)
    requires limit > 0 && factor > 0
  {
    InParts(start, factor) + InParts(total, factor) - LastChunk(InParts(total, factor), InParts(limit, factor)) < TWO32
  }

  /**
   * The commands read the blocks asked for, each once and in order, exactly when their addresses fit and a
   * positive number was asked for.
   */
  lemma ReadsAsked(start: nat, count: int, limit: uint32, factor: nat)
    requires limit > 0 && factor > 0
    ensures var (first, total) := (InParts(start, factor), Transferred(count, limit));
      (AllChunks(start, count, limit, factor) == Run(first, InParts(total, factor)) <==>
        StartFits(start, total, limit, factor)) &&
      (AllChunks(start, count, limit, factor) == Run(first, InParts(Asked(count), factor)) <==>
        count > 0 && StartFits(start, total, limit, factor))
  {
    NoParts(factor);
    hide InParts, Chunks, Storage.Run;
    ChunksExactly(InParts(start, factor), InParts(Transferred(count, limit), factor), InParts(limit, factor));
  }

  /**
   * The chunked read is one read of everything exactly when the last chunk starts below block 2^32; then
   * it halts exactly when that read would, and otherwise memory is as after it.
   */
  method ReadMany(disk: Disk, size: nat, factor: nat, limit: uint32, start: uint64, count: int, mem0: Memory, load: int)
    returns (halted: bool, mem: Memory, commands: seq<Read10>)
    requires size < 0x4_0000 && forall b :: b in disk ==> |disk[b]| == size
    requires 1 <= limit <= MAX_SECTORS && (factor == 1 || factor == 4)
    ensures var (first, total) := (InParts(start, factor), Transferred(count, limit));
      !halted ==>
        (NumbersOf(commands) == Run(first, InParts(total, factor)) <==> StartFits(start, total, limit, factor)) &&
        (NumbersOf(commands) == Run(first, InParts(Asked(count), factor)) <==>
          count > 0 && StartFits(start, total, limit, factor))
    ensures var (first, total) := (InParts(start, factor), Transferred(count, limit));
      StartFits(start, total, limit, factor) ==>
        (halted <==> !Readable(disk, Run(first, InParts(total, factor)))) &&
        (!halted ==> mem == Store(mem0, load, Blocks(disk, Run(first, InParts(total, factor)))))
    ensures forall c :: c in commands ==> 1 <= c.length <= InParts(limit, factor)
  {
    hide Storage.Readable, Storage.Blocks, Storage.Store, Storage.Run, Chunks, NumbersOf, InParts, StartFits;
    ReadsAsked(start, count, limit, factor);
    halted, mem, commands := ReadChunks(disk, size, factor, limit, start, count, mem0, load);
  }

  /** A request of one sector at block 2^32 of a disk is answered with block 0. */
  lemma StartCut()
    ensures !StartFits(TWO32, 1, 2048, 1) && AllChunks(TWO32, 1, 2048, 1) == [0]
  {
    assert InParts(TWO32, 1) == TWO32 && InParts(1, 1) == 1 && InParts(2048, 1) == 2048;
  }
}
