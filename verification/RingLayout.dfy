/** Where the three parts of a virtqueue lie in memory (VIRTIO 1.0, section 2.4). */
module RingLayout {
  import opened Bytes
  import opened Storage

  const ALIGN := 4096
  const RING_SIZE := 32768
  const MAX_QUEUES := 3
  const DESC_SIZE := 16
  const NO_NOTIFY := 1

  /** The addresses from `from` up to `to`. */
  datatype Area = Area(from: int, to: int)

  predicate Apart(a: Area, b: Area) {
    a.to <= b.from || b.to <= a.from
  }

  predicate Within(a: Area, b: Area) {
    b.from <= a.from && a.to <= b.to
  }

  /** The halfwords `avail->ring[0..num]` and the two in front of them. */
  function AvailEnd(avail: int, num: uint16): int {
    avail + 4 + 2 * num
  }

  /** Rounding up with a mask of 32 bits: the upper half of the address does not survive it. */
  function RoundUp(address: int): uint64 {
    (address + ALIGN - 1) % TWO32 / ALIGN * ALIGN
  }

  /** Rounding finds the least aligned address that is not lower, exactly as long as it stays in 32 bits. */
  lemma RoundUpIsLeast(address: nat)
    ensures RoundUp(address) >= address <==> address + ALIGN - 1 < TWO32
    ensures address + ALIGN - 1 < TWO32 ==>
      RoundUp(address) % ALIGN == 0 && forall a: int :: a % ALIGN == 0 && a >= address ==> a >= RoundUp(address)
  {
  }

  function DescArea(base: int, num: uint16): Area {
    Area(base, base + DESC_SIZE * num)
  }

  function AvailArea(base: int, num: uint16): Area {
    Area(base + DESC_SIZE * num, AvailEnd(base + DESC_SIZE * num, num))
  }

  function UsedArea(base: int, num: uint16): Area {
    var used := RoundUp(AvailArea(base, num).to);
    Area(used, used + 4 + 8 * num)
  }

  /** The room that is set aside for queue `i`. */
  function Room(ringArea: int, i: nat): Area {
    Area(ringArea + i * RING_SIZE, ringArea + i * RING_SIZE + RING_SIZE)
  }

  /** The three parts do not overlap, whatever the queue size. */
  lemma PartsApart(base: nat, num: uint16)
    requires AvailArea(base, num).to + ALIGN - 1 < TWO32
    ensures Apart(DescArea(base, num), AvailArea(base, num)) && Apart(DescArea(base, num), UsedArea(base, num))
    ensures Apart(AvailArea(base, num), UsedArea(base, num))
    ensures UsedArea(base, num).from % ALIGN == 0 && UsedArea(base, num).from - AvailArea(base, num).to < ALIGN
  {
  }

  function PartsOf(base: int, num: uint16): (parts: seq<Area>)
    ensures |parts| == 3
  {
    [DescArea(base, num), AvailArea(base, num), UsedArea(base, num)]
  }

  /** All three parts of a queue at `base` stay in the room that is set aside. */
  predicate Fits(base: nat, num: uint16) {
    forall k :: 0 <= k < 3 ==> Within(PartsOf(base, num)[k], Area(base, base + RING_SIZE))
  }

  lemma RoundUpFrom(base: nat, length: nat)
    requires base % ALIGN == 0 && base + length + ALIGN <= TWO32
    ensures RoundUp(base + length) == base + (length + ALIGN - 1) / ALIGN * ALIGN
  {
    var pages := base / ALIGN;
    assert base + length + ALIGN - 1 == pages * ALIGN + (length + ALIGN - 1);
  }

  /** They do so exactly for queues of at most 1137 entries. */
  lemma FitsExactly(base: nat, num: uint16)
    requires base % ALIGN == 0 && base + 0x20_0000 <= TWO32
    ensures Fits(base, num) <==> num <= 1137
  {
    RoundUpFrom(base, 18 * num + 4);
    assert Fits(base, num) ==> Within(PartsOf(base, num)[2], Area(base, base + RING_SIZE));
  }

  predicate PowerOfTwo(n: nat)
    decreases n
  {
    n == 1 || (n > 1 && n % 2 == 0 && PowerOfTwo(n / 2))
  }

  lemma {:induction false} PowerAbove(n: nat, low: nat)
    requires PowerOfTwo(n) && PowerOfTwo(low) && n > low
    ensures n >= 2 * low
    decreases low
  {
    if low > 1 {
      PowerAbove(n / 2, low / 2);
    }
  }

  /** Of the sizes that a queue may have, powers of two, those up to 1024 fit. */
  lemma PowersFit(base: nat, num: uint16)
    requires base % ALIGN == 0 && base + 0x20_0000 <= TWO32 && PowerOfTwo(num)
    ensures Fits(base, num) <==> num <= 1024
  {
    hide Fits;
    FitsExactly(base, num);
    if num > 1024 {
      assert PowerOfTwo(1024);
      hide PowerOfTwo;
      PowerAbove(num, 1024);
    }
  }

  /** No part of one queue overlaps any part of another. */
  lemma QueuesApart(ringArea: nat, i: nat, m: uint16, j: nat, n: uint16)
    requires ringArea % ALIGN == 0 && ringArea + 0x30_0000 <= TWO32
    requires i < j < MAX_QUEUES && m <= 1137 && n <= 1137
    ensures forall p, q :: 0 <= p < 3 && 0 <= q < 3 ==>
      Apart(PartsOf(Room(ringArea, i).from, m)[p], PartsOf(Room(ringArea, j).from, n)[q])
  {
    hide PartsOf;
    FitsExactly(Room(ringArea, i).from, m);
    FitsExactly(Room(ringArea, j).from, n);
  }

  function Put(mem: Memory, address: uint64, x: uint16): (after: Memory)
    requires address + 1 < TWO64
  {
    mem[address := x / 0x100][address + 1 := x % 0x100]
  }

  /** Memory with both ring headers cleared, notifications turned off. */
  function Headers(mem: Memory, avail: uint64, used: uint64): Memory
    requires avail + 4 <= used < TWO32
  {
    Put(Put(Put(Put(mem, avail, 0), avail + 2, 0), used, NO_NOTIFY), used + 2, 0)
  }

  /** The headers read as they should, and not a byte outside them has changed. */
  lemma HeadersRead(mem: Memory, avail: uint64, used: uint64, a: uint64)
    requires avail + 4 <= used < TWO32
    ensures var after := Headers(mem, avail, used);
      if avail <= a < avail + 4 || used <= a < used + 4 then
        a in after && after[a] == if a == used + 1 then NO_NOTIFY else 0
      else (a in after <==> a in mem) && (a in mem ==> after[a] == mem[a])
  {
  }

  class VRing {
    var num: uint16
    var nextIdx: int
    var usedIdx: int
    var desc: uint64
    var avail: uint64
    var used: uint64
    var cookie: int
    var id: uint16

    constructor () {
    }

    /** Lay out the queue from `base` on and clear its two ring headers. */
    method Init(mem0: Memory, base: uint64, index: uint16, num: uint16) returns (mem: Memory)
      requires AvailArea(base, num).to + ALIGN - 1 < TWO32
      modifies this
      ensures this.num == num && id == index && nextIdx == usedIdx == cookie == 0
      ensures desc == DescArea(base, num).from && avail == AvailArea(base, num).from && used == UsedArea(base, num).from
      ensures mem == Headers(mem0, avail, used)
    {
      hide Put;
      PartsApart(base, num);
      id, this.num := index, num;
      desc := base;
      avail := base + num * DESC_SIZE;
      used := RoundUp(AvailEnd(avail, num));
      mem := mem0;
      mem := Put(mem, avail, 0);
      mem := Put(mem, avail + 2, 0);
      mem := Put(mem, used, NO_NOTIFY);
      mem := Put(mem, used + 2, 0);
      usedIdx, nextIdx, cookie := 0, 0, 0;
    }
  }
}
