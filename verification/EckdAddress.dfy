/** Cylinder/head/sector addresses of an ECKD disk and the block numbers they stand for. */
module EckdAddress {
  import opened Bytes

  /** As stored on disk: the upper 12 bits of `head` extend the cylinder number. */
  datatype Chs = Chs(cylinder: uint16, head: uint16, sector: byte)

  /** What the virtio getters report about the disk. */
  datatype Geometry = Geometry(sectors: byte, heads: byte, blocks: uint64, blockSize: nat, guessed: bool)

  const NULL_BLOCK: uint64 := 0xffff_ffff_ffff_ffff

  function Cylinder28(c: Chs): nat {
    c.cylinder as int + c.head / 16 * 0x1_0000
  }

  function Head4(c: Chs): nat {
    c.head % 16
  }

  function BlockNum(g: Geometry, c: Chs): uint64 {
    U64(g.sectors as int * g.heads * Cylinder28(c) + g.sectors as int * Head4(c) + c.sector - 1)
  }

  predicate ValidAddress(g: Geometry, c: Chs) {
    Head4(c) < g.heads && 0 < c.sector <= g.sectors && (g.guessed || BlockNum(g, c) < g.blocks)
  }

  /** The track and sector fields alone are in range for the geometry. */
  predicate OnTrack(g: Geometry, c: Chs) {
    Head4(c) < g.heads && 0 < c.sector <= g.sectors
  }

  function Pack(cylinder: nat, head: nat, sector: byte): Chs
    requires cylinder < 0x1000_0000 && head < 16
  {
    Chs(cylinder % 0x1_0000, cylinder / 0x1_0000 * 16 + head, sector)
  }

  /** The two fields hold a 28-bit cylinder and a 4-bit head, and nothing else. */
  lemma PackIsBijective(c: Chs, cylinder: nat, head: nat, sector: byte)
    requires cylinder < 0x1000_0000 && head < 16
    ensures Cylinder28(c) < 0x1000_0000 && Pack(Cylinder28(c), Head4(c), c.sector) == c
    ensures Cylinder28(Pack(cylinder, head, sector)) == cylinder && Head4(Pack(cylinder, head, sector)) == head
  {
    var p := Pack(cylinder, head, sector);
    var high := cylinder / 0x1_0000;
    assert p.head / 16 == high && p.head % 16 == head;
    assert Cylinder28(c) / 0x1_0000 == c.head / 16 && Cylinder28(c) % 0x1_0000 == c.cylinder;
  }

  /** The number of sectors before the end of the addressed one, counted without any limit. */
  function Linear(g: Geometry, c: Chs): int {
    g.sectors as int * g.heads * Cylinder28(c) + g.sectors as int * Head4(c) + c.sector
  }

  lemma LinearBound(g: Geometry, c: Chs)
    ensures 0 <= Linear(g, c) < 0x1_0000_0000_0000
  {
    var sh := g.sectors as int * g.heads;
    assert 0 <= sh <= 255 * 255 by {
      MulMono(g.sectors, 255, g.heads, 255);
    }
    var cyl := Cylinder28(c);
    assert 0 <= cyl < 0x1000_0000;
    MulMono(sh, 255 * 255, cyl, 0x1000_0000);
    MulMono(g.sectors, 255, Head4(c), 16);
  }

  lemma MulMono(a: int, a': int, b: int, b': int)
    requires 0 <= a <= a' && 0 <= b <= b'
    ensures 0 <= a * b <= a' * b'
  {
    assert a * b <= a' * b;
    assert a' * b <= a' * b';
  }

  /**
   * 64-bit arithmetic wraps in exactly one case: when everything adds up to zero, and then it gives the
   * null number.
   */
  lemma BlockNumWraps(g: Geometry, c: Chs)
    ensures Linear(g, c) > 0 ==> BlockNum(g, c) == Linear(g, c) - 1
    ensures BlockNum(g, c) == NULL_BLOCK <==> Linear(g, c) == 0
  {
    LinearBound(g, c);
    assert BlockNum(g, c) == U64(Linear(g, c) - 1);
  }

  /** For a real geometry only the all-zero address is the null block number. */
  lemma NullIsAllZero(g: Geometry, c: Chs)
    requires g.sectors > 0 && g.heads > 0
    ensures BlockNum(g, c) == NULL_BLOCK <==> c == Chs(0, 0, 0)
  {
    BlockNumWraps(g, c);
    var sh := g.sectors as int * g.heads;
    assert sh > 0;
    MulMono(1, sh, Cylinder28(c), Cylinder28(c));
    MulMono(1, g.sectors, Head4(c), Head4(c));
    if Linear(g, c) == 0 {
      assert Cylinder28(c) == 0 && Head4(c) == 0;
    }
  }

  predicate Before(a: Chs, b: Chs) {
    Cylinder28(a) < Cylinder28(b) ||
    (Cylinder28(a) == Cylinder28(b) &&
     (Head4(a) < Head4(b) || (Head4(a) == Head4(b) && a.sector < b.sector)))
  }

  /** Block numbers follow the order of the addresses ... */
  lemma BlockNumIncreases(g: Geometry, a: Chs, b: Chs)
    requires OnTrack(g, a) && OnTrack(g, b)
    ensures Before(a, b) <==> BlockNum(g, a) < BlockNum(g, b)
  {
    BlockNumWraps(g, a);
    BlockNumWraps(g, b);
    LinearPositive(g, a);
    LinearPositive(g, b);
    if Before(a, b) {
      LinearIncreases(g, a, b);
    } else if Before(b, a) {
      LinearIncreases(g, b, a);
    } else {
      assert Linear(g, a) == Linear(g, b);
    }
  }

  /** ... so no two addresses on a track share a block number. */
  lemma BlockNumInjective(g: Geometry, a: Chs, b: Chs)
    requires OnTrack(g, a) && OnTrack(g, b) && BlockNum(g, a) == BlockNum(g, b)
    ensures a == b
  {
    BlockNumIncreases(g, a, b);
    BlockNumIncreases(g, b, a);
    PackIsBijective(a, 0, 0, 0);
    PackIsBijective(b, 0, 0, 0);
  }

  lemma LinearPositive(g: Geometry, c: Chs)
    requires OnTrack(g, c)
    ensures Linear(g, c) > 0
  {
    MulMono(0, g.sectors as int * g.heads, 0, Cylinder28(c));
    MulMono(0, g.sectors, 0, Head4(c));
  }

  lemma LinearIncreases(g: Geometry, a: Chs, b: Chs)
    requires OnTrack(g, a) && OnTrack(g, b) && Before(a, b)
    ensures Linear(g, a) < Linear(g, b)
  {
    if Cylinder28(a) < Cylinder28(b) {
      NextCylinder(g.sectors, g.heads, Cylinder28(a), Cylinder28(b), Head4(a));
      MulMono(0, g.sectors, 0, Head4(b));
    } else if Head4(a) < Head4(b) {
      NextTrack(g.sectors, Head4(a), Head4(b));
    }
  }

  lemma NextTrack(s: int, a: int, b: int)
    requires 0 <= s && 0 <= a < b
    ensures s * a + s <= s * b
  {
    assert s * (a + 1) == s * a + s;
    MulMono(s, s, a + 1, b);
  }

  /** All tracks of cylinder `a` come before cylinder `b`. */
  lemma NextCylinder(s: int, h: int, a: int, b: int, head: int)
    requires 0 <= s && 0 <= head < h && 0 <= a < b
    ensures s * h * a + s * head + s <= s * h * b
  {
    NextTrack(s, head, h);
    MulMono(0, s, 0, h);
    NextTrack(s * h, a, b);
  }
}
