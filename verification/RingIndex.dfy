/** 16-bit indices, the unbounded counts behind them, and the ring slots they pick. */
module RingIndex {
  import opened Bytes

  function Slot(k: nat, n: nat): (i: nat)
    requires n > 0
    ensures i < n
  {
    k % n
  }

  function Next(i: uint16): uint16 {
    (i as int + 1) % TWO16
  }

  /** The 16-bit index that stands for the unbounded count `k`. */
  function Index(k: nat): uint16 {
    k % TWO16
  }

  lemma NextIndex(k: nat)
    ensures Next(Index(k)) == Index(k + 1)
  {
  }

  /** The ring sizes for which wrapping indices stay in step with the ring. */
  predicate RingSize(n: nat) {
    0 < n && TWO16 % n == 0
  }

  /** A 16-bit index picks the slot that the unbounded counter behind it would pick. */
  lemma SlotOfIndex(k: nat, n: nat)
    requires RingSize(n)
    ensures Slot(Index(k), n) == Slot(k, n)
  {
    var m := TWO16 / n;
    assert TWO16 == m * n;
    var q := k / TWO16;
    assert k == q * TWO16 + k % TWO16;
    assert q * TWO16 == (q * m) * n;
    ModPlusMultiple(k % TWO16, q * m, n);
  }

  lemma ModPlusMultiple(a: int, q: int, n: nat)
    requires n > 0
    ensures (q * n + a) % n == a % n
  {
    var d := a / n;
    assert q * n + a == (q + d) * n + a % n;
    DivModUnique(q * n + a, q + d, a % n, n);
  }

  lemma DivModUnique(x: int, d: int, r: int, n: nat)
    requires n > 0 && x == d * n + r && 0 <= r < n
    ensures x % n == r
  {
    var k := x / n - d;
    assert k * n == r - x % n;
    if k != 0 {
      AtLeastOnce(if k > 0 then k else -k, n);
    }
  }

  lemma AtLeastOnce(k: nat, n: nat)
    requires k > 0
    ensures k * n >= n
  {
  }

  /** Counters less than a ring apart use different slots. */
  lemma SlotsDiffer(i: nat, j: nat, n: nat)
    requires n > 0 && i < j < i + n
    ensures Slot(i, n) != Slot(j, n)
  {
    var a := i / n;
    if i % n + (j - i) < n {
      DivModUnique(j, a, i % n + (j - i), n);
    } else {
      DivModUnique(j, a + 1, i % n + (j - i) - n, n);
    }
  }

  lemma SmallSlot(k: nat, n: nat)
    requires k < n
    ensures Slot(k, n) == k
  {
  }

  lemma IndexGap(i: nat, gap: nat)
    requires gap < TWO16
    ensures (Index(i + gap) - Index(i)) % TWO16 == gap
    ensures Index(i + gap) == Index(i) <==> gap == 0
  {
  }
}
