/**
 * Running a self-modifying channel program piece by piece.  The architecture fetches each CCW when
 * it is executed (chapter 15 of the z/Architecture Principles of Operation, SA22-7832); the host
 * underneath fetches a whole program before it runs.  The boot code therefore cuts the program
 * after a read that is followed by a transfer in channel, and starts again at the transfer's target.
 */
module ChannelProgram {
  import opened Bytes

  const TIC: byte := 0x08
  const READ: byte := 0x06
  const READ_MT: byte := 0x86
  /** The command-chaining bit of the flag byte, at offset 4 of a format-0 CCW. */
  const CHAIN_BIT := 64
  const FLAG_BYTE := 4

  type Memory = seq<byte>

  datatype Ccw = Ccw(cmd: byte, cda: nat, chain: bool, flags: byte, count: uint16)

  function Chained(flags: byte): bool {
    flags / CHAIN_BIT % 2 == 1
  }

  function Unchained(flags: byte): byte {
    if Chained(flags) then flags - CHAIN_BIT else flags
  }

  function Fetch(mem: Memory, a: nat): Ccw
    requires a + 8 <= |mem|
  {
    var high: int := mem[a + 1];
    Ccw(mem[a], high * 0x1_0000 + Be16(mem, a + 2), Chained(mem[a + 4]), Unchained(mem[a + 4]), Be16(mem, a + 6))
  }

  /** Commands that move data from the device to memory: read, read backward and sense. */
  predicate IsInput(cmd: byte) {
    cmd % 4 == 2 || cmd % 16 == 4 || cmd % 16 == 12
  }

  /** What a command does: the data of an input command, the device afterwards, status modifier, and success. */
  datatype Effect<D> = Effect(data: seq<byte>, dev: D, skip: bool, ok: bool)

  /**
   * The device: any function of the CCW (without its chaining bit), the bytes an output command names, and
   * its state.
   */
  type Device<!D> = (Ccw, seq<byte>, D) -> Effect<D>

  datatype Status = Running | Ended | Failed

  datatype Machine<D> = Machine(mem: Memory, dev: D, ip: nat, status: Status)

  predicate Within(i: nat, a: nat, n: nat) {
    a <= i < a + n
  }

  /** The addresses of `n` bytes from `a` on. */
  function Range(a: nat, n: nat): (r: set<nat>)
    ensures forall i :: i in r <==> 0 <= i && a <= i < a + n
  {
    set i: nat | a <= i < a + n && Within(i, a, n)
  }

  function Put(mem: Memory, a: nat, data: seq<byte>): (r: Memory)
    requires a + |data| <= |mem|
    ensures |r| == |mem|
  {
    mem[..a] + data + mem[a + |data|..]
  }

  /** The bytes an output command hands to the device. */
  function Args(mem: Memory, c: Ccw): seq<byte> {
    if IsInput(c.cmd) || c.cda + c.count > |mem| then [] else mem[c.cda..c.cda + c.count]
  }

  /** Carry out `c`, which is no transfer in channel, in memory `m.mem`. */
  function Carry<D>(m: Machine<D>, c: Ccw, device: Device<D>): (r: Machine<D>)
    ensures |r.mem| == |m.mem|
  {
    var e := device(c.(chain := false), Args(m.mem, c), m.dev);
    if !e.ok || (IsInput(c.cmd) && c.cda + |e.data| > |m.mem|) || (!IsInput(c.cmd) && c.cda + c.count > |m.mem|) then
      m.(status := Failed)
    else
      var mem' := if IsInput(c.cmd) then Put(m.mem, c.cda, e.data) else m.mem;
      if c.chain then Machine(mem', e.dev, m.ip + (if e.skip then 16 else 8), Running)
      else Machine(mem', e.dev, m.ip, Ended)
  }

  /** Execute the CCW that `code` holds at the current address. */
  function Execute<D>(m: Machine<D>, code: Memory, device: Device<D>): (r: Machine<D>)
    ensures |r.mem| == |m.mem|
  {
    if m.status != Running then m
    else if m.ip + 8 > |code| then m.(status := Failed)
    else
      var c := Fetch(code, m.ip);
      if c.cmd == TIC then m.(ip := c.cda) else Carry(m, c, device)
  }

  /** The architecture: the CCW is fetched from memory as it is now. */
  function Step<D>(m: Machine<D>, device: Device<D>): (r: Machine<D>)
    ensures |r.mem| == |m.mem|
  {
    Execute(m, m.mem, device)
  }

  // ---------- Cutting a program ----------

  /** Where a scan stops: at the read to cut after, at the end of the chain, or beyond memory. */
  datatype Cut = Split(at: nat, target: nat) | NoSplit(end: nat) | Runaway

  predicate IsInlineTic(mem: Memory, a: nat)
    requires a + 8 <= |mem|
  {
    Fetch(mem, a).cmd == TIC && Fetch(mem, a).cda == a - 8
  }

  predicate IsRead(cmd: byte) {
    cmd == READ || cmd == READ_MT
  }

  function Scan(mem: Memory, a: nat): Cut
    decreases |mem| - a
  {
    if a + 8 > |mem| then Runaway
    else
      var c := Fetch(mem, a);
      if IsInlineTic(mem, a) then Scan(mem, a + 8)
      else if !c.chain then NoSplit(a)
      else if !IsRead(c.cmd) then Scan(mem, a + 8)
      else if a + 16 > |mem| then Runaway
      else if Fetch(mem, a + 8).cmd == TIC then Split(a, Fetch(mem, a + 8).cda)
      else Scan(mem, a + 8)
  }

  function Cleared(mem: Memory, cut: Cut): (r: Memory)
    ensures |r| == |mem|
  {
    if cut.Split? && cut.at + FLAG_BYTE < |mem| then
      mem[cut.at + FLAG_BYTE := Unchained(mem[cut.at + FLAG_BYTE])]
    else mem
  }

  /** The scan over memory that finds the place to cut, and clears one bit there. */
  method Fixup(mem: array<byte>, start: nat) returns (cut: Cut)
    modifies mem
    ensures cut == Scan(old(mem[..]), start)
    ensures mem[..] == Cleared(old(mem[..]), cut)
  {
    var a := start;
    while true
      invariant Scan(mem[..], a) == Scan(old(mem[..]), start) && mem[..] == old(mem[..])
      decreases mem.Length - a
    {
      if a + 8 > mem.Length {
        return Runaway;
      }
      var c := Fetch(mem[..], a);
      if IsInlineTic(mem[..], a) {
        a := a + 8;
        continue;
      }
      if !c.chain {
        return NoSplit(a);
      }
      if IsRead(c.cmd) {
        if a + 16 > mem.Length {
          return Runaway;
        }
        var tic := Fetch(mem[..], a + 8);
        if tic.cmd == TIC {
          mem[a + FLAG_BYTE] := Unchained(mem[a + FLAG_BYTE]);
          return Split(a, tic.cda);
        }
      }
      a := a + 8;
    }
  }

  // ---------- Running in pieces ----------

  /**
   * The boot code at work on one piece: the machine, the program as it was fetched for this piece,
   * where it starts and where it was cut, and the flag bytes whose chaining bit has been cleared and not
   * loaded over since.
   */
  datatype Piece<D> = Piece(m: Machine<D>, code: Memory, lo: nat, cut: Cut, patched: set<nat>)

  /** Scan, clear one bit, and have the host fetch what is in memory. */
  function StartPiece<D>(mem: Memory, dev: D, cpa: nat, patched: set<nat>): (p: Piece<D>)
    ensures |p.m.mem| == |p.code| == |mem|
  {
    var cut := Scan(mem, cpa);
    var mem' := Cleared(mem, cut);
    var patched' := if cut.Split? then patched + {cut.at + FLAG_BYTE} else patched;
    Piece(Machine(mem', dev, cpa, if cut == Runaway then Failed else Running), mem', cpa, cut, patched')
  }

  /** The memory bytes that executing the current CCW loads. */
  function Loaded<D>(p: Piece<D>, device: Device<D>): set<nat> {
    if p.m.status != Running || p.m.ip + 8 > |p.code| then {}
    else
      var c := Fetch(p.code, p.m.ip);
      if c.cmd == TIC || !IsInput(c.cmd) then {}
      else
        var data := device(c.(chain := false), Args(p.m.mem, c), p.m.dev).data;
        Range(c.cda, |data|)
  }

  function StepPiece<D>(p: Piece<D>, device: Device<D>): (r: Piece<D>)
    requires |p.m.mem| == |p.code|
    ensures |r.m.mem| == |r.code| == |p.code|
  {
    if p.m.status == Running then
      var m' := Execute(p.m, p.code, device);
      p.(m := m', patched := if m'.status == Failed then p.patched else p.patched - Loaded(p, device))
    else if p.m.status == Ended && p.cut.Split? then StartPiece(p.m.mem, p.m.dev, p.cut.target, p.patched)
    else p
  }

  /** The two memories differ in the chaining bits that have been cleared, and nowhere else. */
  ghost predicate SameMemory(ideal: Memory, mem: Memory, patched: set<nat>) {
    |ideal| == |mem| &&
    (forall a :: a in patched ==> a < |mem| && !Chained(mem[a]) && ideal[a] == mem[a] + CHAIN_BIT) &&
    (forall a :: 0 <= a < |mem| && a !in patched ==> ideal[a] == mem[a])
  }

  /**
   * The program run in pieces is where the architecture is.  When a piece has ended at its cut, the
   * architecture is about to execute the transfer in channel behind it.
   */
  ghost predicate Agree<D>(i: Machine<D>, p: Piece<D>) {
    |p.m.mem| == |p.code| && SameMemory(i.mem, p.m.mem, p.patched) && i.dev == p.m.dev &&
    (p.m.status == Running ==> i.status == Running && i.ip == p.m.ip) &&
    (p.m.status == Failed ==> i.status == Failed) &&
    (p.m.status == Ended && p.cut.Split? ==> i.status == Running && i.ip == p.cut.at + 8) &&
    (p.m.status == Ended && !p.cut.Split? ==> i.status == Ended)
  }

  /** Whether the current CCW is the read that the piece was cut after. */
  predicate AtCut<D>(p: Piece<D>) {
    p.cut.Split? && p.m.ip == p.cut.at
  }

  /**
   * What a step must not run into: the CCW to execute has been overwritten since it was fetched, or
   * was cut in an earlier piece and is met again; the piece ends elsewhere than at its cut; the cut
   * read skips; an output command reads a cleared bit; the transfer behind the cut has changed.
   */
  ghost predicate Faithful<D>(p: Piece<D>, device: Device<D>)
    requires |p.m.mem| == |p.code|
  {
    (p.m.status == Running && p.m.ip + 8 <= |p.code| ==>
      var c := Fetch(p.code, p.m.ip);
      p.m.mem[p.m.ip..p.m.ip + 8] == p.code[p.m.ip..p.m.ip + 8] &&
      (forall a :: p.m.ip <= a < p.m.ip + 8 ==> (a in p.patched <==> AtCut(p) && a == p.m.ip + FLAG_BYTE)) &&
      (c.cmd != TIC ==>
        (p.cut.Split? && !c.chain ==> AtCut(p)) &&
        (AtCut(p) ==> !c.chain && !device(c.(chain := false), Args(p.m.mem, c), p.m.dev).skip) &&
        (!IsInput(c.cmd) ==> forall a :: c.cda <= a < c.cda + c.count ==> a !in p.patched)) &&
      (c.cmd == TIC ==> !AtCut(p))) &&
    (p.m.status == Ended && p.cut.Split? ==>
      p.cut.at + 16 <= |p.code| &&
      (forall a :: p.cut.at + 8 <= a < p.cut.at + 12 ==> a !in p.patched) &&
      var tic := Fetch(p.m.mem, p.cut.at + 8);
      tic.cmd == TIC && tic.cda == p.cut.target && Scan(p.m.mem, p.cut.target) != Runaway)
  }

  lemma SameFetch(ideal: Memory, mem: Memory, patched: set<nat>, a: nat)
    requires SameMemory(ideal, mem, patched) && a + 8 <= |mem|
    requires forall k :: a <= k < a + 8 && k != a + FLAG_BYTE ==> k !in patched
    ensures Fetch(ideal, a) == Fetch(mem, a).(chain := Fetch(mem, a).chain || a + FLAG_BYTE in patched)
  {
    assert a + FLAG_BYTE in patched ==> Unchained(ideal[a + FLAG_BYTE]) == mem[a + FLAG_BYTE];
  }

  lemma SameArgs(ideal: Memory, mem: Memory, patched: set<nat>, c: Ccw)
    requires SameMemory(ideal, mem, patched)
    requires !IsInput(c.cmd) ==> forall a :: c.cda <= a < c.cda + c.count ==> a !in patched
    ensures Args(ideal, c) == Args(mem, c)
  {
  }

  lemma SamePut(ideal: Memory, mem: Memory, patched: set<nat>, a: nat, data: seq<byte>)
    requires SameMemory(ideal, mem, patched) && a + |data| <= |mem|
    ensures SameMemory(Put(ideal, a, data), Put(mem, a, data), patched - Range(a, |data|))
  {
  }

  lemma SameSlices(a: Memory, b: Memory, q: nat)
    requires q + 8 <= |a| && q + 8 <= |b| && a[q..q + 8] == b[q..q + 8]
    ensures Fetch(a, q) == Fetch(b, q)
  {
    assert forall k :: q <= k < q + 8 ==> a[k] == a[q..q + 8][k - q] == b[q..q + 8][k - q] == b[k];
  }

  /** What the architecture fetches is the CCW of the piece, but for the chaining bit at the cut. */
  lemma FetchAgrees<D>(i: Machine<D>, p: Piece<D>, device: Device<D>)
    requires Agree(i, p) && Faithful(p, device) && p.m.status == Running && p.m.ip + 8 <= |p.code|
    ensures |i.mem| == |p.code|
    ensures var c := Fetch(p.code, p.m.ip); Fetch(i.mem, p.m.ip) == c.(chain := c.chain || AtCut(p))
  {
    hide Fetch;
    SameSlices(p.m.mem, p.code, p.m.ip);
    SameFetch(i.mem, p.m.mem, p.patched, p.m.ip);
  }

  /** A faithful step of the current piece keeps the two side by side. */
  lemma RunningAgrees<D>(i: Machine<D>, p: Piece<D>, device: Device<D>)
    requires Agree(i, p) && Faithful(p, device) && p.m.status == Running
    ensures Agree(Step(i, device), StepPiece(p, device))
  {
    hide Fetch, Carry, SameMemory;
    if p.m.ip + 8 <= |p.code| {
      FetchAgrees(i, p, device);
      if Fetch(p.code, p.m.ip).cmd != TIC {
        CarryAgrees(i, p, device);
      } else {
        TicLoadsNothing(p, device);
      }
    } else {
      SameSize(i.mem, p.m.mem, p.patched);
    }
  }

  lemma SameSize(ideal: Memory, mem: Memory, patched: set<nat>)
    requires SameMemory(ideal, mem, patched)
    ensures |ideal| == |mem|
  {
  }

  lemma CarryAgrees<D>(i: Machine<D>, p: Piece<D>, device: Device<D>)
    requires Agree(i, p) && Faithful(p, device) && p.m.status == Running && p.m.ip + 8 <= |p.code|
    requires Fetch(p.code, p.m.ip).cmd != TIC
    requires var c := Fetch(p.code, p.m.ip); Fetch(i.mem, i.ip) == c.(chain := c.chain || AtCut(p))
    ensures Agree(Step(i, device), StepPiece(p, device))
  {
    hide Fetch, IsInput, Put;
    var c := Fetch(p.code, p.m.ip);
    SameArgs(i.mem, p.m.mem, p.patched, c);
    var e := device(c.(chain := false), Args(p.m.mem, c), p.m.dev);
    if e.ok && IsInput(c.cmd) && c.cda + |e.data| <= |p.m.mem| {
      SamePut(i.mem, p.m.mem, p.patched, c.cda, e.data);
    }
  }

  /** A scan cuts only after a chained read that is followed by a transfer in channel. */
  lemma {:induction false} SplitShape(mem: Memory, a: nat)
    requires Scan(mem, a).Split?
    ensures var at := Scan(mem, a).at;
      a <= at && at + 16 <= |mem| && Fetch(mem, at).chain && IsRead(Fetch(mem, at).cmd) &&
        Chained(mem[at + FLAG_BYTE]) &&
      Fetch(mem, at + 8).cmd == TIC && Fetch(mem, at + 8).cda == Scan(mem, a).target
    decreases |mem| - a
  {
    var c := Fetch(mem, a);
    if IsInlineTic(mem, a) || !IsRead(c.cmd) || Fetch(mem, a + 8).cmd != TIC {
      SplitShape(mem, a + 8);
    }
  }

  /** Clearing the bit at a cut makes the two memories differ there too. */
  lemma SameCleared(ideal: Memory, mem: Memory, patched: set<nat>, a: nat)
    requires SameMemory(ideal, mem, patched)
    ensures var cut := Scan(mem, a);
      SameMemory(ideal, Cleared(mem, cut), if cut.Split? then patched + {cut.at + FLAG_BYTE} else patched)
  {
    hide Scan, Fetch;
    if Scan(mem, a).Split? {
      SplitShape(mem, a);
    }
  }

  /** Starting the next piece keeps them side by side: the architecture executes the transfer in channel meanwhile. */
  lemma StartAgrees<D>(i: Machine<D>, p: Piece<D>, device: Device<D>)
    requires Agree(i, p) && Faithful(p, device) && p.m.status == Ended && p.cut.Split?
    ensures Agree(Step(i, device), StepPiece(p, device))
  {
    hide Scan, Cleared;
    SameCleared(i.mem, p.m.mem, p.patched, p.cut.target);
    assert Fetch(i.mem, p.cut.at + 8).cmd == TIC && Fetch(i.mem, p.cut.at + 8).cda == p.cut.target;
  }

  /**
   * At a cut the target was read before the piece ran, the architecture reads it afterwards: the two
   * stay together exactly when the transfer in channel still leads where it led, and the scan from there ends.
   */
  lemma TransferExactly<D>(i: Machine<D>, p: Piece<D>, device: Device<D>)
    requires Agree(i, p) && p.m.status == Ended && p.cut.Split? && p.cut.at + 16 <= |p.code|
    requires Fetch(p.m.mem, p.cut.at + 8).cmd == TIC && forall a :: p.cut.at + 8 <= a < p.cut.at + 12 ==>
      a !in p.patched
    ensures Agree(Step(i, device), StepPiece(p, device)) <==>
      Fetch(p.m.mem, p.cut.at + 8).cda == p.cut.target && Scan(p.m.mem, p.cut.target) != Runaway
  {
    hide Scan, Cleared, Fetch, Carry;
    SameTransfer(i.mem, p.m.mem, p.patched, p.cut.at + 8);
    SameCleared(i.mem, p.m.mem, p.patched, p.cut.target);
    hide SameMemory;
    assert StepPiece(p, device) == StartPiece(p.m.mem, p.m.dev, p.cut.target, p.patched);
    assert Step(i, device) == i.(ip := Fetch(p.m.mem, p.cut.at + 8).cda);
  }

  /**
   * When something other than a transfer in channel has been loaded behind the cut, the architecture
   * executes it, and the two part unless the saved target happens to be one of the places it can go on at.
   */
  lemma TransferReplaced<D>(i: Machine<D>, p: Piece<D>, device: Device<D>)
    requires Agree(i, p) && p.m.status == Ended && p.cut.Split? && p.cut.at + 16 <= |p.code|
    requires Fetch(p.m.mem, p.cut.at + 8).cmd != TIC && forall a :: p.cut.at + 8 <= a < p.cut.at + 12 ==>
      a !in p.patched
    requires Scan(p.m.mem, p.cut.target) != Runaway
    ensures Agree(Step(i, device), StepPiece(p, device)) ==> p.cut.target in {p.cut.at + 16, p.cut.at + 24}
  {
    hide Scan, Cleared, Fetch;
    SameTransfer(i.mem, p.m.mem, p.patched, p.cut.at + 8);
  }

  lemma SameTransfer(ideal: Memory, mem: Memory, patched: set<nat>, a: nat)
    requires SameMemory(ideal, mem, patched) && a + 8 <= |mem| && forall k :: a <= k < a + 4 ==> k !in patched
    ensures |ideal| == |mem| && Fetch(ideal, a).cmd == Fetch(mem, a).cmd && Fetch(ideal, a).cda == Fetch(mem, a).cda
  {
  }

  // ---------- Whole runs ----------

  function Run<D>(m: Machine<D>, device: Device<D>, n: nat): Machine<D> {
    if n == 0 then m else Step(Run(m, device, n - 1), device)
  }

  function RunPieces<D>(p: Piece<D>, device: Device<D>, n: nat): (r: Piece<D>)
    requires |p.m.mem| == |p.code|
    ensures |r.m.mem| == |r.code|
  {
    if n == 0 then p else StepPiece(RunPieces(p, device, n - 1), device)
  }

  lemma {:induction false} FaithfulAgrees<D>(i: Machine<D>, p: Piece<D>, device: Device<D>, n: nat)
    requires |p.m.mem| == |p.code|
    requires Agree(i, p) && forall k :: 0 <= k < n ==> Faithful(RunPieces(p, device, k), device)
    ensures Agree(Run(i, device, n), RunPieces(p, device, n))
  {
    hide Agree, Faithful, Step, StepPiece;
    if n > 0 {
      FaithfulAgrees(i, p, device, n - 1);
      StepAgrees(Run(i, device, n - 1), RunPieces(p, device, n - 1), device);
    }
  }

  lemma StepAgrees<D>(i: Machine<D>, p: Piece<D>, device: Device<D>)
    requires Agree(i, p) && Faithful(p, device)
    ensures Agree(Step(i, device), StepPiece(p, device))
  {
    if p.m.status == Running {
      RunningAgrees(i, p, device);
    } else if p.m.status == Ended && p.cut.Split? {
      StartAgrees(i, p, device);
    } else {
      assert Step(i, device) == i && StepPiece(p, device) == p;
    }
  }

  /**
   * The boot code's loop: cut, have the host fetch and run the piece, go on at the target.  A channel
   * program need not end, so the run is observed for at most `budget` steps.
   */
  method RunDynamic<D>(mem: array<byte>, initial: D, cpa: nat, device: Device<D>, budget: nat)
    returns (status: Status, dev: D, ghost n: nat)
    modifies mem
    ensures n <= budget
    ensures var r := RunPieces(StartPiece(old(mem[..]), initial, cpa, {}), device, n);
      mem[..] == r.m.mem && dev == r.m.dev && status == r.m.status &&
      (n < budget ==> status == Failed || (status == Ended && !r.cut.Split?))
  {
    hide Scan, Cleared, Execute;
    ghost var start := StartPiece(mem[..], initial, cpa, {});
    ghost var piece := start;
    var ip := cpa;
    dev, n := initial, 0;
    var cut := Fixup(mem, ip);
    var code := mem[..];
    status := if cut == Runaway then Failed else Running;
    for i := 0 to budget
      invariant n == i && piece == RunPieces(start, device, n) && |code| == mem.Length
      invariant piece.m == Machine(mem[..], dev, ip, status) && piece.code == code && piece.cut == cut
    {
      if status == Failed || (status == Ended && !cut.Split?) {
        return;
      }
      piece := StepPiece(piece, device);
      n := n + 1;
      if status == Ended {
        ip := cut.target;
        cut := Fixup(mem, ip);
        code := mem[..];
        status := if cut == Runaway then Failed else Running;
      } else {
        var m := Execute(Machine(mem[..], dev, ip, status), code, device);
        forall a | 0 <= a < mem.Length {
          mem[a] := m.mem[a];
        }
        dev, ip, status := m.dev, m.ip, m.status;
      }
    }
  }

  // ---------- Conditions that can be checked before a piece runs and before each transfer ----------

  /** The last CCW of a piece, and the first address after what its run depends on. */
  function LastOf(cut: Cut): nat {
    match cut case Split(at, _) => at case NoSplit(end) => end case Runaway => 0
  }

  function EndOf(cut: Cut): nat {
    match cut case Split(at, _) => at + 16 case NoSplit(end) => end + 8 case Runaway => 0
  }

  /** `q` is the address of a CCW of the piece. */
  predicate At<D>(p: Piece<D>, q: nat) {
    p.lo <= q <= LastOf(p.cut) && (q - p.lo) % 8 == 0 && q + 8 <= |p.code|
  }

  /** Every transfer in channel of the piece goes back one CCW, to one that is no transfer itself. */
  ghost predicate TicsInline<D>(p: Piece<D>) {
    forall q: nat :: At(p, q) && Fetch(p.code, q).cmd == TIC ==>
      p.lo < q && At(p, q - 8) && Fetch(p.code, q).cda == q - 8 && Fetch(p.code, q - 8).cmd != TIC
  }

  /**
   * A piece fit to be started: the scan found an end, its transfers in channel are inline, and
   * no bit that an earlier piece cleared is still cleared in it.
   */
  ghost predicate StartOk<D>(p: Piece<D>) {
    p.cut != Runaway &&
    TicsInline(p) &&
    (forall a :: p.lo <= a < EndOf(p.cut) ==> (a in p.patched <==> p.cut.Split? && a == p.cut.at + FLAG_BYTE))
  }

  /** The CCW after the one at `q` is a transfer back to it. */
  predicate Looped<D>(p: Piece<D>, q: nat) {
    At(p, q + 8) && Fetch(p.code, q + 8).cmd == TIC
  }

  /**
   * Status modifier only in front of a transfer back; no load over what is still to be executed; no output
   * of a cleared bit.
   */
  ghost predicate TransferOk<D>(p: Piece<D>, device: Device<D>)
    requires |p.m.mem| == |p.code|
  {
    p.m.status == Running && p.m.ip + 8 <= |p.code| ==>
      var c := Fetch(p.code, p.m.ip);
      var e := device(c.(chain := false), Args(p.m.mem, c), p.m.dev);
      c.cmd != TIC ==>
        (e.skip ==> Looped(p, p.m.ip)) &&
        (forall a :: (if Looped(p, p.m.ip) then p.m.ip else p.m.ip + 8) <= a < EndOf(p.cut) ==>
          a !in Loaded(p, device)) &&
        (!IsInput(c.cmd) ==> forall a :: c.cda <= a < c.cda + c.count ==> a !in p.patched)
  }

  ghost predicate Tame<D>(p: Piece<D>, device: Device<D>)
    requires |p.m.mem| == |p.code|
  {
    TransferOk(p, device) && (p.m.status == Ended && p.cut.Split? ==> StartOk(StepPiece(p, device)))
  }

  /** The program as the scan saw it, before the bit was cleared. */
  function Uncut<D>(p: Piece<D>): Memory {
    if p.cut.Split? && p.cut.at + FLAG_BYTE < |p.code| && p.code[p.cut.at + FLAG_BYTE] + CHAIN_BIT < 0x100 then
      p.code[p.cut.at + FLAG_BYTE := p.code[p.cut.at + FLAG_BYTE] + CHAIN_BIT]
    else p.code
  }

  /** The piece is what a scan made of it. */
  ghost predicate Shaped<D>(p: Piece<D>) {
    p.cut != Runaway && Scan(Uncut(p), p.lo) == p.cut && EndOf(p.cut) <= |p.code| &&
    (p.cut.Split? ==> Uncut(p)[p.cut.at + FLAG_BYTE] == p.code[p.cut.at + FLAG_BYTE] + CHAIN_BIT) &&
    (p.cut.Split? ==> !Chained(p.code[p.cut.at + FLAG_BYTE])) &&
    TicsInline(p)
  }

  /** From `from` to its end, the piece is still in memory as it was fetched, with no cleared bit but its own. */
  ghost predicate Intact<D>(p: Piece<D>, from: int)
    requires |p.m.mem| == |p.code|
  {
    EndOf(p.cut) <= |p.code| &&
    forall a :: 0 <= a && from <= a < EndOf(p.cut) ==>
      p.m.mem[a] == p.code[a] && (a in p.patched <==> p.cut.Split? && a == p.cut.at + FLAG_BYTE)
  }

  /** How far back the run can still go from `q`. */
  function Reach<D>(p: Piece<D>, q: nat): int
    requires q + 8 <= |p.code|
  {
    if Fetch(p.code, q).cmd == TIC then q - 8 else q
  }

  ghost predicate InPiece<D>(p: Piece<D>) {
    |p.m.mem| == |p.code| &&
    (p.m.status == Running ==> Shaped(p) && At(p, p.m.ip) && Intact(p, Reach(p, p.m.ip))) &&
    (p.m.status == Ended && p.cut.Split? ==> Shaped(p) && Intact(p, p.cut.at + 8))
  }

  /** A scan that gets past `q` goes on from `q + 8`; where it stops depends on nothing before. */
  lemma {:induction false} ScanReaches(mem: Memory, lo: nat, q: nat)
    requires Scan(mem, lo) != Runaway && lo <= q <= LastOf(Scan(mem, lo)) && (q - lo) % 8 == 0
    ensures Scan(mem, q) == Scan(mem, lo) && q + 8 <= |mem|
    decreases |mem| - lo
  {
    if lo < q {
      assert lo + 8 <= q;
      ScanReaches(mem, lo + 8, q);
    }
  }

  lemma {:induction false} LastIsAhead(mem: Memory, a: nat)
    requires Scan(mem, a) != Runaway
    ensures a <= LastOf(Scan(mem, a)) && (LastOf(Scan(mem, a)) - a) % 8 == 0 && EndOf(Scan(mem, a)) <= |mem|
    decreases |mem| - a
  {
    if Scan(mem, a) == Scan(mem, a + 8) && !(LastOf(Scan(mem, a)) == a) {
      LastIsAhead(mem, a + 8);
    }
  }

  lemma ClearedFetch(mem: Memory, cut: Cut, q: nat)
    requires cut.Split? && cut.at + 8 <= |mem| && q + 8 <= |mem| && (q - cut.at) % 8 == 0
    ensures Fetch(Cleared(mem, cut), q) == if q == cut.at then Fetch(mem, q).(chain := false) else Fetch(mem, q)
  {
  }

  lemma {:induction false} CutScansAgain(mem: Memory, a: nat)
    requires Scan(mem, a).Split?
    ensures Scan(Cleared(mem, Scan(mem, a)), a) == NoSplit(Scan(mem, a).at)
    decreases |mem| - a
  {
    var cut := Scan(mem, a);
    SplitShape(mem, a);
    LastIsAhead(mem, a);
    hide Fetch, Cleared, Chained;
    ClearedFetch(mem, cut, a);
    if a + 16 <= |mem| {
      ClearedFetch(mem, cut, a + 8);
    }
    if a != cut.at {
      CutScansAgain(mem, a + 8);
    }
  }

  /** A cut clears one bit, and the program then ends there: scanned again, it has no place left to cut. */
  lemma CutEndsPiece(mem: Memory, a: nat)
    requires Scan(mem, a).Split?
    ensures var cut := Scan(mem, a); var after := Cleared(mem, cut);
      Scan(after, a) == NoSplit(cut.at) && cut.at + FLAG_BYTE < |mem| &&
      mem[cut.at + FLAG_BYTE] == after[cut.at + FLAG_BYTE] + CHAIN_BIT &&
      forall k :: 0 <= k < |mem| && k != cut.at + FLAG_BYTE ==> after[k] == mem[k]
  {
    hide Scan;
    SplitShape(mem, a);
    CutScansAgain(mem, a);
  }

  lemma {:induction false} NoSplitShape(mem: Memory, a: nat)
    requires Scan(mem, a).NoSplit?
    ensures var end := Scan(mem, a).end;
      end + 8 <= |mem| && !Fetch(mem, end).chain && !IsInlineTic(mem, end)
    decreases |mem| - a
  {
    if IsInlineTic(mem, a) || Fetch(mem, a).chain {
      NoSplitShape(mem, a + 8);
    }
  }

  lemma SameBytes(a: Memory, b: Memory, q: nat)
    requires q + 8 <= |a| && q + 8 <= |b| && forall k :: q <= k < q + 8 ==> a[k] == b[k]
    ensures Fetch(a, q) == Fetch(b, q)
  {
  }

  /** The last CCW of a piece ends it: the cut read with its transfer behind it, or the end of the chain. */
  lemma LastCcw<D>(p: Piece<D>)
    requires Shaped(p)
    ensures At(p, LastOf(p.cut))
    ensures var c := Fetch(p.code, LastOf(p.cut)); !c.chain && c.cmd != TIC
    ensures p.cut.Split? ==>
      Fetch(p.code, p.cut.at + 8).cmd == TIC && Fetch(p.code, p.cut.at + 8).cda == p.cut.target
  {
    var mem := Uncut(p);
    LastIsAhead(mem, p.lo);
    ScanReaches(mem, p.lo, LastOf(p.cut));
    if p.cut.Split? {
      SplitShape(mem, p.lo);
      SameBytes(p.code, mem, p.cut.at + 8);
    } else {
      NoSplitShape(mem, p.lo);
    }
  }

  /** Every other CCW is a transfer back by one, or chained to the next. */
  lemma InnerCcw<D>(p: Piece<D>, q: nat)
    requires Shaped(p) && At(p, q) && q != LastOf(p.cut)
    ensures At(p, q + 8)
    ensures var c := Fetch(p.code, q);
      if c.cmd == TIC then q >= 8 && c.cda == q - 8 && At(p, q - 8) else c.chain
  {
    hide Fetch, Cleared;
    var mem := Uncut(p);
    LastIsAhead(mem, p.lo);
    var last := LastOf(p.cut);
    assert q + 8 <= last;
    ScanReaches(mem, p.lo, q);
    ScanReaches(mem, p.lo, q + 8);
    SameBytes(p.code, mem, q);
  }

  lemma LoopedRoom<D>(p: Piece<D>, q: nat)
    requires Shaped(p) && Looped(p, q)
    ensures At(p, q + 16) && q != LastOf(p.cut)
  {
    LastCcw(p);
    InnerCcw(p, q + 8);
  }

  lemma TameIsFaithful<D>(p: Piece<D>, device: Device<D>)
    requires InPiece(p) && Tame(p, device)
    ensures Faithful(p, device)
  {
    hide Scan, Uncut, Args, Chained, Unchained, IsInput, Loaded;
    if p.m.status == Running {
      RunningIsFaithful(p, device);
    } else if p.m.status == Ended && p.cut.Split? {
      LastCcw(p);
      SameBytes(p.m.mem, p.code, p.cut.at + 8);
    }
  }

  lemma RunningIsFaithful<D>(p: Piece<D>, device: Device<D>)
    requires InPiece(p) && TransferOk(p, device) && p.m.status == Running
    ensures Faithful(p, device)
  {
    hide Scan, Uncut, Args, Chained, Unchained, IsInput, Loaded, Fetch;
    var ip := p.m.ip;
    LastCcw(p);
    if Looped(p, ip) {
      LoopedRoom(p, ip);
    }
    if ip != LastOf(p.cut) {
      InnerCcw(p, ip);
    }
    assert ip + 8 <= EndOf(p.cut) && Reach(p, ip) <= ip;
  }

  /** Executing leaves the piece the piece it was. */
  lemma SamePiece<D>(p: Piece<D>, r: Piece<D>)
    requires r.code == p.code && r.lo == p.lo && r.cut == p.cut
    ensures Shaped(r) <==> Shaped(p)
    ensures forall q: nat :: At(r, q) <==> At(p, q)
  {
    hide Fetch, Scan;
    assert Uncut(r) == Uncut(p);
    assert forall q: nat :: At(r, q) <==> At(p, q);
    if TicsInline(p) {
      assert TicsInline(r);
    }
    if TicsInline(r) {
      assert TicsInline(p);
    }
  }

  lemma TicKeeps<D>(p: Piece<D>, device: Device<D>)
    requires InPiece(p) && p.m.status == Running && Fetch(p.code, p.m.ip).cmd == TIC
    ensures InPiece(StepPiece(p, device))
  {
    hide Scan, Uncut, Args, Chained, Unchained, IsInput, Fetch, Loaded, Carry;
    TicLoadsNothing(p, device);
    SamePiece(p, StepPiece(p, device));
  }

  lemma TicLoadsNothing<D>(p: Piece<D>, device: Device<D>)
    requires |p.m.mem| == |p.code| && p.m.status == Running && p.m.ip + 8 <= |p.code|
    requires Fetch(p.code, p.m.ip).cmd == TIC
    ensures var r := StepPiece(p, device); r == p.(m := p.m.(ip := Fetch(p.code, p.m.ip).cda))
  {
    assert p.patched - {} == p.patched;
  }

  /** Memory after a command: what it has not loaded is as before. */
  lemma CarryKeepsRest<D>(p: Piece<D>, device: Device<D>)
    requires |p.m.mem| == |p.code| && p.m.status == Running && p.m.ip + 8 <= |p.code|
    requires Fetch(p.code, p.m.ip).cmd != TIC
    ensures var c := Fetch(p.code, p.m.ip);
      var e := device(c.(chain := false), Args(p.m.mem, c), p.m.dev);
      var r := StepPiece(p, device);
      r.code == p.code && r.lo == p.lo && r.cut == p.cut &&
      (r.m.status != Failed ==>
        (forall a :: 0 <= a < |p.code| && a !in Loaded(p, device) ==>
          r.m.mem[a] == p.m.mem[a] && (a in r.patched <==> a in p.patched)) &&
        if c.chain then r.m.status == Running && r.m.ip == p.m.ip + (if e.skip then 16 else 8) else r.m.status == Ended)
  {
    hide Fetch, IsInput, Args;
  }

  lemma CommandKeeps<D>(p: Piece<D>, device: Device<D>)
    requires InPiece(p) && TransferOk(p, device) && p.m.status == Running && Fetch(p.code, p.m.ip).cmd != TIC
    ensures InPiece(StepPiece(p, device))
  {
    hide Scan, Uncut, Args, Chained, Unchained, IsInput, Fetch, Loaded, StepPiece;
    var ip := p.m.ip;
    CarryKeepsRest(p, device);
    SamePiece(p, StepPiece(p, device));
    LastCcw(p);
    if ip != LastOf(p.cut) {
      InnerCcw(p, ip);
    }
    if Looped(p, ip) {
      LoopedRoom(p, ip);
    }
  }

  lemma StartKeeps<D>(p: Piece<D>, device: Device<D>)
    requires |p.m.mem| == |p.code| && p.m.status == Ended && p.cut.Split? && StartOk(StepPiece(p, device))
    ensures InPiece(StepPiece(p, device))
  {
    StartIsInPiece(p.m.mem, p.m.dev, p.cut.target, p.patched);
  }

  lemma StartIsInPiece<D>(mem: Memory, dev: D, cpa: nat, patched: set<nat>)
    requires StartOk(StartPiece(mem, dev, cpa, patched))
    ensures InPiece(StartPiece(mem, dev, cpa, patched))
  {
    var p := StartPiece(mem, dev, cpa, patched);
    LastIsAhead(mem, cpa);
    if p.cut.Split? {
      SplitShape(mem, cpa);
      assert Uncut(p) == mem;
    }
  }

  lemma TameKeeps<D>(p: Piece<D>, device: Device<D>)
    requires InPiece(p) && Tame(p, device)
    ensures InPiece(StepPiece(p, device))
  {
    hide Shaped, Intact, TransferOk, StartOk, Scan, Fetch;
    if p.m.status == Running {
      if Fetch(p.code, p.m.ip).cmd == TIC {
        TicKeeps(p, device);
      } else {
        CommandKeeps(p, device);
      }
    } else if p.m.status == Ended && p.cut.Split? {
      StartKeeps(p, device);
    }
  }

  lemma {:induction false} TameStays<D>(p: Piece<D>, device: Device<D>, n: nat)
    requires |p.m.mem| == |p.code| && InPiece(p)
    requires forall k :: 0 <= k < n ==> Tame(RunPieces(p, device, k), device)
    ensures InPiece(RunPieces(p, device, n))
  {
    hide InPiece, Tame, StepPiece;
    if n > 0 {
      TameStays(p, device, n - 1);
      TameKeeps(RunPieces(p, device, n - 1), device);
    }
  }

  /**
   * Cutting preserves meaning.  If every piece is fit to be started and no transfer runs into what
   * is still to be executed, then after any number of steps the pieces and the architecture have
   * the same device, the same place in the program, and the same memory but for cleared chaining bits.
   */
  lemma PiecesPreserveMeaning<D>(mem: Memory, dev: D, cpa: nat, device: Device<D>, n: nat)
    requires var p := StartPiece(mem, dev, cpa, {});
      StartOk(p) && forall k :: 0 <= k < n ==> Tame(RunPieces(p, device, k), device)
    ensures Agree(Run(Machine(mem, dev, cpa, Running), device, n), RunPieces(StartPiece(mem, dev, cpa, {}), device, n))
  {
    var p := StartPiece(mem, dev, cpa, {});
    StartIsInPiece(mem, dev, cpa, {});
    SameCleared(mem, mem, {}, cpa);
    hide InPiece, Tame, StartPiece, StartOk, Faithful;
    forall k | 0 <= k < n
      ensures Faithful(RunPieces(p, device, k), device)
    {
      TameStays(p, device, k);
      TameIsFaithful(RunPieces(p, device, k), device);
    }
    assert Agree(Machine(mem, dev, cpa, Running), p);
    FaithfulAgrees(Machine(mem, dev, cpa, Running), p, device, n);
  }

  /** A read over its own transfer in channel, which then leads to address 24 instead of 16. */
  const SELF_CHANGING: Memory :=
    [6, 0, 0, 8, 64, 0, 0, 8] + [8, 0, 0, 16, 0, 0, 0, 0] + [3, 0, 0, 0, 0, 0, 0, 1] + [3, 0, 0, 0, 0, 0, 0, 1]

  function NewTic(c: Ccw, args: seq<byte>, dev: int): Effect<int> {
    Effect([8, 0, 0, 24, 0, 0, 0, 0], dev, false, true)
  }

  lemma SelfChangingProgram()
    ensures Fetch(SELF_CHANGING, 0) == Ccw(6, 8, true, 0, 8) && Fetch(SELF_CHANGING, 8) == Ccw(8, 16, false, 0, 0)
    ensures Fetch(SELF_CHANGING, 16).cmd == 3 && !Fetch(SELF_CHANGING, 16).chain
  {
  }

  lemma ArchitectureFollows()
    ensures Run(Machine(SELF_CHANGING, 0, 0, Running), NewTic, 2).ip == 24
  {
    var m := Machine(SELF_CHANGING, 0, 0, Running);
    SelfChangingProgram();
    var m1 := Step(m, NewTic);
    assert m1.ip == 8 && m1.status == Running && m1.mem[8] == 8 && m1.mem[9] == 0 && m1.mem[10] == 0 &&
      m1.mem[11] == 24;
    assert Fetch(m1.mem, 8).cda == 24;
    assert Run(m, NewTic, 1) == m1;
  }

  /** Without the conditions meaning is lost: the architecture goes to 24, the next piece starts at 16. */
  lemma MeaningCanBeLost()
    ensures StartOk(StartPiece(SELF_CHANGING, 0, 0, {}))
    ensures Run(Machine(SELF_CHANGING, 0, 0, Running), NewTic, 2).ip == 24
    ensures RunPieces(StartPiece(SELF_CHANGING, 0, 0, {}), NewTic, 2).m.ip == 16
  {
    ArchitectureFollows();
    hide Run;
    var p := StartPiece(SELF_CHANGING, 0, 0, {});
    SelfChangingProgram();
    assert p.cut == Split(0, 16);
    assert Fetch(p.code, 0) == Ccw(6, 8, false, 0, 8);
    var p1 := StepPiece(p, NewTic);
    assert p1.m.status == Ended;
    assert RunPieces(p, NewTic, 1) == p1;
  }

  /** A read that loads the last CCW of the next piece. */
  const SELF_LOADING: Memory :=
    [6, 0, 0, 24, 64, 0, 0, 8] + [8, 0, 0, 16, 0, 0, 0, 0] + [3, 0, 0, 0, 64, 0, 0, 1] + [255, 0, 0, 0, 64, 0, 0, 1]

  /** Its first half after the cut, and its second half before and after the read. */
  const CUT_HALF: Memory := [6, 0, 0, 24, 0, 0, 0, 8] + [8, 0, 0, 16, 0, 0, 0, 0] + [3, 0, 0, 0, 64, 0, 0, 1]

  const NO_OPERATION: Memory := [3, 0, 0, 0, 0, 0, 0, 1]

  function LastCcwIn(c: Ccw, args: seq<byte>, dev: int): Effect<int> {
    Effect(NO_OPERATION, dev + 1, false, true)
  }

  lemma SelfLoadingProgram()
    ensures Fetch(SELF_LOADING, 0) == Ccw(6, 24, true, 0, 8) && Fetch(SELF_LOADING, 8) == Ccw(8, 16, false, 0, 0)
    ensures var code := CUT_HALF + NO_OPERATION;
      Fetch(code, 16) == Ccw(3, 0, true, 0, 1) && Fetch(code, 24) == Ccw(3, 0, false, 0, 1)
    ensures Fetch(CUT_HALF + SELF_LOADING[24..], 0) == Ccw(6, 24, false, 0, 8)
  {
  }

  /** The program up to its cut. */
  lemma FirstPiece()
    ensures var p := StartPiece(SELF_LOADING, 0, 0, {});
      var code := CUT_HALF + SELF_LOADING[24..];
      p == Piece(Machine(code, 0, 0, Running), code, 0, Split(0, 16), {4}) &&
      StartOk(p) && Tame(p, LastCcwIn)
    ensures StepPiece(StartPiece(SELF_LOADING, 0, 0, {}), LastCcwIn) ==
      Piece(Machine(CUT_HALF + NO_OPERATION, 1, 0, Ended), CUT_HALF + SELF_LOADING[24..], 0, Split(0, 16), {4})
  {
    SelfLoadingProgram();
    var p := StartPiece(SELF_LOADING, 0, 0, {});
    assert Scan(SELF_LOADING, 0) == Split(0, 16);
    assert SELF_LOADING[4 := 0] == CUT_HALF + SELF_LOADING[24..];
    assert p.code == CUT_HALF + SELF_LOADING[24..];
    assert Loaded(p, LastCcwIn) == Range(24, 8);
    assert Put(p.code, 24, NO_OPERATION) == CUT_HALF + NO_OPERATION;
    assert {4} - Range(24, 8) == {4};
  }

  /** The program from there on, as it has been loaded, and its two steps. */
  const REST: Piece<int> :=
    Piece(Machine(CUT_HALF + NO_OPERATION, 1, 16, Running), CUT_HALF + NO_OPERATION, 16, NoSplit(24), {4})

  lemma SecondPiece()
    ensures StartPiece(CUT_HALF + NO_OPERATION, 1, 16, {4}) == REST && StartOk(REST)
  {
    SelfLoadingProgram();
    hide Fetch;
    assert Scan(CUT_HALF + NO_OPERATION, 24) == NoSplit(24);
    assert Scan(CUT_HALF + NO_OPERATION, 16) == NoSplit(24);
    assert StartPiece(CUT_HALF + NO_OPERATION, 1, 16, {4}) == REST;
    hide Scan, StartPiece;
    assert forall q: nat :: At(REST, q) ==> q == 16 || q == 24;
  }

  lemma SecondRuns()
    ensures var next := REST.(m := REST.m.(dev := 2, ip := 24));
      Tame(REST, LastCcwIn) && StepPiece(REST, LastCcwIn) == next && Tame(next, LastCcwIn) &&
      StepPiece(next, LastCcwIn) == next.(m := next.m.(dev := 3, status := Ended))
  {
    SelfLoadingProgram();
    hide Fetch, StartOk, StartPiece;
    assert {4} - {} == {4};
  }

  lemma FourSteps<D>(p: Piece<D>, q: Piece<D>, r: Piece<D>, t: Piece<D>, u: Piece<D>, device: Device<D>)
    requires |p.m.mem| == |p.code| && |q.m.mem| == |q.code| && |r.m.mem| == |r.code| && |t.m.mem| == |t.code|
    requires q == StepPiece(p, device) && r == StepPiece(q, device) && t == StepPiece(r, device) &&
      u == StepPiece(t, device)
    requires Tame(p, device) && Tame(q, device) && Tame(r, device) && Tame(t, device)
    ensures forall k :: 0 <= k < 4 ==> Tame(RunPieces(p, device, k), device)
    ensures RunPieces(p, device, 4) == u
  {
    hide StepPiece, Tame;
    assert RunPieces(p, device, 0) == p;
    assert RunPieces(p, device, 1) == q;
    assert RunPieces(p, device, 2) == r;
    assert RunPieces(p, device, 3) == t;
  }

  /**
   * The conditions hold of a program that loads part of itself across a cut; it ends, and as the
   * architecture has it.
   */
  lemma TwoPieces()
    ensures var p := StartPiece(SELF_LOADING, 0, 0, {});
      StartOk(p) && (forall k :: 0 <= k < 4 ==> Tame(RunPieces(p, LastCcwIn, k), LastCcwIn)) &&
      p.cut.Split? && RunPieces(p, LastCcwIn, 4).m.status == Ended && !RunPieces(p, LastCcwIn, 4).cut.Split? &&
      Agree(Run(Machine(SELF_LOADING, 0, 0, Running), LastCcwIn, 4), RunPieces(p, LastCcwIn, 4))
  {
    hide StartPiece, StartOk, StepPiece, Tame, RunPieces, Agree, Run, Fetch, Scan;
    FirstPiece();
    SecondPiece();
    SecondRuns();
    SplitGoesOn();
    var p := StartPiece(SELF_LOADING, 0, 0, {});
    var q := Piece(Machine(CUT_HALF + NO_OPERATION, 1, 0, Ended), CUT_HALF + SELF_LOADING[24..], 0, Split(0, 16), {4});
    var t := REST.(m := REST.m.(dev := 2, ip := 24));
    FourSteps(p, q, REST, t, t.(m := t.m.(dev := 3, status := Ended)), LastCcwIn);
    PiecesPreserveMeaning(SELF_LOADING, 0, 0, LastCcwIn, 4);
  }

  lemma SplitGoesOn()
    ensures var p := Piece(Machine(CUT_HALF + NO_OPERATION, 1, 0, Ended), CUT_HALF + SELF_LOADING[24..], 0,
      Split(0, 16), {4});
      StepPiece(p, LastCcwIn) == StartPiece(CUT_HALF + NO_OPERATION, 1, 16, {4}) && Tame(p, LastCcwIn)
  {
    hide StartPiece, StartOk;
    SecondPiece();
  }
}
