/**
 * The command queue: requests are built descriptor by descriptor, published with one available
 * entry, and waited for (VIRTIO 1.0, sections 2.4.5 and 2.4.6).  Every single write to the rings is
 * a step of its own, and the device may look at any moment.
 */
module CommandQueue {
  import opened Bytes
  import opened RingIndex

  const F_NEXT := 1
  const F_WRITE := 2
  /** Internal mark of a follow-up segment; the device never sees it. */
  const HIDDEN_IS_CHAIN := 256

  /** One buffer of a request. */
  datatype Buf = Buf(addr: int, len: int, write: bool)

  type Request = r: seq<Buf> | r != [] witness [Buf(0, 0, false)]

  datatype Desc = Desc(addr: int, len: int, flags: nat, next: uint16)

  /** Where the driver is: between requests, before write `w` for buffer `i`, waiting, or cleaning up after a reply. */
  datatype Phase =
    | Rest
    | Build(req: Request, i: nat, w: nat)
    | Wait(req: Request)
    | Reread
    | ClearLen
    | ClearFlags
    | Overrun

  datatype Queue = Queue(
    desc: seq<Desc>, avail: seq<uint16>, availIdx: uint16, usedIdx: uint16,
    nextIdx: nat, usedSeen: uint16, phase: Phase,
    devAvail: uint16,
    // history: requests begun and published, replies given and replies seen
    begun: seq<Request>, published: seq<Request>, answered: nat, seen: nat)

  datatype Move = Begin(req: Request) | Write | Reply | Poll | Timeout

  predicate Shaped(q: Queue) {
    RingSize(|q.avail|) && 0 < |q.avail| && |q.desc| == |q.avail|
  }

  /** The flags the callers pass for buffer `i`: chained but for the last, and marked but for the first. */
  function FlagsFor(req: Request, i: nat): nat
    requires i < |req|
  {
    (if i + 1 < |req| then F_NEXT else 0) + (if req[i].write then F_WRITE else 0) +
    (if i > 0 then HIDDEN_IS_CHAIN else 0)
  }

  predicate IsChain(flags: nat) {
    flags / 256 % 2 == 1
  }

  predicate HasNext(flags: nat) {
    flags % 2 == 1
  }

  function Visible(flags: nat): nat {
    if IsChain(flags) then flags - HIDDEN_IS_CHAIN else flags
  }

  /** One write of `vring_send_buf` for buffer `b` with `flags`, in program order. */
  function WriteStep(q: Queue, req: Request, i: nat, w: nat): Queue
    requires Shaped(q) && i < |req| && q.nextIdx < |q.desc| <= TWO16
  {
    var n := q.nextIdx;
    var d := q.desc[n];
    var flags := FlagsFor(req, i);
    var then' := Build(req, i, w + 1);
    match w
    case 0 =>
      if IsChain(flags) then q.(phase := then')
      else q.(avail := q.avail[Slot(q.availIdx, |q.avail|) := n], phase := then')
    case 1 => q.(desc := q.desc[n := d.(addr := req[i].addr)], phase := then')
    case 2 => q.(desc := q.desc[n := d.(len := req[i].len)], phase := then')
    case 3 => q.(desc := q.desc[n := d.(flags := Visible(flags))], phase := then')
    case 4 => q.(desc := q.desc[n := d.(next := n)], phase := then')
    case 5 => q.(desc := q.desc[n := d.(next := Next(d.next))], phase := then')
    case 6 => q.(nextIdx := n + 1, phase := then')
    case _ => q
  }

  /** The last statement: a chain is published once, after its last buffer. */
  function Finish(q: Queue, req: Request, i: nat): Queue
    requires i < |req|
  {
    if HasNext(FlagsFor(req, i)) then
      if i + 1 < |req| then q.(phase := Build(req, i + 1, 0)) else q.(phase := Overrun)
    else q.(availIdx := Next(q.availIdx), phase := Wait(req), published := q.published + [req])
  }

  function DriverWrite(q: Queue): Queue
    requires Shaped(q) && |q.desc| <= TWO16
  {
    match q.phase
    case Build(req, i, w) =>
      if i >= |req| then q.(phase := Overrun)
      else if w >= 7 then Finish(q, req, i)
      else if q.nextIdx < |q.desc| then WriteStep(q, req, i, w)
      else q.(phase := Overrun)
    case Reread => q.(usedSeen := q.usedIdx, nextIdx := 0, phase := ClearLen, seen := q.answered)
    case ClearLen => q.(desc := q.desc[0 := q.desc[0].(len := 0)], phase := ClearFlags)
    case ClearFlags => q.(desc := q.desc[0 := q.desc[0].(flags := 0)], phase := Rest)
    case _ => q
  }

  function Act(q: Queue, m: Move): (r: Queue)
    requires Shaped(q) && |q.desc| <= TWO16
    ensures Shaped(r) && |r.desc| == |q.desc|
  {
    match m
    case Begin(req) => if q.phase == Rest then q.(phase := Build(req, 0, 0), begun := q.begun + [req]) else q
    case Write => DriverWrite(q)
    case Reply =>
      if q.devAvail == q.availIdx then q
      else q.(devAvail := Next(q.devAvail), usedIdx := Next(q.usedIdx), answered := q.answered + 1)
    case Poll =>
      // the index that has been compared is read once more before it is remembered
      if q.phase.Wait? && q.usedIdx != q.usedSeen then q.(phase := Reread) else q
    case Timeout => if q.phase.Wait? then q.(phase := Rest) else q
  }

  datatype Chain = Whole(bufs: seq<Buf>) | Broken

  /** What the device finds when it follows the descriptors from `i`; a chain of more than `limit` is broken. */
  function Gather(desc: seq<Desc>, i: nat, limit: nat): Chain
    decreases limit
  {
    if limit == 0 || i >= |desc| then Broken
    else
      var d := desc[i];
      var b := Buf(d.addr, d.len, d.flags / 2 % 2 == 1);
      if HasNext(d.flags) then
        match Gather(desc, d.next, limit - 1)
        case Whole(rest) => Whole([b] + rest)
        case Broken => Broken
      else Whole([b])
  }

  /** Every entry the device has still to answer leads to a complete chain that is the request published there. */
  ghost predicate Safe(q: Queue)
    requires Shaped(q)
  {
    forall k :: q.answered <= k < |q.published| ==>
      Gather(q.desc, q.avail[Slot(k, |q.avail|)], |q.desc|) == Whole(q.published[k])
  }

  /** The descriptor that buffer `i` of a request started at descriptor 0 ends up as. */
  function Done(req: Request, i: nat): Desc
    requires i < |req|
  {
    Desc(req[i].addr, req[i].len, Visible(FlagsFor(req, i)), Index(i + 1))
  }

  ghost predicate Built(desc: seq<Desc>, req: Request, n: nat) {
    n <= |req| && n <= |desc| && forall j :: 0 <= j < n ==> desc[j] == Done(req, j)
  }

  /** What the device reads from a finished descriptor. */
  lemma DoneReads(req: Request, i: nat)
    requires i < |req| <= TWO16
    ensures var d := Done(req, i);
      Buf(d.addr, d.len, d.flags / 2 % 2 == 1) == req[i] &&
      (HasNext(d.flags) <==> i + 1 < |req|) && (i + 1 < |req| ==> d.next == i + 1)
  {
    assert Visible(FlagsFor(req, i)) / 2 % 2 == (if req[i].write then 1 else 0);
  }

  lemma {:induction false} BuiltIsWhole(desc: seq<Desc>, req: Request, i: nat, limit: nat)
    requires Built(desc, req, |req|) && i < |req| && |req| - i <= limit && |desc| <= TWO16
    ensures Gather(desc, i, limit) == Whole(req[i..])
    decreases |req| - i
  {
    hide FlagsFor, Visible, HasNext, Index, Done;
    assert desc[i] == Done(req, i);
    DoneReads(req, i);
    if i + 1 < |req| {
      BuiltIsWhole(desc, req, i + 1, limit - 1);
      assert req[i..] == [req[i]] + req[i + 1..];
    } else {
      assert req[i..] == [req[i]];
    }
  }

  ghost predicate Partial(d: Desc, req: Request, i: nat, w: nat)
    requires i < |req|
  {
    var done := Done(req, i);
    (w >= 2 ==> d.addr == done.addr) && (w >= 3 ==> d.len == done.len) && (w >= 4 ==> d.flags == done.flags) &&
    (w == 5 ==> d.next == i) && (w >= 6 ==> d.next == done.next)
  }

  ghost predicate Counted(q: Queue) {
    Shaped(q) && |q.desc| <= TWO16 &&
    q.seen <= q.answered <= |q.published| <= q.seen + 1 &&
    q.availIdx == Index(|q.published|) && q.usedIdx == q.devAvail == Index(q.answered) && q.usedSeen == Index(q.seen)
  }

  ghost predicate PhaseOk(q: Queue)
    requires Shaped(q)
  {
    var p := |q.published|;
    match q.phase
    case Rest => p == q.seen && q.nextIdx == 0 && q.begun == q.published
    case Build(req, i, w) =>
      p == q.seen && i < |req| <= |q.desc| && w <= 7 && q.nextIdx == (if w == 7 then i + 1 else i) &&
      Built(q.desc, req, i) && Partial(q.desc[i], req, i, w) &&
      (i > 0 || w > 0 ==> q.avail[Slot(p, |q.avail|)] == 0) && q.begun == q.published + [req]
    case Wait(req) =>
      p == q.seen + 1 && q.published[p - 1] == req && q.nextIdx == |req| &&
      Built(q.desc, req, |req|) && q.avail[Slot(p - 1, |q.avail|)] == 0 && q.begun == q.published
    case Reread => p == q.answered == q.seen + 1 && q.begun == q.published
    case ClearLen => p == q.seen && q.nextIdx == 0 && q.begun == q.published
    case ClearFlags => p == q.seen && q.nextIdx == 0 && q.begun == q.published
    case Overrun => false
  }

  ghost predicate Inv(q: Queue) {
    Counted(q) && PhaseOk(q)
  }

  /** A move of a run in which no wait times out and requests fit the ring. */
  predicate Orderly(m: Move, n: nat) {
    m != Timeout && (m.Begin? ==> |m.req| <= n)
  }

  lemma InvIsSafe(q: Queue)
    requires Inv(q)
    ensures Safe(q)
  {
    hide Slot, Index, RingSize, Done;
    if q.answered < |q.published| {
      BuiltIsWhole(q.desc, q.phase.req, 0, |q.desc|);
      assert q.phase.req[0..] == q.phase.req;
    }
  }

  lemma WriteKeeps(q: Queue, req: Request, i: nat, w: nat)
    requires Inv(q) && q.phase == Build(req, i, w) && w < 7
    ensures Inv(WriteStep(q, req, i, w))
  {
    hide Slot, RingSize;
    SlotOfIndex(|q.published|, |q.avail|);
  }

  lemma FinishKeeps(q: Queue, req: Request, i: nat)
    requires Inv(q) && q.phase == Build(req, i, 7)
    ensures Inv(Finish(q, req, i))
  {
    hide Slot, RingSize;
    NextIndex(|q.published|);
  }

  lemma ActKeeps(q: Queue, m: Move)
    requires Inv(q) && Orderly(m, |q.desc|)
    ensures Inv(Act(q, m))
  {
    hide Slot, RingSize, WriteStep, Finish, Done;
    match m
    case Begin(req) =>
    case Write =>
      if q.phase.Build? {
        if q.phase.w < 7 {
          WriteKeeps(q, q.phase.req, q.phase.i, q.phase.w);
        } else {
          FinishKeeps(q, q.phase.req, q.phase.i);
        }
      }
    case Reply =>
      NextIndex(q.answered);
    case Poll =>
  }

  // ---------- Whole runs ----------

  function RunMoves(q: Queue, moves: seq<Move>): (r: Queue)
    requires Shaped(q) && |q.desc| <= TWO16
    ensures Shaped(r) && |r.desc| == |q.desc|
    decreases |moves|
  {
    if moves == [] then q else RunMoves(Act(q, moves[0]), moves[1..])
  }

  /** An initialized queue: nothing published, nothing answered. */
  ghost predicate Fresh(q: Queue) {
    Shaped(q) && |q.desc| <= TWO16 && q.phase == Rest && q.nextIdx == 0 &&
    q.availIdx == q.usedIdx == q.usedSeen == q.devAvail == 0 &&
    q.begun == q.published == [] && q.answered == q.seen == 0
  }

  lemma {:induction false} RunKeeps(q: Queue, moves: seq<Move>)
    requires Inv(q) && forall m :: m in moves ==> Orderly(m, |q.desc|)
    ensures Inv(RunMoves(q, moves))
    decreases |moves|
  {
    hide Act, PhaseOk;
    if moves != [] {
      assert Orderly(moves[0], |q.desc|);
      ActKeeps(q, moves[0]);
      RunKeeps(Act(q, moves[0]), moves[1..]);
    }
  }

  /**
   * In every state that the device can see, between any two writes, every published entry it has
   * not answered leads to exactly the buffers of its request.  Each request begun publishes one
   * entry, in order, and every request starts at descriptor 0.
   */
  lemma PublicationSafe(q: Queue, moves: seq<Move>)
    requires Fresh(q) && forall m :: m in moves ==> Orderly(m, |q.desc|)
    ensures var r := RunMoves(q, moves);
      Safe(r) && (r.phase.Rest? ==> r.nextIdx == 0) && r.availIdx == Index(|r.published|) &&
      r.begun == r.published + (if r.phase.Build? then [r.phase.req] else [])
  {
    hide Slot, RingSize;
    assert Inv(q);
    RunKeeps(q, moves);
    var r := RunMoves(q, moves);
    InvIsSafe(r);
    assert r.phase.Build? || r.begun == r.published + [];
  }

  /** A wait that is answered makes the next request start at descriptor 0; one that times out never does. */
  lemma WaitDecidesStart(q: Queue)
    requires Inv(q) && q.phase.Wait?
    ensures Act(Act(q, Poll), Write).nextIdx == 0 <==> q.answered == |q.published|
    ensures Act(q, Timeout).phase == Rest && Act(q, Timeout).nextIdx == |q.phase.req| != 0
  {
    hide Slot, RingSize;
  }

  lemma {:induction false} RunSplit(q: Queue, a: seq<Move>, b: seq<Move>)
    requires Shaped(q) && |q.desc| <= TWO16
    ensures RunMoves(q, a + b) == RunMoves(RunMoves(q, a), b)
    decreases |a|
  {
    hide Act;
    if a == [] {
      assert a + b == b;
    } else {
      assert (a + b)[0] == a[0] && (a + b)[1..] == a[1..] + b;
      RunSplit(Act(q, a[0]), a[1..], b);
    }
  }

  function Writes(k: nat): seq<Move> {
    if k == 0 then [] else [Write] + Writes(k - 1)
  }

  lemma RunOne(q: Queue, m: Move, rest: seq<Move>)
    requires Shaped(q) && |q.desc| <= TWO16
    ensures RunMoves(q, [m] + rest) == RunMoves(Act(q, m), rest)
  {
    assert ([m] + rest)[0] == m && ([m] + rest)[1..] == rest;
  }

  /** The moves that send a request of one buffer: eight writes after it has begun. */
  function SendOne(b: Buf): seq<Move> {
    [Begin([b])] + Writes(8)
  }

  /** The queue after it. */
  function SentOne(q: Queue, b: Buf): (r: Queue)
    requires Shaped(q) && q.nextIdx < |q.desc| <= TWO16
    ensures Shaped(r) && |r.desc| == |q.desc|
  {
    var d := Desc(b.addr, b.len, if b.write then F_WRITE else 0, (q.nextIdx + 1) % TWO16);
    q.(avail := q.avail[Slot(q.availIdx, |q.avail|) := q.nextIdx], desc := q.desc[q.nextIdx := d],
       nextIdx := q.nextIdx + 1, availIdx := Next(q.availIdx), phase := Wait([b]),
       begun := q.begun + [[b]], published := q.published + [[b]])
  }

  /** Eight writes, one after the other. */
  function After(q: Queue, k: nat): (r: Queue)
    requires Shaped(q) && |q.desc| <= TWO16
    ensures Shaped(r) && |r.desc| == |q.desc|
    decreases k
  {
    if k == 0 then q else After(Act(q, Write), k - 1)
  }

  lemma {:induction false} RunWrites(q: Queue, k: nat)
    requires Shaped(q) && |q.desc| <= TWO16
    ensures RunMoves(q, Writes(k)) == After(q, k)
    decreases k
  {
    hide Act;
    if k > 0 {
      RunOne(q, Write, Writes(k - 1));
      RunWrites(Act(q, Write), k - 1);
    }
  }

  lemma SendingOne(q: Queue, b: Buf)
    requires Shaped(q) && q.phase == Rest && q.nextIdx < |q.desc| <= TWO16
    ensures RunMoves(q, SendOne(b)) == SentOne(q, b)
  {
    RunOne(q, Begin([b]), Writes(8));
    RunWrites(Act(q, Begin([b])), 8);
    FirstFour(q, b, 4);
    LastFour(q, b);
  }

  /** The queue after the first four of them. */
  function HalfSent(q: Queue, b: Buf): (r: Queue)
    requires Shaped(q) && q.nextIdx < |q.desc| <= TWO16
    ensures Shaped(r) && |r.desc| == |q.desc|
  {
    var d := q.desc[q.nextIdx].(addr := b.addr, len := b.len, flags := if b.write then F_WRITE else 0);
    q.(avail := q.avail[Slot(q.availIdx, |q.avail|) := q.nextIdx], desc := q.desc[q.nextIdx := d],
       phase := Build([b], 0, 4), begun := q.begun + [[b]])
  }

  lemma OneFlags(b: Buf)
    ensures var flags := FlagsFor([b], 0);
      flags == (if b.write then F_WRITE else 0) && Visible(flags) == flags && !IsChain(flags) && !HasNext(flags)
  {
  }

  lemma FirstFour(q: Queue, b: Buf, k: nat)
    requires Shaped(q) && q.phase == Rest && q.nextIdx < |q.desc| <= TWO16
    ensures After(Act(q, Begin([b])), k + 4) == After(HalfSent(q, b), k)
  {
    OneFlags(b);
    hide Slot, RingSize, FlagsFor, Visible, IsChain, HasNext, After;
    var n := q.nextIdx;
    var d := q.desc[n];
    var q0 := Act(q, Begin([b]));
    var q1 := q0.(avail := q.avail[Slot(q.availIdx, |q.avail|) := n], phase := Build([b], 0, 1));
    var q2 := q1.(desc := q.desc[n := d.(addr := b.addr)], phase := Build([b], 0, 2));
    var q3 := q2.(desc := q.desc[n := d.(addr := b.addr, len := b.len)], phase := Build([b], 0, 3));
    assert Act(q0, Write) == q1;
    assert Act(q1, Write) == q2;
    assert Act(q2, Write) == q3;
    assert Act(q3, Write) == HalfSent(q, b);
    AfterFour(q0, q1, q2, q3, HalfSent(q, b), k);
  }

  lemma LastFour(q: Queue, b: Buf)
    requires Shaped(q) && q.nextIdx < |q.desc| <= TWO16
    ensures After(HalfSent(q, b), 4) == SentOne(q, b)
  {
    OneFlags(b);
    assert After(SentOne(q, b), 0) == SentOne(q, b);
    hide Slot, RingSize, FlagsFor, Visible, IsChain, HasNext, After;
    var n := q.nextIdx;
    var flags := if b.write then F_WRITE else 0;
    var q4 := HalfSent(q, b);
    var q5 := q4.(desc := q.desc[n := Desc(b.addr, b.len, flags, n)], phase := Build([b], 0, 5));
    var q6 := q5.(desc := q.desc[n := Desc(b.addr, b.len, flags, Next(n))], phase := Build([b], 0, 6));
    var q7 := q6.(nextIdx := n + 1, phase := Build([b], 0, 7));
    assert Act(q4, Write) == q5;
    assert Act(q5, Write) == q6;
    assert Act(q6, Write) == q7;
    assert Act(q7, Write) == SentOne(q, b);
    AfterFour(q4, q5, q6, q7, SentOne(q, b), 0);
  }

  lemma AfterFour(a: Queue, b: Queue, c: Queue, d: Queue, e: Queue, k: nat)
    requires Shaped(a) && Shaped(b) && Shaped(c) && Shaped(d) && |a.desc| == |b.desc| == |c.desc| == |d.desc| <= TWO16
    requires b == Act(a, Write) && c == Act(b, Write) && d == Act(c, Write) && e == Act(d, Write)
    ensures After(a, k + 4) == After(e, k)
  {
    hide Act;
    assert After(a, k + 4) == After(b, k + 3);
    assert After(c, k + 2) == After(d, k + 1);
  }

  /** A reply, the poll that sees it, and the three writes that clean up after it. */
  const ANSWERED: seq<Move> := [Reply] + SEEN

  /** The poll and the clean-up alone, for a reply that has come before. */
  const SEEN: seq<Move> := [Poll] + Writes(3)

  /** An answer, stopped half way through the cleaning up. */
  const HALF_ANSWERED: seq<Move> := [Reply] + ([Poll] + Writes(2))

  /** After a timeout a late reply passes for that to the second request, and the second's for the third's. */
  function Afterwards(b: Buf, late: bool): seq<Move> {
    SendOne(b) + ((if late then ANSWERED else SEEN) + (SendOne(b) + HALF_ANSWERED))
  }

  lemma {:induction false} WritesOnly(k: nat)
    ensures forall m :: m in Writes(k) ==> m == Write
  {
    if k > 0 {
      WritesOnly(k - 1);
    }
  }

  ghost predicate AllOrderly(moves: seq<Move>, n: nat) {
    forall m :: m in moves ==> Orderly(m, n)
  }

  lemma AfterwardsOrderly(b: Buf, late: bool, n: nat)
    requires n > 0
    ensures AllOrderly(Afterwards(b, late), n)
  {
    WritesOnly(2);
    WritesOnly(3);
    SendOneOrderly(b, n);
    hide Writes, SendOne, Orderly;
    assert AllOrderly(ANSWERED, n) && AllOrderly(SEEN, n) && AllOrderly(HALF_ANSWERED, n) by {
      assert Orderly(Reply, n) && Orderly(Poll, n) && Orderly(Write, n);
    }
  }

  lemma SendOneOrderly(b: Buf, n: nat)
    requires n > 0
    ensures AllOrderly(SendOne(b), n) && Orderly(Reply, n) && Orderly(Poll, n) && Orderly(Write, n)
  {
    WritesOnly(8);
    hide Writes;
  }

  /** The queue is safe for the device to look at, and the driver has stayed inside the descriptor table. */
  ghost predicate Intact(q: Queue)
    requires Shaped(q)
  {
    Safe(q) && q.phase != Overrun
  }

  /** Some orderly way to go on breaks the queue. */
  ghost predicate Breakable(q: Queue)
    requires Shaped(q) && |q.desc| <= TWO16
  {
    exists moves :: AllOrderly(moves, |q.desc|) && !Intact(RunMoves(q, moves))
  }

  /**
   * The timeout decides.  Whatever request a queue is waiting for, and whether or not its reply has
   * already come: after one more move, every orderly way to go on stays intact exactly when that
   * move was not the timeout.
   */
  lemma TimeoutExactly(q: Queue, m: Move)
    requires Inv(q) && q.phase.Wait? && (m == Timeout || Orderly(m, |q.desc|))
    ensures Breakable(Act(q, m)) <==> m == Timeout
  {
    hide Slot, Index, RingSize;
    if m == Timeout {
      TimesOut(q);
      TimeoutBreaks(q, Buf(0, 1, false));
    } else {
      ActKeeps(q, m);
      hide Act, Safe, Inv;
      forall moves | AllOrderly(moves, |q.desc|)
        ensures Intact(RunMoves(Act(q, m), moves))
      {
        RunKeeps(Act(q, m), moves);
        InvIsIntact(RunMoves(Act(q, m), moves));
      }
    }
  }

  lemma InvIsIntact(q: Queue)
    requires Inv(q)
    ensures Intact(q)
  {
    hide Slot, Index, Safe;
    InvIsSafe(q);
  }

  /** From a fresh queue: as soon as any wait of an otherwise orderly run times out, the queue can be broken. */
  lemma OneTimeoutBreaks(q: Queue, before: seq<Move>)
    requires Fresh(q) && AllOrderly(before, |q.desc|) && RunMoves(q, before).phase.Wait?
    ensures exists after :: AllOrderly(after, |q.desc|) && !Intact(RunMoves(q, before + ([Timeout] + after)))
  {
    hide Slot, RingSize, Intact, Act;
    assert Inv(q);
    hide Inv;
    RunKeeps(q, before);
    var r := RunMoves(q, before);
    TimeoutExactly(r, Timeout);
    var after :| AllOrderly(after, |q.desc|) && !Intact(RunMoves(Act(r, Timeout), after));
    RunOne(r, Timeout, after);
    RunSplit(q, before, [Timeout] + after);
  }

  /**
   * With a descriptor to spare a request gets published, unanswered, while its descriptor is wiped;
   * without one the next request, whatever it is, is built behind the end of the table.
   */
  lemma TimeoutBreaks(q: Queue, b: Buf)
    requires Inv(q) && q.phase.Wait? && b.len != 0
    ensures Breakable(q.(phase := Rest))
  {
    hide Slot, Index, RingSize, Safe;
    var r := q.(phase := Rest);
    if |q.phase.req| < |q.desc| {
      var late := q.answered < |q.published|;
      AfterwardsOrderly(b, late, |q.desc|);
      LateBreaks(r, b, late);
      assert !Intact(RunMoves(r, Afterwards(b, late)));
    } else {
      TableFull(r, [b]);
      assert AllOrderly([Begin([b]), Write], |q.desc|);
    }
  }

  lemma TableFull(q: Queue, req: Request)
    requires Shaped(q) && q.nextIdx == |q.desc| <= TWO16 && q.phase == Rest
    ensures RunMoves(q, [Begin(req), Write]).phase == Overrun && !Intact(RunMoves(q, [Begin(req), Write]))
  {
    hide Slot, RingSize, Safe;
    RunOne(q, Begin(req), [Write]);
    assert [Begin(req), Write] == [Begin(req)] + [Write] && [Write] == [Write] + [];
    RunOne(Act(q, Begin(req)), Write, []);
  }

  /** What a timeout leaves behind: `answered` of `published` entries have been answered, at most one less than all. */
  ghost predicate LeftBehind(q: Queue) {
    Shaped(q) && |q.desc| <= TWO16 && q.phase == Rest &&
    q.answered <= |q.published| <= q.seen + 1 == q.answered + (if q.answered < |q.published| then 1 else 0) &&
    q.availIdx == Index(|q.published|) && q.usedIdx == q.devAvail == Index(q.answered) && q.usedSeen == Index(q.seen)
  }

  /** The second request, for which an earlier reply is taken, and then the third. */
  lemma LateBreaks(q: Queue, b: Buf, late: bool)
    requires LeftBehind(q) && 0 < q.nextIdx < |q.desc| && b.len != 0 && late == (q.answered < |q.published|)
    ensures !Safe(RunMoves(q, Afterwards(b, late)))
  {
    hide RingSize, Act, Writes, SendOne, Slot, Index, Safe;
    var q1 := SentOne(q, b);
    SendingOne(q, b);
    NextIndex(|q.published|);
    NextIndex(q.answered);
    IndicesDiffer(q.seen, q.answered);
    IndicesDiffer(q.answered, |q1.published|);
    IndicesDiffer(q.seen, q.answered + 1);
    var rest := SendOne(b) + HALF_ANSWERED;
    RunSplit(q, SendOne(b), (if late then ANSWERED else SEEN) + rest);
    if late {
      RepliedTo(q1);
      RunSplit(q1, ANSWERED, rest);
      TooLate(Repaired(Replied(q1)), b);
    } else {
      SeenBefore(q1);
      RunSplit(q1, SEEN, rest);
      TooLate(Repaired(q1), b);
    }
  }

  /** Indices of counters that are close differ when the counters do. */
  lemma IndicesDiffer(i: nat, j: nat)
    requires i <= j < i + TWO16
    ensures Index(i) == Index(j) <==> i == j
  {
    IndexGap(i, j - i);
  }

  /** The third request, answered by the reply to the second. */
  lemma TooLate(q: Queue, b: Buf)
    requires Shaped(q) && |q.desc| <= TWO16 && q.phase == Rest && q.nextIdx == 0 && b.len != 0
    requires |q.published| == q.answered + 1 && q.availIdx == Index(|q.published|)
    requires q.usedIdx == q.usedSeen == q.devAvail == Index(q.answered)
    ensures !Safe(RunMoves(q, SendOne(b) + HALF_ANSWERED))
  {
    hide RingSize, Act, Writes, SendOne, Slot, Index, Safe, Gather;
    var q1 := SentOne(q, b);
    SendingOne(q, b);
    RunSplit(q, SendOne(b), HALF_ANSWERED);
    NextIndex(q.answered);
    NextIndex(|q.published|);
    IndicesDiffer(q.answered, |q1.published|);
    IndicesDiffer(q.answered, q.answered + 1);
    HalfRepliedTo(q1);
    var r := RunMoves(q1, HALF_ANSWERED);
    SlotOfIndex(|q.published|, |q.avail|);
    Wiped(r, |q.published|, b);
  }

  /** An entry that leads to a wiped descriptor is not safe. */
  lemma Wiped(q: Queue, k: nat, b: Buf)
    requires Shaped(q) && q.answered <= k < |q.published| && q.published[k] == [b] && b.len != 0
    requires q.avail[Slot(k, |q.avail|)] == 0 && q.desc[0].len == 0
    ensures !Safe(q)
  {
    hide Slot, RingSize;
    assert Gather(q.desc, 0, |q.desc|) != Whole([b]);
  }

  lemma HalfRepliedTo(q: Queue)
    requires Shaped(q) && |q.desc| <= TWO16 && q.phase.Wait? && q.devAvail != q.availIdx &&
      Next(q.usedIdx) != q.usedSeen
    ensures var r := RunMoves(q, HALF_ANSWERED);
      r.desc == q.desc[0 := q.desc[0].(len := 0)] && r.avail == q.avail &&
      r.answered == q.answered + 1 && r.published == q.published
  {
    hide Slot, RingSize;
    var q1 := Replied(q);
    var q2 := Act(q1, Poll);
    RunOne(q, Reply, [Poll] + Writes(2));
    RunOne(q1, Poll, Writes(2));
    RunWrites(q2, 2);
    var q3 := Act(q2, Write);
    assert After(q2, 2) == After(q3, 1) == After(Act(q3, Write), 0);
  }

  lemma TimesOut(q: Queue)
    requires Shaped(q) && |q.desc| <= TWO16 && q.phase.Wait?
    ensures Act(q, Timeout) == q.(phase := Rest)
  {
  }

  function Replied(q: Queue): Queue {
    q.(devAvail := Next(q.devAvail), usedIdx := Next(q.usedIdx), answered := q.answered + 1)
  }

  /** The replies there have been are polled for and cleaned up after. */
  function Repaired(q: Queue): Queue
    requires Shaped(q)
  {
    q.(seen := q.answered, usedSeen := q.usedIdx, nextIdx := 0, phase := Rest,
       desc := q.desc[0 := q.desc[0].(len := 0, flags := 0)])
  }

  lemma SeenBefore(q: Queue)
    requires Shaped(q) && |q.desc| <= TWO16 && q.phase.Wait? && q.usedIdx != q.usedSeen
    ensures RunMoves(q, SEEN) == Repaired(q)
  {
    hide Slot, RingSize;
    var q1 := Act(q, Poll);
    RunOne(q, Poll, Writes(3));
    RunWrites(q1, 3);
    var q2 := Act(q1, Write);
    var q3 := Act(q2, Write);
    assert q3.desc == q.desc[0 := q.desc[0].(len := 0)];
    assert q3.desc[0 := q3.desc[0].(flags := 0)] == q.desc[0 := q.desc[0].(len := 0, flags := 0)];
    assert After(q1, 3) == After(q2, 2) == After(q3, 1) == After(Act(q3, Write), 0);
  }

  lemma RepliedTo(q: Queue)
    requires Shaped(q) && |q.desc| <= TWO16 && q.phase.Wait? && q.devAvail != q.availIdx &&
      Next(q.usedIdx) != q.usedSeen
    ensures RunMoves(q, ANSWERED) == Repaired(Replied(q))
  {
    hide Slot, RingSize, Repaired;
    RunOne(q, Reply, SEEN);
    SeenBefore(Replied(q));
  }
}
