/**
 * The command queue as the driver runs it: `SendBuf`, `Poll` and `Run` over ring arrays, with the
 * device acting between any two writes.  Ghost state ties the arrays to a run of CommandQueue.dfy.
 */
module CommandDriver {
  import opened Bytes
  import opened RingIndex
  import opened CommandQueue

  /** A caller's command: where the data is, its size, and the flags NEXT and WRITE. */
  datatype Cmd = Cmd(data: int, size: int, flags: nat)

  /** The commands up to and with the first that is not chained, as the request they stand for. */
  ghost predicate Names(cmds: seq<Cmd>, req: Request) {
    |req| <= |cmds| &&
    (forall i :: 0 <= i < |cmds| ==> cmds[i].flags < 4) &&
    (forall i :: 0 <= i < |req| ==>
      req[i] == Buf(cmds[i].data, cmds[i].size, cmds[i].flags >= F_WRITE) &&
      (HasNext(cmds[i].flags) <==> i + 1 < |req|))
  }

  lemma NamedFlags(cmds: seq<Cmd>, req: Request, i: nat)
    requires Names(cmds, req) && i < |req|
    ensures FlagsFor(req, i) == cmds[i].flags + (if i > 0 then HIDDEN_IS_CHAIN else 0)
  {
  }

  lemma {:induction false} RunMovesMore(q: Queue, moves: seq<Move>, m: Move)
    requires Shaped(q) && |q.desc| <= TWO16
    ensures RunMoves(q, moves + [m]) == Act(RunMoves(q, moves), m)
  {
    RunSplit(q, moves, [m]);
    assert [m] == [m] + [];
    RunOne(RunMoves(q, moves), m, []);
  }

  class Driver {
    const desc: array<Desc>
    const avail: array<uint16>
    var availIdx: uint16
    var usedIdx: uint16
    var nextIdx: nat
    var usedSeen: uint16
    var devAvail: uint16

    ghost const start: Queue
    ghost var log: seq<Move>
    ghost var q: Queue

    /** The real fields are those of the recorded queue, which the recorded moves lead to. */
    ghost predicate Valid()
      reads this, desc, avail
    {
      desc as object != avail && Fresh(start) && q == RunMoves(start, log) &&
      q.desc == desc[..] && q.avail == avail[..] && q.availIdx == availIdx && q.usedIdx == usedIdx &&
      q.nextIdx == nextIdx && q.usedSeen == usedSeen && q.devAvail == devAvail
    }

    constructor (num: nat)
      requires RingSize(num) && num <= TWO16
      ensures Valid() && q == start && fresh(desc) && fresh(avail)
    {
      var d := new Desc[num](_ => Desc(0, 0, 0, 0));
      var a := new uint16[num](_ => 0);
      desc, avail := d, a;
      availIdx, usedIdx, nextIdx, usedSeen, devAvail := 0, 0, 0, 0, 0;
      ghost var q0 := Queue(d[..], a[..], 0, 0, 0, 0, Rest, 0, [], [], 0, 0);
      start, q, log := q0, q0, [];
    }

    ghost method Tick(m: Move)
      requires Fresh(start) && q == RunMoves(start, log)
      modifies `q, `log
      ensures q == Act(old(q), m) && q == RunMoves(start, log) && log == old(log) + [m]
    {
      RunMovesMore(start, log, m);
      q := Act(q, m);
      log := log + [m];
    }

    /** No wait of the recorded run has timed out, and no request was longer than the ring. */
    ghost predicate Calm()
      reads this
    {
      CalmUpTo(|log|)
    }

    ghost predicate CalmUpTo(k: nat)
      requires k <= |log|
      reads this
    {
      forall i :: 0 <= i < k ==> Orderly(log[i], desc.Length)
    }

    /** What a calm run guarantees, now and in every state it has passed through. */
    lemma Sound(k: nat)
      requires Valid() && k <= |log| && CalmUpTo(k)
      ensures Inv(RunMoves(start, log[..k])) && Safe(RunMoves(start, log[..k]))
    {
      hide Slot, RingSize, Act;
      assert Inv(start);
      RunKeeps(start, log[..k]);
      InvIsSafe(RunMoves(start, log[..k]));
      assert log[..|log|] == log;
    }

    /** One reply of the device, if there is anything to answer. */
    method DeviceReplies()
      requires Valid()
      modifies `q, `log, `usedIdx, `devAvail
      ensures Valid() && (old(Calm()) ==> Calm()) && q == Act(old(q), Reply) && log == old(log) + [Reply]
    {
      hide RunMoves, Fresh, Next;
      Tick(Reply);
      if devAvail != availIdx {
        devAvail := Next(devAvail);
        usedIdx := Next(usedIdx);
      }
    }

    /** The device acts any number of times. */
    method DeviceActs()
      requires Valid()
      modifies `q, `log, `usedIdx, `devAvail
      ensures Valid() && (old(Calm()) ==> Calm()) && old(log) <= log
      ensures q == old(q).(devAvail := q.devAvail, usedIdx := q.usedIdx, answered := q.answered)
    {
      hide RunMoves, Fresh, Next;
      var n :| n >= 0;
      for i := 0 to n
        invariant Valid() && (old(Calm()) ==> Calm()) && old(log) <= log
        invariant q == old(q).(devAvail := q.devAvail, usedIdx := q.usedIdx, answered := q.answered)
      {
        DeviceReplies();
      }
    }

    /** The first write: the head of a chain goes into the available ring. */
    method WriteHead(flags: nat, ghost req: Request, ghost i: nat)
      requires Valid() && q.phase == Build(req, i, 0) && i < |req| && flags == FlagsFor(req, i) && nextIdx < desc.Length
      modifies `q, `log, avail
      ensures Valid() && (old(Calm()) ==> Calm()) && q == WriteStep(old(q), req, i, 0)
    {
      hide RunMoves, Fresh, Next, Slot;
      Tick(Write);
      if !IsChain(flags) {
        avail[Slot(availIdx, avail.Length)] := nextIdx;
      }
    }

    /** A write to the descriptor under construction. */
    method WriteDesc(d: Desc, ghost req: Request, ghost i: nat, ghost w: nat)
      requires Valid() && q.phase == Build(req, i, w) && i < |req| && 0 < w < 6 && nextIdx < desc.Length
      requires WriteStep(q, req, i, w).desc == q.desc[nextIdx := d]
      modifies `q, `log, desc
      ensures Valid() && (old(Calm()) ==> Calm()) && q == WriteStep(old(q), req, i, w) && desc[nextIdx] == d
    {
      hide RunMoves, Fresh, Next, Slot;
      Tick(Write);
      desc[nextIdx] := d;
    }

    /** The last two statements: on to the next descriptor, and publication unless the chain goes on. */
    method EndBuf(flags: nat, ghost req: Request, ghost i: nat)
      requires Valid() && q.phase == Build(req, i, 6) && i < |req| && flags == FlagsFor(req, i) && nextIdx < desc.Length
      modifies `q, `log, `nextIdx, `usedIdx, `devAvail, `availIdx
      ensures Valid() && (old(Calm()) ==> Calm())
      ensures if i + 1 < |req| then q.phase == Build(req, i + 1, 0) && q.published == old(q.published)
              else q.phase == Wait(req) && q.published == old(q.published) + [req]
    {
      hide RunMoves, Fresh, Next, Slot;
      Tick(Write);
      nextIdx := nextIdx + 1;
      DeviceActs();
      Tick(Write);
      if !HasNext(flags) {
        availIdx := Next(availIdx);
      }
    }

    /** Address, length and flags of the descriptor under construction, write by write. */
    method FillDesc(addr: int, len: int, flags: nat, ghost req: Request, ghost i: nat)
      requires Valid() && q.phase == Build(req, i, 1) && i < |req| && nextIdx < desc.Length
      requires req[i].addr == addr && req[i].len == len && flags == FlagsFor(req, i)
      modifies `q, `log, `usedIdx, `devAvail, desc
      ensures Valid() && (old(Calm()) ==> Calm()) && q.published == old(q.published) && q.phase == Build(req, i, 4)
    {
      hide RunMoves, Fresh, Next, Slot, FlagsFor, HasNext, IsChain, Visible, Calm;
      WriteDesc(desc[nextIdx].(addr := addr), req, i, 1);
      DeviceActs();
      WriteDesc(desc[nextIdx].(len := len), req, i, 2);
      DeviceActs();
      WriteDesc(desc[nextIdx].(flags := Visible(flags)), req, i, 3);
    }

    /** Its link to the next descriptor, in two writes. */
    method LinkDesc(ghost req: Request, ghost i: nat)
      requires Valid() && q.phase == Build(req, i, 4) && i < |req| && nextIdx < desc.Length
      modifies `q, `log, `usedIdx, `devAvail, desc
      ensures Valid() && (old(Calm()) ==> Calm()) && q.published == old(q.published) && q.phase == Build(req, i, 6)
    {
      hide RunMoves, Fresh, Next, Slot, FlagsFor, HasNext, IsChain, Visible, Calm;
      WriteDesc(desc[nextIdx].(next := nextIdx), req, i, 4);
      DeviceActs();
      WriteDesc(desc[nextIdx].(next := Next(desc[nextIdx].next)), req, i, 5);
    }

    /** Append buffer `i` of a request to the chain under construction, write by write. */
    method SendBuf(addr: int, len: int, flags: nat, ghost req: Request, ghost i: nat)
      requires Valid() && q.phase == Build(req, i, 0) && i < |req| && nextIdx < desc.Length
      requires req[i].addr == addr && req[i].len == len && flags == FlagsFor(req, i)
      modifies this, avail, desc
      ensures Valid() && (old(Calm()) ==> Calm())
      ensures if i + 1 < |req| then q.phase == Build(req, i + 1, 0) && q.published == old(q.published)
              else q.phase == Wait(req) && q.published == old(q.published) + [req]
    {
      hide RunMoves, Fresh, Next, Slot, FlagsFor, HasNext, IsChain, Visible, Calm;
      WriteHead(flags, req, i);
      DeviceActs();
      FillDesc(addr, len, flags, req, i);
      DeviceActs();
      LinkDesc(req, i);
      DeviceActs();
      EndBuf(flags, req, i);
    }

    /**
     * Look for a reply; with one, the descriptors are free again and the first is wiped.  The used index
     * is read once to compare it and once more to remember it.
     */
    method PollOnce() returns (updated: bool)
      requires Valid() && q.phase.Wait?
      modifies this, desc
      ensures Valid() && (old(Calm()) ==> Calm()) && q.published == old(q.published)
      ensures if updated then q.phase == Rest && nextIdx == 0
              else q.phase == old(q.phase) && nextIdx == old(nextIdx) && log == old(log) + [Poll]
    {
      hide RunMoves, Fresh, Next, Slot;
      updated := usedIdx != usedSeen;
      Tick(Poll);
      if updated {
        DeviceActs();
        Tick(Write);
        usedSeen := usedIdx;
        nextIdx := 0;
        Wipe();
      }
    }

    method Wipe()
      requires Valid() && q.phase == ClearLen
      modifies `q, `log, `usedIdx, `devAvail, desc
      ensures Valid() && (old(Calm()) ==> Calm()) && q.published == old(q.published) && q.phase == Rest
    {
      hide RunMoves, Fresh, Next, Slot;
      DeviceActs();
      Tick(Write);
      desc[0] := desc[0].(len := 0);
      DeviceActs();
      Tick(Write);
      desc[0] := desc[0].(flags := 0);
    }

    /** Poll at least once, until there is a reply or patience has run out. */
    method WaitReply(patience: nat) returns (timedOut: bool)
      requires Valid() && q.phase.Wait?
      modifies this, desc
      ensures Valid() && q.published == old(q.published) && q.phase == Rest
      ensures timedOut ==> |log| >= old(|log|) + 2 && log[|log| - 2] == Poll && log[|log| - 1] == Timeout
      ensures old(Calm()) ==> CalmUpTo(|log| - if timedOut then 1 else 0)
      ensures if timedOut then nextIdx == old(nextIdx) else nextIdx == 0
    {
      var polls := 0;
      while polls == 0 || polls < patience
        invariant Valid() && (old(Calm()) ==> Calm()) && q.published == old(q.published)
        invariant q.phase.Wait? && nextIdx == old(nextIdx)
        invariant polls > 0 ==> |log| > old(|log|) && log[|log| - 1] == Poll
        invariant |log| >= old(|log|)
        decreases patience + 1 - polls
      {
        hide RunMoves, Fresh, Next, Slot, Act, Calm;
        DeviceActs();
        var updated := PollOnce();
        if updated {
          return false;
        }
        polls := polls + 1;
      }
      hide RunMoves, Fresh;
      Tick(Timeout);
      return true;
    }

    /**
     * Send the commands up to the first that is not chained as one request, and wait.  One entry is
     * published; unless the wait times out the queue is ready for the next request at descriptor 0,
     * and every state on the way was safe for the device to look at.
     */
    method Run(cmds: seq<Cmd>, ghost req: Request, patience: nat) returns (timedOut: bool)
      requires Valid() && Calm() && q.phase == Rest && Names(cmds, req) && |req| <= desc.Length
      modifies this, avail, desc
      ensures Valid() && q.phase == Rest && q.published == old(q.published) + [req]
      ensures !timedOut ==> Calm() && nextIdx == 0
      ensures timedOut ==> nextIdx == |req|
      ensures forall k: nat :: k <= |log| - (if timedOut then 1 else 0) ==> Safe(RunMoves(start, log[..k]))
    {
      assert Shaped(start) && |start.desc| <= TWO16;
      hide RunMoves, Fresh, Next, Slot, Act, Safe;
      Open(req);
      var i := 0;
      var more := true;
      while more
        invariant 0 <= i <= |req| && (more ==> i < |req|)
        invariant Valid() && Calm()
        invariant if more then q.phase == Build(req, i, 0) && q.published == old(q.published)
                  else q.phase == Wait(req) && q.published == old(q.published) + [req]
        decreases |req| - i, more
      {
        NextFree(req, i);
        NamedFlags(cmds, req, i);
        SendBuf(cmds[i].data, cmds[i].size, cmds[i].flags + (if i > 0 then HIDDEN_IS_CHAIN else 0), req, i);
        more := HasNext(cmds[i].flags);
        i := i + 1;
      }
      AllSent(req);
      timedOut := WaitReply(patience);
      forall k: nat | k <= |log| - (if timedOut then 1 else 0)
        ensures Safe(RunMoves(start, log[..k]))
      {
        Sound(k);
      }
    }

    ghost method Open(req: Request)
      requires Valid() && Calm() && q.phase == Rest && |req| <= desc.Length
      modifies `q, `log
      ensures Valid() && Calm() && q == old(q).(phase := Build(req, 0, 0), begun := q.begun)
    {
      hide RunMoves, Fresh;
      Tick(Begin(req));
    }

    lemma NextFree(req: Request, i: nat)
      requires Valid() && Calm() && q.phase == Build(req, i, 0)
      ensures nextIdx == i < |req| <= desc.Length
    {
      Sound(|log|);
      assert log[..|log|] == log;
    }

    lemma AllSent(req: Request)
      requires Valid() && Calm() && q.phase == Wait(req)
      ensures nextIdx == |req|
    {
      Sound(|log|);
      assert log[..|log|] == log;
    }
  }
}
