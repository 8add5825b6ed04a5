/**
 * The receive queue as the driver runs it: arrays for the rings, one index field each, and a
 * device that may act between any two driver statements.  Ghost state records the run, so that
 * everything shown in ReceiveRing.dfy about runs holds here after every call.
 */
module ReceiveQueue {
  import opened Bytes
  import opened RingIndex
  import opened ReceiveRing

  lemma {:induction false} RunMore(s: State, actions: seq<Action>, a: Action)
    requires Sized(s)
    ensures Run(s, actions + [a]) == Step(Run(s, actions), a)
    decreases |actions|
  {
    if actions == [] {
      assert [a][1..] == [];
      assert Run(Step(s, a), []) == Step(s, a);
    } else {
      assert (actions + [a])[1..] == actions[1..] + [a];
      StepSized(s, actions[0]);
      RunMore(Step(s, actions[0]), actions[1..], a);
    }
  }

  class Queue {
    const desc: array<int>
    const avail: array<uint16>
    var availIdx: uint16
    const used: array<UsedElem>
    var usedIdx: uint16
    var mem: map<int, seq<byte>>
    const bufs: seq<int>
    var rxLast: uint16
    // the device's own registers
    var devAvail: uint16
    var held: set<nat>
    var writing: Writing

    ghost const start: State
    ghost var log: seq<Action>
    ghost var s: State

    /** The real fields are those of the recorded state, and the recorded state is that of the recorded run. */
    ghost predicate Valid()
      reads this, desc, avail, used
    {
      desc as object != avail && desc as object != used && avail as object != used &&
      Begins(start) && s == Run(start, log) &&
      s.desc == desc[..] && s.avail == avail[..] && s.availIdx == availIdx && s.used == used[..] &&
      s.usedIdx == usedIdx && s.mem == mem && s.bufs == bufs && s.rxLast == rxLast &&
      s.devAvail == devAvail && s.held == held && s.writing == writing
    }

    /** Empty rings of `num` slots, and 64 buffers at different addresses. */
    constructor (num: nat, bufs: seq<int>, mem: map<int, seq<byte>>)
      requires RingSize(num) && num >= BUFFERS && |bufs| == BUFFERS
      requires forall i :: 0 <= i < BUFFERS ==> bufs[i] in mem
      requires forall i, j :: 0 <= i < j < BUFFERS ==> bufs[i] != bufs[j]
      ensures Valid() && s == start && fresh(desc) && fresh(avail) && fresh(used) && this.bufs == bufs
    {
      var d := new int[num](_ => 0);
      var a := new uint16[num](_ => 0);
      var u := new UsedElem[num](_ => UsedElem(0, 0));
      desc, avail, used := d, a, u;
      this.bufs := bufs;
      this.mem := mem;
      availIdx, usedIdx, rxLast, devAvail := 0, 0, 0, 0;
      held := {};
      writing := Nothing;
      ghost var s0 := State(d[..], a[..], 0, u[..], 0, mem, bufs, 0, Post(0), 0, {}, Nothing, [], 0, [], [], []);
      start, s, log := s0, s0, [];
    }

    /** Post the 64 receive buffers. */
    method PostBuffers()
      requires Valid() && s.pc == Post(0)
      modifies this, desc, used, avail
      ensures Valid() && s.pc == Idle
    {
      hide Valid;
      for i := 0 to BUFFERS
        invariant Valid() && s.pc == if i < BUFFERS then Post(i) else Idle
      {
        DeviceActs();
        WritePosted(i);
        DeviceActs();
        PublishPost(i);
      }
    }

    method WritePosted(i: nat)
      requires Valid() && s.pc == Post(i) && i < BUFFERS
      modifies `s, `log, avail, desc
      ensures Valid() && s.pc == PostPublish(i)
    {
      hide Run, Slot, RingSize, MemoryOk;
      Tick(0);
      avail[Slot(availIdx, avail.Length)] := i;
      desc[i] := bufs[i];
    }

    method PublishPost(i: nat)
      requires Valid() && s.pc == PostPublish(i)
      modifies `s, `log, `availIdx
      ensures Valid() && s.pc == if i + 1 < BUFFERS then Post(i + 1) else Idle
    {
      hide Run, Slot, RingSize, MemoryOk, Next;
      Tick(0);
      availIdx := Next(availIdx);
    }

    /** One device action. */
    method DeviceAct(a: Action)
      requires Valid() && !a.Driver?
      modifies this, used
      ensures Valid() && s == DeviceStep(old(s), a)
    {
      hide Run, Slot, RingSize, MemoryOk, Begins, Next;
      TickDevice(a);
      match a {
        case Take =>
          if devAvail != availIdx {
            var id := avail[Slot(devAvail, avail.Length)];
            held := held + {id};
            devAvail := Next(devAvail);
          }
        case Fill(id, bytes) =>
          if id in held && id < desc.Length && desc[id] in mem && |bytes| == |mem[desc[id]]| &&
             !(writing.Elem? && writing.id == id) {
            mem := mem[desc[id] := bytes];
          }
        case Answer(id, len) =>
          if id in held && id < desc.Length && desc[id] in mem && len <= |mem[desc[id]]| && writing == Nothing {
            used[Slot(usedIdx, used.Length)] := UsedElem(id, len);
            writing := Elem(id, len);
          }
        case Publish =>
          if writing.Elem? && writing.id < desc.Length && desc[writing.id] in mem {
            usedIdx := Next(usedIdx);
            held := held - {writing.id};
            writing := Nothing;
          }
      }
    }

    /** The device acts any number of times, in any way it can. */
    method DeviceActs()
      requires Valid()
      modifies this, used
      ensures Valid() && Undisturbed(old(s), s)
    {
      hide Run, Slot, RingSize, Begins, DeviceStep;
      var n :| n >= 0;
      for i := 0 to n
        invariant Valid() && Undisturbed(old(s), s)
      {
        var a: Action := *;
        if !a.Driver? {
          DeviceLeaves(s, a);
          DeviceAct(a);
        }
      }
    }

    /** Note in the recorded run what the device does. */
    ghost method TickDevice(a: Action)
      requires Begins(start) && s == Run(start, log) && !a.Driver?
      modifies `s, `log
      ensures Sized(old(s)) && s == DeviceStep(old(s), a) && s == Run(start, log)
    {
      hide Run, Slot, RingSize, MemoryOk, Next, DeviceStep;
      RunMore(start, log, a);
      s := DeviceStep(s, a);
      log := log + [a];
    }

    /** Note in the recorded run that the driver has executed its next statement. */
    ghost method Tick(maxlen: int)
      requires Begins(start) && s == Run(start, log)
      modifies `s, `log
      ensures s == DriverStep(old(s), maxlen) && s == Run(start, log)
    {
      RunMore(start, log, Driver(maxlen));
      s := DriverStep(s, maxlen);
      log := log + [Driver(maxlen)];
    }

    /**
     * Receive one packet.  With nothing pending the call returns at once; otherwise it delivers the
     * next completed packet and hands its buffer back.  It runs away exactly when the completion is
     * shorter than a header or the caller's limit is negative.
     */
    method Recv(maxlen: int) returns (fault: bool, data: seq<byte>)
      requires Valid() && s.pc == Idle
      modifies this, used, avail
      ensures Valid()
      ensures if fault then s.pc == Fault(maxlen) else s.pc == Idle
      ensures old(rxLast == usedIdx) ==> !fault && data == [] && s.delivered == old(s.delivered)
      ensures old(rxLast != usedIdx) ==>
        var d := |old(s.delivered)|;
        old(s.completed) <= s.completed && d < |old(s.completed)| && s.completed[d].len <= |s.completed[d].bytes| &&
        if s.completed[d].len < HEADER || maxlen < 0 then fault && s.delivered == old(s.delivered)
        else
          !fault && data == Payload(s.completed[d], maxlen) &&
          s.delivered == old(s.delivered) + [Delivery(maxlen, data)]
    {
      hide Run, Slot, RingSize, Begins, Payload, DriverStep, Index, AvailOk, UsedOk, HeldOk, MemoryOk, WritingOk, Next,
        PcOk, InOrder;
      fault, data := false, [];
      if rxLast == usedIdx {
        return;
      }
      Pending();
      var id;
      fault, data, id := FetchPacket(maxlen);
      if !fault {
        ReturnBuffer(id);
      }
      Delivered(|old(s.delivered)|);
    }

    lemma Pending()
      requires Valid() && s.pc == Idle && rxLast != usedIdx
      ensures |s.delivered| < |s.completed|
    {
      hide Run, Slot, RingSize, Index, AvailOk, UsedOk, HeldOk, MemoryOk, WritingOk, InOrder;
      Sound();
    }

    /** The outcome of the call for completion `d`, read off the recorded state. */
    lemma Delivered(d: nat)
      requires Valid() && d < |s.completed|
      ensures s.completed[d].len <= |s.completed[d].bytes|
      ensures d < |s.delivered| ==>
        0 <= Cut(s.completed[d], s.delivered[d].maxlen) &&
        s.delivered[d].bytes == Payload(s.completed[d], s.delivered[d].maxlen)
      ensures s.pc.Fault? && d == |s.delivered| ==> Cut(s.completed[d], s.pc.maxlen) < 0
    {
      hide Run, Slot, RingSize, Index, AvailOk, UsedOk, HeldOk, MemoryOk, WritingOk, Payload;
      Sound();
    }

    /** From the check to the copy. */
    method FetchPacket(maxlen: int) returns (fault: bool, data: seq<byte>, id: nat)
      requires Valid() && s.pc == Idle && rxLast != usedIdx
      modifies this, used
      ensures Valid() && old(s.completed) <= s.completed
      ensures if fault then s.pc == Fault(maxlen) && s.delivered == old(s.delivered)
              else s.pc == Recycle(id) && s.delivered == old(s.delivered) + [Delivery(maxlen, data)]
    {
      hide Valid;
      Start(maxlen);
      DeviceActs();
      var len := ReadLen(maxlen);
      DeviceActs();
      id := ReadBufferId(maxlen, len);
      DeviceActs();
      fault, data := CopyPacket(maxlen, len, id);
    }

    /** List the buffer again and move on. */
    method ReturnBuffer(id: nat)
      requires Valid() && s.pc == Recycle(id)
      modifies this, used, avail
      ensures Valid() && old(s.completed) <= s.completed && s.delivered == old(s.delivered) && s.pc == Idle
    {
      hide Valid;
      DeviceActs();
      ListBuffer(id);
      DeviceActs();
      PublishBuffer(id);
      DeviceActs();
      AdvanceIndex();
    }

    lemma Sound()
      requires Valid()
      ensures Inv(s)
    {
      RunSound(start, log);
    }

    /** There is something to receive. */
    ghost method Start(maxlen: int)
      requires Valid() && s.pc == Idle && rxLast != usedIdx
      modifies `s, `log
      ensures Valid() && s == old(s).(pc := ReadLength(maxlen))
    {
      hide Run, Slot, RingSize, MemoryOk;
      Tick(maxlen);
    }

    method ReadLen(maxlen: int) returns (len: int)
      requires Valid() && s.pc == ReadLength(maxlen)
      modifies `s, `log
      ensures Valid() && s == TakeLength(old(s), maxlen) && s.pc == ReadId(maxlen, len)
    {
      hide Run, Slot, RingSize, MemoryOk;
      Tick(0);
      len := used[Slot(rxLast, used.Length)].len - HEADER;
      if len > maxlen {
        len := maxlen;
      }
    }

    method ReadBufferId(maxlen: int, len: int) returns (id: nat)
      requires Valid() && s.pc == ReadId(maxlen, len)
      modifies `s, `log
      ensures Valid() && s == TakeId(old(s), maxlen, len) && s.pc == Copy(maxlen, len, id)
    {
      hide Run, Slot, RingSize, MemoryOk;
      Tick(0);
      id := Slot(used[Slot(rxLast, used.Length)].id, used.Length);
    }

    /** Copy the packet out; a negative length makes the copy run away. */
    method CopyPacket(maxlen: int, len: int, id: nat) returns (fault: bool, data: seq<byte>)
      requires Valid() && s.pc == Copy(maxlen, len, id)
      modifies `s, `log
      ensures Valid() && s == CopyOut(old(s), maxlen, len, id)
      ensures if fault then s.pc == Fault(maxlen) && s.delivered == old(s.delivered)
              else s.pc == Recycle(id) && s.delivered == old(s.delivered) + [Delivery(maxlen, data)]
    {
      hide Run, Slot, RingSize, Index, AvailOk, HeldOk, WritingOk, Payload;
      Sound();
      Tick(0);
      fault, data := len < 0, [];
      if !fault {
        data := mem[desc[id]][HEADER..HEADER + len];
      }
    }

    method ListBuffer(id: nat)
      requires Valid() && s.pc == Recycle(id)
      modifies `s, `log, avail
      ensures Valid() && s == Relist(old(s), id) && s.pc == RecyclePublish(id)
    {
      hide Run, Slot, RingSize, Index, AvailOk, HeldOk, WritingOk, InOrder;
      Sound();
      Tick(0);
      avail[Slot(availIdx, avail.Length)] := id;
    }

    method PublishBuffer(id: nat)
      requires Valid() && s.pc == RecyclePublish(id)
      modifies `s, `log, `availIdx
      ensures Valid() && s == PublishRelisted(old(s), id)
    {
      hide Run, Slot, RingSize, MemoryOk, Next;
      Tick(0);
      availIdx := Next(availIdx);
    }

    method AdvanceIndex()
      requires Valid() && s.pc == Advance
      modifies `s, `log, `rxLast
      ensures Valid() && s == MoveOn(old(s))
    {
      hide Run, Slot, RingSize, MemoryOk, Next;
      Tick(0);
      rxLast := Next(rxLast);
    }
  }

  /** What a device action leaves alone. */
  ghost predicate Undisturbed(before: State, after: State) {
    after.pc == before.pc && after.desc == before.desc && after.avail == before.avail &&
    after.availIdx == before.availIdx && after.bufs == before.bufs && after.rxLast == before.rxLast &&
    after.posted == before.posted && after.delivered == before.delivered && before.completed <= after.completed
  }

  lemma DeviceLeaves(s: State, a: Action)
    requires Sized(s) && !a.Driver?
    ensures Undisturbed(s, DeviceStep(s, a))
  {
  }
}
