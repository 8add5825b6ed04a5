/**
 * The network receive queue: 64 buffers that circulate for ever between driver and device through
 * two rings with 16-bit indices (VIRTIO 1.0, sections 2.4.6 and 2.4.8).  Driver statements and
 * device actions are separate steps; a run is any sequence of them.
 */
module ReceiveRing {
  import opened Bytes
  import opened RingIndex

  const BUFFERS := 64
  const HEADER: nat := 10

  datatype UsedElem = UsedElem(id: nat, len: nat)

  /** Where the driver is: posting the buffers at start-up, between calls, or inside a receive call. */
  datatype Pc =
    | Post(i: nat)
    | PostPublish(i: nat)
    | Idle
    | ReadLength(maxlen: int)
    | ReadId(maxlen: int, len: int)
    | Copy(maxlen: int, len: int, id: nat)
    | Recycle(id: nat)
    | RecyclePublish(id: nat)
    | Advance
    | Fault(maxlen: int)

  /** Who has a buffer: it waits in the available ring, the device has it, or it is used and unread. */
  datatype Owner = Listed(at: nat) | Held | Unread(at: nat)

  /** A buffer the device has finished with, and its bytes at that moment. */
  datatype Completion = Completion(id: nat, len: nat, bytes: seq<byte>)

  datatype Delivery = Delivery(maxlen: int, bytes: seq<byte>)

  datatype Writing = Nothing | Elem(id: nat, len: nat)

  datatype State = State(
    // shared: rings and memory
    desc: seq<int>, avail: seq<uint16>, availIdx: uint16, used: seq<UsedElem>, usedIdx: uint16,
    mem: map<int, seq<byte>>,
    // driver
    bufs: seq<int>, rxLast: uint16, pc: Pc,
    // device
    devAvail: uint16, held: set<nat>, writing: Writing,
    // history
    posted: seq<nat>, taken: nat, completed: seq<Completion>, delivered: seq<Delivery>, owner: seq<Owner>)

  datatype Action =
    | Driver(maxlen: int)
    | Take
    | Fill(id: nat, bytes: seq<byte>)
    | Answer(id: nat, len: nat)
    | Publish

  predicate Sized(s: State) {
    RingSize(|s.avail|) && 0 < |s.avail| && BUFFERS <= |s.avail| && |s.used| == |s.avail| == |s.desc| &&
      |s.bufs| == BUFFERS
  }

  /** The length a receive call computes; it is negative for less than a header, or a negative limit. */
  function Cut(c: Completion, maxlen: int): int {
    if c.len - HEADER > maxlen then maxlen else c.len - HEADER
  }

  /** The bytes that a receive call copies out of a completed buffer. */
  function Payload(c: Completion, maxlen: int): seq<byte>
    requires 0 <= Cut(c, maxlen) && c.len <= |c.bytes|
  {
    c.bytes[HEADER..HEADER + Cut(c, maxlen)]
  }

  // ---------- Driver statements ----------

  function PostBuffer(s: State, i: nat): State
    requires Sized(s) && i < BUFFERS
  {
    s.(avail := s.avail[Slot(s.availIdx, |s.avail|) := i], desc := s.desc[i := s.bufs[i]], pc := PostPublish(i))
  }

  function PublishPosted(s: State, i: nat): State {
    s.(availIdx := Next(s.availIdx), pc := if i + 1 < BUFFERS then Post(i + 1) else Idle,
       posted := s.posted + [i], owner := s.owner + [Listed(|s.posted|)])
  }

  function CheckUsed(s: State, maxlen: int): State {
    if s.rxLast == s.usedIdx then s else s.(pc := ReadLength(maxlen))
  }

  function TakeLength(s: State, maxlen: int): State
    requires Sized(s)
  {
    var len := s.used[Slot(s.rxLast, |s.used|)].len - HEADER;
    s.(pc := ReadId(maxlen, if len > maxlen then maxlen else len))
  }

  function TakeId(s: State, maxlen: int, len: int): State
    requires Sized(s)
  {
    s.(pc := Copy(maxlen, len, Slot(s.used[Slot(s.rxLast, |s.used|)].id, |s.used|)))
  }

  /** The copy runs away when the length is negative. */
  function CopyOut(s: State, maxlen: int, len: int, id: nat): State {
    if id < |s.desc| && s.desc[id] in s.mem && 0 <= len && HEADER + len <= |s.mem[s.desc[id]]| then
      s.(delivered := s.delivered + [Delivery(maxlen, s.mem[s.desc[id]][HEADER..HEADER + len])], pc := Recycle(id))
    else s.(pc := Fault(maxlen))
  }

  function Relist(s: State, id: nat): State
    requires Sized(s)
  {
    if id < TWO16 then s.(avail := s.avail[Slot(s.availIdx, |s.avail|) := id], pc := RecyclePublish(id)) else s
  }

  function PublishRelisted(s: State, id: nat): State {
    s.(availIdx := Next(s.availIdx), pc := Advance, posted := s.posted + [id],
       owner := if id < |s.owner| then s.owner[id := Listed(|s.posted|)] else s.owner)
  }

  function MoveOn(s: State): State {
    s.(rxLast := Next(s.rxLast), pc := Idle)
  }

  /** One driver statement; a step that is not possible changes nothing. */
  function DriverStep(s: State, maxlen: int): State
    requires Sized(s)
  {
    match s.pc
    case Post(i) => if i < BUFFERS then PostBuffer(s, i) else s
    case PostPublish(i) => PublishPosted(s, i)
    case Idle => CheckUsed(s, maxlen)
    case ReadLength(m) => TakeLength(s, m)
    case ReadId(m, len) => TakeId(s, m, len)
    case Copy(m, len, id) => CopyOut(s, m, len, id)
    case Recycle(id) => Relist(s, id)
    case RecyclePublish(id) => PublishRelisted(s, id)
    case Advance => MoveOn(s)
    case Fault(_) => s
  }

  // ---------- Device actions ----------

  /** Take the next available buffer. */
  function TakeNext(s: State): State
    requires Sized(s)
  {
    if s.devAvail == s.availIdx then s
    else
      var id := s.avail[Slot(s.devAvail, |s.avail|)];
      s.(held := s.held + {id}, devAvail := Next(s.devAvail), taken := s.taken + 1,
         owner := if id < |s.owner| then s.owner[id := Held] else s.owner)
  }

  /** Write any bytes into a buffer the device has, unless it has already reported it. */
  function FillBuffer(s: State, id: nat, bytes: seq<byte>): State {
    if id in s.held && id < |s.desc| && s.desc[id] in s.mem && |bytes| == |s.mem[s.desc[id]]| &&
       !(s.writing.Elem? && s.writing.id == id) then
      s.(mem := s.mem[s.desc[id] := bytes])
    else s
  }

  /** Write the used entry of any buffer the device has. */
  function WriteUsed(s: State, id: nat, len: nat): State
    requires Sized(s)
  {
    if id in s.held && id < |s.desc| && s.desc[id] in s.mem && len <= |s.mem[s.desc[id]]| && s.writing == Nothing then
      s.(used := s.used[Slot(s.usedIdx, |s.used|) := UsedElem(id, len)], writing := Elem(id, len))
    else s
  }

  /** Publish the used entry by advancing the index. */
  function PublishUsed(s: State): State {
    if s.writing.Elem? && s.writing.id < |s.desc| && s.desc[s.writing.id] in s.mem then
      var id := s.writing.id;
      s.(usedIdx := Next(s.usedIdx), held := s.held - {id}, writing := Nothing,
         completed := s.completed + [Completion(id, s.writing.len, s.mem[s.desc[id]])],
         owner := if id < |s.owner| then s.owner[id := Unread(|s.completed|)] else s.owner)
    else s
  }

  function DeviceStep(s: State, a: Action): State
    requires Sized(s) && !a.Driver?
  {
    match a
    case Take => TakeNext(s)
    case Fill(id, bytes) => FillBuffer(s, id, bytes)
    case Answer(id, len) => WriteUsed(s, id, len)
    case Publish => PublishUsed(s)
  }

  function Step(s: State, a: Action): State
    requires Sized(s)
  {
    if a.Driver? then DriverStep(s, a.maxlen) else DeviceStep(s, a)
  }

  lemma StepSized(s: State, a: Action)
    requires Sized(s)
    ensures Sized(Step(s, a))
  {
  }

  // ---------- The invariant ----------

  /** Receive calls that have copied their packet out but not yet listed the buffer again. */
  function Copying(s: State): nat {
    if s.pc.Recycle? || s.pc.RecyclePublish? then 1 else 0
  }

  /** Receive calls that have delivered but not yet moved the driver's index. */
  function Unmoved(s: State): nat {
    if s.pc.Advance? then 1 else Copying(s)
  }

  /** The first completion whose buffer has not been listed again. */
  function Unlisted(s: State): int {
    |s.delivered| - Copying(s)
  }

  ghost predicate Counts(s: State) {
    Sized(s) && Unmoved(s) <= |s.delivered| <= |s.completed| <= s.taken <= |s.posted| &&
    |s.posted| == |s.owner| + Unlisted(s) && |s.held| == s.taken - |s.completed| &&
    s.availIdx == Index(|s.posted|) && s.usedIdx == Index(|s.completed|) &&
    s.devAvail == Index(s.taken) && s.rxLast == Index(|s.delivered| - Unmoved(s)) &&
    |s.owner| <= BUFFERS && (!s.pc.Post? && !s.pc.PostPublish? ==> |s.owner| == BUFFERS)
  }

  /** Every published, untaken entry of the available ring still holds the buffer that was posted there. */
  ghost predicate AvailOk(s: State)
    requires Sized(s)
  {
    forall k :: s.taken <= k < |s.posted| ==>
      s.posted[k] < |s.owner| && s.avail[Slot(k, |s.avail|)] == s.posted[k] && s.owner[s.posted[k]] == Listed(k)
  }

  /** Every unread used entry still holds what the device wrote, and its buffer the bytes of that moment. */
  ghost predicate UsedOk(s: State)
    requires Sized(s)
  {
    forall k :: Unlisted(s) <= k < |s.completed| ==>
      0 <= k && var c := s.completed[k];
      c.id < |s.owner| <= |s.bufs| && s.owner[c.id] == Unread(k) &&
      s.used[Slot(k, |s.used|)] == UsedElem(c.id, c.len) &&
      s.bufs[c.id] in s.mem && s.mem[s.bufs[c.id]] == c.bytes
  }

  ghost predicate HeldOk(s: State) {
    forall id :: id in s.held <==> 0 <= id < |s.owner| && s.owner[id] == Held
  }

  /** No buffer is lost: one that is not with the device is at its place in one of the rings. */
  ghost predicate PlacedOk(s: State) {
    forall id :: 0 <= id < |s.owner| ==>
      match s.owner[id]
      case Listed(k) => s.taken <= k < |s.posted| && s.posted[k] == id
      case Unread(k) => Unlisted(s) <= k < |s.completed| && s.completed[k].id == id
      case Held => true
  }

  ghost predicate MemoryOk(s: State)
    requires Sized(s) && |s.owner| <= BUFFERS
  {
    (forall i :: 0 <= i < BUFFERS ==> s.bufs[i] in s.mem) &&
    (forall i, j :: 0 <= i < j < BUFFERS ==> s.bufs[i] != s.bufs[j]) &&
    (forall i :: 0 <= i < |s.owner| ==> s.desc[i] == s.bufs[i])
  }

  ghost predicate WritingOk(s: State)
    requires Sized(s) && |s.owner| <= BUFFERS
  {
    s.writing.Elem? ==>
      s.writing.id in s.held && s.writing.id < BUFFERS &&
      s.used[Slot(|s.completed|, |s.used|)] == UsedElem(s.writing.id, s.writing.len) &&
      s.bufs[s.writing.id] in s.mem && s.writing.len <= |s.mem[s.bufs[s.writing.id]]|
  }

  ghost predicate PcOk(s: State)
    requires Sized(s)
  {
    var d := |s.delivered|;
    match s.pc
    case Post(i) => i == |s.owner| < BUFFERS
    case PostPublish(i) => i == |s.owner| < BUFFERS && s.avail[Slot(|s.posted|, |s.avail|)] == i &&
      s.desc[i] == s.bufs[i]
    case Idle => true
    case ReadLength(m) => d < |s.completed|
    case ReadId(m, len) => d < |s.completed| && len == Cut(s.completed[d], m)
    case Copy(m, len, id) => d < |s.completed| && len == Cut(s.completed[d], m) && id == s.completed[d].id
    case Recycle(id) => 0 < d <= |s.completed| && id == s.completed[d - 1].id
    case RecyclePublish(id) => 0 < d <= |s.completed| && id == s.completed[d - 1].id &&
      s.avail[Slot(|s.posted|, |s.avail|)] == id
    case Advance => true
    case Fault(m) => d < |s.completed| && Cut(s.completed[d], m) < 0
  }

  /** Packets are delivered in the order of completion, each once, and each is the completed bytes. */
  ghost predicate InOrder(s: State) {
    |s.delivered| <= |s.completed| &&
    (forall k :: 0 <= k < |s.completed| ==> s.completed[k].len <= |s.completed[k].bytes|) &&
    forall j :: 0 <= j < |s.delivered| ==>
      0 <= Cut(s.completed[j], s.delivered[j].maxlen) &&
      s.delivered[j].bytes == Payload(s.completed[j], s.delivered[j].maxlen)
  }

  ghost predicate Inv(s: State) {
    Counts(s) && AvailOk(s) && UsedOk(s) && HeldOk(s) && MemoryOk(s) && WritingOk(s) && PcOk(s) && InOrder(s)
  }

  // ---------- Every step keeps it ----------

  lemma PostBufferKeeps(s: State, i: nat)
    requires Inv(s) && s.pc == Post(i)
    ensures Inv(PostBuffer(s, i))
  {
    hide Slot, Index, RingSize, Payload;
    FreeAvailSlot(s);
  }

  lemma PublishPostedKeeps(s: State, i: nat)
    requires Inv(s) && s.pc == PostPublish(i)
    ensures Inv(PublishPosted(s, i))
  {
    hide Slot, Index, RingSize, Payload, Next;
    NextIndex(|s.posted|);
  }

  /** The next slot of the available ring is none of those the device has still to read. */
  lemma FreeAvailSlot(s: State)
    requires Counts(s) && |s.posted| < s.taken + BUFFERS
    ensures Slot(s.availIdx, |s.avail|) == Slot(|s.posted|, |s.avail|)
    ensures forall k :: s.taken <= k < |s.posted| ==> Slot(k, |s.avail|) != Slot(|s.posted|, |s.avail|)
  {
    hide Slot, Index;
    SlotOfIndex(|s.posted|, |s.avail|);
    forall k | s.taken <= k < |s.posted|
      ensures Slot(k, |s.avail|) != Slot(|s.posted|, |s.avail|)
    {
      SlotsDiffer(k, |s.posted|, |s.avail|);
    }
  }

  lemma CheckUsedKeeps(s: State, maxlen: int)
    requires Inv(s) && s.pc == Idle
    ensures Inv(CheckUsed(s, maxlen))
  {
    hide Slot, Index, RingSize, Payload;
  }

  lemma TakeLengthKeeps(s: State, maxlen: int)
    requires Inv(s) && s.pc == ReadLength(maxlen)
    ensures Inv(TakeLength(s, maxlen))
  {
    hide Slot, Index, RingSize, Payload;
    SlotOfIndex(|s.delivered|, |s.used|);
  }

  lemma TakeIdKeeps(s: State, maxlen: int, len: int)
    requires Inv(s) && s.pc == ReadId(maxlen, len)
    ensures Inv(TakeId(s, maxlen, len))
  {
    hide Index, RingSize, Payload;
    SlotOfIndex(|s.delivered|, |s.used|);
    hide Slot;
    SmallSlot(s.completed[|s.delivered|].id, |s.used|);
  }

  lemma CopyOutInOrder(s: State, maxlen: int, len: int, id: nat)
    requires Inv(s) && s.pc == Copy(maxlen, len, id)
    ensures InOrder(CopyOut(s, maxlen, len, id)) && PcOk(CopyOut(s, maxlen, len, id))
  {
    hide Slot, Index, RingSize, AvailOk, HeldOk, WritingOk;
  }

  lemma CopyOutKeeps(s: State, maxlen: int, len: int, id: nat)
    requires Inv(s) && s.pc == Copy(maxlen, len, id)
    ensures Inv(CopyOut(s, maxlen, len, id))
  {
    hide Slot, Index, RingSize, Payload, InOrder;
    CopyOutInOrder(s, maxlen, len, id);
  }

  lemma RelistKeeps(s: State, id: nat)
    requires Inv(s) && s.pc == Recycle(id)
    ensures Inv(Relist(s, id))
  {
    hide Slot, Index, RingSize, Payload;
    FreeAvailSlot(s);
  }

  lemma PublishRelistedCounts(s: State, id: nat)
    requires Inv(s) && s.pc == RecyclePublish(id)
    ensures Counts(PublishRelisted(s, id)) && HeldOk(PublishRelisted(s, id))
  {
    hide AvailOk, WritingOk, MemoryOk, InOrder, Slot, Index, RingSize, Payload, Next;
    NextIndex(|s.posted|);
  }

  lemma PublishRelistedRings(s: State, id: nat)
    requires Inv(s) && s.pc == RecyclePublish(id) && Counts(PublishRelisted(s, id))
    ensures AvailOk(PublishRelisted(s, id)) && UsedOk(PublishRelisted(s, id))
  {
    hide HeldOk, WritingOk, MemoryOk, InOrder, Slot, Index, RingSize, Payload, Next;
  }

  lemma PublishRelistedKeeps(s: State, id: nat)
    requires Inv(s) && s.pc == RecyclePublish(id)
    ensures Inv(PublishRelisted(s, id))
  {
    hide UsedOk, AvailOk, HeldOk, Slot, Index, RingSize, Payload, Next;
    PublishRelistedCounts(s, id);
    PublishRelistedRings(s, id);
    NextIndex(|s.posted|);
  }

  lemma MoveOnKeeps(s: State)
    requires Inv(s) && s.pc == Advance
    ensures Inv(MoveOn(s))
  {
    hide Slot, Index, RingSize, Payload, Next;
    NextIndex(|s.delivered| - 1);
  }

  lemma TakeNextCounts(s: State)
    requires Inv(s)
    ensures Counts(TakeNext(s)) && HeldOk(TakeNext(s))
  {
    hide WritingOk, PcOk, InOrder, UsedOk, MemoryOk, Slot, Index, RingSize, Payload, Next;
    if s.devAvail != s.availIdx {
      NextIndex(s.taken);
      SlotOfIndex(s.taken, |s.avail|);
      assert s.posted[s.taken] !in s.held;
    }
  }

  lemma TakeNextRings(s: State)
    requires Inv(s) && Counts(TakeNext(s))
    ensures AvailOk(TakeNext(s)) && UsedOk(TakeNext(s))
  {
    hide WritingOk, PcOk, InOrder, HeldOk, MemoryOk, Slot, Index, RingSize, Payload, Next;
    if s.devAvail != s.availIdx {
      SlotOfIndex(s.taken, |s.avail|);
    }
  }

  lemma TakeNextKeeps(s: State)
    requires Inv(s)
    ensures Inv(TakeNext(s))
  {
    hide UsedOk, Slot, Index, RingSize, Payload, Next;
    TakeNextCounts(s);
    TakeNextRings(s);
    if s.devAvail != s.availIdx {
      NextIndex(s.taken);
      SlotOfIndex(s.taken, |s.avail|);
      assert s.posted[s.taken] !in s.held;
    }
  }

  lemma FillBufferKeeps(s: State, id: nat, bytes: seq<byte>)
    requires Inv(s)
    ensures Inv(FillBuffer(s, id, bytes))
  {
    hide Slot, Index, RingSize, Payload;
  }

  lemma WriteUsedKeeps(s: State, id: nat, len: nat)
    requires Inv(s)
    ensures Inv(WriteUsed(s, id, len))
  {
    hide Slot, Index, RingSize, Payload;
    if id in s.held {
      assert |s.held - {id}| == |s.held| - 1;
      SlotOfIndex(|s.completed|, |s.used|);
      forall k | 0 <= k && Unlisted(s) <= k < |s.completed|
        ensures Slot(k, |s.used|) != Slot(|s.completed|, |s.used|)
      {
        SlotsDiffer(k, |s.completed|, |s.used|);
      }
    }
  }

  lemma PublishUsedCounts(s: State)
    requires Inv(s)
    ensures Counts(PublishUsed(s)) && HeldOk(PublishUsed(s))
  {
    hide Slot, Index, RingSize, Payload, Next, AvailOk, UsedOk, MemoryOk, PcOk, InOrder;
    if s.writing.Elem? {
      assert |s.held - {s.writing.id}| == |s.held| - 1;
      NextIndex(|s.completed|);
    }
  }

  lemma PublishUsedRings(s: State)
    requires Inv(s) && Counts(PublishUsed(s))
    ensures AvailOk(PublishUsed(s)) && UsedOk(PublishUsed(s))
  {
    hide Slot, Index, RingSize, Payload, Next, PcOk, InOrder;
  }

  lemma PublishUsedKeeps(s: State)
    requires Inv(s)
    ensures Inv(PublishUsed(s))
  {
    hide Slot, Index, RingSize, Payload, Next, AvailOk, UsedOk;
    PublishUsedCounts(s);
    PublishUsedRings(s);
  }

  lemma StepKeeps(s: State, a: Action)
    requires Inv(s)
    ensures Inv(Step(s, a))
  {
    hide Counts, AvailOk, UsedOk, HeldOk, MemoryOk, WritingOk, InOrder, PostBuffer, PublishPosted, CheckUsed,
      TakeLength,
      TakeId, CopyOut, Relist, PublishRelisted, MoveOn, TakeNext, FillBuffer, WriteUsed, PublishUsed, PcOk;
    match a
    case Take => TakeNextKeeps(s);
    case Fill(id, bytes) => FillBufferKeeps(s, id, bytes);
    case Answer(id, len) => WriteUsedKeeps(s, id, len);
    case Publish => PublishUsedKeeps(s);
    case Driver(maxlen) =>
      match s.pc
      case Post(i) => PostBufferKeeps(s, i);
      case PostPublish(i) => PublishPostedKeeps(s, i);
      case Idle => CheckUsedKeeps(s, maxlen);
      case ReadLength(m) => TakeLengthKeeps(s, m);
      case ReadId(m, len) => TakeIdKeeps(s, m, len);
      case Copy(m, len, id) => CopyOutKeeps(s, m, len, id);
      case Recycle(id) => RelistKeeps(s, id);
      case RecyclePublish(id) => PublishRelistedKeeps(s, id);
      case Advance => MoveOnKeeps(s);
      case Fault(_) =>
  }

  lemma TakePlaced(s: State)
    requires Inv(s) && PlacedOk(s)
    ensures PlacedOk(TakeNext(s))
  {
    hide Slot, Index, RingSize, Payload, Next, UsedOk, MemoryOk, WritingOk, PcOk, InOrder, HeldOk;
    if s.devAvail != s.availIdx {
      SlotOfIndex(s.taken, |s.avail|);
      assert s.avail[Slot(s.devAvail, |s.avail|)] == s.posted[s.taken];
    }
  }

  lemma PublishPlaced(s: State)
    requires Inv(s) && PlacedOk(s)
    ensures PlacedOk(PublishUsed(s))
  {
    hide Slot, Index, RingSize, Payload, Next, AvailOk, UsedOk, MemoryOk, PcOk, InOrder;
  }

  lemma PostPlaced(s: State, i: nat)
    requires Inv(s) && PlacedOk(s) && s.pc == PostPublish(i)
    ensures PlacedOk(PublishPosted(s, i))
  {
    hide Slot, Index, RingSize, Payload, Next, AvailOk, UsedOk, HeldOk, MemoryOk, WritingOk, InOrder;
  }

  lemma RelistPlaced(s: State, id: nat)
    requires Inv(s) && PlacedOk(s) && s.pc == RecyclePublish(id)
    ensures PlacedOk(PublishRelisted(s, id))
  {
    hide Slot, Index, RingSize, Payload, Next, AvailOk, HeldOk, MemoryOk, WritingOk, InOrder;
  }

  lemma DriverPlaced(s: State, maxlen: int)
    requires Inv(s) && PlacedOk(s)
    ensures PlacedOk(DriverStep(s, maxlen))
  {
    hide Slot, Index, RingSize, Payload, Next, AvailOk, UsedOk, HeldOk, MemoryOk, WritingOk, InOrder, PcOk;
    match s.pc
    case PostPublish(i) => hide PlacedOk; PostPlaced(s, i);
    case RecyclePublish(id) => hide PlacedOk; RelistPlaced(s, id);
    case _ =>
  }

  lemma StepPlaced(s: State, a: Action)
    requires Inv(s) && PlacedOk(s)
    ensures PlacedOk(Step(s, a))
  {
    hide Inv;
    match a
    case Take => TakePlaced(s);
    case Publish => PublishPlaced(s);
    case Driver(maxlen) => DriverPlaced(s, maxlen);
    case Fill(id, bytes) =>
    case Answer(id, len) =>
  }

  // ---------- Whole runs ----------

  /** Nothing has been posted yet; the rings hold whatever they hold. */
  ghost predicate Begins(s: State) {
    Sized(s) && s.pc == Post(0) && s.availIdx == s.usedIdx == s.rxLast == s.devAvail == 0 &&
    s.held == {} && s.writing == Nothing && s.taken == 0 &&
    s.posted == [] && s.completed == [] && s.delivered == [] && s.owner == [] && MemoryOk(s)
  }

  function Run(s: State, actions: seq<Action>): (t: State)
    requires Sized(s)
    ensures Sized(t)
    decreases |actions|
  {
    if actions == [] then s
    else
      StepSized(s, actions[0]);
      Run(Step(s, actions[0]), actions[1..])
  }

  lemma {:induction false} RunKeeps(s: State, actions: seq<Action>)
    requires Inv(s) && PlacedOk(s)
    ensures Inv(Run(s, actions)) && PlacedOk(Run(s, actions))
    decreases |actions|
  {
    hide PlacedOk, AvailOk, UsedOk, HeldOk, MemoryOk, WritingOk, PcOk, InOrder, DriverStep, DeviceStep;
    if actions != [] {
      StepKeeps(s, actions[0]);
      StepPlaced(s, actions[0]);
      RunKeeps(Step(s, actions[0]), actions[1..]);
    }
  }

  lemma BeginsSound(s: State)
    requires Begins(s)
    ensures Inv(s) && PlacedOk(s)
  {
    hide Slot, RingSize, Payload, MemoryOk;
    assert Unlisted(s) == Unmoved(s) == 0 && Index(0) == 0;
    assert Counts(s);
  }

  lemma RunSound(s: State, actions: seq<Action>)
    requires Begins(s)
    ensures Inv(Run(s, actions)) && PlacedOk(Run(s, actions))
  {
    hide Inv, PlacedOk, Step;
    BeginsSound(s);
    RunKeeps(s, actions);
  }

  /** Whatever the interleaving, what has been delivered is, in order and once each, what was completed. */
  lemma DeliveredInOrder(s: State, actions: seq<Action>, j: nat)
    requires Begins(s)
    ensures var t := Run(s, actions);
      |t.delivered| <= |t.completed| &&
      (j < |t.delivered| ==>
        0 <= Cut(t.completed[j], t.delivered[j].maxlen) && t.completed[j].len <= |t.completed[j].bytes| &&
        t.delivered[j].bytes == Payload(t.completed[j], t.delivered[j].maxlen))
  {
    hide Slot, RingSize, Payload, Step;
    RunSound(s, actions);
  }

  /** An unread packet is never lost: its used entry and its buffer stay as the device left them. */
  lemma UnreadIntact(s: State, actions: seq<Action>, k: nat)
    requires Begins(s)
    ensures var t := Run(s, actions);
      |t.delivered| <= k < |t.completed| ==>
        var c := t.completed[k];
        t.used[Slot(k, |t.used|)] == UsedElem(c.id, c.len) &&
        c.id < |t.desc| && t.desc[c.id] in t.mem && t.mem[t.desc[c.id]] == c.bytes
  {
    hide Slot, RingSize, Payload, Step;
    RunSound(s, actions);
  }

  ghost predicate ListedAt(t: State, id: nat, k: nat)
    requires Sized(t)
  {
    t.taken <= k < |t.posted| && t.avail[Slot(k, |t.avail|)] == id
  }

  ghost predicate UnreadAt(t: State, id: nat, k: nat)
    requires Sized(t)
  {
    Unlisted(t) <= k < |t.completed| && t.used[Slot(k, |t.used|)].id == id
  }

  /**
   * Once the buffers are posted, each is always in exactly one place: at one position of the
   * available ring, with the device, or at one position of the used ring.
   */
  lemma BuffersPartitioned(s: State, actions: seq<Action>, id: nat)
    requires Begins(s) && id < BUFFERS && |Run(s, actions).owner| == BUFFERS
    ensures var t := Run(s, actions);
      Sized(t) &&
      ((exists k: nat :: ListedAt(t, id, k)) || id in t.held || (exists k: nat :: UnreadAt(t, id, k))) &&
      (forall k: nat :: ListedAt(t, id, k) ==>
        id !in t.held && (forall k': nat :: ListedAt(t, id, k') ==> k' == k) &&
          !exists k': nat :: UnreadAt(t, id, k')) &&
      (forall k: nat :: UnreadAt(t, id, k) ==> id !in t.held && forall k': nat :: UnreadAt(t, id, k') ==> k' == k)
  {
    hide Slot, RingSize, Payload, Step;
    RunSound(s, actions);
    var t := Run(s, actions);
    forall k: nat | ListedAt(t, id, k)
      ensures t.owner[id] == Listed(k)
    {
      assert t.posted[k] == id;
    }
    forall k: nat | UnreadAt(t, id, k)
      ensures t.owner[id] == Unread(k)
    {
      assert t.completed[k].id == id;
    }
    match t.owner[id]
    case Listed(k) => assert t.posted[k] == id; assert ListedAt(t, id, k);
    case Unread(k) => assert t.completed[k].id == id; assert UnreadAt(t, id, k);
    case Held =>
  }

  /**
   * Between calls the two 16-bit indices are 64 apart however often they have wrapped, and the
   * driver's index meets the device's exactly when nothing is pending.
   */
  lemma IdleIndices(s: State, actions: seq<Action>)
    requires Begins(s) && Run(s, actions).pc == Idle
    ensures var t := Run(s, actions);
      (t.availIdx as int - t.rxLast) % TWO16 == BUFFERS &&
      (t.rxLast == t.usedIdx <==> |t.delivered| == |t.completed|)
  {
    hide Slot, RingSize, Payload, Step, Index, AvailOk, UsedOk, HeldOk;
    RunSound(s, actions);
    var t := Run(s, actions);
    IndexGap(|t.delivered|, BUFFERS);
    IndexGap(|t.delivered|, |t.completed| - |t.delivered|);
  }

  /** The copy runs away exactly on a completion shorter than the header, or when the caller's limit is negative. */
  lemma FaultExactly(s: State, actions: seq<Action>, maxlen: int)
    requires Begins(s) && Run(s, actions).pc.Copy?
    ensures var t := Run(s, actions);
      |t.delivered| < |t.completed| &&
      (DriverStep(t, maxlen).pc.Fault? <==> t.completed[|t.delivered|].len < HEADER || t.pc.maxlen < 0)
  {
    hide Slot, RingSize, Payload, Step, AvailOk, HeldOk;
    RunSound(s, actions);
  }

  // ---------- A run that ends in a fault ----------

  /** `n` statements of the driver. */
  function Statements(n: nat): seq<Action> {
    if n == 0 then [] else [Driver(0)] + Statements(n - 1)
  }

  lemma RunFirst(s: State, a: Action, rest: seq<Action>)
    requires Sized(s)
    ensures Sized(Step(s, a)) && Run(s, [a] + rest) == Run(Step(s, a), rest)
  {
    hide Step;
    StepSized(s, a);
    assert ([a] + rest)[1..] == rest;
  }

  lemma {:induction false} RunBoth(s: State, a: seq<Action>, b: seq<Action>)
    requires Sized(s)
    ensures Run(s, a + b) == Run(Run(s, a), b)
    decreases |a|
  {
    hide Step;
    if a == [] {
      assert a + b == b;
    } else {
      assert (a + b)[0] == a[0] && (a + b)[1..] == a[1..] + b;
      StepSized(s, a[0]);
      RunBoth(Step(s, a[0]), a[1..], b);
    }
  }

  /** Posting the remaining buffers, undisturbed. */
  lemma {:induction false} PostsAll(s: State, i: nat)
    requires Sized(s) && s.pc == Post(i) && i < BUFFERS
    ensures var t := Run(s, Statements(2 * (BUFFERS - i)));
      t.pc == Idle && t.taken == s.taken && t.completed == s.completed && t.delivered == s.delivered &&
      t.writing == s.writing && t.mem == s.mem && t.bufs == s.bufs && |t.posted| == |s.posted| + BUFFERS - i
    decreases BUFFERS - i
  {
    var n := 2 * (BUFFERS - i);
    assert Statements(n) == [Driver(0)] + Statements(n - 1) && Statements(n - 1) == [Driver(0)] + Statements(n - 2);
    hide Statements, Run;
    RunFirst(s, Driver(0), Statements(n - 1));
    var s1 := Step(s, Driver(0));
    RunFirst(s1, Driver(0), Statements(n - 2));
    var s2 := Step(s1, Driver(0));
    if i + 1 < BUFFERS {
      PostsAll(s2, i + 1);
    } else {
      NoStatements(s2);
    }
  }

  lemma NoStatements(s: State)
    requires Sized(s)
    ensures Run(s, Statements(0)) == s
  {
  }

  /** The device answers with `len` bytes, and then a call with this limit is about to copy. */
  function Answering(id: nat, len: nat, maxlen: int): seq<Action> {
    [Take] + ([Answer(id, len)] + ([Publish] + ([Driver(maxlen)] + Statements(2))))
  }

  lemma OneAnswer(s: State, len: nat, maxlen: int)
    requires Inv(s) && s.pc == Idle && |s.delivered| == |s.completed| && s.taken < |s.posted| && s.writing == Nothing
    requires forall i :: 0 <= i < BUFFERS ==> s.bufs[i] in s.mem && len <= |s.mem[s.bufs[i]]|
    ensures var t := Run(s, Answering(s.posted[s.taken], len, maxlen));
      Inv(t) && t.pc.Copy? && t.pc.maxlen == maxlen && |t.delivered| == |s.delivered| < |t.completed| &&
      t.completed[|t.delivered|].len == len
  {
    var id := s.posted[s.taken];
    var s1, s2 := Step(s, Take), Step(Step(s, Take), Answer(id, len));
    var s3 := Step(s2, Publish);
    var s4 := Step(s3, Driver(maxlen));
    StepKeeps(s, Take);
    StepKeeps(s1, Answer(id, len));
    StepKeeps(s2, Publish);
    StepKeeps(s3, Driver(maxlen));
    Answered(s, len);
    Fetched(s3, maxlen);
    hide Inv, Step;
    RunFirst(s, Take, [Answer(id, len)] + ([Publish] + ([Driver(maxlen)] + Statements(2))));
    RunFirst(s1, Answer(id, len), [Publish] + ([Driver(maxlen)] + Statements(2)));
    RunFirst(s2, Publish, [Driver(maxlen)] + Statements(2));
    RunFirst(s3, Driver(maxlen), Statements(2));
  }

  /** Taking the next buffer that is listed. */
  lemma Taken(s: State)
    requires Inv(s) && s.taken < |s.posted|
    ensures var id := s.posted[s.taken];
      id < BUFFERS && s.desc[id] == s.bufs[id] && TakeNext(s).held == s.held + {id} &&
      TakeNext(s) == s.(held := s.held + {id}, devAvail := TakeNext(s).devAvail, taken := s.taken + 1,
        owner := TakeNext(s).owner)
  {
    hide Slot, Index, RingSize, Payload, Next, UsedOk, HeldOk, WritingOk, PcOk, InOrder;
    SlotOfIndex(s.taken, |s.avail|);
    IndexGap(s.taken, |s.posted| - s.taken);
  }

  lemma Answered(s: State, len: nat)
    requires Inv(s) && s.pc == Idle && s.taken < |s.posted| && s.writing == Nothing
    requires forall i :: 0 <= i < BUFFERS ==> s.bufs[i] in s.mem && len <= |s.mem[s.bufs[i]]|
    ensures var id := s.posted[s.taken];
      var t := Step(Step(Step(s, Take), Answer(id, len)), Publish);
      t.pc == Idle && t.delivered == s.delivered && |t.completed| == |s.completed| + 1 &&
        t.completed[|s.completed|].len == len
  {
    Taken(s);
    hide Inv, TakeNext, Slot;
  }

  lemma Fetched(s: State, maxlen: int)
    requires Inv(s) && s.pc == Idle && |s.completed| == |s.delivered| + 1
    ensures var t := Run(Step(s, Driver(maxlen)), Statements(2));
      Inv(t) && t.pc.Copy? && t.pc.maxlen == maxlen && t.delivered == s.delivered && t.completed == s.completed
  {
    IndexGap(|s.delivered|, 1);
    StepKeeps(s, Driver(maxlen));
    var s1 := Step(s, Driver(maxlen));
    assert s1.pc == ReadLength(maxlen);
    StepKeeps(s1, Driver(0));
    var s2 := Step(s1, Driver(0));
    StepKeeps(s2, Driver(0));
    assert Step(s2, Driver(0)).pc.Copy?;
    hide Inv, Step;
    assert Statements(2) == [Driver(0)] + ([Driver(0)] + []) by {
      assert Statements(1) == [Driver(0)] + Statements(0);
    }
    RunFirst(s1, Driver(0), [Driver(0)] + []);
    RunFirst(s2, Driver(0), []);
  }

  /** From start-up there is a run into either fault: a short completion, or a negative limit. */
  lemma FaultMet(s: State, len: nat, maxlen: int)
    requires Begins(s) && (len < HEADER || maxlen < 0)
    requires forall i :: 0 <= i < BUFFERS ==> s.bufs[i] in s.mem && len <= |s.mem[s.bufs[i]]|
    ensures exists actions ::
      Run(s, actions).pc.Copy? && Run(s, actions).pc.maxlen == maxlen &&
        DriverStep(Run(s, actions), 0).pc == Fault(maxlen)
  {
    hide Slot, RingSize, Payload, MemoryOk, Answering, Statements, Step;
    var posting := Statements(2 * BUFFERS);
    PostsAll(s, 0);
    RunSound(s, posting);
    var t := Run(s, posting);
    OneAnswer(t, len, maxlen);
    var answer := Answering(t.posted[t.taken], len, maxlen);
    RunBoth(s, posting, answer);
    var u := Run(t, answer);
    assert u == Run(s, posting + answer);
    assert u.pc.len < 0;
  }
}
