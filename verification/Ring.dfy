/** The two single-producer, single-consumer rings as one protocol of atomic steps: the message ring shared with user
    space (`send_msg_by_mmap`, `share_mem_tool::read_data`) and the per-CPU record ring (`write_ring_buffer`,
    `read_ring_buffer`). Cells are bytes in the first and 64-bit words in the second. */
module Ring {
  import opened Arithmetic

  type Cell = int
  type Message = seq<Cell>

  /** `first` is the initial write index, the initial read index is one less; with `first` 0 the read index starts at
      -1. `early` says that the consumer publishes its new index before it copies the slot. */
  datatype Shape = Shape(slots: nat, width: nat, first: nat, early: bool) {
    predicate Valid() { slots >= 2 && first <= 1 }
  }

  const MEMDEV_SIZE := 1024 * 1024 * 4 * 6
  const MESSAGE_SIZE := 8 * 3 + 16 + 4 + 18 * 8 + 16 + 6 + 200 + 20
  const MESSAGE_SLOTS := (MEMDEV_SIZE - 8) / MESSAGE_SIZE
  const RECORD_WORDS := 312 / 8
  const RECORD_SLOTS := 512

  const MESSAGE_RING := Shape(MESSAGE_SLOTS, MESSAGE_SIZE, 1, true)
  const RECORD_RING := Shape(RECORD_SLOTS, RECORD_WORDS, 0, false)

  // Every slot of the message ring lies inside the mapped region, after the two 4-byte indices.
  lemma {:induction false} MessageSlotsInRegion(slot: nat)
    requires slot < MESSAGE_SLOTS
    ensures MESSAGE_SIZE == 430 && MESSAGE_SLOTS == 58525
    ensures 8 <= 8 + slot * MESSAGE_SIZE && 8 + slot * MESSAGE_SIZE + MESSAGE_SIZE <= MEMDEV_SIZE
  {
  }

  /** Records of different CPUs or different slots share no word. */
  lemma RecordSlotsDisjoint(cpu: nat, slot: nat, word: nat, cpu': nat, slot': nat, word': nat)
    requires slot < RECORD_SLOTS && slot' < RECORD_SLOTS && word < RECORD_WORDS && word' < RECORD_WORDS
    requires cpu * (312 * 512 / 8) + slot * 312 / 8 + word == cpu' * (312 * 512 / 8) + slot' * 312 / 8 + word'
    ensures cpu == cpu' && slot == slot' && word == word'
  {
    assert slot * 312 / 8 == slot * 39 && slot' * 312 / 8 == slot' * 39;
  }

  // ---------------------------------------------------------------------------------------------
  // State
  // ---------------------------------------------------------------------------------------------

  datatype Producer = PIdle | Filling(msg: Message, done: nat)

  datatype Consumer = CIdle | Ready | Copying(slot: int, buffer: Message)

  /** The shared cells and the two program counters, then the history: unbounded write and read positions, the
      positions each side has last loaded from the other, and the messages accepted and returned so far. */
  datatype State = State(mem: seq<Cell>, writeIndex: int, readIndex: int,
                         producer: Producer, consumer: Consumer,
                         written: int, read: int, seenWritten: int, seenRead: int,
                         sent: seq<Message>, received: seq<Message>)

  /** The cell that stands for read position `p`. */
  function ReadCell(r: Shape, p: int): int
    requires r.Valid()
  {
    if p < 0 then p else p % r.slots
  }

  /** `(w + 1) % n == r` */
  predicate FullTest(r: Shape, writeIndex: int, readCell: int)
    requires r.Valid()
  {
    (writeIndex + 1) % r.slots == readCell
  }

  /** `(r + 1) % n == w` */
  predicate EmptyTest(r: Shape, readIndex: int, writeCell: int)
    requires r.Valid()
  {
    (readIndex + 1) % r.slots == writeCell
  }

  predicate Init(r: Shape, s: State)
    requires r.Valid()
  {
    && |s.mem| == r.slots * r.width
    && s.writeIndex == s.written == s.seenWritten == r.first
    && s.readIndex == s.read == s.seenRead == r.first - 1
    && s.producer == PIdle && s.consumer == CIdle
    && s.sent == [] && s.received == []
  }

  // ---------------------------------------------------------------------------------------------
  // Steps. A load of the other side's index may be stale: it yields any position between the last one loaded and
  // the current one.
  // ---------------------------------------------------------------------------------------------

  /** The producer loads `readIndex` as of position `p` and refuses the message or starts copying it. */
  predicate BeginSend(r: Shape, s: State, t: State, msg: Message, p: int, ok: bool)
    requires r.Valid()
  {
    && s.producer == PIdle && |msg| == r.width
    && s.seenRead <= p <= s.read
    && ok == !FullTest(r, s.writeIndex, ReadCell(r, p))
    && t == s.(seenRead := p, producer := if ok then Filling(msg, 0) else PIdle)
  }

  /** `judge_message_struct_full`: the same load and test without a message. */
  predicate JudgeFull(r: Shape, s: State, t: State, p: int, full: bool)
    requires r.Valid()
  {
    && s.producer == PIdle
    && s.seenRead <= p <= s.read
    && full == FullTest(r, s.writeIndex, ReadCell(r, p))
    && t == s.(seenRead := p)
  }

  predicate StoreCell(r: Shape, s: State, t: State) {
    && s.producer.Filling? && s.producer.done < r.width && |s.producer.msg| == r.width
    && var k := s.producer.done;
    var a := s.writeIndex * r.width + k;
    && 0 <= a < |s.mem|
    && t == s.(mem := s.mem[a := s.producer.msg[k]], producer := Filling(s.producer.msg, k + 1))
  }

  predicate PublishWrite(r: Shape, s: State, t: State)
    requires r.Valid()
  {
    && s.producer.Filling? && s.producer.done == r.width
    && t == s.(writeIndex := (s.writeIndex + 1) % r.slots, written := s.written + 1,
               sent := s.sent + [s.producer.msg], producer := PIdle)
  }

  /** The consumer loads `writeIndex` as of position `p`. */
  predicate BeginRead(r: Shape, s: State, t: State, p: int, ok: bool)
    requires r.Valid()
  {
    && s.consumer == CIdle
    && s.seenWritten <= p <= s.written
    && ok == !EmptyTest(r, s.readIndex, p % r.slots)
    && t == s.(seenWritten := p, consumer := if ok then Ready else CIdle)
  }

  /** An early consumer publishes its new index now, a late one only notes the slot. */
  predicate ChooseSlot(r: Shape, s: State, t: State)
    requires r.Valid()
  {
    && s.consumer == Ready
    && var slot := (s.readIndex + 1) % r.slots;
    t == if r.early then s.(readIndex := slot, read := s.read + 1, consumer := Copying(slot, []))
         else s.(consumer := Copying(slot, []))
  }

  predicate CopyCell(r: Shape, s: State, t: State) {
    && s.consumer.Copying? && |s.consumer.buffer| < r.width
    && var a := s.consumer.slot * r.width + |s.consumer.buffer|;
    && 0 <= a < |s.mem|
    && t == s.(consumer := Copying(s.consumer.slot, s.consumer.buffer + [s.mem[a]]))
  }

  predicate EndRead(r: Shape, s: State, t: State) {
    && s.consumer.Copying? && |s.consumer.buffer| == r.width
    && var u := s.(consumer := CIdle, received := s.received + [s.consumer.buffer]);
    t == if r.early then u else u.(readIndex := s.consumer.slot, read := s.read + 1)
  }

  ghost predicate Next(r: Shape, s: State, t: State)
    requires r.Valid()
  {
    || (exists msg, p, ok :: BeginSend(r, s, t, msg, p, ok))
    || (exists p, full :: JudgeFull(r, s, t, p, full))
    || StoreCell(r, s, t)
    || PublishWrite(r, s, t)
    || (exists p, ok :: BeginRead(r, s, t, p, ok))
    || ChooseSlot(r, s, t)
    || CopyCell(r, s, t)
    || EndRead(r, s, t)
  }

  /** With the read index still at -1 the full test never fires; the record ring relies on no more than
      `slots - 1` records being written until the producer has seen a first read. */
  predicate FewBeforeFirstRead(r: Shape, s: State) {
    s.producer.Filling? && s.seenRead < 0 ==> s.written + 1 <= r.slots - 1
  }

  // ---------------------------------------------------------------------------------------------
  // The invariant
  // ---------------------------------------------------------------------------------------------

  function SlotAt(r: Shape, mem: seq<Cell>, slot: int): Message
    requires 0 <= slot * r.width <= slot * r.width + r.width <= |mem|
  {
    mem[slot * r.width..slot * r.width + r.width]
  }

  /** The largest write position allowed when the producer last saw read position `p`. */
  function Limit(r: Shape, p: int): int {
    if p < 0 then r.slots - 1 else p + r.slots - 1
  }

  /** The position being copied, or the last one delivered. */
  function Current(r: Shape, s: State): int {
    if r.early then s.read else s.read + 1
  }

  predicate InMemory(r: Shape, s: State, p: int)
    requires r.Valid() && |s.mem| == r.slots * r.width && r.first <= p < r.first + |s.sent|
  {
    Bounds(r, p % r.slots);
    |s.sent[p - r.first]| == r.width && SlotAt(r, s.mem, p % r.slots) == s.sent[p - r.first]
  }

  lemma Bounds(r: Shape, slot: int)
    requires 0 <= slot < r.slots
    ensures 0 <= slot * r.width <= slot * r.width + r.width <= r.slots * r.width
  {
    assert slot * r.width + r.width == (slot + 1) * r.width;
    assert (slot + 1) * r.width <= r.slots * r.width;
  }

  predicate Counters(r: Shape, s: State)
    requires r.Valid()
  {
    && |s.mem| == r.slots * r.width
    && s.writeIndex == s.written % r.slots && s.readIndex == ReadCell(r, s.read)
    && |s.sent| == s.written - r.first
    && r.first - 1 <= s.seenRead <= s.read
    && s.read + 1 <= s.seenWritten <= s.written
    && s.written <= Limit(r, s.seenRead)
    && |s.received| == s.read - r.first + 1 - (if r.early && s.consumer.Copying? then 1 else 0)
  }

  predicate ProducerOk(r: Shape, s: State)
    requires r.Valid() && Counters(r, s)
  {
    s.producer.Filling? ==>
      && s.written + 1 <= Limit(r, s.seenRead)
      && |s.producer.msg| == r.width && s.producer.done <= r.width
      && (Bounds(r, s.writeIndex);
          SlotAt(r, s.mem, s.writeIndex)[..s.producer.done] == s.producer.msg[..s.producer.done])
  }

  predicate ConsumerOk(r: Shape, s: State)
    requires r.Valid() && Counters(r, s)
  {
    && (s.consumer == Ready ==> s.seenWritten >= s.read + 2)
    && (s.consumer.Copying? ==>
          var p := Current(r, s);
          && r.first <= p < s.seenWritten
          && s.consumer.slot == p % r.slots
          && |s.consumer.buffer| <= r.width
          && InMemory(r, s, p)
          && s.consumer.buffer == s.sent[p - r.first][..|s.consumer.buffer|])
  }

  ghost predicate Inv(r: Shape, s: State)
    requires r.Valid()
  {
    && Counters(r, s)
    && ProducerOk(r, s)
    && ConsumerOk(r, s)
    && (forall p :: s.read < p < s.written ==> InMemory(r, s, p))
    && s.received == s.sent[..|s.received|]
  }

  lemma ModSuccessor(a: int, n: nat)
    requires n > 0
    ensures (a % n + 1) % n == (a + 1) % n
  {
    ModPeriodic(a % n + 1, a / n, n);
    assert a + 1 == a % n + 1 + a / n * n;
  }

  lemma DifferenceMod(a: int, b: int, n: nat)
    requires n > 0
    ensures (a % n - b % n - 1) % n == (a - b - 1) % n
  {
    var q, q' := a / n, b / n;
    assert a % n == a - q * n && b % n == b - q' * n;
    MulDistributes(q', q, n);
    ModPeriodic(a - b - 1, q' - q, n);
  }

  /** Positions less than a ring apart use different slots. */
  lemma SlotsDiffer(a: int, b: int, n: nat)
    requires n > 0 && a < b < a + n
    ensures a % n != b % n
  {
    var q, q' := a / n, b / n;
    if q < q' {
      MulStep(q, q', n);
    } else if q' < q {
      MulStep(q', q, n);
    }
  }

  // ---------------------------------------------------------------------------------------------
  // What the two tests decide
  // ---------------------------------------------------------------------------------------------

  /** The unread count, read off the two indices. */
  lemma UnreadCount(r: Shape, s: State)
    requires r.Valid() && Counters(r, s) && s.read >= 0
    ensures 0 <= s.written - s.read - 1 <= r.slots - 2
    ensures (s.writeIndex - s.readIndex - 1) % r.slots == s.written - s.read - 1
  {
    DifferenceMod(s.written, s.read, r.slots);
    SmallMod(s.written - s.read - 1, r.slots);
  }

  /** The producer is refused exactly when the loaded read position shows `slots - 2` unread messages; an index still
      at -1 never refuses. */
  lemma RefusalExact(r: Shape, s: State, p: int)
    requires r.Valid() && Counters(r, s) && s.seenRead <= p <= s.read
    ensures FullTest(r, s.writeIndex, ReadCell(r, p)) <==> p >= 0 && s.written - p - 1 == r.slots - 2
  {
    var n := r.slots;
    ModSuccessor(s.written, n);
    if p >= 0 {
      if s.written + 1 == p + n {
        ModPeriodic(p, 1, n);
      } else {
        SlotsDiffer(p, s.written + 1, n);
      }
    }
  }

  /** The consumer is turned away exactly when its loaded write position shows nothing unread. */
  lemma EmptyExact(r: Shape, s: State, p: int)
    requires r.Valid() && Counters(r, s) && s.seenWritten <= p <= s.written
    ensures EmptyTest(r, s.readIndex, p % r.slots) <==> p == s.read + 1
    ensures (s.readIndex + 1) % r.slots == (s.read + 1) % r.slots
  {
    var n := r.slots;
    if s.read >= 0 {
      ModSuccessor(s.read, n);
    }
    if p > s.read + 1 {
      SlotsDiffer(s.read + 1, p, n);
    }
  }

  // ---------------------------------------------------------------------------------------------
  // Every step keeps the invariant
  // ---------------------------------------------------------------------------------------------

  lemma InitKeeps(r: Shape, s: State)
    requires r.Valid() && Init(r, s)
    ensures Inv(r, s)
  {
    SmallModulus(r.first, r.slots);
    if r.first == 1 {
      SmallModulus(0, r.slots);
    }
  }

  lemma SmallModulus(a: nat, n: nat)
    requires a < n
    ensures a % n == a
  {
  }

  lemma BeginSendKeeps(r: Shape, s: State, t: State, msg: Message, p: int, ok: bool)
    requires r.Valid() && Inv(r, s) && BeginSend(r, s, t, msg, p, ok) && FewBeforeFirstRead(r, t)
    ensures Inv(r, t)
  {
    RefusalExact(r, s, p);
    forall q | s.read < q < s.written ensures InMemory(r, t, q) {
      assert InMemory(r, s, q);
    }
  }

  lemma JudgeFullKeeps(r: Shape, s: State, t: State, p: int, full: bool)
    requires r.Valid() && Inv(r, s) && JudgeFull(r, s, t, p, full)
    ensures Inv(r, t)
  {
    forall q | s.read < q < s.written ensures InMemory(r, t, q) {
      assert InMemory(r, s, q);
    }
  }

  /** Storing one cell changes one slot only. */
  lemma StoreInSlot(r: Shape, mem: seq<Cell>, slot: int, k: nat, c: Cell, other: int)
    requires |mem| == r.slots * r.width && 0 <= slot < r.slots && 0 <= other < r.slots && k < r.width
    requires 0 <= slot * r.width + k < |mem|
    ensures 0 <= other * r.width <= other * r.width + r.width <= |mem|
    ensures 0 <= slot * r.width <= slot * r.width + r.width <= |mem|
    ensures var mem' := mem[slot * r.width + k := c];
      if other == slot then SlotAt(r, mem', slot) == SlotAt(r, mem, slot)[k := c]
      else SlotAt(r, mem', other) == SlotAt(r, mem, other)
  {
    Bounds(r, slot);
    Bounds(r, other);
    if other < slot {
      MulStep(other, slot, r.width);
    } else if other > slot {
      MulStep(slot, other, r.width);
    }
    SliceUpdate(mem, slot * r.width + k, c, other * r.width, r.width);
  }

  lemma SliceUpdate(mem: seq<Cell>, i: nat, c: Cell, lo: nat, len: nat)
    requires i < |mem| && lo + len <= |mem|
    ensures lo <= i < lo + len ==> mem[i := c][lo..lo + len] == mem[lo..lo + len][i - lo := c]
    ensures !(lo <= i < lo + len) ==> mem[i := c][lo..lo + len] == mem[lo..lo + len]
  {
  }

  lemma StoreKeepsSlot(r: Shape, s: State, t: State, p: int)
    requires r.Valid() && Counters(r, s) && ProducerOk(r, s) && StoreCell(r, s, t)
    requires s.written - r.slots < p < s.written && r.first <= p && InMemory(r, s, p)
    ensures |t.mem| == |s.mem| && InMemory(r, t, p)
  {
    SlotsDiffer(p, s.written, r.slots);
    StoreInSlot(r, s.mem, s.writeIndex, s.producer.done, s.producer.msg[s.producer.done], p % r.slots);
  }

  lemma StoreCellKeeps(r: Shape, s: State, t: State)
    requires r.Valid() && Inv(r, s) && StoreCell(r, s, t)
    ensures Inv(r, t)
  {
    var k, msg := s.producer.done, s.producer.msg;
    StoreInSlot(r, s.mem, s.writeIndex, k, msg[k], s.writeIndex);
    assert SlotAt(r, t.mem, t.writeIndex)[..k + 1] == msg[..k + 1] by {
      var old' := SlotAt(r, s.mem, s.writeIndex);
      assert old'[k := msg[k]][..k + 1] == old'[..k] + [msg[k]] == msg[..k] + [msg[k]];
    }
    forall p | s.read < p < s.written ensures InMemory(r, t, p) {
      StoreKeepsSlot(r, s, t, p);
    }
    if s.consumer.Copying? {
      StoreKeepsSlot(r, s, t, Current(r, s));
    }
  }

  lemma PublishWriteKeeps(r: Shape, s: State, t: State)
    requires r.Valid() && Inv(r, s) && PublishWrite(r, s, t)
    ensures Inv(r, t)
  {
    ModSuccessor(s.written, r.slots);
    Bounds(r, s.writeIndex);
    assert s.producer.msg[..r.width] == s.producer.msg;
    assert SlotAt(r, s.mem, s.writeIndex)[..r.width] == SlotAt(r, s.mem, s.writeIndex);
    forall p | t.read < p < t.written ensures InMemory(r, t, p) {
      if p < s.written {
        assert InMemory(r, s, p);
        assert t.sent[p - r.first] == s.sent[p - r.first];
      }
    }
    if s.consumer.Copying? {
      var p := Current(r, s);
      assert InMemory(r, s, p) && t.sent[p - r.first] == s.sent[p - r.first];
    }
    assert t.sent[..|t.received|] == s.sent[..|s.received|];
  }

  lemma BeginReadKeeps(r: Shape, s: State, t: State, p: int, ok: bool)
    requires r.Valid() && Inv(r, s) && BeginRead(r, s, t, p, ok)
    ensures Inv(r, t)
  {
    EmptyExact(r, s, p);
    forall q | s.read < q < s.written ensures InMemory(r, t, q) {
      assert InMemory(r, s, q);
    }
  }

  lemma ChooseSlotKeeps(r: Shape, s: State, t: State)
    requires r.Valid() && Inv(r, s) && ChooseSlot(r, s, t)
    ensures Inv(r, t)
  {
    EmptyExact(r, s, s.written);
    assert InMemory(r, s, s.read + 1);
    forall q | t.read < q < t.written ensures InMemory(r, t, q) {
      assert InMemory(r, s, q);
    }
  }

  lemma CopyCellKeeps(r: Shape, s: State, t: State)
    requires r.Valid() && Inv(r, s) && CopyCell(r, s, t)
    ensures Inv(r, t)
  {
    var p := Current(r, s);
    var m := s.sent[p - r.first];
    Bounds(r, s.consumer.slot);
    assert t.consumer.buffer == m[..|t.consumer.buffer|] by {
      assert s.mem[s.consumer.slot * r.width + |s.consumer.buffer|]
          == SlotAt(r, s.mem, s.consumer.slot)[|s.consumer.buffer|];
    }
    forall q | t.read < q < t.written ensures InMemory(r, t, q) {
      assert InMemory(r, s, q);
    }
  }

  lemma EndReadKeeps(r: Shape, s: State, t: State)
    requires r.Valid() && Inv(r, s) && EndRead(r, s, t)
    ensures Inv(r, t)
  {
    var p := Current(r, s);
    assert s.consumer.buffer == s.sent[p - r.first];
    assert |s.received| == p - r.first;
    assert t.received == s.sent[..|s.received| + 1];
    forall q | t.read < q < t.written ensures InMemory(r, t, q) {
      assert InMemory(r, s, q);
    }
  }

  lemma NextKeeps(r: Shape, s: State, t: State)
    requires r.Valid() && Inv(r, s) && Next(r, s, t) && FewBeforeFirstRead(r, t)
    ensures Inv(r, t)
  {
    if msg, p, ok :| BeginSend(r, s, t, msg, p, ok) {
      BeginSendKeeps(r, s, t, msg, p, ok);
    } else if p, full :| JudgeFull(r, s, t, p, full) {
      JudgeFullKeeps(r, s, t, p, full);
    } else if StoreCell(r, s, t) {
      StoreCellKeeps(r, s, t);
    } else if PublishWrite(r, s, t) {
      PublishWriteKeeps(r, s, t);
    } else if p, ok :| BeginRead(r, s, t, p, ok) {
      BeginReadKeeps(r, s, t, p, ok);
    } else if ChooseSlot(r, s, t) {
      ChooseSlotKeeps(r, s, t);
    } else if CopyCell(r, s, t) {
      CopyCellKeeps(r, s, t);
    } else {
      EndReadKeeps(r, s, t);
    }
  }

  // ---------------------------------------------------------------------------------------------
  // Runs
  // ---------------------------------------------------------------------------------------------

  ghost predicate Path(r: Shape, run: seq<State>)
    requires r.Valid()
  {
    |run| > 0 && forall k :: 0 <= k < |run| - 1 ==> Next(r, run[k], run[k + 1])
  }

  /** Any interleaving of producer and consumer steps from the initial state. */
  ghost predicate Run(r: Shape, run: seq<State>)
    requires r.Valid()
  {
    Path(r, run) && Init(r, run[0])
  }

  /** The message ring starts with its read index at 0 and needs no provision. */
  ghost predicate Provided(r: Shape, run: seq<State>) {
    r.first == 1 || forall k :: 0 <= k < |run| ==> FewBeforeFirstRead(r, run[k])
  }

  lemma {:induction false} RunKeeps(r: Shape, run: seq<State>, k: nat)
    requires r.Valid() && Run(r, run) && Provided(r, run) && k < |run|
    ensures Inv(r, run[k])
  {
    if k == 0 {
      InitKeeps(r, run[0]);
    } else {
      RunKeeps(r, run, k - 1);
      assert Next(r, run[k - 1], run[k]);
      if r.first == 1 {
        SeenReadGrows(r, run[k - 1], run[k]);
      }
      NextKeeps(r, run[k - 1], run[k]);
    }
  }

  lemma SeenReadGrows(r: Shape, s: State, t: State)
    requires r.Valid() && Next(r, s, t)
    ensures t.seenRead >= s.seenRead
  {
  }

  /** In every reachable state the slot being written is not the slot being copied, nor the one about to be. */
  lemma WriterAvoidsReader(r: Shape, run: seq<State>, k: nat)
    requires r.Valid() && Run(r, run) && Provided(r, run) && k < |run|
    requires run[k].producer.Filling?
    ensures 0 <= run[k].writeIndex < r.slots
    ensures run[k].consumer.Copying? ==> run[k].consumer.slot != run[k].writeIndex
    ensures run[k].consumer == Ready ==> (run[k].readIndex + 1) % r.slots != run[k].writeIndex
  {
    var s := run[k];
    RunKeeps(r, run, k);
    if s.consumer.Copying? {
      SlotsDiffer(Current(r, s), s.written, r.slots);
    } else if s.consumer == Ready {
      EmptyExact(r, s, s.written);
      SlotsDiffer(s.read + 1, s.written, r.slots);
    }
  }

  /** The messages returned are a prefix of the messages accepted, each of them whole. */
  lemma DeliveredIsPrefix(r: Shape, run: seq<State>, k: nat)
    requires r.Valid() && Run(r, run) && Provided(r, run) && k < |run|
    ensures run[k].received <= run[k].sent
    ensures |run[k].received| <= |run[k].sent| <= |run[k].received| + r.slots - (if run[k].read < 0 then 1 else 0)
  {
    RunKeeps(r, run, k);
  }

  /** The message ring: write index 1 and read index 0 at the start, 58525 slots of 430 bytes. In every interleaving
      what is returned is a prefix of what was accepted, at most 58523 messages are unread, and the two index cells
      show how many. */
  lemma MessageRing(run: seq<State>, k: nat)
    requires Run(MESSAGE_RING, run) && k < |run|
    ensures run[0].writeIndex == 1 && run[0].readIndex == 0 && |run[0].mem| == 58525 * 430
    ensures var s := run[k];
      && s.received <= s.sent
      && 0 <= (s.writeIndex - s.readIndex - 1) % 58525 == s.written - s.read - 1 <= 58523
  {
    DeliveredIsPrefix(MESSAGE_RING, run, k);
    RunKeeps(MESSAGE_RING, run, k);
    UnreadInRun(MESSAGE_RING, run, k);
  }

  /** The record ring: write index 0 and read index -1 at the start, 512 slots of 39 words. */
  lemma RecordRing(run: seq<State>, k: nat)
    requires Run(RECORD_RING, run) && Provided(RECORD_RING, run) && k < |run|
    ensures run[0].writeIndex == 0 && run[0].readIndex == -1 && |run[0].mem| == 512 * 39
    ensures run[k].received <= run[k].sent
    ensures run[k].read >= 0 ==> 0 <= (run[k].writeIndex - run[k].readIndex - 1) % 512 <= 510
  {
    DeliveredIsPrefix(RECORD_RING, run, k);
    if run[k].read >= 0 {
      UnreadInRun(RECORD_RING, run, k);
    }
  }

  predicate Grows(s: State, t: State) {
    s.sent <= t.sent && s.received <= t.received && s.seenRead <= t.seenRead && s.read <= t.read
  }

  lemma StepGrows(r: Shape, s: State, t: State)
    requires r.Valid() && Next(r, s, t)
    ensures Grows(s, t)
  {
  }

  lemma GrowsTransitive(s: State, t: State, u: State)
    requires Grows(s, t) && Grows(t, u)
    ensures Grows(s, u)
  {
    assert u.sent[..|s.sent|] == t.sent[..|s.sent|] == s.sent;
    assert u.received[..|s.received|] == t.received[..|s.received|] == s.received;
  }

  /** Histories only grow: what is delivered was accepted earlier, and stays delivered. */
  lemma {:induction false} HistoryGrows(r: Shape, run: seq<State>, i: nat, j: nat)
    requires r.Valid() && Path(r, run) && i <= j < |run|
    ensures Grows(run[i], run[j])
    decreases j - i
  {
    if i < j {
      HistoryGrows(r, run, i, j - 1);
      StepGrows(r, run[j - 1], run[j]);
      GrowsTransitive(run[i], run[j - 1], run[j]);
    }
  }

  /** Unread messages in a reachable state, as the two index cells show them once the read index is not -1. */
  lemma UnreadInRun(r: Shape, run: seq<State>, k: nat)
    requires r.Valid() && Run(r, run) && Provided(r, run) && k < |run| && run[k].read >= 0
    ensures var s := run[k];
      && 0 <= s.written - s.read - 1 <= r.slots - 2
      && (s.writeIndex - s.readIndex - 1) % r.slots == s.written - s.read - 1
  {
    RunKeeps(r, run, k);
    UnreadCount(r, run[k]);
  }

  /** A send is refused only if the index it loaded showed `slots - 2` unread messages. */
  lemma RefusedOnlyWhenFull(r: Shape, run: seq<State>, k: nat, msg: Message, p: int)
    requires r.Valid() && Run(r, run) && Provided(r, run) && k + 1 < |run|
    requires BeginSend(r, run[k], run[k + 1], msg, p, false)
    ensures p >= 0 && run[k].written - p - 1 == r.slots - 2
  {
    RunKeeps(r, run, k);
    RefusalExact(r, run[k], p);
  }

  /** After `judge_message_struct_full` returned 0, the next send is accepted, whatever the consumer does in
      between and however stale the index it loads. */
  lemma JudgedSendSucceeds(r: Shape, run: seq<State>, i: nat, j: nat, p: int, msg: Message, q: int, ok: bool)
    requires r.Valid() && r.first == 1 && Run(r, run) && i + 1 <= j && j + 1 < |run|
    requires JudgeFull(r, run[i], run[i + 1], p, false)
    requires run[j].sent == run[i + 1].sent
    requires BeginSend(r, run[j], run[j + 1], msg, q, ok)
    ensures ok
  {
    RunKeeps(r, run, i);
    RunKeeps(r, run, j);
    assert run[i + 1].seenRead <= run[j].seenRead by { HistoryGrows(r, run, i + 1, j); }
    RoomLasts(r, run[i], run[j], p, q);
  }

  lemma RoomLasts(r: Shape, s: State, t: State, p: int, q: int)
    requires r.Valid() && r.first == 1 && Counters(r, s) && Counters(r, t)
    requires |s.sent| == |t.sent| && s.seenRead <= p <= s.read && p <= t.seenRead <= q <= t.read
    requires !FullTest(r, s.writeIndex, ReadCell(r, p))
    ensures !FullTest(r, t.writeIndex, ReadCell(r, q))
  {
    RefusalExact(r, s, p);
    RefusalExact(r, t, q);
  }

  // ---------------------------------------------------------------------------------------------
  // The provision of the record ring is needed
  // ---------------------------------------------------------------------------------------------

  /** What holds of the producer's side and of an unmoved read index in every run, provided or not. */
  predicate Unmoved(r: Shape, s: State)
    requires r.Valid()
  {
    && s.writeIndex == s.written % r.slots && s.written == r.first + |s.sent|
    && s.read >= r.first - 1 && (s.read == r.first - 1 ==> s.readIndex == r.first - 1)
  }

  lemma UnmovedKept(r: Shape, s: State, t: State)
    requires r.Valid() && Unmoved(r, s) && Next(r, s, t)
    ensures Unmoved(r, t)
  {
    ModSuccessor(s.written, r.slots);
  }

  lemma {:induction false} RunUnmoved(r: Shape, run: seq<State>, k: nat)
    requires r.Valid() && Run(r, run) && k < |run|
    ensures Unmoved(r, run[k])
  {
    if k == 0 {
      SmallMod(r.first, r.slots);
    } else {
      RunUnmoved(r, run, k - 1);
      assert Next(r, run[k - 1], run[k]);
      UnmovedKept(r, run[k - 1], run[k]);
    }
  }

  /** Before the first read, in any run of a ring whose read index starts at -1, the two current indices show the true
      number of unread messages exactly as long as at most `slots - 1` were accepted. */
  lemma CountBeforeFirstRead(r: Shape, run: seq<State>, k: nat)
    requires r.Valid() && r.first == 0 && Run(r, run) && k < |run| && run[k].read == -1
    ensures (run[k].writeIndex - run[k].readIndex - 1) % r.slots == |run[k].sent| <==> |run[k].sent| <= r.slots - 1
  {
    var s := run[k];
    RunUnmoved(r, run, k);
    assert s.writeIndex - s.readIndex - 1 == s.written % r.slots;
    SmallMod(s.written % r.slots, r.slots);
    if |s.sent| <= r.slots - 1 {
      SmallMod(s.written, r.slots);
    }
  }

  predicate SlotHolds(r: Shape, mem: seq<Cell>, slot: int, m: Message) {
    |mem| == r.slots * r.width && 0 <= slot < r.slots
    && (Bounds(r, slot); SlotAt(r, mem, slot) == m)
  }

  lemma {:induction false} FillAlone(r: Shape, s: State) returns (run: seq<State>)
    requires r.Valid() && |s.mem| == r.slots * r.width && 0 <= s.writeIndex < r.slots
    requires s.producer.Filling? && |s.producer.msg| == r.width && s.producer.done <= r.width
    requires forall j :: 0 <= j < s.producer.done ==>
               (Bounds(r, s.writeIndex); SlotAt(r, s.mem, s.writeIndex)[j] == s.producer.msg[j])
    ensures Path(r, run) && run[0] == s
    ensures var t := run[|run| - 1];
      && t == s.(mem := t.mem, producer := Filling(s.producer.msg, r.width))
      && SlotHolds(r, t.mem, s.writeIndex, s.producer.msg)
    decreases r.width - s.producer.done
  {
    Bounds(r, s.writeIndex);
    if s.producer.done == r.width {
      run := [s];
    } else {
      var k, base := s.producer.done, s.writeIndex * r.width;
      var t := s.(mem := s.mem[base + k := s.producer.msg[k]], producer := Filling(s.producer.msg, k + 1));
      assert StoreCell(r, s, t);
      var rest := FillAlone(r, t);
      run := [s] + rest;
    }
  }

  /** A ring never read, between two sends. */
  predicate NeverRead(r: Shape, s: State)
    requires r.Valid()
  {
    && |s.mem| == r.slots * r.width && s.writeIndex == s.written % r.slots && s.written >= 0
    && s.producer == PIdle && s.consumer == CIdle
    && s.read == s.seenRead == s.readIndex == -1
  }

  /** One send on a ring never read: the full test does not stop it. */
  lemma WriteOne(r: Shape, s: State, m: Message) returns (run: seq<State>)
    requires r.Valid() && NeverRead(r, s) && |m| == r.width
    ensures Path(r, run) && run[0] == s
    ensures var t := run[|run| - 1];
      && NeverRead(r, t) && t.sent == s.sent + [m] && t.written == s.written + 1
      && t.received == s.received && t.seenWritten == s.seenWritten
      && SlotHolds(r, t.mem, s.written % r.slots, m)
  {
    var begun := s.(producer := Filling(m, 0));
    assert BeginSend(r, s, begun, m, -1, true);
    var fill := FillAlone(r, begun);
    var filled := fill[|fill| - 1];
    ModSuccessor(s.written, r.slots);
    var next := filled.(writeIndex := (s.writeIndex + 1) % r.slots, written := s.written + 1,
                        sent := s.sent + [m], producer := PIdle);
    assert PublishWrite(r, filled, next);
    run := [s] + fill + [next];
  }

  lemma PathJoin(r: Shape, a: seq<State>, b: seq<State>)
    requires r.Valid() && Path(r, a) && Path(r, b) && a[|a| - 1] == b[0]
    ensures Path(r, a + b[1..])
    ensures (a + b[1..])[0] == a[0] && (a + b[1..])[|a + b[1..]| - 1] == b[|b| - 1]
  {
    var run := a + b[1..];
    forall k | 0 <= k < |run| - 1 ensures Next(r, run[k], run[k + 1]) {
      if k < |a| - 1 {
        assert Next(r, a[k], a[k + 1]);
      } else {
        assert Next(r, b[k - |a| + 1], b[k - |a| + 2]);
      }
    }
  }

  /** A producer running alone on a ring never read. */
  lemma {:induction false} WriteAlone(r: Shape, s: State, msgs: seq<Message>) returns (run: seq<State>)
    requires r.Valid() && NeverRead(r, s) && forall m :: m in msgs ==> |m| == r.width
    ensures Path(r, run) && run[0] == s
    ensures var t := run[|run| - 1];
      && NeverRead(r, t) && t.sent == s.sent + msgs && t.written == s.written + |msgs|
      && t.received == s.received && t.seenWritten == s.seenWritten
      && (msgs != [] ==> SlotHolds(r, t.mem, (t.written - 1) % r.slots, msgs[|msgs| - 1]))
    decreases |msgs|
  {
    if msgs == [] {
      run := [s];
      assert s.sent + msgs == s.sent;
    } else {
      var n := |msgs| - 1;
      var front := WriteAlone(r, s, msgs[..n]);
      var t := front[|front| - 1];
      var last := WriteOne(r, t, msgs[n]);
      run := front + last[1..];
      PathJoin(r, front, last);
      assert s.sent + msgs[..n] + [msgs[n]] == s.sent + msgs;
    }
  }

  /** A consumer copying alone returns what the slot holds. */
  lemma {:induction false} CopyAlone(r: Shape, s: State, m: Message) returns (run: seq<State>)
    requires s.consumer.Copying? && SlotHolds(r, s.mem, s.consumer.slot, m)
    requires r.Valid() && |m| == r.width && s.consumer.buffer <= m
    ensures Path(r, run) && run[0] == s
    ensures run[|run| - 1] == s.(consumer := Copying(s.consumer.slot, m))
    decreases r.width - |s.consumer.buffer|
  {
    var slot, buffer := s.consumer.slot, s.consumer.buffer;
    if |buffer| == r.width {
      run := [s];
    } else {
      Bounds(r, slot);
      var t := s.(consumer := Copying(slot, buffer + [m[|buffer|]]));
      assert SlotAt(r, s.mem, slot)[|buffer|] == m[|buffer|];
      assert CopyCell(r, s, t);
      var rest := CopyAlone(r, t, m);
      run := [s] + rest;
    }
  }

  /** A run of the record ring in which 512 records precede the first read: the consumer then finds the ring empty. */
  lemma UnseenRecordsHidden(s: State, msgs: seq<Message>) returns (run: seq<State>)
    requires Init(RECORD_RING, s) && |msgs| == RECORD_SLOTS && forall m :: m in msgs ==> |m| == RECORD_WORDS
    ensures Run(RECORD_RING, run) && run[0] == s
    ensures var t := run[|run| - 1];
      t.sent == msgs && t.received == [] && EmptyTest(RECORD_RING, t.readIndex, t.writeIndex)
  {
    run := WriteAlone(RECORD_RING, s, msgs);
    assert s.sent + msgs == msgs;
    ModPeriodic(0, 1, RECORD_SLOTS);
  }

  /** With one record more and one read: the first record returned is the last one accepted, the 512 before it are
      skipped, and unless it equals the first record the records returned are no prefix of those accepted. */
  lemma UnseenRecordsLost(s: State, msgs: seq<Message>) returns (run: seq<State>)
    requires Init(RECORD_RING, s) && |msgs| == RECORD_SLOTS + 1 && forall m :: m in msgs ==> |m| == RECORD_WORDS
    ensures Run(RECORD_RING, run) && run[0] == s
    ensures var t := run[|run| - 1];
      && t.sent == msgs && t.received == [msgs[RECORD_SLOTS]]
      && (t.received <= t.sent <==> msgs[RECORD_SLOTS] == msgs[0])
  {
    var r, last := RECORD_RING, msgs[RECORD_SLOTS];
    assert last in msgs;
    var writes := WriteAlone(r, s, msgs);
    assert s.sent + msgs == msgs;
    var full := writes[|writes| - 1];
    assert full.written == RECORD_SLOTS + 1 && full.writeIndex == 1;
    var ready := full.(seenWritten := full.written, consumer := Ready);
    assert BeginRead(r, full, ready, full.written, true);
    var chosen := ready.(consumer := Copying(0, []));
    assert ChooseSlot(r, ready, chosen);
    var copies := CopyAlone(r, chosen, last);
    var copied := copies[|copies| - 1];
    var done := copied.(consumer := CIdle, received := [last], readIndex := 0, read := 0);
    assert full.received == [];
    assert EndRead(r, copied, done);
    run := writes + [ready] + copies + [done];
    assert [last] <= msgs <==> last == msgs[0];
  }
}
