/** The ring operations as the code performs them, on one flat buffer with two index words. Each operation is shown to
    be a run of protocol steps of module Ring, so everything proved of all interleavings there applies to it. */
module RingMemory {
  import opened Registers
  import opened Ring

  lemma PathGrows(r: Shape, run: seq<State>, t: State)
    requires r.Valid() && Path(r, run) && Next(r, run[|run| - 1], t)
    ensures Path(r, run + [t]) && (run + [t])[0] == run[0] && (run + [t])[|run + [t]| - 1] == t
  {
  }

  /** What a read returns is the oldest message not returned before. */
  lemma OldestReturned(r: Shape, s: State, t: State, buffer: Message)
    requires r.Valid() && Inv(r, s) && Inv(r, t)
    requires t.sent == s.sent && t.received == s.received + [buffer]
    ensures |s.received| < |s.sent| && buffer == s.sent[|s.received|..][0]
    ensures t.sent[|t.received|..] == s.sent[|s.received|..][1..]
  {
    assert t.received <= t.sent;
    assert buffer == t.received[|s.received|] == t.sent[|s.received|];
  }

  /** The steps of a read up to the copy, with the write index as it is. */
  lemma StartReading(r: Shape, s: State) returns (ready: State, chosen: State)
    requires r.Valid() && Inv(r, s) && s.consumer == CIdle && !EmptyTest(r, s.readIndex, s.writeIndex)
    ensures Next(r, s, ready) && Next(r, ready, chosen) && Inv(r, chosen)
    ensures var slot := (s.readIndex + 1) % r.slots;
      var t := s.(seenWritten := s.written, consumer := Copying(slot, []));
      chosen == if r.early then t.(readIndex := slot, read := s.read + 1) else t
  {
    ready := s.(seenWritten := s.written, consumer := Ready);
    assert BeginRead(r, s, ready, s.written, true);
    BeginReadKeeps(r, s, ready, s.written, true);
    var slot := (s.readIndex + 1) % r.slots;
    var t := ready.(consumer := Copying(slot, []));
    chosen := if r.early then t.(readIndex := slot, read := s.read + 1) else t;
    assert ChooseSlot(r, ready, chosen);
    ChooseSlotKeeps(r, ready, chosen);
  }

  /** The step after the copy. */
  lemma FinishReading(r: Shape, s: State, buffer: Message) returns (done: State)
    requires r.Valid() && Inv(r, s) && s.consumer.Copying? && s.consumer.buffer == buffer && |buffer| == r.width
    ensures Next(r, s, done) && Inv(r, done)
    ensures var t := s.(consumer := CIdle, received := s.received + [buffer]);
      done == if r.early then t else t.(readIndex := s.consumer.slot, read := s.read + 1)
  {
    var t := s.(consumer := CIdle, received := s.received + [buffer]);
    done := if r.early then t else t.(readIndex := s.consumer.slot, read := s.read + 1);
    assert EndRead(r, s, done);
    EndReadKeeps(r, s, done);
  }

  class Region {
    const shape: Shape
    const data: array<Cell>
    var writeIndex: int
    var readIndex: int
    ghost var model: State

    ghost predicate Valid()
      reads this, data
    {
      && shape.Valid()
      && model.mem == data[..] && model.writeIndex == writeIndex && model.readIndex == readIndex
      && Inv(shape, model)
      && model.producer == PIdle && model.consumer == CIdle
    }

    /** The messages accepted and not yet returned. */
    ghost function Unread(): seq<Message>
      requires Valid()
      reads this, data
    {
      model.sent[|model.received|..]
    }

    constructor (shape: Shape, data: array<Cell>)
      requires shape.Valid() && data.Length == shape.slots * shape.width
      ensures Valid() && Init(shape, model) && this.shape == shape && this.data == data
    {
      this.shape, this.data := shape, data;
      writeIndex, readIndex := shape.first, shape.first - 1;
      var s := State(data[..], shape.first, shape.first - 1, PIdle, CIdle,
                     shape.first, shape.first - 1, shape.first, shape.first - 1, [], []);
      model := s;
      InitKeeps(shape, s);
    }

    /** `send_msg_by_mmap`, and the ring part of `write_ring_buffer`. A ring whose read index is still -1 takes at most
        `slots - 1` messages. */
    method Send(msg: Message) returns (ok: bool, ghost run: seq<State>)
      requires Valid() && |msg| == shape.width
      requires readIndex >= 0 || |Unread()| < shape.slots - 1
      modifies this, data
      ensures Valid() && Path(shape, run) && run[0] == old(model) && run[|run| - 1] == model
      ensures ok <==> old(readIndex < 0 || |Unread()| < shape.slots - 2)
      ensures Unread() == if ok then old(Unread()) + [msg] else old(Unread())
      ensures readIndex == old(readIndex) && model.received == old(model.received)
    {
      RefusalExact(shape, model, model.read);
      run := [model];
      if (writeIndex + 1) % shape.slots == readIndex {
        ghost var next := model.(seenRead := model.read);
        assert BeginSend(shape, model, next, msg, model.read, false);
        BeginSendKeeps(shape, model, next, msg, model.read, false);
        model, run := next, run + [next];
        return false, run;
      }
      ghost var next := model.(seenRead := model.read, producer := Filling(msg, 0));
      assert BeginSend(shape, model, next, msg, model.read, true);
      BeginSendKeeps(shape, model, next, msg, model.read, true);
      model, run := next, run + [next];
      run := FillSlot(msg, run);
      next := model.(writeIndex := (writeIndex + 1) % shape.slots, written := model.written + 1,
                     sent := model.sent + [msg], producer := PIdle);
      assert PublishWrite(shape, model, next);
      PublishWriteKeeps(shape, model, next);
      model, run := next, run + [next];
      writeIndex := (writeIndex + 1) % shape.slots;
      ok := true;
    }

    /** The `memcpy` into the slot, cell by cell. */
    method FillSlot(msg: Message, ghost before: seq<State>) returns (ghost run: seq<State>)
      requires shape.Valid() && Inv(shape, model) && model.mem == data[..] && model.writeIndex == writeIndex
      requires model.producer == Filling(msg, 0) && Path(shape, before) && before[|before| - 1] == model
      modifies `model, data
      ensures Path(shape, run) && run[0] == before[0] && run[|run| - 1] == model
      ensures Inv(shape, model)
      ensures model == old(model).(mem := data[..], producer := Filling(msg, shape.width))
    {
      run := before;
      var i := 0;
      while i < shape.width
        invariant 0 <= i <= shape.width
        invariant Path(shape, run) && run[0] == before[0] && run[|run| - 1] == model
        invariant Inv(shape, model)
        invariant model == old(model).(mem := data[..], producer := Filling(msg, i))
      {
        Bounds(shape, writeIndex);
        data[writeIndex * shape.width + i] := msg[i];
        ghost var next := model.(mem := data[..], producer := Filling(msg, i + 1));
        assert StoreCell(shape, model, next);
        StoreCellKeeps(shape, model, next);
        model, run := next, run + [next];
        i := i + 1;
      }
    }

    /** `judge_message_struct_full` */
    method IsFull() returns (full: bool, ghost run: seq<State>)
      requires Valid()
      modifies `model
      ensures Valid() && Path(shape, run) && run[0] == old(model) && run[|run| - 1] == model
      ensures full <==> readIndex >= 0 && |Unread()| == shape.slots - 2
      ensures Unread() == old(Unread())
    {
      RefusalExact(shape, model, model.read);
      full := (writeIndex + 1) % shape.slots == readIndex;
      ghost var next := model.(seenRead := model.read);
      assert JudgeFull(shape, model, next, model.read, full);
      JudgeFullKeeps(shape, model, next, model.read, full);
      model, run := next, [model, next];
    }

    /** `share_mem_tool::read_data` (early: the index is published first) and `read_ring_buffer` (late). */
    method Receive() returns (msg: Option<Message>, ghost run: seq<State>)
      requires Valid()
      modifies `readIndex, `model
      ensures Valid() && Path(shape, run) && run[0] == old(model) && run[|run| - 1] == model
      ensures msg == if |old(Unread())| == 0 then None else Some(old(Unread())[0])
      ensures Unread() == if |old(Unread())| == 0 then [] else old(Unread())[1..]
      ensures model.sent == old(model.sent)
    {
      EmptyExact(shape, model, model.written);
      run := [model];
      if (readIndex + 1) % shape.slots == writeIndex {
        ghost var next := model.(seenWritten := model.written);
        assert BeginRead(shape, model, next, model.written, false);
        BeginReadKeeps(shape, model, next, model.written, false);
        model, run := next, run + [next];
        return None, run;
      }
      var slot := (readIndex + 1) % shape.slots;
      ghost var before := model;
      run := StartSlot(slot);
      var buffer: Message;
      buffer, run := CopySlot(slot, run);
      run := EndSlot(slot, buffer, run);
      msg := Some(buffer);
      OldestReturned(shape, before, model, buffer);
    }

    /** The early consumer stores its new index, the late one only notes the slot. */
    method StartSlot(slot: int) returns (ghost run: seq<State>)
      requires Valid() && (readIndex + 1) % shape.slots == slot != writeIndex
      modifies `readIndex, `model
      ensures shape.Valid() && Inv(shape, model) && model.mem == data[..]
      ensures model.readIndex == readIndex == if shape.early then slot else old(readIndex)
      ensures model.writeIndex == writeIndex
      ensures model.producer == PIdle && model.consumer == Copying(slot, [])
      ensures model.sent == old(model.sent) && model.received == old(model.received)
      ensures Path(shape, run) && run[0] == old(model) && run[|run| - 1] == model
    {
      ghost var ready, chosen := StartReading(shape, model);
      run := [model, ready, chosen];
      model := chosen;
      if shape.early {
        readIndex := slot;
      }
    }

    method EndSlot(slot: int, buffer: Message, ghost before: seq<State>) returns (ghost run: seq<State>)
      requires shape.Valid() && Inv(shape, model) && model.mem == data[..] && |buffer| == shape.width
      requires model.readIndex == readIndex && model.writeIndex == writeIndex
      requires model.producer == PIdle && model.consumer == Copying(slot, buffer)
      requires Path(shape, before) && before[|before| - 1] == model
      modifies `readIndex, `model
      ensures Valid()
      ensures model.sent == old(model.sent) && model.received == old(model.received) + [buffer]
      ensures Path(shape, run) && run[0] == before[0] && run[|run| - 1] == model
    {
      ghost var done := FinishReading(shape, model, buffer);
      PathGrows(shape, before, done);
      model, run := done, before + [done];
      if !shape.early {
        readIndex := slot;
      }
    }

    /** The copy out of the slot, cell by cell. */
    method CopySlot(slot: int, ghost before: seq<State>) returns (buffer: Message, ghost run: seq<State>)
      requires shape.Valid() && Inv(shape, model) && model.mem == data[..]
      requires model.consumer == Copying(slot, []) && Path(shape, before) && before[|before| - 1] == model
      modifies `model
      ensures Path(shape, run) && run[0] == before[0] && run[|run| - 1] == model
      ensures Inv(shape, model) && |buffer| == shape.width
      ensures model == old(model).(consumer := Copying(slot, buffer))
    {
      run, buffer := before, [];
      while |buffer| < shape.width
        invariant |buffer| <= shape.width
        invariant Path(shape, run) && run[0] == before[0] && run[|run| - 1] == model
        invariant Inv(shape, model)
        invariant model == old(model).(consumer := Copying(slot, buffer))
        decreases shape.width - |buffer|
      {
        Bounds(shape, slot);
        buffer := buffer + [data[slot * shape.width + |buffer|]];
        ghost var next := model.(consumer := Copying(slot, buffer));
        assert CopyCell(shape, model, next);
        CopyCellKeeps(shape, model, next);
        model, run := next, run + [next];
      }
    }
  }
}
