/** `insert_and_search_analyze_list` of `pebs_taine.c`: the bounded two-level table of code ranges already analysed. */
module AnalysedTable {
  import opened Arithmetic
  import opened Registers

  const SLOTS: nat := 1024
  const PAIRS: nat := 1024

  /** A pair of addresses and how often it was asked for. */
  datatype Entry = Entry(start: U64, end: U64, count: U32)

  /** `taine_info_t`; `num` is the number of entries, what lies behind them is never read. */
  datatype Slot = Slot(pid: U32, total: U32, entries: seq<Entry>)

  datatype Table = Table(slots: seq<Slot>, num: nat)

  /** One call, with the set of processes that are alive while it runs. */
  datatype Call = Call(pid: U32, start: U64, end: U64, live: set<U32>)

  /** The caller asks only for living processes, and process 0 is none. */
  predicate Proper(c: Call) {
    c.pid != 0 && c.pid in c.live
  }

  predicate Dead(s: Slot, live: set<U32>) {
    s.pid == 0 || s.pid !in live
  }

  predicate Matches(e: Entry, c: Call) {
    e.start == c.start && e.end == c.end
  }

  predicate Listed(s: Slot, c: Call) {
    exists j :: 0 <= j < |s.entries| && Matches(s.entries[j], c)
  }

  predicate SlotOk(s: Slot) {
    && 1 <= |s.entries| <= PAIRS
    && forall i, j :: 0 <= i < j < |s.entries| ==>
         s.entries[i].start != s.entries[j].start || s.entries[i].end != s.entries[j].end
  }

  /** Both counts are within their bounds; used slots hold at least one pair. */
  predicate Shaped(t: Table) {
    && |t.slots| == SLOTS && t.num <= SLOTS
    && forall i :: 0 <= i < t.num ==> 1 <= |t.slots[i].entries| <= PAIRS
  }

  /** A pid fills at most one slot, a slot's pairs are distinct, and both counts are within their bounds. */
  predicate Valid(t: Table) {
    && |t.slots| == SLOTS && t.num <= SLOTS
    && (forall i :: 0 <= i < t.num ==> SlotOk(t.slots[i]))
    && (forall i, j :: 0 <= i < j < t.num ==> t.slots[i].pid != t.slots[j].pid)
  }

  /** The (pid, start, end) triples the table would answer 1 for. */
  predicate Held(t: Table, c: Call)
    requires t.num <= |t.slots|
  {
    exists i :: 0 <= i < t.num && t.slots[i].pid == c.pid && Listed(t.slots[i], c)
  }

  // ---------------------------------------------------------------------------------------------
  // What one call may do
  // ---------------------------------------------------------------------------------------------

  datatype Step =
    | Hit(i: nat, j: nat)
    | Append(i: nat)
    | ReplacePair(i: nat, j: nat)
    | ReuseSlot(i: nat)
    | NewSlot
    | EvictSlot(i: nat)

  /** No slot of a living process carries the pid. */
  predicate Absent(t: Table, c: Call)
    requires t.num <= |t.slots|
  {
    forall i :: 0 <= i < t.num ==> t.slots[i].pid == c.pid ==> Dead(t.slots[i], c.live)
  }

  /** The first slot of a living process that carries the pid. */
  predicate FirstMatch(t: Table, c: Call, i: nat)
    requires t.num <= |t.slots|
  {
    && i < t.num && t.slots[i].pid == c.pid && !Dead(t.slots[i], c.live)
    && forall k :: 0 <= k < i ==> t.slots[k].pid == c.pid ==> Dead(t.slots[k], c.live)
  }

  predicate AllAlive(t: Table, live: set<U32>)
    requires t.num <= |t.slots|
  {
    forall i :: 0 <= i < t.num ==> !Dead(t.slots[i], live)
  }

  /** The last pair with count 0, or else the first with the least count. */
  predicate PairVictim(entries: seq<Entry>, j: nat) {
    && j < |entries|
    && (|| (entries[j].count == 0 && forall k :: j < k < |entries| ==> entries[k].count != 0)
        || (&& entries[j].count != 0
            && (forall k :: 0 <= k < |entries| ==> entries[j].count <= entries[k].count)
            && (forall k :: 0 <= k < j ==> entries[j].count < entries[k].count)))
  }

  /** The first slot with total 0; or else the first with the least total, if that is below the number of pairs in
      slot 0; or else slot 0. */
  predicate SlotVictim(slots: seq<Slot>, v: nat) {
    && v < |slots|
    && (|| (slots[v].total == 0 && forall k :: 0 <= k < v ==> slots[k].total != 0)
        || (&& (forall k :: 0 <= k < |slots| ==> slots[k].total != 0)
            && slots[v].total < |slots[0].entries|
            && (forall k :: 0 <= k < |slots| ==> slots[v].total <= slots[k].total)
            && (forall k :: 0 <= k < v ==> slots[v].total < slots[k].total))
        || (&& (forall k :: 0 <= k < |slots| ==> slots[k].total != 0)
            && v == 0
            && (forall k :: 0 <= k < |slots| ==> |slots[0].entries| <= slots[k].total)))
  }

  /** A slot taken over for a new pid; its total stays. */
  function Fresh(s: Slot, c: Call): Slot {
    s.(pid := c.pid, entries := [Entry(c.start, c.end, 1)])
  }

  function Asked(s: Slot): Slot {
    s.(total := (s.total + 1) % TWO_32)
  }

  function Placed(t: Table, i: nat, s: Slot): Table
    requires i < |t.slots|
  {
    t.(slots := t.slots[i := s])
  }

  /** The table goes from `t` to `u` and the answer is `answer`. */
  predicate Took(t: Table, u: Table, c: Call, step: Step, answer: bool)
    requires |t.slots| == SLOTS && t.num <= SLOTS
  {
    match step
    case Hit(i, j) =>
      && FirstMatch(t, c, i)
      && j < |t.slots[i].entries| && Matches(t.slots[i].entries[j], c)
      && answer
      && var e := t.slots[i].entries[j];
         u == Placed(t, i, Asked(t.slots[i]).(entries := t.slots[i].entries[j := e.(count := (e.count + 1) % TWO_32)]))
    case Append(i) =>
      && FirstMatch(t, c, i) && !Listed(t.slots[i], c)
      && |t.slots[i].entries| < PAIRS
      && !answer
      && u == Placed(t, i, Asked(t.slots[i]).(entries := t.slots[i].entries + [Entry(c.start, c.end, 1)]))
    case ReplacePair(i, j) =>
      && FirstMatch(t, c, i) && !Listed(t.slots[i], c)
      && |t.slots[i].entries| >= PAIRS && PairVictim(t.slots[i].entries, j)
      && !answer
      && u == Placed(t, i, Asked(t.slots[i]).(entries := t.slots[i].entries[j := Entry(c.start, c.end, 1)]))
    case ReuseSlot(i) =>
      && Absent(t, c)
      && i < t.num && Dead(t.slots[i], c.live) && (forall k :: 0 <= k < i ==> !Dead(t.slots[k], c.live))
      && !answer
      && u == Placed(t, i, Fresh(t.slots[i], c))
    case NewSlot =>
      && Absent(t, c) && AllAlive(t, c.live)
      && t.num < SLOTS
      && !answer
      && u == Placed(t, t.num, Fresh(t.slots[t.num], c)).(num := t.num + 1)
    case EvictSlot(i) =>
      && Absent(t, c) && AllAlive(t, c.live)
      && t.num == SLOTS && SlotVictim(t.slots, i)
      && !answer
      && u == Placed(t, i, Fresh(t.slots[i], c))
  }

  // ---------------------------------------------------------------------------------------------
  // The operation
  // ---------------------------------------------------------------------------------------------

  class TaintMemory {
    const info: array<Slot>
    var num: nat

    ghost function Model(): Table
      reads this, info
    {
      Table(info[..], num)
    }

    /** `alloc_taine_analyze_list`: the slots hold whatever the memory held. */
    constructor (memory: seq<Slot>)
      requires |memory| == SLOTS
      ensures Model() == Table(memory, 0) && Valid(Model()) && fresh(info)
    {
      info := new Slot[SLOTS](i requires 0 <= i < SLOTS => memory[i]);
      num := 0;
      new;
      assert info[..] == memory;
    }

    method InsertAndSearch(c: Call) returns (answer: bool, ghost step: Step)
      requires Shaped(Model())
      modifies `num, info
      ensures Shaped(Model())
      ensures Took(old(Model()), Model(), c, step, answer)
    {
      var insertByPid := -1;
      var insertByNum := 0;
      var least := |info[0].entries|;
      var zeroFound := false;
      var pidIndex := 0;
      while pidIndex < num
        invariant 0 <= pidIndex <= num
        invariant forall i :: 0 <= i < pidIndex ==> info[i].pid == c.pid ==> Dead(info[i], c.live)
        invariant if insertByPid == -1 then forall i :: 0 <= i < pidIndex ==> !Dead(info[i], c.live)
                  else && 0 <= insertByPid < pidIndex && Dead(info[insertByPid], c.live)
                       && forall i :: 0 <= i < insertByPid ==> !Dead(info[i], c.live)
        invariant insertByPid == -1 ==> ScanOf(info[..pidIndex], |info[0].entries|, insertByNum, least, zeroFound)
      {
        if |info[pidIndex].entries| != 0 && (info[pidIndex].pid == 0 || info[pidIndex].pid !in c.live) {
          if insertByPid == -1 {
            insertByPid := pidIndex;
          }
          pidIndex := pidIndex + 1;
          continue;
        }
        if !zeroFound && info[pidIndex].total == 0 {
          insertByNum := pidIndex;
          zeroFound := true;
        }
        if !zeroFound && info[pidIndex].total < least {
          least := info[pidIndex].total;
          insertByNum := pidIndex;
        }
        if info[pidIndex].pid == c.pid {
          answer, step := SearchSlot(pidIndex, c);
          return;
        }
        pidIndex := pidIndex + 1;
      }
      step := InsertNew(c, insertByPid, insertByNum, least, zeroFound);
      answer := false;
    }

    /** A pid without a slot: reuse a dead slot, take a new one, or evict. */
    method InsertNew(c: Call, insertByPid: int, insertByNum: int, ghost least: int, ghost zeroFound: bool)
      returns (ghost step: Step)
      requires Shaped(Model()) && Absent(Model(), c)
      requires if insertByPid == -1 then AllAlive(Model(), c.live)
               else && 0 <= insertByPid < num && Dead(info[insertByPid], c.live)
                    && forall i :: 0 <= i < insertByPid ==> !Dead(info[i], c.live)
      requires insertByPid == -1 ==> ScanOf(info[..num], |info[0].entries|, insertByNum, least, zeroFound)
      modifies `num, info
      ensures Shaped(Model())
      ensures Took(old(Model()), Model(), c, step, false)
    {
      if insertByPid != -1 {
        info[insertByPid] := Fresh(info[insertByPid], c);
        return ReuseSlot(insertByPid);
      } else if num < SLOTS {
        info[num] := Fresh(info[num], c);
        num := num + 1;
        return NewSlot;
      } else {
        assert info[..num] == info[..];
        info[insertByNum] := Fresh(info[insertByNum], c);
        return EvictSlot(insertByNum);
      }
    }

    /** The search of one slot's pairs. */
    method SearchSlot(i: nat, c: Call) returns (answer: bool, ghost step: Step)
      requires Shaped(Model()) && FirstMatch(Model(), c, i)
      modifies info
      ensures Shaped(Model())
      ensures Took(old(Model()), Model(), c, step, answer)
    {
      info[i] := info[i].(total := (info[i].total + 1) % TWO_32);
      var entries := info[i].entries;
      var addrMin := entries[0].count;
      var spaceFound := false;
      var addrInsert := 0;
      var addrIndex := 0;
      while addrIndex < |entries|
        invariant 0 <= addrIndex <= |entries|
        invariant forall k :: 0 <= k < addrIndex ==> !Matches(entries[k], c)
        invariant PairScanOf(entries, addrIndex, addrInsert, addrMin, spaceFound)
      {
        if entries[addrIndex].count == 0 {
          spaceFound := true;
          addrInsert := addrIndex;
        }
        if !spaceFound && entries[addrIndex].count < addrMin {
          addrMin := entries[addrIndex].count;
          addrInsert := addrIndex;
        }
        if entries[addrIndex].start == c.start && entries[addrIndex].end == c.end {
          var e := entries[addrIndex];
          info[i] := info[i].(entries := entries[addrIndex := e.(count := (e.count + 1) % TWO_32)]);
          return true, Hit(i, addrIndex);
        }
        addrIndex := addrIndex + 1;
      }
      if |entries| < PAIRS {
        info[i] := info[i].(entries := entries + [Entry(c.start, c.end, 1)]);
        return false, Append(i);
      } else {
        info[i] := info[i].(entries := entries[addrInsert := Entry(c.start, c.end, 1)]);
        return false, ReplacePair(i, addrInsert);
      }
    }
  }

  /** What the scan for a slot to evict has found among the slots seen so far. */
  ghost predicate ScanOf(seen: seq<Slot>, first: nat, index: int, least: int, zeroFound: bool) {
    if zeroFound then
      0 <= index < |seen| && seen[index].total == 0 && forall k :: 0 <= k < index ==> seen[k].total != 0
    else
      && (forall k :: 0 <= k < |seen| ==> seen[k].total != 0 && least <= seen[k].total)
      && (|| (index == 0 && least == first)
          || (&& 0 <= index < |seen| && least == seen[index].total < first
              && forall k :: 0 <= k < index ==> least < seen[k].total))
  }

  ghost predicate PairScanOf(entries: seq<Entry>, n: nat, index: int, least: int, zeroFound: bool)
    requires n <= |entries|
  {
    && 0 <= index < |entries|
    && if zeroFound then
         index < n && entries[index].count == 0 && forall k :: index < k < n ==> entries[k].count != 0
       else
         && least == entries[index].count
         && (forall k :: 0 <= k < n ==> entries[k].count != 0 && least <= entries[k].count)
         && (forall k :: 0 <= k < index ==> least < entries[k].count)
  }

  // ---------------------------------------------------------------------------------------------
  // What every call keeps
  // ---------------------------------------------------------------------------------------------

  predicate SamePair(c: Call, d: Call) {
    c.pid == d.pid && c.start == d.start && c.end == d.end
  }

  /** The slot a step writes. */
  function Target(t: Table, step: Step): nat {
    match step
    case NewSlot => t.num
    case _ => step.i
  }

  /** Every step writes one slot; the others keep their contents. */
  lemma OneSlotChanges(t: Table, u: Table, c: Call, step: Step, answer: bool)
    requires Valid(t) && Took(t, u, c, step, answer)
    ensures var i := Target(t, step);
      && i < u.num && t.num <= u.num <= |u.slots| == SLOTS
      && u.slots[i].pid == c.pid
      && forall k :: 0 <= k < SLOTS && k != i ==> u.slots[k] == t.slots[k]
  {
  }

  lemma TargetSlotOk(t: Table, u: Table, c: Call, step: Step, answer: bool)
    requires Valid(t) && Took(t, u, c, step, answer)
    ensures var i := Target(t, step); i < |u.slots| && SlotOk(u.slots[i]) && Listed(u.slots[i], c)
  {
    var i := Target(t, step);
    match step
    case Hit(_, j) => assert Matches(u.slots[i].entries[j], c);
    case Append(_) => assert Matches(u.slots[i].entries[|t.slots[i].entries|], c);
    case ReplacePair(_, j) => assert Matches(u.slots[i].entries[j], c);
    case _ => assert Matches(u.slots[i].entries[0], c);
  }

  /** For any call, of a living process or not: the table stays valid exactly when no other slot than the one written
      carries the pid. A call for a dead process can take a first dead slot while a later one still has its pid. */
  lemma StepKeepsExactly(t: Table, u: Table, c: Call, step: Step, answer: bool)
    requires Valid(t) && Took(t, u, c, step, answer)
    ensures Valid(u) <==> forall k :: 0 <= k < t.num && k != Target(t, step) ==> t.slots[k].pid != c.pid
  {
    OneSlotChanges(t, u, c, step, answer);
    TargetSlotOk(t, u, c, step, answer);
    var i := Target(t, step);
    if k :| 0 <= k < t.num && k != i && t.slots[k].pid == c.pid {
      assert u.slots[k].pid == u.slots[i].pid;
    }
  }

  /** Calls for living processes keep pids distinct, pairs distinct and counts bounded. */
  lemma StepKeeps(t: Table, u: Table, c: Call, step: Step, answer: bool)
    requires Valid(t) && Proper(c) && Took(t, u, c, step, answer)
    ensures Valid(u)
  {
    StepKeepsExactly(t, u, c, step, answer);
  }

  /** The answer is 1 exactly when the pair is held, and the pair is held after the call. */
  lemma AnswerExact(t: Table, u: Table, c: Call, step: Step, answer: bool)
    requires Valid(t) && Proper(c) && Took(t, u, c, step, answer)
    ensures answer <==> Held(t, c)
    ensures u.num <= |u.slots| && Held(u, c)
  {
    OneSlotChanges(t, u, c, step, answer);
    TargetSlotOk(t, u, c, step, answer);
    if answer {
      assert Listed(t.slots[step.i], c);
    }
  }

  /** A call adds its own pair and no other. */
  lemma NothingElseAppears(t: Table, u: Table, c: Call, step: Step, answer: bool, d: Call)
    requires Valid(t) && Proper(c) && Took(t, u, c, step, answer)
    requires u.num <= |u.slots| && Held(u, d)
    ensures Held(t, d) || SamePair(c, d)
  {
    OneSlotChanges(t, u, c, step, answer);
    var k :| 0 <= k < u.num && u.slots[k].pid == d.pid && Listed(u.slots[k], d);
    if k == Target(t, step) && !SamePair(c, d) {
      var j :| 0 <= j < |u.slots[k].entries| && Matches(u.slots[k].entries[j], d);
      assert step.Hit? || step.Append? || step.ReplacePair?;
      assert Matches(t.slots[k].entries[j], d);
    }
  }

  /** Only a replaced pair, a reused slot and an evicted slot lose anything. */
  lemma OnlyReplacementForgets(t: Table, u: Table, c: Call, step: Step, answer: bool, d: Call)
    requires Valid(t) && Proper(c) && Took(t, u, c, step, answer) && Held(t, d)
    ensures u.num <= |u.slots|
    ensures Held(u, d)
      || (step.ReplacePair? && d.pid == c.pid && Matches(t.slots[step.i].entries[step.j], d))
      || ((step.ReuseSlot? || step.EvictSlot?) && d.pid == t.slots[step.i].pid)
  {
    OneSlotChanges(t, u, c, step, answer);
    var k :| 0 <= k < t.num && t.slots[k].pid == d.pid && Listed(t.slots[k], d);
    var i := Target(t, step);
    if k != i {
      assert u.slots[k] == t.slots[k];
    } else if step.Hit? || step.Append? || step.ReplacePair? {
      var j :| 0 <= j < |t.slots[k].entries| && Matches(t.slots[k].entries[j], d);
      if !(step.ReplacePair? && j == step.j) {
        assert Matches(u.slots[k].entries[j], d);
      }
    }
  }

  /** A replaced pair had the least count in its full slot; among equal ones the first, but the last of several
      zeros. */
  lemma ReplacedPairIsLeast(t: Table, u: Table, c: Call, i: nat, j: nat, answer: bool)
    requires Valid(t) && Took(t, u, c, ReplacePair(i, j), answer)
    ensures var entries := t.slots[i].entries;
      && j < |entries| == 1024
      && (forall k :: 0 <= k < |entries| ==> entries[j].count <= entries[k].count)
      && (entries[j].count != 0 ==> forall k :: 0 <= k < j ==> entries[j].count < entries[k].count)
      && (entries[j].count == 0 ==> forall k :: j < k < |entries| ==> entries[k].count != 0)
  {
  }

  predicate LeastTotal(slots: seq<Slot>, v: nat)
    requires v < |slots|
  {
    forall k :: 0 <= k < |slots| ==> slots[v].total <= slots[k].total
  }

  /** Some total the scan takes for small: 0, or below the number of pairs in slot 0. */
  predicate ScanFindsSmall(slots: seq<Slot>)
    requires |slots| > 0
  {
    exists k :: 0 <= k < |slots| && (slots[k].total == 0 || slots[k].total < |slots[0].entries|)
  }

  /** An evicted slot need not be the least used, because the scan starts from the number of pairs in slot 0 and not
      from its total. It is the least used exactly when the scan finds a small total, or slot 0 is the least used. */
  lemma EvictedSlotLeast(t: Table, u: Table, c: Call, i: nat, answer: bool)
    requires Valid(t) && Took(t, u, c, EvictSlot(i), answer)
    ensures LeastTotal(t.slots, i) <==> ScanFindsSmall(t.slots) || LeastTotal(t.slots, 0)
  {
    if LeastTotal(t.slots, i) && i != 0 {
      assert t.slots[i].total == 0 || t.slots[i].total < |t.slots[0].entries|;
    }
  }

  // ---------------------------------------------------------------------------------------------
  // Runs
  // ---------------------------------------------------------------------------------------------

  /** A run from the empty table: `tables[k]` before call `k`, `answers[k]` its answer. */
  ghost predicate Run(tables: seq<Table>, calls: seq<Call>, answers: seq<bool>) {
    && |tables| == |calls| + 1 && |answers| == |calls|
    && |tables[0].slots| == SLOTS && tables[0].num == 0
    && (forall k :: 0 <= k < |calls| ==> StepsAt(tables, calls, answers, k))
  }

  ghost predicate Stepped(t: Table, u: Table, c: Call, answer: bool) {
    |t.slots| == SLOTS && t.num <= SLOTS && exists step :: Took(t, u, c, step, answer)
  }

  /** Call `k` is for a living process and does what the operation may do. */
  ghost predicate StepsAt(tables: seq<Table>, calls: seq<Call>, answers: seq<bool>, k: nat)
    requires k < |calls| == |answers| && k + 1 < |tables|
  {
    Proper(calls[k]) && Stepped(tables[k], tables[k + 1], calls[k], answers[k])
  }

  lemma {:induction false} RunKeeps(tables: seq<Table>, calls: seq<Call>, answers: seq<bool>, k: nat)
    requires Run(tables, calls, answers) && k <= |calls|
    ensures Valid(tables[k])
  {
    if k > 0 {
      RunKeeps(tables, calls, answers, k - 1);
      var j := k - 1;
      assert StepsAt(tables, calls, answers, j);
      var step :| Took(tables[j], tables[j + 1], calls[j], step, answers[j]);
      StepKeeps(tables[j], tables[j + 1], calls[j], step, answers[j]);
    }
  }

  /** The step taken by call `k`. */
  lemma StepOf(tables: seq<Table>, calls: seq<Call>, answers: seq<bool>, k: nat) returns (step: Step)
    requires Run(tables, calls, answers) && k < |calls|
    ensures Valid(tables[k]) && Proper(calls[k])
    ensures Took(tables[k], tables[k + 1], calls[k], step, answers[k])
  {
    RunKeeps(tables, calls, answers, k);
    assert StepsAt(tables, calls, answers, k);
    step :| Took(tables[k], tables[k + 1], calls[k], step, answers[k]);
  }

  predicate AskedBefore(calls: seq<Call>, k: nat, c: Call)
    requires k <= |calls|
  {
    exists j :: 0 <= j < k && SamePair(calls[j], c)
  }

  /** Whatever the table holds was passed by an earlier call. */
  lemma {:induction false} HeldWasAsked(tables: seq<Table>, calls: seq<Call>, answers: seq<bool>, k: nat, c: Call)
    requires Run(tables, calls, answers) && k <= |calls|
    requires tables[k].num <= |tables[k].slots| && Held(tables[k], c)
    ensures AskedBefore(calls, k, c)
  {
    if k > 0 {
      var step := StepOf(tables, calls, answers, k - 1);
      NothingElseAppears(tables[k - 1], tables[k], calls[k - 1], step, answers[k - 1], c);
      if !SamePair(calls[k - 1], c) {
        HeldWasAsked(tables, calls, answers, k - 1, c);
      }
    }
  }

  /** The answer 1 is given only for a triple passed earlier. */
  lemma AnswersAgreeWithHistory(tables: seq<Table>, calls: seq<Call>, answers: seq<bool>, k: nat)
    requires Run(tables, calls, answers) && k < |calls| && answers[k]
    ensures AskedBefore(calls, k, calls[k])
  {
    var step := StepOf(tables, calls, answers, k);
    AnswerExact(tables[k], tables[k + 1], calls[k], step, answers[k]);
    HeldWasAsked(tables, calls, answers, k, calls[k]);
  }

  /** An immediate repeat of a call is answered 1. */
  lemma RepeatIsAnswered(tables: seq<Table>, calls: seq<Call>, answers: seq<bool>, k: nat)
    requires Run(tables, calls, answers) && k + 1 < |calls| && SamePair(calls[k], calls[k + 1])
    ensures answers[k + 1]
  {
    var step := StepOf(tables, calls, answers, k);
    AnswerExact(tables[k], tables[k + 1], calls[k], step, answers[k]);
    var next := StepOf(tables, calls, answers, k + 1);
    AnswerExact(tables[k + 1], tables[k + 2], calls[k + 1], next, answers[k + 1]);
    HeldByPair(tables[k + 1], calls[k], calls[k + 1]);
  }

  lemma HeldByPair(t: Table, c: Call, d: Call)
    requires t.num <= |t.slots| && SamePair(c, d)
    ensures Held(t, c) <==> Held(t, d)
  {
    forall i | 0 <= i < t.num ensures Listed(t.slots[i], c) <==> Listed(t.slots[i], d) {
      assert forall j :: 0 <= j < |t.slots[i].entries| ==>
               (Matches(t.slots[i].entries[j], c) <==> Matches(t.slots[i].entries[j], d));
    }
  }

  // ---------------------------------------------------------------------------------------------
  // What the two counters count
  // ---------------------------------------------------------------------------------------------

  /** Calls for the triple of `c` since it was last inserted, the inserting call included: an answer 0 inserts. */
  function AskedSince(calls: seq<Call>, answers: seq<bool>, k: nat, c: Call): nat
    requires k <= |calls| == |answers|
  {
    if k == 0 then 0
    else if !SamePair(calls[k - 1], c) then AskedSince(calls, answers, k - 1, c)
    else if answers[k - 1] then AskedSince(calls, answers, k - 1, c) + 1
    else 1
  }

  /** Calls among the first `k` that found their pid in slot `i`. */
  function FoundIn(tables: seq<Table>, calls: seq<Call>, k: nat, i: nat): nat
    requires k <= |calls| <= |tables| && forall j :: 0 <= j < |calls| ==> tables[j].num <= |tables[j].slots|
  {
    if k == 0 then 0
    else
      var t := tables[k - 1];
      FoundIn(tables, calls, k - 1, i) + if i < t.num && t.slots[i].pid == calls[k - 1].pid then 1 else 0
  }

  function TripleOf(s: Slot, j: nat): Call
    requires j < |s.entries|
  {
    Call(s.pid, s.entries[j].start, s.entries[j].end, {})
  }

  /** The count of one pair across one call. */
  lemma CountAcross(t: Table, u: Table, c: Call, step: Step, answer: bool, i: nat, j: nat)
    requires Valid(t) && Proper(c) && Took(t, u, c, step, answer)
    requires u.num <= |u.slots| && i < u.num && j < |u.slots[i].entries|
    ensures var d, count := TripleOf(u.slots[i], j), u.slots[i].entries[j].count;
      if SamePair(c, d) && !answer then count == 1
      else && i < t.num && j < |t.slots[i].entries| && SamePair(TripleOf(t.slots[i], j), d)
           && count == if SamePair(c, d) then (t.slots[i].entries[j].count + 1) % TWO_32
                       else t.slots[i].entries[j].count
  {
    OneSlotChanges(t, u, c, step, answer);
    StepKeeps(t, u, c, step, answer);
    if i == Target(t, step) && step.ReplacePair? {
      assert Matches(u.slots[i].entries[step.j], c);
    } else if i == Target(t, step) && step.Append? {
      assert Matches(u.slots[i].entries[|t.slots[i].entries|], c);
    }
  }

  /** Over any run, the count of a held pair is the number of calls for it since it was last inserted, modulo 2^32. */
  lemma {:induction false} CountIsHistory(tables: seq<Table>, calls: seq<Call>, answers: seq<bool>,
                                          k: nat, i: nat, j: nat)
    requires Run(tables, calls, answers) && k <= |calls| && Valid(tables[k])
    requires i < tables[k].num && j < |tables[k].slots[i].entries|
    ensures tables[k].slots[i].entries[j].count
         == AskedSince(calls, answers, k, TripleOf(tables[k].slots[i], j)) % TWO_32
  {
    if k > 0 {
      var h := k - 1;
      var step := StepOf(tables, calls, answers, h);
      var t, d := tables[h], TripleOf(tables[h + 1].slots[i], j);
      CountAcross(t, tables[h + 1], calls[h], step, answers[h], i, j);
      if !(SamePair(calls[h], d) && !answers[h]) {
        CountIsHistory(tables, calls, answers, h, i, j);
        SameTriple(calls, answers, h, TripleOf(t.slots[i], j), d);
        ModPlusOne(AskedSince(calls, answers, h, d), TWO_32);
      }
    }
  }

  lemma {:induction false} SameTriple(calls: seq<Call>, answers: seq<bool>, k: nat, c: Call, d: Call)
    requires k <= |calls| == |answers| && SamePair(c, d)
    ensures AskedSince(calls, answers, k, c) == AskedSince(calls, answers, k, d)
  {
    if k > 0 {
      SameTriple(calls, answers, k - 1, c, d);
    }
  }

  lemma ModPlusOne(a: nat, n: nat)
    requires n > 0
    ensures (a % n + 1) % n == (a + 1) % n
  {
    ModPeriodic(a % n + 1, a / n, n);
  }

  lemma TotalAcross(t: Table, u: Table, c: Call, step: Step, answer: bool, i: nat)
    requires Valid(t) && Proper(c) && Took(t, u, c, step, answer) && i < SLOTS
    ensures |u.slots| == SLOTS
    ensures u.slots[i].total ==
      if i < t.num && t.slots[i].pid == c.pid then (t.slots[i].total + 1) % TWO_32 else t.slots[i].total
  {
    OneSlotChanges(t, u, c, step, answer);
  }

  /** Over any run, the total of a slot is its starting value plus the number of calls that found their pid there,
      modulo 2^32. It is not reset when the slot changes hands. */
  lemma {:induction false} TotalIsHistory(tables: seq<Table>, calls: seq<Call>, answers: seq<bool>, k: nat, i: nat)
    requires Run(tables, calls, answers) && k <= |calls| && i < SLOTS
    ensures |tables[0].slots| == |tables[k].slots| == SLOTS
    ensures forall j :: 0 <= j < |calls| ==> tables[j].num <= |tables[j].slots|
    ensures tables[k].slots[i].total == (tables[0].slots[i].total + FoundIn(tables, calls, k, i)) % TWO_32
  {
    forall j | 0 <= j < |calls| ensures tables[j].num <= |tables[j].slots| {
      assert StepsAt(tables, calls, answers, j);
    }
    if k == 0 {
      SmallMod(tables[0].slots[i].total, TWO_32);
    } else {
      var h := k - 1;
      var step := StepOf(tables, calls, answers, h);
      TotalIsHistory(tables, calls, answers, h, i);
      TotalAcross(tables[h], tables[h + 1], calls[h], step, answers[h], i);
      ModPlusOne(tables[0].slots[i].total + FoundIn(tables, calls, h, i), TWO_32);
    }
  }

  // ---------------------------------------------------------------------------------------------
  // Who has to go, by the history of calls
  // ---------------------------------------------------------------------------------------------

  /** A pair that a call for its own process drops has been asked for least, modulo 2^32, since it was inserted, among
      the 1024 pairs held for that process. */
  lemma DroppedPairAskedLeast(tables: seq<Table>, calls: seq<Call>, answers: seq<bool>, k: nat, d: Call, e: Call)
    requires Run(tables, calls, answers) && k < |calls| && Valid(tables[k]) && Valid(tables[k + 1])
    requires d.pid == e.pid == calls[k].pid
    requires Held(tables[k], d) && !Held(tables[k + 1], d) && Held(tables[k], e)
    ensures AskedSince(calls, answers, k, d) % TWO_32 <= AskedSince(calls, answers, k, e) % TWO_32
    ensures exists i :: 0 <= i < tables[k].num
              && tables[k].slots[i].pid == d.pid && |tables[k].slots[i].entries| == 1024
  {
    var t, u, c := tables[k], tables[k + 1], calls[k];
    var step := StepOf(tables, calls, answers, k);
    OnlyReplacementForgets(t, u, c, step, answers[k], d);
    ReplacedPairIsLeast(t, u, c, step.i, step.j, answers[k]);
    var i :| 0 <= i < t.num && t.slots[i].pid == e.pid && Listed(t.slots[i], e);
    var j :| 0 <= j < |t.slots[i].entries| && Matches(t.slots[i].entries[j], e);
    CountIsHistory(tables, calls, answers, k, i, j);
    CountIsHistory(tables, calls, answers, k, step.i, step.j);
    SameTriple(calls, answers, k, TripleOf(t.slots[i], j), e);
    SameTriple(calls, answers, k, TripleOf(t.slots[step.i], step.j), d);
  }

  /** How often slot `v` has been asked for when call `k` comes, as the table counts. */
  function Use(tables: seq<Table>, calls: seq<Call>, k: nat, v: nat): nat
    requires k <= |calls| < |tables| && (forall j :: 0 <= j < |calls| ==> tables[j].num <= |tables[j].slots|)
    requires v < |tables[0].slots|
  {
    (tables[0].slots[v].total + FoundIn(tables, calls, k, v)) % TWO_32
  }

  predicate UsedLeast(tables: seq<Table>, calls: seq<Call>, k: nat, v: nat)
    requires k <= |calls| < |tables| && (forall j :: 0 <= j < |calls| ==> tables[j].num <= |tables[j].slots|)
    requires v < |tables[0].slots|
  {
    forall w :: 0 <= w < |tables[0].slots| ==> Use(tables, calls, k, v) <= Use(tables, calls, k, w)
  }

  /** Some slot was used 0 times, or fewer than `limit` times. */
  predicate SomeUsedLittle(tables: seq<Table>, calls: seq<Call>, k: nat, limit: nat)
    requires k <= |calls| < |tables| && (forall j :: 0 <= j < |calls| ==> tables[j].num <= |tables[j].slots|)
  {
    exists v :: 0 <= v < |tables[0].slots| && (Use(tables, calls, k, v) == 0 || Use(tables, calls, k, v) < limit)
  }

  lemma TotalsAreUses(tables: seq<Table>, calls: seq<Call>, answers: seq<bool>, k: nat)
    requires Run(tables, calls, answers) && k < |calls|
    ensures |tables[0].slots| == |tables[k].slots| == 1024
    ensures forall j :: 0 <= j < |calls| ==> tables[j].num <= |tables[j].slots|
    ensures forall v :: 0 <= v < 1024 ==> tables[k].slots[v].total == Use(tables, calls, k, v)
  {
    TotalIsHistory(tables, calls, answers, k, 0);
    forall v | 0 <= v < 1024 ensures tables[k].slots[v].total == Use(tables, calls, k, v) {
      TotalIsHistory(tables, calls, answers, k, v);
    }
  }

  lemma OnlyEvictedWhenFull(t: Table, u: Table, c: Call, step: Step, answer: bool, i: nat)
    requires Valid(t) && Took(t, u, c, step, answer) && i < t.num && i < |u.slots| && !Dead(t.slots[i], c.live)
    requires u.slots[i].pid != t.slots[i].pid
    ensures step == EvictSlot(i) && t.num == 1024 && AllAlive(t, c.live) && SlotVictim(t.slots, i)
  {
    OneSlotChanges(t, u, c, step, answer);
  }

  /** The slot of a living process changes hands only when 1024 living processes fill the table. If some slot was used
      0 times, or fewer times than slot 0 has pairs, the first of the least used slots goes; otherwise slot 0 goes. */
  lemma EvictedByUse(tables: seq<Table>, calls: seq<Call>, answers: seq<bool>, k: nat, i: nat)
    requires Run(tables, calls, answers) && k < |calls| && Valid(tables[k]) && Valid(tables[k + 1])
    requires i < tables[k].num && !Dead(tables[k].slots[i], calls[k].live)
    requires tables[k + 1].slots[i].pid != tables[k].slots[i].pid
    ensures tables[k].num == 1024 && AllAlive(tables[k], calls[k].live)
    ensures forall j :: 0 <= j < |calls| ==> tables[j].num <= |tables[j].slots|
    ensures |tables[0].slots| == 1024
    ensures if SomeUsedLittle(tables, calls, k, |tables[k].slots[0].entries|) then
              && UsedLeast(tables, calls, k, i)
              && forall v :: 0 <= v < i ==> Use(tables, calls, k, i) < Use(tables, calls, k, v)
            else i == 0
  {
    var step := StepOf(tables, calls, answers, k);
    OnlyEvictedWhenFull(tables[k], tables[k + 1], calls[k], step, answers[k], i);
    TotalsAreUses(tables, calls, answers, k);
  }

  predicate TakenOver(s: Slot, c: Call) {
    s.pid == c.pid && s.entries == [Entry(c.start, c.end, 1)]
  }

  predicate FirstDead(t: Table, c: Call, i: int)
    requires t.num <= |t.slots|
  {
    0 <= i < t.num && Dead(t.slots[i], c.live) && forall j :: 0 <= j < i ==> !Dead(t.slots[j], c.live)
  }

  /** A pid not in the table goes to the first slot of a dead process, else behind the used slots, with its pair counted
      once. */
  lemma NewPidPlaced(tables: seq<Table>, calls: seq<Call>, answers: seq<bool>, k: nat)
    requires Run(tables, calls, answers) && k < |calls| && Valid(tables[k]) && Valid(tables[k + 1])
    requires forall i :: 0 <= i < tables[k].num ==> tables[k].slots[i].pid != calls[k].pid
    ensures var t, u, c := tables[k], tables[k + 1], calls[k];
      && (AllAlive(t, c.live) && t.num < 1024 ==> u.num == t.num + 1 && TakenOver(u.slots[t.num], c))
      && (forall i :: FirstDead(t, c, i) ==> u.num == t.num && TakenOver(u.slots[i], c))
  {
    var step := StepOf(tables, calls, answers, k);
  }

  // ---------------------------------------------------------------------------------------------
  // Within its bounds the table is the history
  // ---------------------------------------------------------------------------------------------

  function PidsAsked(calls: seq<Call>): set<U32> {
    set j | 0 <= j < |calls| :: calls[j].pid
  }

  function PairsAsked(calls: seq<Call>, pid: U32): set<(U64, U64)> {
    set j | 0 <= j < |calls| && calls[j].pid == pid :: (calls[j].start, calls[j].end)
  }

  /** At most 1024 processes, at most 1024 pairs for each, and all of them stay alive. */
  predicate WithinBounds(calls: seq<Call>) {
    && |PidsAsked(calls)| <= 1024
    && (forall pid :: pid in PidsAsked(calls) ==> |PairsAsked(calls, pid)| <= 1024)
    && (forall k :: 0 <= k < |calls| ==> PidsAsked(calls[..k]) <= calls[k].live)
  }

  function Elements<T(!new)>(s: seq<T>): (r: set<T>)
    ensures forall x :: x in r <==> x in s
  {
    set x | x in s
  }

  lemma {:induction false} DistinctSize<T(!new)>(s: seq<T>)
    requires forall i, j :: 0 <= i < j < |s| ==> s[i] != s[j]
    ensures |Elements(s)| == |s|
  {
    if |s| > 0 {
      var rest := s[..|s| - 1];
      DistinctSize(rest);
      assert Elements(s) == Elements(rest) + {s[|s| - 1]};
    }
  }

  /** A used slot belongs to a process some earlier call named, and its pairs are pairs passed for it. */
  lemma SlotWasAsked(tables: seq<Table>, calls: seq<Call>, answers: seq<bool>, k: nat, i: nat, j: nat)
    requires Run(tables, calls, answers) && k <= |calls| && Valid(tables[k])
    requires i < tables[k].num && j < |tables[k].slots[i].entries|
    ensures var slot := tables[k].slots[i];
      && slot.pid in PidsAsked(calls[..k]) && slot.pid != 0
      && (slot.entries[j].start, slot.entries[j].end) in PairsAsked(calls[..k], slot.pid)
  {
    var slot := tables[k].slots[i];
    var c := Call(slot.pid, slot.entries[j].start, slot.entries[j].end, {});
    assert Matches(slot.entries[j], c);
    HeldWasAsked(tables, calls, answers, k, c);
    var n :| 0 <= n < k && SamePair(calls[n], c);
    assert StepsAt(tables, calls, answers, n) && calls[..k][n] == calls[n];
  }

  lemma AskedGrows(calls: seq<Call>, k: nat)
    requires k < |calls|
    ensures calls[k].pid in PidsAsked(calls)
    ensures (calls[k].start, calls[k].end) in PairsAsked(calls, calls[k].pid)
    ensures PidsAsked(calls[..k]) <= PidsAsked(calls)
    ensures forall pid :: PairsAsked(calls[..k], pid) <= PairsAsked(calls, pid)
  {
    assert forall j :: 0 <= j < k ==> calls[..k][j] == calls[j];
  }

  lemma NoReuse(tables: seq<Table>, calls: seq<Call>, answers: seq<bool>, k: nat, i: nat)
    requires Run(tables, calls, answers) && k < |calls| && WithinBounds(calls) && Valid(tables[k])
    requires i < tables[k].num
    ensures !Dead(tables[k].slots[i], calls[k].live)
  {
    SlotWasAsked(tables, calls, answers, k, i, 0);
  }

  lemma NoEviction(tables: seq<Table>, calls: seq<Call>, answers: seq<bool>, k: nat)
    requires Run(tables, calls, answers) && k < |calls| && WithinBounds(calls) && Valid(tables[k])
    requires Absent(tables[k], calls[k])
    ensures tables[k].num < SLOTS
  {
    var t := tables[k];
    var pids: seq<U32> := seq(t.num, i requires 0 <= i < t.num => t.slots[i].pid);
    DistinctSize(pids);
    var used := Elements(pids);
    AskedGrows(calls, k);
    forall x | x in used ensures x in PidsAsked(calls) {
      var i :| 0 <= i < t.num && pids[i] == x;
      SlotWasAsked(tables, calls, answers, k, i, 0);
    }
    assert StepsAt(tables, calls, answers, k);
    assert calls[k].pid !in used;
    SubsetSize(used + {calls[k].pid}, PidsAsked(calls));
  }

  lemma NoReplacement(tables: seq<Table>, calls: seq<Call>, answers: seq<bool>, k: nat, i: nat)
    requires Run(tables, calls, answers) && k < |calls| && WithinBounds(calls) && Valid(tables[k])
    requires i < tables[k].num && tables[k].slots[i].pid == calls[k].pid && !Listed(tables[k].slots[i], calls[k])
    ensures |tables[k].slots[i].entries| < PAIRS
  {
    var c, entries := calls[k], tables[k].slots[i].entries;
    var pairs: seq<(U64, U64)> := seq(|entries|, j requires 0 <= j < |entries| => (entries[j].start, entries[j].end));
    DistinctSize(pairs);
    var used := Elements(pairs);
    AskedGrows(calls, k);
    forall x | x in used ensures x in PairsAsked(calls, c.pid) {
      var j :| 0 <= j < |entries| && pairs[j] == x;
      SlotWasAsked(tables, calls, answers, k, i, j);
    }
    forall j | 0 <= j < |entries| ensures pairs[j] != (c.start, c.end) {
      assert !Matches(entries[j], c);
    }
    assert (c.start, c.end) !in used;
    SubsetSize(used + {(c.start, c.end)}, PairsAsked(calls, c.pid));
  }

  lemma {:induction false} SubsetSize<T>(a: set<T>, b: set<T>)
    requires a <= b
    ensures |a| <= |b|
  {
    if x :| x in a {
      SubsetSize(a - {x}, b - {x});
    }
  }

  lemma StepForgetsNothing(tables: seq<Table>, calls: seq<Call>, answers: seq<bool>, k: nat, step: Step, d: Call)
    requires Run(tables, calls, answers) && k < |calls| && WithinBounds(calls) && Valid(tables[k])
    requires Took(tables[k], tables[k + 1], calls[k], step, answers[k]) && Held(tables[k], d)
    ensures tables[k + 1].num <= |tables[k + 1].slots| && Held(tables[k + 1], d)
  {
    assert StepsAt(tables, calls, answers, k);
    if step.ReuseSlot? {
      NoReuse(tables, calls, answers, k, step.i);
    } else if step.EvictSlot? {
      NoEviction(tables, calls, answers, k);
    } else {
      if step.ReplacePair? {
        NoReplacement(tables, calls, answers, k, step.i);
      }
      OnlyReplacementForgets(tables[k], tables[k + 1], calls[k], step, answers[k], d);
    }
  }

  lemma CallForgetsNothing(tables: seq<Table>, calls: seq<Call>, answers: seq<bool>, k: nat, d: Call)
    requires Run(tables, calls, answers) && k < |calls| && WithinBounds(calls)
    requires tables[k].num <= |tables[k].slots| && (Held(tables[k], d) || d == calls[k])
    ensures tables[k + 1].num <= |tables[k + 1].slots| && Held(tables[k + 1], d)
  {
    var step := StepOf(tables, calls, answers, k);
    AnswerExact(tables[k], tables[k + 1], calls[k], step, answers[k]);
    if Held(tables[k], d) {
      StepForgetsNothing(tables, calls, answers, k, step, d);
    }
  }

  lemma {:induction false} NothingForgotten(tables: seq<Table>, calls: seq<Call>, answers: seq<bool>, k: nat, n: nat)
    requires Run(tables, calls, answers) && WithinBounds(calls) && n < k <= |calls|
    ensures tables[k].num <= |tables[k].slots| && Held(tables[k], calls[n])
  {
    var j := k - 1;
    RunKeeps(tables, calls, answers, j);
    if n < j {
      NothingForgotten(tables, calls, answers, j, n);
    }
    CallForgetsNothing(tables, calls, answers, j, calls[n]);
  }

  /** While the bounds are kept, the answer is 1 exactly for the triples passed earlier. */
  lemma ExactWithinBounds(tables: seq<Table>, calls: seq<Call>, answers: seq<bool>, k: nat)
    requires Run(tables, calls, answers) && WithinBounds(calls) && k < |calls|
    ensures answers[k] <==> AskedBefore(calls, k, calls[k])
  {
    if answers[k] {
      AnswersAgreeWithHistory(tables, calls, answers, k);
    }
    if n :| 0 <= n < k && SamePair(calls[n], calls[k]) {
      NothingForgotten(tables, calls, answers, k, n);
      HeldByPair(tables[k], calls[n], calls[k]);
      var step := StepOf(tables, calls, answers, k);
      AnswerExact(tables[k], tables[k + 1], calls[k], step, answers[k]);
    }
  }
}
