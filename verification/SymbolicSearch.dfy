/** The depth-bounded symbolic search of `pebs_taine.c`: `symbolic_execution`, `copy_simulation_info` and
    `analyze_address_to_index`. The effect of one instruction and the value of a branch operand are parameters;
    branch decisions and the taint verdict are those of module Branches. */
module SymbolicSearch {
  import opened Arithmetic
  import opened Registers
  import opened Branches

  const MAX_DEPTH := 50
  const MAX_CYCLE := 3
  const HEAP_SIZE := 128

  /** Everything `copy_simulation_info` copies, and the taint map copied beside it. */
  datatype SimState = SimState(
    registers: RegisterFile, taints: TaintMap,
    rbpOffset: U64, rspOffset: U64,
    stackValue: seq<Byte>, stackSet: seq<Byte>, stackTaint: seq<Byte>, stackUnsure: seq<Byte>,
    heapSize: int, heapAddress: seq<U64>, heapValue: seq<U64>, heapTaint: seq<Byte>, heapUnsure: seq<Byte>)
  {
    predicate Sized() {
      && |stackValue| == STACK_SIZE
      && |stackSet| == |stackTaint| == |stackUnsure| == STACK_SIZE / 8
      && |heapAddress| == |heapValue| == |heapTaint| == |heapUnsure| == HEAP_SIZE
    }
  }

  function Zeros(n: nat): (s: seq<Byte>)
    ensures |s| == n && forall i :: 0 <= i < n ==> s[i] == 0
  {
    seq(n, _ => 0)
  }

  function ZeroWords(n: nat): (s: seq<U64>)
    ensures |s| == n && forall i :: 0 <= i < n ==> s[i] == 0
  {
    seq(n, _ => 0)
  }

  function NoFlags(): (w: Word)
    ensures forall i :: 0 <= i < 64 ==> !w[i]
  {
    seq(64, _ => false)
  }

  /** A state with zeroed memory. */
  function InitialState(rflags: Word, rflagsUnsure: Word, rflagsTaint: Word): (s: SimState)
    ensures s.Sized()
  {
    SimState(RegisterFile(rflags, ZeroWords(16), rflagsUnsure, NoFlags(), NoFlags()),
             TaintMap(rflagsTaint, NoFlags(), NoFlags()), 512, 512,
             Zeros(STACK_SIZE), Zeros(STACK_SIZE / 8), Zeros(STACK_SIZE / 8), Zeros(STACK_SIZE / 8),
             0, ZeroWords(HEAP_SIZE), ZeroWords(HEAP_SIZE), Zeros(HEAP_SIZE), Zeros(HEAP_SIZE))
  }

  type State = s: SimState | s.Sized() witness InitialState(NoFlags(), NoFlags(), NoFlags())

  datatype Instr = Instr(address: U64, isBranch: bool, branchType: int, locked: bool)

  /** The decoded code, the address window, and the instruction semantics: the effect of one instruction, the value
      of a branch operand, the decision on a branch and the verdict on the last one, each by position in `code`. */
  datatype Machine = Machine(code: seq<Instr>, lo: U64, hi: U64,
                             effect: (int, State) -> State, operand: (int, State) -> Operand,
                             decide: (int, State) -> Decision, verdict: (int, State) -> bool)

  // The machine's functions applied, so that no heap is involved in naming their results.
  function Effect(m: Machine, index: int, s: State): State { m.effect(index, s) }
  function OperandOf(m: Machine, index: int, s: State): Operand { m.operand(index, s) }
  function Decide(m: Machine, index: int, s: State): Decision { m.decide(index, s) }
  predicate Verdict(m: Machine, index: int, s: State) { m.verdict(index, s) }

  /** The machine that decides and judges as the code does; only `effect` and `operand` stay open. */
  function CodedMachine(code: seq<Instr>, lo: U64, hi: U64,
                        effect: (int, State) -> State, operand: (int, State) -> Operand): Machine {
    Machine(code, lo, hi, effect, operand,
            (i: int, s: State) => AnalyzeBranch(BranchTypeAt(code, i), s.registers),
            (i: int, s: State) => JudgeAttack(BranchTypeAt(code, i), s.taints, operand(i, s).taint))
  }

  function BranchTypeAt(code: seq<Instr>, i: int): int {
    if 0 <= i < |code| then code[i].branchType else 0
  }

  /** `symbolic_execution_one_step`: a locked instruction is refused and changes nothing. */
  function OneStep(m: Machine, index: int, s: State): State
    requires 0 <= index < |m.code|
  {
    if m.code[index].locked then s else Effect(m, index, s)
  }

  // ---------------------------------------------------------------------------------------------
  // Addresses and branch targets
  // ---------------------------------------------------------------------------------------------

  ghost predicate FirstIndexOf(code: seq<Instr>, address: U64, index: int) {
    || (index == -1 && forall i :: 0 <= i < |code| ==> code[i].address != address)
    || (0 <= index < |code| && code[index].address == address
        && forall i :: 0 <= i < index ==> code[i].address != address)
  }

  function IndexFrom(code: seq<Instr>, address: U64, i: nat): (index: int)
    requires i <= |code|
    ensures -1 <= index < |code|
    decreases |code| - i
  {
    if i == |code| then -1
    else if code[i].address == address then i
    else IndexFrom(code, address, i + 1)
  }

  /** `analyze_address_to_index` */
  method AddressToIndex(code: seq<Instr>, address: U64) returns (index: int)
    ensures FirstIndexOf(code, address, index)
    ensures index == IndexFrom(code, address, 0)
  {
    var i := 0;
    while i < |code|
      invariant 0 <= i <= |code|
      invariant forall k :: 0 <= k < i ==> code[k].address != address
      invariant IndexFrom(code, address, i) == IndexFrom(code, address, 0)
    {
      if code[i].address == address {
        return i;
      }
      i := i + 1;
    }
    return -1;
  }

  /** Where a branch goes: nowhere if its operand is tainted, unsure, outside the window or not decoded. */
  function Target(m: Machine, index: int, s: State): (t: Option<int>)
    ensures t.Some? ==> 0 <= t.value < |m.code|
  {
    var op := OperandOf(m, index, s);
    if op.unsure || op.taint then None
    else if op.value < m.lo || op.value > m.hi then None
    else
      var t: int := IndexFrom(m.code, op.value, 0);
      if t < 0 then None else Some(t)
  }

  // ---------------------------------------------------------------------------------------------
  // The search as a function: answer, state left in the caller's objects, and number of one-step calls
  // ---------------------------------------------------------------------------------------------

  datatype Config = Config(index: int, depth: int, cycle: int, state: State)

  datatype Outcome = Outcome(found: bool, final: State, calls: nat)

  predicate Live(m: Machine, c: Config) {
    c.depth < MAX_DEPTH && 0 <= c.index < |m.code| && c.cycle < MAX_CYCLE
  }

  /** What one turn of the loop does: stop with an answer, go on, or split on an undecided branch whose target lies
      ahead (`fall` is the way past the branch) or behind. `calls` counts the one-step calls made. */
  datatype Turn =
    | Stop(answer: bool, calls: nat)
    | Go(next: Config, calls: nat)
    | SplitForward(jump: Config, fall: Config)
    | SplitBackward(target: int, fall: Config)

  function TurnOf(m: Machine, c: Config): (t: Turn)
    ensures !Live(m, c) ==> t == Stop(false, 0)
    ensures t.Go? ==> t.next.depth == c.depth + 1
    ensures t.SplitForward? ==> t.jump == Config(t.jump.index, c.depth + 1, c.cycle, c.state)
    ensures t.SplitForward? ==> t.fall == Config(c.index + 1, c.depth + 1, c.cycle, c.state)
    ensures t.SplitBackward? ==> t.fall == Config(c.index + 1, c.depth, c.cycle, c.state)
    ensures t.SplitBackward? ==> 0 <= t.target <= c.index
  {
    var Config(i, d, cycle, s) := c;
    if !Live(m, c) then Stop(false, 0)
    else if !m.code[i].isBranch then
      if m.code[i].locked then Stop(false, 1) else Go(Config(i + 1, d + 1, cycle, Effect(m, i, s)), 1)
    else if i == |m.code| - 1 then Stop(Verdict(m, i, s), 0)
    else
      var target := Target(m, i, s);
      match Decide(m, i, s)
      case NotTaken => Go(Config(i + 1, d + 1, cycle, OneStep(m, i + 1, s)), 1)
      case Taken =>
        if target.None? || target.value == 0 then Stop(false, 0)
        else Go(Config(target.value, d + 1, cycle, s), 0)
      case Undecided =>
        if target.None? then Stop(false, 0)
        else if target.value > i
          then SplitForward(Config(target.value, d + 1, cycle, s), Config(i + 1, d + 1, cycle, s))
        else SplitBackward(target.value, Config(i + 1, d, cycle, s))
      case IsCall => Stop(false, 0)
      case IsRet => Stop(false, 0)
  }

  /** The jump of a backward split starts from the state the failed fall-through left in the shared copy. */
  function BackwardJump(c: Config, target: int, left: State): Config {
    Config(target, c.depth + 1, c.cycle + 1, left)
  }

  function Explore(m: Machine, c: Config): (o: Outcome)
    decreases MAX_DEPTH - c.depth, |m.code| - c.index
  {
    match TurnOf(m, c)
    case Stop(answer, calls) => Outcome(answer, c.state, calls)
    case Go(next, calls) =>
      var o := Explore(m, next);
      Outcome(o.found, o.final, calls + o.calls)
    case SplitForward(jump, fall) =>
      var j := Explore(m, jump);
      if j.found then Outcome(true, c.state, j.calls)
      else
        var f := Explore(m, fall);
        Outcome(f.found, f.final, j.calls + f.calls)
    case SplitBackward(target, fall) =>
      var f := Explore(m, fall);
      if f.found then Outcome(true, c.state, f.calls)
      else
        var j := Explore(m, BackwardJump(c, target, f.final));
        Outcome(j.found, c.state, f.calls + j.calls)
  }

  /** The search started at an instruction, as the in-place methods are specified. */
  ghost function Search(m: Machine, index: int, depth: int, cycle: int, s: State): Outcome {
    Explore(m, Config(index, depth, cycle, s))
  }

  lemma GoesOn(m: Machine, c: Config, next: Config, calls: nat)
    requires TurnOf(m, c) == Go(next, calls)
    ensures var o := Search(m, c.index, c.depth, c.cycle, c.state);
      var rest := Search(m, next.index, next.depth, next.cycle, next.state);
      o.found == rest.found && o.final == rest.final && o.calls == calls + rest.calls
  {
  }

  // ---------------------------------------------------------------------------------------------
  // The search in place, with deep copies
  // ---------------------------------------------------------------------------------------------

  method Clone<T(0)>(a: array<T>) returns (b: array<T>)
    ensures fresh(b) && b[..] == a[..]
  {
    b := new T[a.Length];
    var i := 0;
    while i < a.Length
      invariant 0 <= i <= a.Length
      invariant b[..i] == a[..i]
    {
      b[i] := a[i];
      i := i + 1;
    }
    assert a[..] == a[..a.Length] && b[..] == b[..b.Length];
  }

  method Overwrite<T>(a: array<T>, s: seq<T>)
    requires a.Length == |s|
    modifies a
    ensures a[..] == s
  {
    forall i | 0 <= i < a.Length {
      a[i] := s[i];
    }
  }

  /** The objects one exploration works on: registers, taint map, the four stack buffers, the four heap buffers. */
  class Simulation {
    var registers: RegisterFile
    var taints: TaintMap
    var rbpOffset: U64
    var rspOffset: U64
    var heapSize: int
    const stackValue: array<Byte>
    const stackSet: array<Byte>
    const stackTaint: array<Byte>
    const stackUnsure: array<Byte>
    const heapTaint: array<Byte>
    const heapUnsure: array<Byte>
    const heapAddress: array<U64>
    const heapValue: array<U64>

    ghost function Buffers(): set<object> {
      {stackValue as object, stackSet, stackTaint, stackUnsure, heapTaint, heapUnsure, heapAddress, heapValue}
    }

    ghost predicate Valid() {
      && stackValue.Length == STACK_SIZE
      && stackSet.Length == stackTaint.Length == stackUnsure.Length == STACK_SIZE / 8
      && heapAddress.Length == heapValue.Length == heapTaint.Length == heapUnsure.Length == HEAP_SIZE
      && heapAddress != heapValue && heapTaint != heapUnsure
      && stackSet != stackTaint && stackSet != stackUnsure && stackTaint != stackUnsure
      && {stackSet, stackTaint, stackUnsure} !! {heapTaint, heapUnsure}
    }

    function Snapshot(): State
      requires Valid()
      reads this, Buffers()
    {
      SimState(registers, taints, rbpOffset, rspOffset,
               stackValue[..], stackSet[..], stackTaint[..], stackUnsure[..],
               heapSize, heapAddress[..], heapValue[..], heapTaint[..], heapUnsure[..])
    }

    /** `copy_simulation_info`, with the copy of the taint map beside it: every buffer is duplicated. */
    constructor Copy(source: Simulation)
      requires source.Valid()
      ensures Valid() && fresh(Buffers())
      ensures Snapshot() == source.Snapshot()
    {
      registers, taints := source.registers, source.taints;
      rbpOffset, rspOffset, heapSize := source.rbpOffset, source.rspOffset, source.heapSize;
      var v := Clone(source.stackValue);
      var s := Clone(source.stackSet);
      var t := Clone(source.stackTaint);
      var u := Clone(source.stackUnsure);
      var ha := Clone(source.heapAddress);
      var hv := Clone(source.heapValue);
      var ht := Clone(source.heapTaint);
      var hu := Clone(source.heapUnsure);
      stackValue, stackSet, stackTaint, stackUnsure := v, s, t, u;
      heapAddress, heapValue, heapTaint, heapUnsure := ha, hv, ht, hu;
    }

    /** Applies an instruction's effect in place. */
    method Become(s: State)
      requires Valid()
      modifies this, Buffers()
      ensures Snapshot() == s
    {
      registers, taints := s.registers, s.taints;
      rbpOffset, rspOffset, heapSize := s.rbpOffset, s.rspOffset, s.heapSize;
      Overwrite(stackValue, s.stackValue);
      Overwrite(stackSet, s.stackSet);
      Overwrite(stackTaint, s.stackTaint);
      Overwrite(stackUnsure, s.stackUnsure);
      Overwrite(heapTaint, s.heapTaint);
      Overwrite(heapUnsure, s.heapUnsure);
      Overwrite(heapAddress, s.heapAddress);
      Overwrite(heapValue, s.heapValue);
    }
  }

  /** `symbolic_execution`. A failed forward exploration works on the copy only, so the caller goes on from its
      own unchanged state; a failed fall-through before a backward jump leaves its mark on the copy that the jump
      then continues with. */
  method SymbolicExecution(m: Machine, startIndex: int, startDepth: int, cycle: int, sim: Simulation)
    returns (found: bool, ghost calls: nat)
    requires sim.Valid()
    modifies sim, sim.Buffers()
    ensures var o := Search(m, startIndex, startDepth, cycle, old(sim.Snapshot()));
      found == o.found && sim.Snapshot() == o.final && calls == o.calls
    decreases MAX_DEPTH - startDepth, |m.code| - startIndex, 3
  {
    var index, depth := startIndex, startDepth;
    calls := 0;
    ghost var whole := Search(m, startIndex, startDepth, cycle, sim.Snapshot());
    while depth < MAX_DEPTH && index < |m.code| && index >= 0 && cycle < MAX_CYCLE
      invariant depth > startDepth || (depth == startDepth && index == startIndex)
      invariant var rest := Search(m, index, depth, cycle, sim.Snapshot());
        whole.found == rest.found && whole.final == rest.final && whole.calls == calls + rest.calls
      decreases MAX_DEPTH - depth, |m.code| - index
    {
      ghost var here := Config(index, depth, cycle, sim.Snapshot());
      if !m.code[index].isBranch {
        calls := calls + 1;
        if m.code[index].locked {
          return false, calls;
        }
        sim.Become(Effect(m, index, sim.Snapshot()));
        index, depth := index + 1, depth + 1;
        GoesOn(m, here, Config(index, depth, cycle, sim.Snapshot()), 1);
      } else if index == |m.code| - 1 {
        return Verdict(m, index, sim.Snapshot()), calls;
      } else {
        var done, answer, nextIndex, more := FollowBranch(m, index, depth, cycle, sim);
        calls := calls + more;
        if done {
          return answer, calls;
        }
        index, depth := nextIndex, depth + 1;
      }
    }
    return false, calls;
  }

  /** A branch that is not the last instruction: the search ends here or goes on one level deeper. */
  method FollowBranch(m: Machine, startIndex: int, depth: int, cycle: int, sim: Simulation)
    returns (done: bool, found: bool, index: int, ghost calls: nat)
    requires sim.Valid() && Live(m, Config(startIndex, depth, cycle, sim.Snapshot()))
    requires m.code[startIndex].isBranch && startIndex < |m.code| - 1
    modifies sim, sim.Buffers()
    ensures var o := Search(m, startIndex, depth, cycle, old(sim.Snapshot()));
      if done then found == o.found && sim.Snapshot() == o.final && calls == o.calls
      else
        var rest := Search(m, index, depth + 1, cycle, sim.Snapshot());
        o.found == rest.found && o.final == rest.final && o.calls == calls + rest.calls
    decreases MAX_DEPTH - depth, |m.code| - startIndex, 2
  {
    ghost var here := Config(startIndex, depth, cycle, sim.Snapshot());
    index, done, found, calls := startIndex, true, false, 0;
    var decision := Decide(m, index, sim.Snapshot());
    if decision == NotTaken {
      index := index + 1;
      calls := 1;
      sim.Become(OneStep(m, index, sim.Snapshot()));
      GoesOn(m, here, Config(index, depth + 1, cycle, sim.Snapshot()), 1);
      done := false;
    } else if decision == Undecided {
      done, found, calls := ExploreBranch(m, index, depth, cycle, sim);
      index := index + 1;
    } else if decision == Taken {
      var newIndex := BranchTarget(m, index, sim);
      if newIndex > 0 {
        index, done := newIndex, false;
        GoesOn(m, here, Config(index, depth + 1, cycle, sim.Snapshot()), 0);
      }
    }
  }

  /** An undecided branch that is not the last instruction. Both explorations work on a copy: the caller's objects
      are not modified. `done` tells whether the caller's search ends here; otherwise it goes on after the branch. */
  method ExploreBranch(m: Machine, index: int, depth: int, cycle: int, sim: Simulation)
    returns (done: bool, found: bool, ghost calls: nat)
    requires sim.Valid()
    requires Live(m, Config(index, depth, cycle, sim.Snapshot()))
    requires m.code[index].isBranch && index < |m.code| - 1
    requires Decide(m, index, sim.Snapshot()) == Undecided
    ensures var o := Search(m, index, depth, cycle, sim.Snapshot());
      done ==> found == o.found && sim.Snapshot() == o.final
    ensures var o := Search(m, index, depth, cycle, sim.Snapshot());
      var rest := Search(m, index + 1, depth + 1, cycle, sim.Snapshot());
      !done ==> !found && o.found == rest.found && o.final == rest.final
    ensures var o := Search(m, index, depth, cycle, sim.Snapshot());
      o.calls == if done then calls else calls + Search(m, index + 1, depth + 1, cycle, sim.Snapshot()).calls
    decreases MAX_DEPTH - depth, |m.code| - index, 1
  {
    ghost var s := sim.Snapshot();
    ghost var c := Config(index, depth, cycle, s);
    var local := new Simulation.Copy(sim);
    assert local.Snapshot() == s;
    var newIndex := BranchTarget(m, index, sim);
    if newIndex < 0 {
      assert TurnOf(m, c) == Stop(false, 0);
      return true, false, 0;
    }
    if newIndex > index {
      assert TurnOf(m, c)
          == SplitForward(Config(newIndex, depth + 1, cycle, s), Config(index + 1, depth + 1, cycle, s));
      found, calls := SymbolicExecution(m, newIndex, depth + 1, cycle, local);
      done := found;
      assert sim.Snapshot() == s;
    } else {
      assert TurnOf(m, c) == SplitBackward(newIndex, Config(index + 1, depth, cycle, s));
      done := true;
      found, calls := ExploreBackward(m, index, newIndex, depth, cycle, local);
      assert sim.Snapshot() == s;
    }
  }

  /** An undecided backward branch: first past it, then to its target, both on the same copy. */
  method ExploreBackward(m: Machine, index: int, target: int, depth: int, cycle: int, local: Simulation)
    returns (found: bool, ghost calls: nat)
    requires local.Valid() && depth < MAX_DEPTH && index < |m.code|
    modifies local, local.Buffers()
    ensures var f := Search(m, index + 1, depth, cycle, old(local.Snapshot()));
      if f.found then found && calls == f.calls
      else
        var j := Search(m, target, depth + 1, cycle + 1, f.final);
        found == j.found && calls == f.calls + j.calls
    decreases MAX_DEPTH - depth, |m.code| - index, 0
  {
    found, calls := SymbolicExecution(m, index + 1, depth, cycle, local);
    if !found {
      var jumped, more := SymbolicExecution(m, target, depth + 1, cycle + 1, local);
      found, calls := jumped, calls + more;
    }
  }

  /** The operand checks common to both jump cases of `symbolic_execution`; -1 when the jump is refused. */
  method BranchTarget(m: Machine, index: int, sim: Simulation) returns (newIndex: int)
    requires sim.Valid()
    ensures newIndex == match Target(m, index, sim.Snapshot()) case None => -1 case Some(t) => t
  {
    var operand := OperandOf(m, index, sim.Snapshot());
    if operand.unsure || operand.taint {
      return -1;
    }
    if operand.value < m.lo || operand.value > m.hi {
      return -1;
    }
    newIndex := AddressToIndex(m.code, operand.value);
  }

  // ---------------------------------------------------------------------------------------------
  // Reference: the step relation of the search, written over the machine itself
  // ---------------------------------------------------------------------------------------------

  ghost predicate InLimits(m: Machine, c: Config) {
    c.depth < 50 && 0 <= c.index < |m.code| && c.cycle < 3
  }

  /** The branch at `i` goes to instruction `t`: its operand is sure, untainted and inside the window, and `t` is the
      first instruction at that address. */
  ghost predicate JumpsTo(m: Machine, i: int, s: State, t: int) {
    var op := m.operand(i, s);
    && !op.unsure && !op.taint && m.lo <= op.value <= m.hi
    && 0 <= t < |m.code| && m.code[t].address == op.value
    && forall j :: 0 <= j < t ==> m.code[j].address != op.value
  }

  /** A branch before the last instruction, decided as `decision`. */
  ghost predicate BranchesAs(m: Machine, c: Config, decision: Decision) {
    && InLimits(m, c) && m.code[c.index].isBranch && c.index < |m.code| - 1
    && m.decide(c.index, c.state) == decision
  }

  /** An undecided branch with target `t`. */
  ghost predicate Splits(m: Machine, c: Config, t: int) {
    BranchesAs(m, c, Undecided) && JumpsTo(m, c.index, c.state, t)
  }

  /** The state behind a branch not taken: the next instruction has been executed once, in addition to the loop. */
  ghost function ExtraStep(m: Machine, i: int, s: State): State
    requires 0 <= i + 1 < |m.code|
  {
    if m.code[i + 1].locked then s else m.effect(i + 1, s)
  }

  /** One step from `c` to `d`; a jump at an undecided backward branch starts from `back`. */
  ghost predicate Step(m: Machine, c: Config, d: Config, back: State) {
    var Config(i, depth, cycle, s) := c;
    || (InLimits(m, c) && !m.code[i].isBranch && !m.code[i].locked
        && d == Config(i + 1, depth + 1, cycle, m.effect(i, s)))
    || (BranchesAs(m, c, NotTaken) && d == Config(i + 1, depth + 1, cycle, ExtraStep(m, i, s)))
    || (BranchesAs(m, c, Taken) && exists t :: 0 < t && JumpsTo(m, i, s, t) && d == Config(t, depth + 1, cycle, s))
    || (exists t :: Splits(m, c, t) && i < t
          && (d == Config(t, depth + 1, cycle, s) || d == Config(i + 1, depth + 1, cycle, s)))
    || (exists t :: Splits(m, c, t) && t <= i
          && (d == Config(i + 1, depth, cycle, s) || d == Config(t, depth + 1, cycle + 1, back)))
  }

  /** The state a failed exploration leaves behind: it is carried along the branch that goes on in the caller's own
      objects; copies are thrown away. */
  ghost function LeftBy(m: Machine, c: Config): State
    decreases 50 - c.depth, |m.code| - c.index
  {
    var Config(i, depth, cycle, s) := c;
    if InLimits(m, c) && !m.code[i].isBranch && !m.code[i].locked then
      LeftBy(m, Config(i + 1, depth + 1, cycle, m.effect(i, s)))
    else if BranchesAs(m, c, NotTaken) then
      LeftBy(m, Config(i + 1, depth + 1, cycle, ExtraStep(m, i, s)))
    else if BranchesAs(m, c, Taken) && exists t :: 0 < t && JumpsTo(m, i, s, t) then
      var t :| 0 < t && JumpsTo(m, i, s, t);
      LeftBy(m, Config(t, depth + 1, cycle, s))
    else if exists t :: Splits(m, c, t) && i < t then
      LeftBy(m, Config(i + 1, depth + 1, cycle, s))
    else s
  }

  /** The relation the search explores: a backward jump starts from what the failed fall-through left. */
  ghost predicate CodedStep(m: Machine, c: Config, d: Config) {
    Step(m, c, d, LeftBy(m, Config(c.index + 1, c.depth, c.cycle, c.state)))
  }

  /** Within the limits at the last instruction, a branch, whose verdict is an attack. */
  ghost predicate Attack(m: Machine, c: Config) {
    InLimits(m, c) && m.code[c.index].isBranch && c.index == |m.code| - 1 && m.verdict(c.index, c.state)
  }

  ghost predicate CodedRun(m: Machine, run: seq<Config>) {
    forall k :: 0 <= k < |run| - 1 ==> CodedStep(m, run[k], run[k + 1])
  }

  ghost predicate CodedPath(m: Machine, c: Config, run: seq<Config>) {
    |run| > 0 && run[0] == c && CodedRun(m, run) && Attack(m, run[|run| - 1])
  }

  // ---------------------------------------------------------------------------------------------
  // What the search decides: reachability in this relation
  // ---------------------------------------------------------------------------------------------

  lemma {:induction false} FirstIndex(code: seq<Instr>, address: U64, i: nat)
    requires i <= |code| && forall j :: 0 <= j < i ==> code[j].address != address
    ensures FirstIndexOf(code, address, IndexFrom(code, address, i))
    decreases |code| - i
  {
    if i < |code| && code[i].address != address {
      FirstIndex(code, address, i + 1);
    }
  }

  lemma TargetIsJump(m: Machine, i: int, s: State, t: int)
    ensures JumpsTo(m, i, s, t) <==> Target(m, i, s) == Some(t)
  {
    FirstIndex(m.code, m.operand(i, s).value, 0);
  }

  /** One turn of the loop makes exactly the steps of the relation. */
  lemma TurnIsStep(m: Machine, c: Config, d: Config, back: State)
    ensures Step(m, c, d, back) <==>
      match TurnOf(m, c)
      case Stop(_, _) => false
      case Go(next, _) => d == next
      case SplitForward(jump, fall) => d == jump || d == fall
      case SplitBackward(target, fall) => d == fall || d == BackwardJump(c, target, back)
  {
    var Config(i, depth, cycle, s) := c;
    forall t ensures JumpsTo(m, i, s, t) <==> Target(m, i, s) == Some(t) {
      TargetIsJump(m, i, s, t);
    }
    if BranchesAs(m, c, Undecided) && Target(m, i, s).Some? {
      assert Splits(m, c, Target(m, i, s).value);
    }
  }

  /** A search that answers 0 leaves the state the reference names. */
  lemma {:induction false} FailedLeaves(m: Machine, c: Config)
    requires !Explore(m, c).found
    ensures Explore(m, c).final == LeftBy(m, c)
    decreases MAX_DEPTH - c.depth, |m.code| - c.index
  {
    var Config(i, depth, cycle, s) := c;
    forall t ensures JumpsTo(m, i, s, t) <==> Target(m, i, s) == Some(t) {
      TargetIsJump(m, i, s, t);
    }
    if BranchesAs(m, c, Undecided) && Target(m, i, s).Some? {
      assert Splits(m, c, Target(m, i, s).value);
    }
    match TurnOf(m, c)
    case Stop(_, _) =>
    case Go(next, _) => FailedLeaves(m, next);
    case SplitForward(_, fall) => FailedLeaves(m, fall);
    case SplitBackward(_, _) =>
  }

  lemma FoundHasStep(m: Machine, c: Config) returns (next: Config)
    requires Explore(m, c).found && !TurnOf(m, c).Stop?
    ensures CodedStep(m, c, next) && Explore(m, next).found
    ensures next.depth > c.depth || (next.depth == c.depth && next.index > c.index)
    ensures Live(m, c)
  {
    var turn := TurnOf(m, c);
    match turn {
      case Go(d, _) => next := d;
      case SplitForward(jump, fall) => next := if Explore(m, jump).found then jump else fall;
      case SplitBackward(target, fall) =>
        next := if Explore(m, fall).found then fall else BackwardJump(c, target, Explore(m, fall).final);
        if !Explore(m, fall).found {
          FailedLeaves(m, fall);
        }
    }
    TurnIsStep(m, c, next, LeftBy(m, Config(c.index + 1, c.depth, c.cycle, c.state)));
  }

  lemma {:induction false} FoundHasPath(m: Machine, c: Config) returns (run: seq<Config>)
    requires Explore(m, c).found
    ensures CodedPath(m, c, run)
    decreases MAX_DEPTH - c.depth, |m.code| - c.index
  {
    if TurnOf(m, c).Stop? {
      run := [c];
    } else {
      var next := FoundHasStep(m, c);
      var rest := FoundHasPath(m, next);
      run := [c] + rest;
    }
  }

  lemma {:induction false} PathIsFound(m: Machine, c: Config, run: seq<Config>)
    requires CodedPath(m, c, run)
    ensures Explore(m, c).found
    decreases |run|
  {
    if |run| > 1 {
      assert CodedStep(m, run[0], run[1]);
      assert CodedRun(m, run[1..]) by {
        forall k | 0 <= k < |run[1..]| - 1 ensures CodedStep(m, run[1..][k], run[1..][k + 1]) {
          assert CodedStep(m, run[k + 1], run[k + 2]);
        }
      }
      PathIsFound(m, run[1], run[1..]);
      StepFinds(m, c, run[1]);
    }
  }

  lemma StepFinds(m: Machine, c: Config, d: Config)
    requires CodedStep(m, c, d) && Explore(m, d).found
    ensures Explore(m, c).found
  {
    TurnIsStep(m, c, d, LeftBy(m, Config(c.index + 1, c.depth, c.cycle, c.state)));
    var turn := TurnOf(m, c);
    if turn.SplitBackward? && !Explore(m, turn.fall).found {
      FailedLeaves(m, turn.fall);
    }
  }

  /** For every program and start, the search answers 1 exactly when some coded path reaches an attack. */
  lemma SearchIsReachability(m: Machine, c: Config)
    ensures Explore(m, c).found <==> exists run :: CodedPath(m, c, run)
  {
    if Explore(m, c).found {
      var run := FoundHasPath(m, c);
    }
    forall run | CodedPath(m, c, run) ensures Explore(m, c).found {
      PathIsFound(m, c, run);
    }
  }

  // ---------------------------------------------------------------------------------------------
  // The intended relation, in which every exploration starts from the state at its branch
  // ---------------------------------------------------------------------------------------------

  ghost predicate CleanStep(m: Machine, c: Config, d: Config) {
    Step(m, c, d, c.state)
  }

  ghost predicate CleanRun(m: Machine, run: seq<Config>) {
    forall k :: 0 <= k < |run| - 1 ==> CleanStep(m, run[k], run[k + 1])
  }

  ghost predicate CleanPath(m: Machine, c: Config, run: seq<Config>) {
    |run| > 0 && run[0] == c && CleanRun(m, run) && Attack(m, run[|run| - 1])
  }

  ghost predicate UndecidedBackward(m: Machine, c: Config) {
    exists t :: Splits(m, c, t) && t <= c.index
  }

  /** No clean run from `c` meets an undecided branch whose target lies behind it. */
  ghost predicate NoUndecidedBackward(m: Machine, c: Config) {
    forall run: seq<Config> ::
      |run| > 0 && run[0] == c && CleanRun(m, run) ==> !UndecidedBackward(m, run[|run| - 1])
  }

  lemma {:induction false} RunsCoincide(m: Machine, c: Config, run: seq<Config>)
    requires NoUndecidedBackward(m, c) && |run| > 0 && run[0] == c
    ensures CodedRun(m, run) <==> CleanRun(m, run)
    decreases |run|
  {
    if |run| > 1 {
      var n := |run| - 1;
      var front := run[..n];
      RunsCoincide(m, c, front);
      assert CodedRun(m, run) ==> CodedRun(m, front) && CodedStep(m, run[n - 1], run[n]);
      assert CleanRun(m, run) ==> CleanRun(m, front) && CleanStep(m, run[n - 1], run[n]);
      if CleanRun(m, front) {
        assert !UndecidedBackward(m, front[n - 1]);
        SameSteps(m, run[n - 1], run[n]);
        ExtendRuns(m, run);
      }
    }
  }

  lemma SameSteps(m: Machine, c: Config, d: Config)
    requires !UndecidedBackward(m, c)
    ensures CodedStep(m, c, d) <==> CleanStep(m, c, d)
  {
  }

  lemma ExtendRuns(m: Machine, run: seq<Config>)
    requires |run| > 1
    ensures var n := |run| - 1;
      && (CodedRun(m, run[..n]) && CodedStep(m, run[n - 1], run[n]) ==> CodedRun(m, run))
      && (CleanRun(m, run[..n]) && CleanStep(m, run[n - 1], run[n]) ==> CleanRun(m, run))
  {
    ExtendCoded(m, run);
    ExtendClean(m, run);
  }

  lemma ExtendCoded(m: Machine, run: seq<Config>)
    requires |run| > 1
    ensures var n := |run| - 1;
      CodedRun(m, run[..n]) && CodedStep(m, run[n - 1], run[n]) ==> CodedRun(m, run)
  {
    var n := |run| - 1;
    var front := run[..n];
    if CodedRun(m, front) && CodedStep(m, run[n - 1], run[n]) {
      forall k | 0 <= k < |run| - 1 ensures CodedStep(m, run[k], run[k + 1]) {
        assert k < n - 1 ==> CodedStep(m, front[k], front[k + 1]);
      }
    }
  }

  lemma ExtendClean(m: Machine, run: seq<Config>)
    requires |run| > 1
    ensures var n := |run| - 1;
      CleanRun(m, run[..n]) && CleanStep(m, run[n - 1], run[n]) ==> CleanRun(m, run)
  {
    var n := |run| - 1;
    var front := run[..n];
    if CleanRun(m, front) && CleanStep(m, run[n - 1], run[n]) {
      forall k | 0 <= k < |run| - 1 ensures CleanStep(m, run[k], run[k + 1]) {
        assert k < n - 1 ==> CleanStep(m, front[k], front[k + 1]);
      }
    }
  }

  /** Without undecided backward branches the in-place search with its copies decides the clean relation. */
  lemma CleanSearch(m: Machine, c: Config)
    requires NoUndecidedBackward(m, c)
    ensures Explore(m, c).found <==> exists run :: CleanPath(m, c, run)
  {
    SearchIsReachability(m, c);
    forall run | |run| > 0 && run[0] == c ensures CodedRun(m, run) <==> CleanRun(m, run) {
      RunsCoincide(m, c, run);
    }
    if Explore(m, c).found {
      var run :| CodedPath(m, c, run);
      assert CleanPath(m, c, run);
    }
    if run :| CleanPath(m, c, run) {
      assert CodedPath(m, c, run);
    }
  }

  // ---------------------------------------------------------------------------------------------
  // Straight code: no branch taken before the last instruction
  // ---------------------------------------------------------------------------------------------

  /** The effects applied from instruction `i` to the last one, in order: each instruction that is not a branch once in
      the loop, and the one right behind a branch once more. */
  function Applied(code: seq<Instr>, i: nat): seq<int>
    decreases |code| - i
  {
    if i + 1 >= |code| then []
    else [if code[i].isBranch then i + 1 else i] + Applied(code, i + 1)
  }

  ghost function Folded(m: Machine, effects: seq<int>, s: State): State {
    if effects == [] then s else Folded(m, effects[1..], m.effect(effects[0], s))
  }

  function Occurrences(s: seq<int>, j: int): nat {
    if s == [] then 0 else (if s[0] == j then 1 else 0) + Occurrences(s[1..], j)
  }

  /** How often each effect is applied. */
  lemma {:induction false} AppliedCounts(code: seq<Instr>, i: nat, j: int)
    ensures Occurrences(Applied(code, i), j) ==
      (if i <= j < |code| - 1 && !code[j].isBranch then 1 else 0)
      + (if i <= j - 1 < |code| - 1 && code[j - 1].isBranch then 1 else 0)
    decreases |code| - i
  {
    if i + 1 < |code| {
      AppliedCounts(code, i + 1, j);
      assert Applied(code, i)[1..] == Applied(code, i + 1);
    }
  }

  /** From `i` on nothing is locked, the last instruction is a branch, and every branch before it is not taken. */
  ghost predicate Straight(m: Machine, i: int, s: State)
    decreases |m.code| - i
  {
    && 0 <= i < |m.code| && !m.code[i].locked
    && if i == |m.code| - 1 then m.code[i].isBranch
       else if m.code[i].isBranch then m.decide(i, s) == NotTaken && Straight(m, i + 1, m.effect(i + 1, s))
       else Straight(m, i + 1, m.effect(i, s))
  }

  /** On straight code, with depth enough to reach its end, the answer is the verdict on the folded state, which is also
      the state left, after one one-step call for each effect. */
  lemma {:induction false} StraightCode(m: Machine, c: Config)
    requires Straight(m, c.index, c.state) && c.cycle < 3 && c.depth + (|m.code| - 1 - c.index) < 50
    ensures var end, o := Folded(m, Applied(m.code, c.index), c.state), Explore(m, c);
      o.found == m.verdict(|m.code| - 1, end) && o.final == end && o.calls == |Applied(m.code, c.index)|
    decreases |m.code| - c.index
  {
    var Config(i, depth, cycle, s) := c;
    if i < |m.code| - 1 {
      var e := if m.code[i].isBranch then i + 1 else i;
      assert !m.code[i + 1].locked;
      StraightCode(m, Config(i + 1, depth + 1, cycle, m.effect(e, s)));
      assert Applied(m.code, i)[1..] == Applied(m.code, i + 1);
    }
  }

  // ---------------------------------------------------------------------------------------------
  // With the decisions and verdicts of the code
  // ---------------------------------------------------------------------------------------------

  /** Outside the deviations the loop takes, passes or splits at a branch as the SDM condition says of all fillings of
      the unsure flags. */
  lemma DecidedBySdm(code: seq<Instr>, lo: U64, hi: U64,
                     effect: (int, State) -> State, operand: (int, State) -> Operand, c: Config)
    requires InLimits(CodedMachine(code, lo, hi, effect, operand), c)
    requires code[c.index].isBranch && c.index < |code| - 1 && IsDecided(code[c.index].branchType)
    requires !Deviates(code[c.index].branchType, c.state.registers)
    ensures var m, n, r := CodedMachine(code, lo, hi, effect, operand), code[c.index].branchType, c.state.registers;
      && (BranchesAs(m, c, Taken) <==> forall f | Filling(r, f) :: Holds(n, f))
      && (BranchesAs(m, c, NotTaken) <==> forall f | Filling(r, f) :: !Holds(n, f))
      && (BranchesAs(m, c, Undecided) <==> !BranchesAs(m, c, Taken) && !BranchesAs(m, c, NotTaken))
  {
    var m, n := CodedMachine(code, lo, hi, effect, operand), code[c.index].branchType;
    DecisionExact(n, c.state.registers);
    assert m.decide(c.index, c.state) == AnalyzeBranch(n, c.state.registers);
  }

  /** An unconditional jump with a sure, untainted, decoded target goes on there with unchanged state; to the first
      instruction it ends the search. */
  lemma JumpGoesOn(code: seq<Instr>, lo: U64, hi: U64,
                   effect: (int, State) -> State, operand: (int, State) -> Operand, c: Config, t: int)
    requires var m := CodedMachine(code, lo, hi, effect, operand);
      InLimits(m, c) && code[c.index].isBranch && code[c.index].branchType == 11 && c.index < |code| - 1
      && JumpsTo(m, c.index, c.state, t)
    ensures var m := CodedMachine(code, lo, hi, effect, operand);
      if t > 0 then
        var rest := Explore(m, Config(t, c.depth + 1, c.cycle, c.state));
        Explore(m, c).found == rest.found && Explore(m, c).final == rest.final
      else !Explore(m, c).found && Explore(m, c).final == c.state
  {
    var m := CodedMachine(code, lo, hi, effect, operand);
    TargetIsJump(m, c.index, c.state, t);
    assert m.decide(c.index, c.state) == AnalyzeBranch(11, c.state.registers);
  }

  /** A call or a return before the last instruction ends the search with answer 0. */
  lemma CallEndsSearch(code: seq<Instr>, lo: U64, hi: U64,
                       effect: (int, State) -> State, operand: (int, State) -> Operand, c: Config)
    requires InLimits(CodedMachine(code, lo, hi, effect, operand), c)
    requires code[c.index].isBranch && code[c.index].branchType in {12, 13} && c.index < |code| - 1
    ensures !Explore(CodedMachine(code, lo, hi, effect, operand), c).found
  {
    var m, n := CodedMachine(code, lo, hi, effect, operand), code[c.index].branchType;
    OtherTypes(n, c.state.registers);
    var decision := Decide(m, c.index, c.state);
    assert decision == AnalyzeBranch(n, c.state.registers);
    assert TurnOf(m, c) == Stop(false, 0);
  }

  /** At the last instruction the answer is 1 exactly for a conditional branch that tainted data alone can turn, and for
      a jump or call whose target is tainted. */
  lemma FinalAnswer(code: seq<Instr>, lo: U64, hi: U64,
                    effect: (int, State) -> State, operand: (int, State) -> Operand, c: Config)
    requires InLimits(CodedMachine(code, lo, hi, effect, operand), c)
    requires c.index == |code| - 1 && code[c.index].isBranch
    ensures var n := code[c.index].branchType;
      Explore(CodedMachine(code, lo, hi, effect, operand), c).found <==>
        if IsConditional(n) then
          exists f, g :: SameUntainted(c.state.taints, f, g) && Holds(n, f) && !Holds(n, g)
        else n in {11, 12} && operand(c.index, c.state).taint
  {
    var m, n := CodedMachine(code, lo, hi, effect, operand), code[c.index].branchType;
    assert m.verdict(c.index, c.state) == JudgeAttack(n, c.state.taints, operand(c.index, c.state).taint);
    TargetVerdict(n, c.state.taints, operand(c.index, c.state).taint);
    if IsConditional(n) {
      VerdictExact(n, c.state.taints);
    }
  }

  // ---------------------------------------------------------------------------------------------
  // The cost of the search
  // ---------------------------------------------------------------------------------------------

  /** A bound on the one-step calls with `d` levels of depth and `k` cycles left in a code of `n` instructions of which
      `left` are still ahead. Undecided backward branches in a row stay at one depth and cost one more jump each. */
  function CallBound(n: nat, left: nat, d: nat, k: nat): nat
    decreases d, left
  {
    if d == 0 || k == 0 then 0
    else if left == 0 then 1 + 2 * CallBound(n, n, d - 1, k)
    else CallBound(n, left - 1, d, k) + CallBound(n, n, d - 1, k - 1)
  }

  lemma {:induction false} MoreLeft(n: nat, left: nat, d: nat, k: nat)
    requires left <= n
    ensures CallBound(n, left, d, k) <= CallBound(n, n, d, k)
    decreases n - left
  {
    if left < n {
      MoreLeft(n, left + 1, d, k);
    }
  }

  lemma {:induction false} TwoBranches(n: nat, left: nat, d: nat, k: nat)
    requires d > 0 && k > 0
    ensures CallBound(n, left, d, k) >= 1 + 2 * CallBound(n, n, d - 1, k)
    decreases left
  {
    if left > 0 {
      TwoBranches(n, left - 1, d, k);
    }
  }

  ghost function Calls(m: Machine, c: Config): nat { Explore(m, c).calls }

  /** The calls of an exploration with `d` levels and `k` cycles left. */
  lemma {:induction false} CallsBelow(m: Machine, c: Config, d: nat, k: nat)
    requires d == MAX_DEPTH - c.depth && k == MAX_CYCLE - c.cycle
    ensures Calls(m, c) <= CallBound(|m.code|, |m.code|, d, k)
    decreases MAX_DEPTH - c.depth, |m.code| - c.index, 1
  {
    if Live(m, c) {
      LiveCalls(m, c);
      MoreLeft(|m.code|, |m.code| - c.index, d, k);
    }
  }

  lemma {:induction false} LiveCalls(m: Machine, c: Config)
    requires Live(m, c)
    ensures Calls(m, c) <= CallBound(|m.code|, |m.code| - c.index, MAX_DEPTH - c.depth, MAX_CYCLE - c.cycle)
    decreases MAX_DEPTH - c.depth, |m.code| - c.index, 0
  {
    var n, left, d, k := |m.code|, |m.code| - c.index, MAX_DEPTH - c.depth, MAX_CYCLE - c.cycle;
    TwoBranches(n, left, d, k);
    match TurnOf(m, c)
    case Stop(_, _) =>
    case Go(next, _) =>
      CallsBelow(m, next, d - 1, k);
    case SplitForward(jump, fall) =>
      CallsBelow(m, jump, d - 1, k);
      CallsBelow(m, fall, d - 1, k);
    case SplitBackward(target, fall) =>
      var jump := BackwardJump(c, target, Explore(m, fall).final);
      if Live(m, fall) {
        LiveCalls(m, fall);
      }
      assert Calls(m, fall) <= CallBound(n, left - 1, d, k);
      CallsBelow(m, jump, d - 1, k - 1);
      assert Calls(m, c) <= Calls(m, fall) + Calls(m, jump);
  }

  function Power(b: nat, e: nat): nat {
    if e == 0 then 1 else b * Power(b, e - 1)
  }

  lemma {:induction false} PowerMonotone(a: nat, b: nat, e: nat)
    requires a <= b
    ensures Power(a, e) <= Power(b, e)
  {
    if e > 0 {
      PowerMonotone(a, b, e - 1);
      MulMonotone(a, b, Power(a, e - 1));
      MulMonotone(Power(a, e - 1), Power(b, e - 1), b);
    }
  }

  lemma {:induction false} SumOfJumps(n: nat, left: nat, d: nat, k: nat)
    requires d > 0 && k > 0
    ensures CallBound(n, left, d, k) == 1 + 2 * CallBound(n, n, d - 1, k) + left * CallBound(n, n, d - 1, k - 1)
    decreases left
  {
    if left > 0 {
      SumOfJumps(n, left - 1, d, k);
      assert (left - 1) * CallBound(n, n, d - 1, k - 1) + CallBound(n, n, d - 1, k - 1)
          == left * CallBound(n, n, d - 1, k - 1);
    }
  }

  lemma {:induction false} ClosedBound(n: nat, d: nat, k: nat)
    requires k > 0
    ensures CallBound(n, n, d, k) < Pow2(d) * Power(1 + n * d, k - 1)
  {
    if d == 0 {
      PowerOfOne(k - 1);
    } else {
      SumOfJumps(n, n, d, k);
      ClosedBound(n, d - 1, k);
      MulDistributes(d, 1, n);
      if k == 1 {
        ClosedLast(n, d);
      } else {
        ClosedBound(n, d - 1, k - 1);
        var a, b := 1 + n * (d - 1), 1 + n * d;
        PowerMonotone(a, b, k - 2);
        ClosedStep(n, a, b, Pow2(d - 1), Power(a, k - 2), Power(b, k - 2),
                   CallBound(n, n, d - 1, k), CallBound(n, n, d - 1, k - 1));
      }
    }
  }

  lemma ClosedLast(n: nat, d: nat)
    requires d > 0
    requires CallBound(n, n, d, 1) == 1 + 2 * CallBound(n, n, d - 1, 1) + n * CallBound(n, n, d - 1, 0)
    requires CallBound(n, n, d - 1, 1) < Pow2(d - 1) * Power(1 + n * (d - 1), 0)
    ensures CallBound(n, n, d, 1) < Pow2(d) * Power(1 + n * d, 0)
  {
    assert CallBound(n, n, d - 1, 0) == 0;
    assert Power(1 + n * (d - 1), 0) == Power(1 + n * d, 0) == 1;
  }

  lemma {:induction false} PowerOfOne(e: nat)
    ensures Power(1, e) == 1
  {
    if e > 0 {
      PowerOfOne(e - 1);
    }
  }

  lemma ClosedStep(n: nat, a: nat, b: nat, p: nat, u: nat, v: nat, x: nat, y: nat)
    requires b == a + n && u <= v
    requires x < p * (a * u) && y < p * u
    ensures 1 + 2 * x + n * y < 2 * p * (b * v)
  {
    var q := p * u;
    assert p * (a * u) == a * q;
    MulMonotone(y, q, n);
    assert 1 + 2 * x + n * y < 2 * (a * q) + n * q;
    assert 2 * (a * q) + n * q <= 2 * ((a + n) * q);
    MulMonotone(u, v, p);
    MulMonotone(q, p * v, b);
    assert b * (p * v) == p * (b * v);
  }

  /** The search makes fewer than 2^50 * (1 + 50 n)^2 one-step calls on a code of `n` instructions. */
  lemma CallsBounded(m: Machine, index: int, s: State)
    ensures Calls(m, Config(index, 0, 0, s)) < Pow2(50) * Power(1 + 50 * |m.code|, 2)
  {
    CallsBelow(m, Config(index, 0, 0, s), 50, 3);
    ClosedBound(|m.code|, 50, 3);
    assert 1 + |m.code| * 50 == 1 + 50 * |m.code|;
  }

  // ---------------------------------------------------------------------------------------------
  // The shared copy of a backward split is observable, in both directions
  // ---------------------------------------------------------------------------------------------

  function CarryFlag(): Word { NoFlags()[CF := true] }
  function ZeroFlag(): Word { NoFlags()[ZF := true] }

  /** ZF unsure, and CF clear and untainted, or set and tainted. */
  function ClearState(): State { InitialState(NoFlags(), ZeroFlag(), NoFlags()) }
  function TaintedState(): State { InitialState(CarryFlag(), ZeroFlag(), CarryFlag()) }

  /** The state left by the instruction at index 3; the others change nothing. */
  function ExampleEffect(mark: State): (int, State) -> State {
    (i: int, s: State) => if i == 3 then mark else s
  }

  /** Targets are constants: the first jb goes to 5, je back to 1. */
  function ExampleOperand(): (int, State) -> Operand {
    (i: int, s: State) => Operand(if i == 1 then 5 else 1, false, false)
  }

  /** nop; jb to 5; je to 1; mark; call; jb. */
  function Example(mark: State): Machine {
    CodedMachine([Instr(0, false, 0, false), Instr(1, true, 2, false), Instr(2, true, 3, false),
                  Instr(3, false, 0, false), Instr(4, true, 12, false), Instr(5, true, 2, false)],
                 0, 5, ExampleEffect(mark), ExampleOperand())
  }

  lemma ExampleTurns(mark: State, c: Config)
    requires Live(Example(mark), c)
    ensures var m, d, k, s := Example(mark), c.depth, c.cycle, c.state;
      && (c.index == 1 && s == ClearState() ==> TurnOf(m, c) == Go(Config(2, d + 1, k, s), 1))
      && (c.index == 1 && s == TaintedState() ==> TurnOf(m, c) == Go(Config(5, d + 1, k, s), 0))
      && (c.index == 2 && s in {ClearState(), TaintedState()} ==>
            TurnOf(m, c) == SplitBackward(1, Config(3, d, k, s)))
      && (c.index == 3 ==> TurnOf(m, c) == Go(Config(4, d + 1, k, mark), 1))
      && (c.index == 4 ==> TurnOf(m, c) == Stop(false, 0))
      && (c.index == 5 ==> TurnOf(m, c).Stop?)
  {
    var code := Example(mark).code;
    assert IndexFrom(code, 1, 1) == IndexFrom(code, 1, 0) == 1;
    assert IndexFrom(code, 5, 5) == IndexFrom(code, 5, 4) == IndexFrom(code, 5, 3) == IndexFrom(code, 5, 2);
    assert IndexFrom(code, 5, 2) == IndexFrom(code, 5, 1) == IndexFrom(code, 5, 0) == 5;
  }

  /** The fall-through behind je fails and leaves the mark. */
  lemma ExampleFallThrough(mark: State, c: Config)
    requires Live(Example(mark), c) && c.index == 3
    ensures !Explore(Example(mark), c).found && LeftBy(Example(mark), c) == mark
  {
    var stop := Config(4, c.depth + 1, c.cycle, mark);
    ExampleTurns(mark, c);
    if Live(Example(mark), stop) {
      ExampleTurns(mark, stop);
    }
    assert Explore(Example(mark), stop) == Outcome(false, mark, 0);
    FailedLeaves(Example(mark), c);
  }

  lemma ExampleStep(mark: State, c: Config, d: Config)
    requires var fall := Config(c.index + 1, c.depth, c.cycle, c.state);
      && Live(Example(mark), c)
      && match TurnOf(Example(mark), c)
         case Go(next, _) => d == next
         case SplitBackward(t, _) => d == BackwardJump(c, t, LeftBy(Example(mark), fall))
         case _ => false
    ensures CodedStep(Example(mark), c, d)
  {
    TurnIsStep(Example(mark), c, d, LeftBy(Example(mark), Config(c.index + 1, c.depth, c.cycle, c.state)));
  }

  lemma ExampleAttack(mark: State, c: Config)
    requires Live(Example(mark), c) && c.index == 5
    ensures Attack(Example(mark), c) <==> c.state.taints.rflags[CF]
  {
    assert BranchTypeAt(Example(mark).code, 5) == 2;
    assert Example(mark).verdict(5, c.state) == JudgeAttack(2, c.state.taints, ExampleOperand()(5, c.state).taint);
  }

  /** From a clear state, with the mark setting and tainting CF: no clean run gets past the call. */
  lemma {:induction false} ClearRuns(run: seq<Config>)
    requires |run| > 0 && run[0] == Config(1, 0, 0, ClearState()) && CleanRun(Example(TaintedState()), run)
    ensures var c := run[|run| - 1]; (1 <= c.index <= 3 && c.state == ClearState()) || c.index == 4
    decreases |run|
  {
    if |run| > 1 {
      var n := |run| - 1;
      ClearRuns(run[..n]);
      assert CleanStep(Example(TaintedState()), run[n - 1], run[n]);
      TurnIsStep(Example(TaintedState()), run[n - 1], run[n], run[n - 1].state);
      ExampleTurns(TaintedState(), run[n - 1]);
    }
  }

  /** From a tainted state, with the mark clearing CF: no coded run gets past the call. */
  lemma {:induction false} MarkedRuns(run: seq<Config>)
    requires |run| > 0 && run[0] == Config(2, 0, 0, TaintedState()) && CodedRun(Example(ClearState()), run)
    ensures var c := run[|run| - 1];
      (1 <= c.index <= 2 && c.state == ClearState()) || 3 <= c.index <= 4 || (c.index == 2 && c.state == TaintedState())
    decreases |run|
  {
    if |run| > 1 {
      var n, m := |run| - 1, Example(ClearState());
      MarkedRuns(run[..n]);
      var c := run[n - 1];
      var fall := Config(c.index + 1, c.depth, c.cycle, c.state);
      assert CodedStep(m, c, run[n]);
      TurnIsStep(m, c, run[n], LeftBy(m, fall));
      ExampleTurns(ClearState(), c);
      if c.index == 2 {
        ExampleFallThrough(ClearState(), fall);
      }
    }
  }

  lemma NotReachedCleanly()
    ensures !exists run :: CleanPath(Example(TaintedState()), Config(1, 0, 0, ClearState()), run)
  {
    forall run | CleanPath(Example(TaintedState()), Config(1, 0, 0, ClearState()), run) ensures false {
      ClearRuns(run);
    }
  }

  lemma FoundBySearch()
    ensures Explore(Example(TaintedState()), Config(1, 0, 0, ClearState())).found
  {
    var mark := TaintedState();
    var m, c := Example(mark), Config(1, 0, 0, ClearState());
    var c2, c1, c5 := Config(2, 1, 0, ClearState()), Config(1, 2, 1, mark), Config(5, 3, 1, mark);
    ExampleFallThrough(mark, Config(3, 1, 0, ClearState()));
    assert CodedStep(m, c, c2) by { ExampleTurns(mark, c); ExampleStep(mark, c, c2); }
    assert CodedStep(m, c2, c1) by { ExampleTurns(mark, c2); ExampleStep(mark, c2, c1); }
    assert CodedStep(m, c1, c5) by { ExampleTurns(mark, c1); ExampleStep(mark, c1, c5); }
    assert Attack(m, c5) by { ExampleAttack(mark, c5); }
    assert CodedPath(m, c, [c, c2, c1, c5]);
    PathIsFound(m, c, [c, c2, c1, c5]);
  }

  /** A program on which the search answers 1 although no clean run reaches an attack: the failed fall-through at
      the backward branch leaves its mark in the copy the jump continues with. */
  lemma SharedCopyObservable()
    ensures var m, c := Example(TaintedState()), Config(1, 0, 0, ClearState());
      Explore(m, c).found && !exists run :: CleanPath(m, c, run)
  {
    FoundBySearch();
    NotReachedCleanly();
  }

  lemma HiddenFromSearch()
    ensures !Explore(Example(ClearState()), Config(2, 0, 0, TaintedState())).found
  {
    var m, c := Example(ClearState()), Config(2, 0, 0, TaintedState());
    if Explore(m, c).found {
      var run := FoundHasPath(m, c);
      MarkedRuns(run);
    }
  }

  lemma ReachedCleanly()
    ensures exists run :: CleanPath(Example(ClearState()), Config(2, 0, 0, TaintedState()), run)
  {
    var mark := ClearState();
    var m, c := Example(mark), Config(2, 0, 0, TaintedState());
    var c1, c5 := Config(1, 1, 1, TaintedState()), Config(5, 2, 1, TaintedState());
    assert CleanStep(m, c, c1) by { ExampleTurns(mark, c); TurnIsStep(m, c, c1, c.state); }
    assert CleanStep(m, c1, c5) by { ExampleTurns(mark, c1); TurnIsStep(m, c1, c5, c1.state); }
    assert Attack(m, c5) by { ExampleAttack(mark, c5); }
    assert CleanPath(m, c, [c, c1, c5]);
  }

  /** The same program with the opposite mark, on which the search answers 0 although a clean run reaches an attack. */
  lemma SharedCopyHides()
    ensures var m, c := Example(ClearState()), Config(2, 0, 0, TaintedState());
      !Explore(m, c).found && exists run :: CleanPath(m, c, run)
  {
    HiddenFromSearch();
    ReachedCleanly();
  }
}
