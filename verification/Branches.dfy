/** Conditional-branch decisions, `setcc` results and the taint verdict of `pebs_taine_tool.c`. */
module Branches {
  import opened Arithmetic
  import opened Registers

  datatype Decision = NotTaken | Undecided | Taken | IsCall | IsRet

  /** `analyze_branch_instruction`: the outcome of a branch on possibly unsure flags. */
  function AnalyzeBranch(branchType: int, r: RegisterFile): Decision {
    match branchType
    case 1 =>
      if Get(r.rflagsUnsure, OF) != 0 then Undecided else if Get(r.rflags, OF) != 0 then Taken else NotTaken
    case 2 =>
      if Get(r.rflagsUnsure, CF) != 0 then Undecided else if Get(r.rflags, CF) != 0 then Taken else NotTaken
    case 3 =>
      if Get(r.rflagsUnsure, ZF) != 0 then Undecided else if Get(r.rflags, ZF) != 0 then Taken else NotTaken
    case 4 =>
      if Get(r.rflagsUnsure, CF) == 0 && Get(r.rflags, CF) != 0 then NotTaken
      else if Get(r.rflagsUnsure, ZF) == 0 && Get(r.rflags, ZF) != 0 then NotTaken
      else if Get(r.rflagsUnsure, CF) != 0 || Get(r.rflagsUnsure, ZF) != 0 then Undecided
      else Taken
    case 5 =>
      if Get(r.rflagsUnsure, SF) != 0 then Undecided else if Get(r.rflags, SF) != 0 then Taken else NotTaken
    case 6 =>
      if Get(r.rflagsUnsure, PF) != 0 then Undecided else if Get(r.rflags, PF) != 0 then Taken else NotTaken
    case 7 =>
      if Get(r.rflagsUnsure, SF) != 0 || Get(r.rflagsUnsure, OF) != 0 then Undecided
      else if Get(r.rflags, SF) != Get(r.rflags, OF) then Taken
      else NotTaken
    case 8 =>
      if Get(r.rflagsUnsure, ZF) == 0 && Get(r.rflags, ZF) != 0 then NotTaken
      else if Get(r.rflagsUnsure, SF) == 0 && Get(r.rflagsUnsure, OF) == 0 && Get(r.rflags, SF) != Get(r.rflags, OF)
        then NotTaken
      else if Get(r.rflagsUnsure, ZF) != 0 || Get(r.rflagsUnsure, SF) != 0 || Get(r.rflagsUnsure, OF) != 0
        then Undecided
      else Taken
    case 9 =>
      if Get(r.rflagsUnsure, CF) != 0 then Undecided else if Get(r.rflags, CF) != 0 then Taken else NotTaken
    case 10 =>
      if GetECX(r.canBreakUnsure) != 0 then Undecided
      else if r.gprs[1] % 0x10000 == 0 then Taken
      else Undecided
    case 11 => Taken
    case 12 => IsCall
    case 13 => IsRet
    case -1 =>
      if Get(r.rflagsUnsure, OF) != 0 then Undecided else if NotGet(r.rflags, OF) != 0 then Taken else NotTaken
    case -2 =>
      if Get(r.rflagsUnsure, CF) != 0 then Undecided else if NotGet(r.rflags, CF) != 0 then Taken else NotTaken
    case -3 =>
      if Get(r.rflagsUnsure, ZF) != 0 then Undecided else if NotGet(r.rflags, ZF) != 0 then Taken else NotTaken
    case -4 =>
      if || (Get(r.rflagsUnsure, ZF) == 0 && Get(r.rflags, ZF) != 0)
         || (Get(r.rflagsUnsure, CF) == 0 && Get(r.rflags, CF) != 0) then Taken
      else if Get(r.rflagsUnsure, ZF) != 0 && Get(r.rflagsUnsure, CF) != 0 then Undecided
      else NotTaken
    case -5 =>
      if Get(r.rflagsUnsure, SF) != 0 then Undecided else if NotGet(r.rflags, SF) != 0 then Taken else NotTaken
    case -6 =>
      if Get(r.rflagsUnsure, PF) != 0 then Undecided else if NotGet(r.rflags, PF) != 0 then Taken else NotTaken
    case -7 =>
      if Get(r.rflagsUnsure, SF) != 0 || Get(r.rflagsUnsure, OF) != 0 then Undecided
      else if Get(r.rflags, SF) == Get(r.rflags, OF) then Taken
      else NotTaken
    case -8 =>
      if || (Get(r.rflagsUnsure, ZF) == 0 && Get(r.rflags, ZF) != 0)
         || (Get(r.rflagsUnsure, SF) == 0 && Get(r.rflagsUnsure, OF) == 0 && Get(r.rflags, SF) != Get(r.rflags, OF))
        then Taken
      else if Get(r.rflagsUnsure, ZF) != 0 || Get(r.rflagsUnsure, SF) != 0 || Get(r.rflagsUnsure, OF) != 0
        then Undecided
      else NotTaken
    case -9 =>
      if Get(r.rflagsUnsure, CF) != 0 then Undecided else if NotGet(r.rflags, CF) != 0 then Taken else NotTaken
    case _ => NotTaken
  }

  /** `judge_attack`: does the verdict on the final branch depend on tainted data? */
  predicate JudgeAttack(branchType: int, t: TaintMap, targetTainted: bool) {
    match branchType
    case 1 => Get(t.rflags, OF) != 0
    case 2 => Get(t.rflags, CF) != 0
    case 3 => Get(t.rflags, ZF) != 0
    case 4 => Get(t.rflags, CF) != 0 || Get(t.rflags, ZF) != 0
    case 5 => Get(t.rflags, SF) != 0
    case 6 => Get(t.rflags, PF) != 0
    case 7 => Get(t.rflags, SF) != 0 || Get(t.rflags, OF) != 0
    case 8 => Get(t.rflags, ZF) != 0 || Get(t.rflags, SF) != 0 || Get(t.rflags, OF) != 0
    case 9 => Get(t.rflags, CF) != 0
    case 10 => GetECX(t.canBreak) != 0
    case 11 => targetTainted
    case 12 => targetTainted
    case -1 => Get(t.rflags, OF) != 0
    case -2 => Get(t.rflags, CF) != 0
    case -3 => Get(t.rflags, ZF) != 0
    case -4 => Get(t.rflags, CF) != 0 || Get(t.rflags, ZF) != 0
    case -5 => Get(t.rflags, SF) != 0
    case -6 => Get(t.rflags, PF) != 0
    case -7 => Get(t.rflags, SF) != 0 || Get(t.rflags, OF) != 0
    case -8 => Get(t.rflags, ZF) != 0 || Get(t.rflags, SF) != 0 || Get(t.rflags, OF) != 0
    case -9 => Get(t.rflags, CF) != 0
    case _ => false
  }

  lemma NegatedFlags(x: Word)
    ensures NotGet(x, CF) == 1 - Get(x, CF)
    ensures NotGet(x, PF) == NotGet(x, ZF) == NotGet(x, SF) == NotGet(x, OF) == 0
  {
    NegatedGetter(x, CF);
    NegatedGetter(x, PF);
    NegatedGetter(x, ZF);
    NegatedGetter(x, SF);
    NegatedGetter(x, OF);
  }

  // ---------------------------------------------------------------------------------------------
  // Reference: the condition codes of the Intel 64 and IA-32 SDM, Volume 1, Appendix B, on a complete
  // set of flag values; bit positions as in section 3.4.3 (CF 0, PF 2, ZF 6, SF 7, OF 11).
  // ---------------------------------------------------------------------------------------------

  datatype FlagValues = FlagValues(cf: bool, pf: bool, zf: bool, sf: bool, of: bool, ecx: nat)

  predicate IsConditional(branchType: int) {
    1 <= branchType <= 10 || -9 <= branchType <= -1
  }

  /** Branches with a condition on flags or count, and the unconditional jump, whose condition always holds. */
  predicate IsDecided(branchType: int) {
    IsConditional(branchType) || branchType == 11
  }

  predicate Holds(branchType: int, f: FlagValues)
    requires IsDecided(branchType)
  {
    if branchType == 11 then true
    else if branchType == 10 then f.ecx == 0
    else if branchType < 0 then !PositiveHolds(-branchType, f)
    else PositiveHolds(branchType, f)
  }

  predicate PositiveHolds(n: int, f: FlagValues)
    requires 1 <= n <= 9
  {
    match n
    case 1 => f.of
    case 2 => f.cf
    case 3 => f.zf
    case 4 => !f.cf && !f.zf
    case 5 => f.sf
    case 6 => f.pf
    case 7 => f.sf != f.of
    case 8 => !f.zf && f.sf == f.of
    case 9 => f.cf
  }

  /** No part of ECX is marked. */
  predicate CountKnown(marks: Word) {
    !marks[4] && !marks[5] && !marks[6]
  }

  /** `f` gives every flag a value and respects the ones that are known. */
  ghost predicate Filling(r: RegisterFile, f: FlagValues) {
    && (!r.rflagsUnsure[0] ==> f.cf == r.rflags[0])
    && (!r.rflagsUnsure[2] ==> f.pf == r.rflags[2])
    && (!r.rflagsUnsure[6] ==> f.zf == r.rflags[6])
    && (!r.rflagsUnsure[7] ==> f.sf == r.rflags[7])
    && (!r.rflagsUnsure[11] ==> f.of == r.rflags[11])
    && (CountKnown(r.canBreakUnsure) ==> f.ecx == r.gprs[1] % 0x1_0000_0000)
  }

  /** The three-valued reading: taken or not taken only when every filling agrees, undecided otherwise. */
  ghost predicate ExactOn(d: Decision, branchType: int, r: RegisterFile)
    requires IsDecided(branchType)
  {
    && (d == Taken <==> forall f | Filling(r, f) :: Holds(branchType, f))
    && (d == NotTaken <==> forall f | Filling(r, f) :: !Holds(branchType, f))
    && d in {Taken, NotTaken, Undecided}
  }

  /** The inputs on which the coded decision departs from the three-valued reading. */
  predicate Deviates(branchType: int, r: RegisterFile) {
    match branchType
    case -1 => Get(r.rflagsUnsure, OF) == 0 && Get(r.rflags, OF) == 0
    case -3 => Get(r.rflagsUnsure, ZF) == 0 && Get(r.rflags, ZF) == 0
    case -5 => Get(r.rflagsUnsure, SF) == 0 && Get(r.rflags, SF) == 0
    case -6 => Get(r.rflagsUnsure, PF) == 0 && Get(r.rflags, PF) == 0
    case -4 =>
      || (Get(r.rflagsUnsure, ZF) != 0 && Get(r.rflagsUnsure, CF) == 0 && Get(r.rflags, CF) == 0)
      || (Get(r.rflagsUnsure, CF) != 0 && Get(r.rflagsUnsure, ZF) == 0 && Get(r.rflags, ZF) == 0)
    case 10 => GetECX(r.canBreakUnsure) == 0 && r.gprs[1] % 0x1_0000_0000 != 0
    case _ => false
  }

  /** The filling that takes the known flags from `r` and the rest from `g`. */
  ghost function Fill(r: RegisterFile, g: FlagValues): (f: FlagValues)
    ensures Filling(r, f)
  {
    FlagValues(
      if !r.rflagsUnsure[0] then r.rflags[0] else g.cf,
      if !r.rflagsUnsure[2] then r.rflags[2] else g.pf,
      if !r.rflagsUnsure[6] then r.rflags[6] else g.zf,
      if !r.rflagsUnsure[7] then r.rflags[7] else g.sf,
      if !r.rflagsUnsure[11] then r.rflags[11] else g.of,
      if CountKnown(r.canBreakUnsure) then r.gprs[1] % 0x1_0000_0000 else g.ecx)
  }

  /** Corner fillings: every open flag false, every open flag true, and the two that separate SF from OF. */
  ghost function Corner(r: RegisterFile, others: bool, sf: bool, of: bool): FlagValues {
    Fill(r, FlagValues(others, others, others, sf, of, if others then 1 else 0))
  }

  lemma CornersFill(r: RegisterFile)
    ensures Filling(r, Corner(r, false, false, false)) && Filling(r, Corner(r, true, true, true))
    ensures Filling(r, Corner(r, false, true, false)) && Filling(r, Corner(r, false, false, true))
  {
  }

  /** The decision is exact on every conditional branch type and on jmp, on every register file except the deviating
      ones. */
  lemma DecisionExact(branchType: int, r: RegisterFile)
    requires IsDecided(branchType)
    ensures ExactOn(AnalyzeBranch(branchType, r), branchType, r) <==> !Deviates(branchType, r)
  {
    if branchType in {1, 2, 3, 5, 6, 9} {
      OneFlagExact(branchType, r);
    } else if branchType in {-1, -2, -3, -5, -6, -9} {
      NegatedFlagExact(branchType, r);
    } else if branchType == 11 {
      assert Filling(r, Corner(r, false, false, false));
    } else if branchType != 10 {
      if branchType in {4, -4} {
        UnsignedOrderExact(branchType, r);
      } else {
        SignedOrderExact(branchType, r);
      }
    } else {
      CornersFill(r);
      LowHalf(r.gprs[1]);
    }
  }

  lemma OneFlagExact(branchType: int, r: RegisterFile)
    requires branchType in {1, 2, 3, 5, 6, 9}
    ensures ExactOn(AnalyzeBranch(branchType, r), branchType, r)
  {
    CornersFill(r);
  }

  lemma NegatedFlagExact(branchType: int, r: RegisterFile)
    requires branchType in {-1, -2, -3, -5, -6, -9}
    ensures ExactOn(AnalyzeBranch(branchType, r), branchType, r) <==> !Deviates(branchType, r)
  {
    NegatedFlags(r.rflags);
    CornersFill(r);
  }

  lemma UnsignedOrderExact(branchType: int, r: RegisterFile)
    requires branchType in {4, -4}
    ensures ExactOn(AnalyzeBranch(branchType, r), branchType, r) <==> !Deviates(branchType, r)
  {
    CornersFill(r);
  }

  lemma SignedOrderExact(branchType: int, r: RegisterFile)
    requires branchType in {7, -7, 8, -8}
    ensures ExactOn(AnalyzeBranch(branchType, r), branchType, r)
  {
    CornersFill(r);
  }

  /** What is answered where the reading is departed from: not taken for JNO, JNE, JNS, JNP and JNA. A count jump with
      known ECX is taken exactly if the low 16 bits of the count are 0, and else undecided. */
  lemma DeviatingAnswers(branchType: int, r: RegisterFile)
    ensures Deviates(branchType, r) && branchType != 10 ==> AnalyzeBranch(branchType, r) == NotTaken
    ensures CountKnown(r.canBreakUnsure) ==>
              AnalyzeBranch(10, r) == if r.gprs[1] % 65536 == 0 then Taken else Undecided
    ensures !CountKnown(r.canBreakUnsure) ==> AnalyzeBranch(10, r) == Undecided
  {
    if branchType in {-1, -3, -5, -6} {
      NegatedFlags(r.rflags);
    }
  }

  /** Calls and returns are recognised as such, and any type without a meaning counts as not taken. */
  lemma OtherTypes(branchType: int, r: RegisterFile)
    ensures AnalyzeBranch(branchType, r) == IsCall <==> branchType == 12
    ensures AnalyzeBranch(branchType, r) == IsRet <==> branchType == 13
    ensures !IsDecided(branchType) && branchType != 12 && branchType != 13 ==> AnalyzeBranch(branchType, r) == NotTaken
  {
  }

  /** JNO, JNE, JNS and JNP are never decided as taken, whatever the flags. */
  lemma NegatedJumpsNeverTaken(branchType: int, r: RegisterFile)
    requires branchType in {-1, -3, -5, -6}
    ensures AnalyzeBranch(branchType, r) != Taken
  {
    NegatedFlags(r.rflags);
  }

  // ---------------------------------------------------------------------------------------------
  // setcc
  // ---------------------------------------------------------------------------------------------

  /** Character `i` of a NUL-terminated C string. */
  function CharAt(s: string, i: nat): char {
    if i < |s| then s[i] else '\0'
  }

  /** The condition a `setcc` mnemonic is dispatched to, in the numbering of the jumps; 0 when none. */
  function SetccCondition(mnemonic: string): int {
    var c, d := CharAt(mnemonic, 3), CharAt(mnemonic, 4);
    if c == 'o' then 1
    else if c == 'n' && d == 'o' then -1
    else if c == 's' then 5
    else if c == 'n' && d == 's' then -5
    else if c == 'e' then 3
    else if c == 'n' && d == 'e' then -3
    else if c == 'p' then 6
    else if c == 'n' && d == 'p' then -6
    else if c == 'b' && d == 'e' then -4
    else if c == 'b' then 2
    else if c == 'n' && d == 'b' then -2
    else if c == 'a' then 4
    else if c == 'n' && d == 'g' then 7
    else if c == 'g' && d == 'e' then -7
    else if c == 'l' && d == 'e' then -8
    else if c == 'n' && d == 'l' then 8
    else 0
  }

  /** What `setcc` answers: the matching jump's decision, except that the four negated single-flag conditions
      are evaluated without the misplaced `!`. */
  function SetccAnswer(condition: int, r: RegisterFile): Decision {
    match condition
    case -1 => if Get(r.rflagsUnsure, OF) != 0 then Undecided else if Get(r.rflags, OF) == 0 then Taken else NotTaken
    case -3 => if Get(r.rflagsUnsure, ZF) != 0 then Undecided else if Get(r.rflags, ZF) == 0 then Taken else NotTaken
    case -5 => if Get(r.rflagsUnsure, SF) != 0 then Undecided else if Get(r.rflags, SF) == 0 then Taken else NotTaken
    case -6 => if Get(r.rflagsUnsure, PF) != 0 then Undecided else if Get(r.rflags, PF) == 0 then Taken else NotTaken
    case _ => AnalyzeBranch(condition, r)
  }

  /** `setcc_analyze`: the result's taint, unsure flag and value are raised, never cleared. */
  method SetccAnalyze(mnemonic: string, res: OperandResult, r: RegisterFile, t: TaintMap)
    modifies res
    ensures var c := SetccCondition(mnemonic);
      && res.taint == (old(res.taint) || JudgeAttack(c, t, false))
      && res.unsure == (old(res.unsure) || SetccAnswer(c, r) == Undecided)
      && res.value == (if SetccAnswer(c, r) == Taken then 1 else old(res.value))
  {
    NegatedFlags(r.rflags);
    var c, d := CharAt(mnemonic, 3), CharAt(mnemonic, 4);
    if c == 'o' {
      SetOneFlag(Get(t.rflags, OF), Get(r.rflagsUnsure, OF), Get(r.rflags, OF) != 0, res);
    } else if c == 'n' && d == 'o' {
      SetOneFlag(Get(t.rflags, OF), Get(r.rflagsUnsure, OF), Get(r.rflags, OF) == 0, res);
    } else if c == 's' {
      SetOneFlag(Get(t.rflags, SF), Get(r.rflagsUnsure, SF), Get(r.rflags, SF) != 0, res);
    } else if c == 'n' && d == 's' {
      SetOneFlag(Get(t.rflags, SF), Get(r.rflagsUnsure, SF), Get(r.rflags, SF) == 0, res);
    } else if c == 'e' {
      SetOneFlag(Get(t.rflags, ZF), Get(r.rflagsUnsure, ZF), Get(r.rflags, ZF) != 0, res);
    } else if c == 'n' && d == 'e' {
      SetOneFlag(Get(t.rflags, ZF), Get(r.rflagsUnsure, ZF), Get(r.rflags, ZF) == 0, res);
    } else if c == 'p' {
      SetOneFlag(Get(t.rflags, PF), Get(r.rflagsUnsure, PF), Get(r.rflags, PF) != 0, res);
    } else if c == 'n' && d == 'p' {
      SetOneFlag(Get(t.rflags, PF), Get(r.rflagsUnsure, PF), Get(r.rflags, PF) == 0, res);
    } else if c == 'b' && d == 'e' {
      SetBelowOrEqual(res, r, t);
    } else if c == 'b' {
      SetOneFlag(Get(t.rflags, CF), Get(r.rflagsUnsure, CF), Get(r.rflags, CF) != 0, res);
    } else if c == 'n' && d == 'b' {
      SetOneFlag(Get(t.rflags, CF), Get(r.rflagsUnsure, CF), Get(r.rflags, CF) == 0, res);
    } else if c == 'a' {
      SetAbove(res, r, t);
    } else if c == 'n' && d == 'g' {
      SetSignedOrder(Get(r.rflags, SF) != Get(r.rflags, OF), res, r, t);
    } else if c == 'g' && d == 'e' {
      SetSignedOrder(Get(r.rflags, SF) == Get(r.rflags, OF), res, r, t);
    } else if c == 'l' && d == 'e' {
      SetLessOrEqual(res, r, t);
    } else if c == 'n' && d == 'l' {
      SetGreater(res, r, t);
    }
  }

  /** The common shape of the single-flag cases of `setcc_analyze`. */
  method SetOneFlag(taintBit: nat, unsureBit: nat, holds: bool, res: OperandResult)
    modifies res
    ensures res.taint == (old(res.taint) || taintBit != 0)
    ensures res.unsure == (old(res.unsure) || unsureBit != 0)
    ensures res.value == if unsureBit == 0 && holds then 1 else old(res.value)
  {
    if taintBit != 0 {
      res.taint := true;
    }
    if unsureBit != 0 {
      res.unsure := true;
    } else if holds {
      res.value := 1;
    }
  }

  /** `setbe`: CF or ZF. */
  method SetBelowOrEqual(res: OperandResult, r: RegisterFile, t: TaintMap)
    modifies res
    ensures res.taint == (old(res.taint) || JudgeAttack(-4, t, false))
    ensures res.unsure == (old(res.unsure) || AnalyzeBranch(-4, r) == Undecided)
    ensures res.value == if AnalyzeBranch(-4, r) == Taken then 1 else old(res.value)
  {
    if Get(t.rflags, CF) != 0 || Get(t.rflags, ZF) != 0 {
      res.taint := true;
    }
    if || (Get(r.rflagsUnsure, ZF) == 0 && Get(r.rflags, ZF) != 0)
       || (Get(r.rflagsUnsure, CF) == 0 && Get(r.rflags, CF) != 0) {
      res.value := 1;
    } else if Get(r.rflagsUnsure, ZF) != 0 && Get(r.rflagsUnsure, CF) != 0 {
      res.unsure := true;
    }
  }

  method SetAbove(res: OperandResult, r: RegisterFile, t: TaintMap)
    modifies res
    ensures res.taint == (old(res.taint) || JudgeAttack(4, t, false))
    ensures res.unsure == (old(res.unsure) || AnalyzeBranch(4, r) == Undecided)
    ensures res.value == if AnalyzeBranch(4, r) == Taken then 1 else old(res.value)
  {
    if Get(t.rflags, CF) != 0 || Get(t.rflags, ZF) != 0 {
      res.taint := true;
    }
    if Get(r.rflagsUnsure, CF) == 0 && Get(r.rflags, CF) != 0 {
      return;
    } else if Get(r.rflagsUnsure, ZF) == 0 && Get(r.rflags, ZF) != 0 {
      return;
    } else if Get(r.rflagsUnsure, CF) != 0 || Get(r.rflagsUnsure, ZF) != 0 {
      res.unsure := true;
    } else {
      res.value := 1;
    }
  }

  /** `setnge` and `setge`: `holds` compares the stored SF and OF. */
  method SetSignedOrder(holds: bool, res: OperandResult, r: RegisterFile, t: TaintMap)
    modifies res
    ensures res.taint == (old(res.taint) || JudgeAttack(7, t, false))
    ensures res.unsure == (old(res.unsure) || AnalyzeBranch(7, r) == Undecided)
    ensures res.value == if AnalyzeBranch(7, r) != Undecided && holds then 1 else old(res.value)
  {
    if Get(t.rflags, SF) != 0 || Get(t.rflags, OF) != 0 {
      res.taint := true;
    }
    if Get(r.rflagsUnsure, SF) != 0 || Get(r.rflagsUnsure, OF) != 0 {
      res.unsure := true;
    } else if holds {
      res.value := 1;
    }
  }

  method SetLessOrEqual(res: OperandResult, r: RegisterFile, t: TaintMap)
    modifies res
    ensures res.taint == (old(res.taint) || JudgeAttack(-8, t, false))
    ensures res.unsure == (old(res.unsure) || AnalyzeBranch(-8, r) == Undecided)
    ensures res.value == if AnalyzeBranch(-8, r) == Taken then 1 else old(res.value)
  {
    if Get(t.rflags, SF) != 0 || Get(t.rflags, OF) != 0 || Get(t.rflags, ZF) != 0 {
      res.taint := true;
    }
    if || (Get(r.rflagsUnsure, ZF) == 0 && Get(r.rflags, ZF) != 0)
       || (Get(r.rflagsUnsure, SF) == 0 && Get(r.rflagsUnsure, OF) == 0 && Get(r.rflags, SF) != Get(r.rflags, OF)) {
      res.value := 1;
    } else if Get(r.rflagsUnsure, ZF) != 0 || Get(r.rflagsUnsure, SF) != 0 || Get(r.rflagsUnsure, OF) != 0 {
      res.unsure := true;
    }
  }

  method SetGreater(res: OperandResult, r: RegisterFile, t: TaintMap)
    modifies res
    ensures res.taint == (old(res.taint) || JudgeAttack(8, t, false))
    ensures res.unsure == (old(res.unsure) || AnalyzeBranch(8, r) == Undecided)
    ensures res.value == if AnalyzeBranch(8, r) == Taken then 1 else old(res.value)
  {
    if Get(t.rflags, SF) != 0 || Get(t.rflags, OF) != 0 || Get(t.rflags, ZF) != 0 {
      res.taint := true;
    }
    if Get(r.rflagsUnsure, ZF) == 0 && Get(r.rflags, ZF) != 0 {
      return;
    } else if Get(r.rflagsUnsure, SF) == 0 && Get(r.rflagsUnsure, OF) == 0 && Get(r.rflags, SF) != Get(r.rflags, OF) {
      return;
    } else if Get(r.rflagsUnsure, ZF) != 0 || Get(r.rflagsUnsure, SF) != 0 || Get(r.rflagsUnsure, OF) != 0 {
      res.unsure := true;
    } else {
      res.value := 1;
    }
  }

  lemma SetccConditionExact(condition: int, r: RegisterFile)
    requires IsConditional(condition) && condition != 10
    ensures ExactOn(SetccAnswer(condition, r), condition, r) <==> !(condition == -4 && Deviates(-4, r))
  {
    DecisionExact(condition, r);
    if condition in {-1, -3, -5, -6} {
      CornersFill(r);
    }
  }

  /** The condition each mnemonic of the decoder stands for in the SDM; 0 for any other string. */
  function MeantCondition(mnemonic: string): int {
    if mnemonic == "seto " then 1
    else if mnemonic == "setno " then -1
    else if mnemonic == "setb " then 2
    else if mnemonic == "setnb " then -2
    else if mnemonic == "sete " then 3
    else if mnemonic == "setne " then -3
    else if mnemonic == "setbe " then -4
    else if mnemonic == "setnbe " then 4
    else if mnemonic == "sets " then 5
    else if mnemonic == "setns " then -5
    else if mnemonic == "setp " then 6
    else if mnemonic == "setnp " then -6
    else if mnemonic == "setl " then 7
    else if mnemonic == "setnl " then -7
    else if mnemonic == "setle " then -8
    else if mnemonic == "setnle " then 8
    else 0
  }

  /** Two characters do not tell all mnemonics apart: `setl` is not recognised, `setnl` is taken for `setnle` and
      `setnbe` for `setnb`. */
  lemma Dispatch(mnemonic: string)
    requires MeantCondition(mnemonic) != 0
    ensures SetccCondition(mnemonic) ==
      if mnemonic == "setl " then 0
      else if mnemonic == "setnl " then 8
      else if mnemonic == "setnbe " then -2
      else MeantCondition(mnemonic)
  {
  }

  /** The register files on which the answer to a mnemonic is the right one. */
  predicate AnswersRightly(mnemonic: string, r: RegisterFile) {
    var cf, zf := Get(r.rflags, CF) != 0, Get(r.rflags, ZF) != 0;
    var cfSure, zfSure := Get(r.rflagsUnsure, CF) == 0, Get(r.rflagsUnsure, ZF) == 0;
    var signsSure := Get(r.rflagsUnsure, SF) == 0 && Get(r.rflagsUnsure, OF) == 0;
    var signsEqual := Get(r.rflags, SF) == Get(r.rflags, OF);
    if mnemonic == "setl " then signsSure && signsEqual
    else if mnemonic == "setnl " then (signsSure && !signsEqual) || (zfSure && !zf) || (!zfSure && !signsSure)
    else if mnemonic == "setnbe " then
      (cfSure && cf) || (cfSure && !cf && zfSure && !zf) || (!cfSure && !(zfSure && zf))
    else if mnemonic == "setbe " then !Deviates(-4, r)
    else true
  }

  /** `setcc` against the SDM condition of its mnemonic: exact on every register file for twelve of the sixteen
      mnemonics, and for `setl`, `setnl`, `setnbe` and `setbe` exactly on the register files above. */
  lemma SetccExact(mnemonic: string, r: RegisterFile)
    requires MeantCondition(mnemonic) != 0
    ensures ExactOn(SetccAnswer(SetccCondition(mnemonic), r), MeantCondition(mnemonic), r)
            <==> AnswersRightly(mnemonic, r)
  {
    Dispatch(mnemonic);
    if mnemonic == "setl " {
      UnrecognisedLess(r);
    } else if mnemonic == "setnl " {
      GreaterForNotLess(r);
    } else if mnemonic == "setnbe " {
      NotBelowForAbove(r);
    } else {
      SetccConditionExact(MeantCondition(mnemonic), r);
    }
  }

  lemma UnrecognisedLess(r: RegisterFile)
    ensures ExactOn(SetccAnswer(0, r), 7, r) <==> AnswersRightly("setl ", r)
  {
    CornersFill(r);
  }

  lemma GreaterForNotLess(r: RegisterFile)
    ensures ExactOn(SetccAnswer(8, r), -7, r) <==> AnswersRightly("setnl ", r)
  {
    CornersFill(r);
  }

  lemma NotBelowForAbove(r: RegisterFile)
    ensures ExactOn(SetccAnswer(-2, r), 4, r) <==> AnswersRightly("setnbe ", r)
  {
    NegatedFlags(r.rflags);
    CornersFill(r);
  }

  // ---------------------------------------------------------------------------------------------
  // The taint verdict
  // ---------------------------------------------------------------------------------------------

  /** `r` and `s` have the same unsure words and differ at most in tainted flags and a tainted ECX. */
  predicate AgreeOnUntainted(t: TaintMap, r: RegisterFile, s: RegisterFile) {
    && r.rflagsUnsure == s.rflagsUnsure
    && r.canBreakUnsure == s.canBreakUnsure
    && (!t.rflags[0] ==> r.rflags[0] == s.rflags[0])
    && (!t.rflags[2] ==> r.rflags[2] == s.rflags[2])
    && (!t.rflags[6] ==> r.rflags[6] == s.rflags[6])
    && (!t.rflags[7] ==> r.rflags[7] == s.rflags[7])
    && (!t.rflags[11] ==> r.rflags[11] == s.rflags[11])
    && (CountKnown(t.canBreak) ==> r.gprs[1] % 0x1_0000_0000 == s.gprs[1] % 0x1_0000_0000)
  }

  /** An untainted verdict means tainted data cannot influence the decision of a jump. */
  lemma VerdictNoninterference(branchType: int, t: TaintMap, r: RegisterFile, s: RegisterFile)
    requires IsConditional(branchType) && AgreeOnUntainted(t, r, s) && !JudgeAttack(branchType, t, false)
    ensures AnalyzeBranch(branchType, r) == AnalyzeBranch(branchType, s)
  {
    if branchType in {-1, -2, -3, -5, -6, -9} {
      NegatedNoninterference(branchType, t, r, s);
    } else if branchType == 10 {
      CountNoninterference(t, r, s);
    } else {
      PlainNoninterference(branchType, t, r, s);
    }
  }

  lemma NegatedNoninterference(branchType: int, t: TaintMap, r: RegisterFile, s: RegisterFile)
    requires branchType in {-1, -2, -3, -5, -6, -9}
    requires AgreeOnUntainted(t, r, s) && !JudgeAttack(branchType, t, false)
    ensures AnalyzeBranch(branchType, r) == AnalyzeBranch(branchType, s)
  {
  }

  lemma CountNoninterference(t: TaintMap, r: RegisterFile, s: RegisterFile)
    requires AgreeOnUntainted(t, r, s) && !JudgeAttack(10, t, false)
    ensures AnalyzeBranch(10, r) == AnalyzeBranch(10, s)
  {
    LowHalf(r.gprs[1]);
    LowHalf(s.gprs[1]);
  }

  lemma LowHalf(x: nat)
    ensures x % 0x10000 == (x % 0x1_0000_0000) % 0x10000
  {
    ModPeriodic(x % 0x1_0000_0000, x / 0x1_0000_0000 * 0x10000, 0x10000);
  }

  lemma PlainNoninterference(branchType: int, t: TaintMap, r: RegisterFile, s: RegisterFile)
    requires branchType in {1, 2, 3, 5, 6, 9, 4, -4, 7, -7, 8, -8}
    requires AgreeOnUntainted(t, r, s) && !JudgeAttack(branchType, t, false)
    ensures AnalyzeBranch(branchType, r) == AnalyzeBranch(branchType, s)
  {
  }

  /** The same for `setcc`, whatever the mnemonic: an untainted result does not depend on tainted flags. */
  lemma SetccNoninterference(mnemonic: string, t: TaintMap, r: RegisterFile, s: RegisterFile)
    requires AgreeOnUntainted(t, r, s) && !JudgeAttack(SetccCondition(mnemonic), t, false)
    ensures SetccAnswer(SetccCondition(mnemonic), r) == SetccAnswer(SetccCondition(mnemonic), s)
  {
    if SetccCondition(mnemonic) != 0 {
      VerdictNoninterference(SetccCondition(mnemonic), t, r, s);
    }
  }

  /** `f` and `g` differ at most in tainted flags. */
  predicate SameUntainted(t: TaintMap, f: FlagValues, g: FlagValues) {
    && (!t.rflags[0] ==> f.cf == g.cf)
    && (!t.rflags[2] ==> f.pf == g.pf)
    && (!t.rflags[6] ==> f.zf == g.zf)
    && (!t.rflags[7] ==> f.sf == g.sf)
    && (!t.rflags[11] ==> f.of == g.of)
    && (CountKnown(t.canBreak) ==> f.ecx == g.ecx)
  }

  /** The verdict is raised exactly when tainted data alone can turn the condition. */
  lemma VerdictExact(branchType: int, t: TaintMap)
    requires IsConditional(branchType)
    ensures JudgeAttack(branchType, t, false) <==>
            exists f, g :: SameUntainted(t, f, g) && Holds(branchType, f) && !Holds(branchType, g)
  {
    if JudgeAttack(branchType, t, false) {
      var low := FlagValues(false, false, false, false, false, 0);
      var high := FlagValues(Get(t.rflags, CF) != 0, Get(t.rflags, PF) != 0, Get(t.rflags, ZF) != 0,
                             Get(t.rflags, SF) != 0, Get(t.rflags, SF) == 0 && Get(t.rflags, OF) != 0,
                             if GetECX(t.canBreak) != 0 then 1 else 0);
      if branchType in {1, -1} {
        high := high.(of := true);
      }
      assert SameUntainted(t, low, high) && SameUntainted(t, high, low);
      assert Holds(branchType, low) != Holds(branchType, high);
    }
  }

  /** On jumps and calls the verdict is the taint of the target; a return and an unknown type are never an attack. The
      taint of the target does not matter to a conditional branch. */
  lemma TargetVerdict(branchType: int, t: TaintMap, targetTainted: bool)
    ensures !IsConditional(branchType) ==>
              (JudgeAttack(branchType, t, targetTainted) <==> branchType in {11, 12} && targetTainted)
    ensures IsConditional(branchType) ==> JudgeAttack(branchType, t, targetTainted) == JudgeAttack(branchType, t, false)
  {
  }

  /** The taint maps on which the taint of a `setcc` result is the right one. */
  predicate TaintsRightly(mnemonic: string, t: TaintMap) {
    var signs := Get(t.rflags, SF) != 0 || Get(t.rflags, OF) != 0;
    if mnemonic == "setl " then !signs
    else if mnemonic == "setnl " then Get(t.rflags, ZF) == 0 || signs
    else if mnemonic == "setnbe " then Get(t.rflags, ZF) == 0 || Get(t.rflags, CF) != 0
    else true
  }

  /** The result of `setcc` is tainted exactly when tainted data alone can turn the SDM condition of its mnemonic,
      always for thirteen mnemonics and exactly on the taint maps above for `setl`, `setnl` and `setnbe`. */
  lemma SetccTaintExact(mnemonic: string, t: TaintMap)
    requires MeantCondition(mnemonic) != 0
    ensures var c := MeantCondition(mnemonic);
      (JudgeAttack(SetccCondition(mnemonic), t, false) <==>
        exists f, g :: SameUntainted(t, f, g) && Holds(c, f) && !Holds(c, g))
      <==> TaintsRightly(mnemonic, t)
  {
    Dispatch(mnemonic);
    VerdictExact(MeantCondition(mnemonic), t);
  }

  // ---------------------------------------------------------------------------------------------
  // jrcxz, which the decoder gives the same branch type as jecxz
  // ---------------------------------------------------------------------------------------------

  /** A value RCX may have: the known value, or any with the known low half, or any. Bit 7 of the word stands for the
      upper half, bits 4 to 6 for the parts of ECX. */
  ghost predicate CountFilling(r: RegisterFile, rcx: U64) {
    && (CountKnown(r.canBreakUnsure) ==> rcx % TWO_32 == r.gprs[1] % TWO_32)
    && (CountKnown(r.canBreakUnsure) && !r.canBreakUnsure[7] ==> rcx == r.gprs[1])
  }

  /** For jrcxz the decision is the three-valued one exactly when ECX is unsure, or RCX is known and 0. */
  lemma WideCountExact(r: RegisterFile)
    ensures var d := AnalyzeBranch(10, r);
      && (d == Taken <==> forall rcx | CountFilling(r, rcx) :: rcx == 0)
      && (d == NotTaken <==> forall rcx | CountFilling(r, rcx) :: rcx != 0)
      <==> GetECX(r.canBreakUnsure) != 0 || (Get(r.canBreakUnsure, 7) == 0 && r.gprs[1] == 0)
  {
    var low := r.gprs[1] % TWO_32;
    LowHalf(r.gprs[1]);
    assert CountFilling(r, r.gprs[1]);
    if GetECX(r.canBreakUnsure) != 0 {
      assert CountFilling(r, 0) && CountFilling(r, 1);
    } else if Get(r.canBreakUnsure, 7) != 0 {
      assert CountFilling(r, low) && CountFilling(r, low + TWO_32);
      if low != 0 {
        assert forall rcx | CountFilling(r, rcx) :: rcx != 0;
      }
    }
  }
}
