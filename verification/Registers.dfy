/** Machine words, the simulated register file and the flag macros of `pebs_taine_tool.h`. */
module Registers {
  import opened Arithmetic

  const TWO_64: int := 0x1_0000_0000_0000_0000

  type U64 = x: int | 0 <= x < TWO_64

  const TWO_32: int := 0x1_0000_0000

  type U32 = x: int | 0 <= x < TWO_32

  type Byte = b: int | 0 <= b < 256

  datatype Option<+T> = None | Some(value: T)

  /** Bytes of the simulated stack, SIMULATION_STACK_SIZE. */
  const STACK_SIZE: nat := 1024

  /** A 64-bit word as its bits, bit 0 first. */
  type Word = s: seq<bool> | |s| == 64 witness seq(64, _ => false)

  /** The sixteen general registers in the order RAX, RCX, RDX, RBX, RSP, RBP, RSI, RDI, R8..R15. */
  type Gprs = s: seq<U64> | |s| == 16 witness seq(16, _ => 0)

  /** `register_simulation_t` without its `symbolic` text buffer: values, and one "unsure" bit per flag or
      register part. */
  datatype RegisterFile = RegisterFile(rflags: Word, gprs: Gprs,
                                       rflagsUnsure: Word, registersUnsure: Word, canBreakUnsure: Word)

  /** `register_taines_map_t`: one taint bit per flag or register part. */
  datatype TaintMap = TaintMap(rflags: Word, registers: Word, canBreak: Word)

  const CF: nat := 0
  const PF: nat := 2
  const ZF: nat := 6
  const SF: nat := 7
  const OF: nat := 11

  /** A one-bit GET_ macro, `(x & (1 << k)) >> k`. */
  function Get(x: Word, k: nat): nat
    requires k < 64
  {
    if x[k] then 1 else 0
  }

  /** GET_ECX: bits 4 to 6 of a register word. */
  function GetECX(x: Word): nat {
    Get(x, 4) + 2 * Get(x, 5) + 4 * Get(x, 6)
  }

  /** `!GET_xx(x)` as C parses it, `(!(x & (1 << k))) >> k`: the `!` applies before the macro's shift. */
  function NotGet(x: Word, k: nat): nat
    requires k < 64
  {
    (if x[k] then 0 else 1) / Pow2(k)
  }

  /** Negating a getter works for bit 0, the carry flag, only; elsewhere the shift discards the result. */
  lemma NegatedGetter(x: Word, k: nat)
    requires k < 64
    ensures k == 0 ==> NotGet(x, k) == 1 - Get(x, k)
    ensures k > 0 ==> NotGet(x, k) == 0
  {
    if k > 0 {
      assert Pow2(k) == 2 * Pow2(k - 1) >= 2;
    }
  }

  /** An operand's value with its two flags. */
  datatype Operand = Operand(value: U64, taint: bool, unsure: bool)

  /** The operand size in bits as the arithmetic routines correct it. */
  function ClampSize(opSize: int): int {
    if opSize > 64 || opSize < 0 then 64 else opSize
  }

  /** `operator_analyze_result_t`: one operand or result, filled in place. */
  class OperandResult {
    var value: U64
    var taint: bool
    var unsure: bool

    constructor (value: U64, taint: bool, unsure: bool)
      ensures this.value == value && this.taint == taint && this.unsure == unsure
    {
      this.value, this.taint, this.unsure := value, taint, unsure;
    }
  }

  /** The register file of the state being simulated, updated in place. */
  class Simulated {
    var file: RegisterFile

    constructor (file: RegisterFile)
      ensures this.file == file
    {
      this.file := file;
    }
  }
}
