/** `set_memory_operator` and `analyze_memory_operator` of `pebs_taine_tool.c`: memory operands on the shadow stack. */
module MemoryOperand {
  import opened Arithmetic
  import opened Registers
  import opened Bits
  import opened Bytes
  import opened ShadowStack

  const RBP_OFFSET: nat := 512
  const NO_REGISTER_VALUE: U64 := 0xffff5555

  // ---------------------------------------------------------------------------------------------
  // Registers by number
  // ---------------------------------------------------------------------------------------------

  /** Index into the general registers of the one-hot register number `num`. */
  function RegisterIndex(num: nat): int {
    match num
    case 0x1 => 0
    case 0x2 => 1
    case 0x4 => 2
    case 0x8 => 3
    case 0x10 => 4
    case 0x20 => 5
    case 0x40 => 6
    case 0x80 => 7
    case 0x100 => 8
    case 0x200 => 9
    case 0x400 => 10
    case 0x800 => 11
    case 0x1000 => 12
    case 0x2000 => 13
    case 0x4000 => 14
    case 0x8000 => 15
    case _ => -1
  }

  /** Is any bit of a register's part of the two words raised? RAX, RCX, RDX and RBX own four bits of the "can break"
      word, RSP to RDI one bit each, R8 to R15 one bit each of the other word. */
  predicate Raised(num: nat, registers: Word, canBreak: Word) {
    var i := RegisterIndex(num);
    if i < 0 then false
    else if i < 4 then canBreak[4 * i] || canBreak[4 * i + 1] || canBreak[4 * i + 2] || canBreak[4 * i + 3]
    else if i < 8 then canBreak[i]
    else registers[i]
  }

  /** `get_register_value_by_num` at size 64. */
  function RegisterValue(num: nat, r: RegisterFile): U64 {
    var i := RegisterIndex(num);
    if i < 0 then NO_REGISTER_VALUE else r.gprs[i]
  }

  // ---------------------------------------------------------------------------------------------
  // Where an operand lies
  // ---------------------------------------------------------------------------------------------

  datatype Access = Access(base: nat, index: nat, scale: U64, displacement: U64, size: nat)

  /** The operand's place: unknown, on the heap list, or on the stack at an offset into the shadow maps. */
  datatype Place = Unknown | OnHeap(address: U64) | OnStack(offset: nat)

  predicate AddressTaint(a: Access, t: TaintMap) {
    Raised(a.base, t.registers, t.canBreak) || (Raised(a.index, t.registers, t.canBreak) && a.scale != 0)
  }

  predicate AddressUnsure(a: Access, r: RegisterFile) {
    || Raised(a.base, r.registersUnsure, r.canBreakUnsure)
    || (Raised(a.index, r.registersUnsure, r.canBreakUnsure) && a.scale != 0)
  }

  function AddressOf(a: Access, r: RegisterFile): U64 {
    (RegisterValue(a.base, r) + RegisterValue(a.index, r) * a.scale + a.displacement) % TWO_64
  }

  /** Signed distance from the address up to RBP. */
  function RbpDistance(a: Access, r: RegisterFile): int {
    var d := (RegisterValue(0x20, r) - AddressOf(a, r)) % TWO_64;
    if d >= TWO_64 / 2 then d - TWO_64 else d
  }

  function Locate(a: Access, r: RegisterFile): Place {
    if AddressUnsure(a, r) then Unknown
    else if RbpDistance(a, r) < -504 || RbpDistance(a, r) > 512 then OnHeap(AddressOf(a, r))
    else OnStack(RBP_OFFSET + RbpDistance(a, r))
  }

  /** What keeps the code inside its tables and maps: up to 8 whole bytes, and at distance 512 not none. */
  predicate Usable(a: Access, r: RegisterFile) {
    a.size / 8 <= 8 && (Locate(a, r).OnStack? ==> InRange(Locate(a, r).offset, a.size / 8, STACK_SIZE))
  }

  // ---------------------------------------------------------------------------------------------
  // The simulated memory
  // ---------------------------------------------------------------------------------------------

  datatype HeapEntry = HeapEntry(address: U64, taint: bool, unsure: bool, value: U64)

  /** One entry per stack byte, and the heap list with its unused tail. */
  datatype Memory = Memory(present: seq<bool>, taint: seq<bool>, unsure: seq<bool>, values: seq<Byte>,
                           heap: seq<HeapEntry>, heapSize: nat)
  {
    predicate Valid() {
      && |present| == |taint| == |unsure| == |values| == STACK_SIZE
      && heapSize <= |heap|
    }
  }

  /** The value is stored only if it is sure; at distance 512 its place would lie behind the stack's last byte. */
  function WriteStack(m: Memory, offset: nat, length: nat, x: Operand): (n: Memory)
    requires m.Valid() && InRange(offset, length, STACK_SIZE) && (x.unsure || offset < STACK_SIZE)
    ensures n.Valid()
  {
    var marked := m.(present := Marked(m.present, offset, length, true),
                     taint := Marked(m.taint, offset, length, x.taint),
                     unsure := Marked(m.unsure, offset, length, x.unsure));
    if x.unsure then marked else marked.(values := Stored(m.values, offset, length, x.value))
  }

  /** A new list entry; a field is written only when its flag is raised (the value only when it is sure). */
  function WriteHeap(m: Memory, address: U64, x: Operand): (n: Memory)
    requires m.Valid() && m.heapSize < |m.heap|
    ensures n.Valid()
  {
    var e := m.heap[m.heapSize];
    var written := HeapEntry(address, e.taint || x.taint, e.unsure || x.unsure, if x.unsure then e.value else x.value);
    m.(heap := m.heap[m.heapSize := written], heapSize := m.heapSize + 1)
  }

  /** A write that stays inside the maps, the stack bytes and the heap list, none of which the code checks. */
  predicate CanWrite(m: Memory, a: Access, r: RegisterFile, x: Operand) {
    && m.Valid() && Usable(a, r)
    && (Locate(a, r).OnHeap? ==> m.heapSize < |m.heap|)
    && (Locate(a, r) == OnStack(STACK_SIZE) ==> x.unsure)
  }

  /** The memory after `set_memory_operator`. */
  function Written(m: Memory, a: Access, r: RegisterFile, t: TaintMap, x: Operand): (n: Memory)
    requires CanWrite(m, a, r, x)
    ensures n.Valid()
  {
    var x' := x.(taint := x.taint || AddressTaint(a, t));
    match Locate(a, r)
    case Unknown => m
    case OnHeap(address) => WriteHeap(m, address, x')
    case OnStack(offset) => WriteStack(m, offset, a.size / 8, x')
  }

  predicate Any(bits: seq<bool>, offset: nat, length: nat)
    requires InRange(offset, length, |bits|)
  {
    exists k :: offset - length <= k < offset && bits[k]
  }

  /** The value bytes are read only if the place is set and sure. */
  predicate CanReadStack(m: Memory, offset: nat, length: nat) {
    && m.Valid() && InRange(offset, length, STACK_SIZE)
    && (offset < STACK_SIZE || !Any(m.present, offset, length) || Any(m.unsure, offset, length))
  }

  predicate CanRead(m: Memory, a: Access, r: RegisterFile) {
    m.Valid() && Usable(a, r) && (Locate(a, r).OnStack? ==> CanReadStack(m, Locate(a, r).offset, a.size / 8))
  }

  /** What a stack access shows; an unsure answer leaves the operand's value as it was. */
  function ReadStack(m: Memory, offset: nat, length: nat, addressTaint: bool, before: U64): Operand
    requires CanReadStack(m, offset, length)
  {
    if !Any(m.present, offset, length) then Operand(before, false, true)
    else
      var taint := addressTaint || Any(m.taint, offset, length);
      if Any(m.unsure, offset, length) then Operand(before, taint, true)
      else
        NumberFits(m.values[offset - length + 1..offset + 1]);
        Operand(Loaded(m.values, offset, length), taint, false)
  }

  /** The heap scan: every entry at the address counts until an unsure one ends the scan. */
  function ReadHeap(entries: seq<HeapEntry>, address: U64, taint: bool, value: U64): (x: Operand)
    ensures x.unsure
  {
    if |entries| == 0 then Operand(value, taint, true)
    else if entries[0].address != address then ReadHeap(entries[1..], address, taint, value)
    else
      var taint' := taint || entries[0].taint;
      if entries[0].unsure then Operand(value, taint', true)
      else ReadHeap(entries[1..], address, taint', entries[0].value)
  }

  /** The operand after `analyze_memory_operator`. */
  function Read(m: Memory, a: Access, r: RegisterFile, t: TaintMap, before: U64): Operand
    requires CanRead(m, a, r)
  {
    match Locate(a, r)
    case Unknown => Operand(before, AddressTaint(a, t), true)
    case OnHeap(address) => ReadHeap(m.heap[..m.heapSize], address, AddressTaint(a, t), before)
    case OnStack(offset) => ReadStack(m, offset, a.size / 8, AddressTaint(a, t), before)
  }

  // ---------------------------------------------------------------------------------------------
  // The operations
  // ---------------------------------------------------------------------------------------------

  /** `stack_simulation_t` and `heap_simulation_t`. */
  class SimulatedMemory {
    const setInfo: array<Bits8>
    const taintsInfo: array<Bits8>
    const unsureInfo: array<Bits8>
    const values: array<Byte>
    const heap: array<HeapEntry>
    var heapSize: nat

    ghost predicate Valid()
      reads this
    {
      && setInfo.Length == taintsInfo.Length == unsureInfo.Length == STACK_SIZE / 8
      && values.Length == STACK_SIZE && heapSize <= heap.Length
      && setInfo != taintsInfo && setInfo != unsureInfo && taintsInfo != unsureInfo
    }

    ghost function Model(): (m: Memory)
      requires Valid()
      reads this, setInfo, taintsInfo, unsureInfo, values, heap
      ensures m.Valid()
    {
      Memory(Unpacked(setInfo[..]), Unpacked(taintsInfo[..]), Unpacked(unsureInfo[..]), values[..],
             heap[..], heapSize)
    }

    constructor (capacity: nat)
      ensures Valid() && fresh(setInfo) && fresh(taintsInfo) && fresh(unsureInfo) && fresh(values) && fresh(heap)
      ensures heap.Length == capacity && heapSize == 0
    {
      setInfo, taintsInfo := new Bits8[STACK_SIZE / 8], new Bits8[STACK_SIZE / 8];
      unsureInfo := new Bits8[STACK_SIZE / 8];
      values := new Byte[STACK_SIZE];
      heap := new HeapEntry[capacity](_ => HeapEntry(0, false, false, 0));
      heapSize := 0;
    }

    method SetMemoryOperator(res: OperandResult, a: Access, r: RegisterFile, t: TaintMap) returns (ok: bool)
      requires Valid() && CanWrite(Model(), a, r, Operand(res.value, res.taint, res.unsure))
      modifies `heapSize, setInfo, taintsInfo, unsureInfo, values, heap
      ensures Valid()
      ensures ok <==> !Locate(a, r).Unknown?
      ensures Model() == Written(old(Model()), a, r, t, Operand(res.value, res.taint, res.unsure))
    {
      var taint := AddressTaint(a, t);
      if AddressUnsure(a, r) {
        return false;
      }
      var offset := RbpDistance(a, r);
      if offset < -504 || offset > 512 {
        SetHeap(res, AddressOf(a, r), taint);
      } else {
        SetStack(res, RBP_OFFSET + offset, a.size / 8, taint);
      }
      return true;
    }

    method SetHeap(res: OperandResult, address: U64, taint: bool)
      requires Valid() && heapSize < heap.Length
      modifies `heapSize, heap
      ensures Valid()
      ensures Model() == WriteHeap(old(Model()), address, Operand(res.value, res.taint || taint, res.unsure))
    {
      heap[heapSize] := heap[heapSize].(address := address);
      if res.taint || taint {
        heap[heapSize] := heap[heapSize].(taint := true);
      }
      if res.unsure {
        heap[heapSize] := heap[heapSize].(unsure := true);
      } else {
        heap[heapSize] := heap[heapSize].(value := res.value);
      }
      heapSize := heapSize + 1;
    }

    method SetStack(res: OperandResult, offset: nat, length: nat, taint: bool)
      requires Valid() && InRange(offset, length, STACK_SIZE) && (res.unsure || offset < STACK_SIZE)
      modifies setInfo, taintsInfo, unsureInfo, values
      ensures Valid()
      ensures Model() == WriteStack(old(Model()), offset, length, Operand(res.value, res.taint || taint, res.unsure))
    {
      SetStackBit(offset, length, setInfo);
      if res.taint || taint {
        SetStackBit(offset, length, taintsInfo);
      } else {
        UnsetStackBit(offset, length, taintsInfo);
      }
      if res.unsure {
        SetStackBit(offset, length, unsureInfo);
      } else {
        UnsetStackBit(offset, length, unsureInfo);
        SetStackValue(offset, length, res.value, values);
      }
    }

    method AnalyzeMemoryOperator(res: OperandResult, a: Access, r: RegisterFile, t: TaintMap) returns (ok: bool)
      requires Valid() && CanRead(Model(), a, r)
      modifies res
      ensures ok <==> Locate(a, r).OnStack?
      ensures Operand(res.value, res.taint, res.unsure) == Read(Model(), a, r, t, old(res.value))
    {
      res.taint, res.unsure := false, false;
      if AddressTaint(a, t) {
        res.taint := true;
      }
      if AddressUnsure(a, r) {
        res.unsure := true;
        return false;
      }
      var offset := RbpDistance(a, r);
      if offset < -504 || offset > 512 {
        ScanHeap(res, AddressOf(a, r));
        return false;
      }
      AnalyzeStack(res, RBP_OFFSET + offset, a.size / 8);
      return true;
    }

    method ScanHeap(res: OperandResult, address: U64)
      requires Valid() && !res.unsure
      modifies res
      ensures res.unsure
      ensures Operand(res.value, res.taint, res.unsure)
           == ReadHeap(heap[..heapSize], address, old(res.taint), old(res.value))
    {
      var index := 0;
      while index < heapSize
        invariant 0 <= index <= heapSize
        invariant ReadHeap(heap[index..heapSize], address, res.taint, res.value)
               == ReadHeap(heap[..heapSize], address, old(res.taint), old(res.value))
      {
        assert heap[index..heapSize][1..] == heap[index + 1..heapSize];
        if heap[index].address == address {
          if heap[index].taint {
            res.taint := true;
          }
          if heap[index].unsure {
            res.unsure := true;
            return;
          }
          res.value := heap[index].value;
        }
        index := index + 1;
      }
      res.unsure := true;
    }

    method AnalyzeStack(res: OperandResult, offset: nat, length: nat)
      requires Valid() && CanReadStack(Model(), offset, length) && !res.unsure
      modifies res
      ensures Operand(res.value, res.taint, res.unsure)
           == ReadStack(Model(), offset, length, old(res.taint), old(res.value))
    {
      NonZero(setInfo[..], offset, length);
      NonZero(taintsInfo[..], offset, length);
      NonZero(unsureInfo[..], offset, length);
      if Nat(StackBits(setInfo[..], offset, length)) != 0 {
        if Nat(StackBits(taintsInfo[..], offset, length)) != 0 {
          res.taint := true;
        }
        if Nat(StackBits(unsureInfo[..], offset, length)) != 0 {
          res.unsure := true;
        } else {
          res.value := GetStackValue(offset, length, values);
        }
      } else {
        res.unsure := true;
        res.taint := false;
      }
    }
  }

  lemma {:induction false} NatZero(x: seq<bool>)
    ensures Nat(x) == 0 <==> forall i :: 0 <= i < |x| ==> !x[i]
  {
    if |x| > 0 {
      NatZero(x[1..]);
      assert forall i :: 0 < i < |x| ==> x[i] == x[1..][i - 1];
    }
  }

  /** The byte `get_stack_bit` returns is non-zero exactly when some bit of the range is set. */
  lemma NonZero(s: seq<Bits8>, offset: nat, length: nat)
    requires InRange(offset, length, 8 * |s|)
    ensures Nat(StackBits(s, offset, length)) != 0 <==> Any(Unpacked(s), offset, length)
  {
    var bits := Unpacked(s);
    StackBitsExact(s, offset, length);
    NatZero(Window(bits, offset, length));
    if k :| offset - length <= k < offset && bits[k] {
      assert Window(bits, offset, length)[k - (offset - length)];
    }
    if i :| 0 <= i < 8 && Window(bits, offset, length)[i] {
      assert bits[offset - length + i];
    }
  }

  // ---------------------------------------------------------------------------------------------
  // What an access sees
  // ---------------------------------------------------------------------------------------------

  lemma AnyMarked(bits: seq<bool>, offset: nat, length: nat, b: bool)
    requires InRange(offset, length, |bits|) && length > 0
    ensures Any(Marked(bits, offset, length, b), offset, length) == b
  {
    assert Marked(bits, offset, length, b)[offset - length] == b;
  }

  lemma AnyElsewhere(bits: seq<bool>, offset: nat, length: nat, b: bool, offset': nat, length': nat)
    requires InRange(offset, length, |bits|) && InRange(offset', length', |bits|)
    requires Disjoint(offset, length, offset', length')
    ensures Any(Marked(bits, offset, length, b), offset', length') == Any(bits, offset', length')
  {
    var after := Marked(bits, offset, length, b);
    assert forall k :: offset' - length' <= k < offset' ==> after[k] == bits[k];
  }

  /** What a read of a written place shows: the taints joined, the unsure flag, and if sure the value modulo 256^length.
      An access of no whole byte always looks unset. */
  function Shown(x: Operand, length: nat, taint: bool, before: U64): Operand
    requires length <= 8
  {
    if length == 0 then Operand(before, false, true)
    else if x.unsure then Operand(before, taint, true)
    else
      Pow256Grows(length, 8);
      Operand(x.value % Pow256(length), taint, false)
  }

  /** Whatever the maps held before, a read after a write shows the written operand. */
  lemma StackReadBack(m: Memory, offset: nat, length: nat, x: Operand, addressTaint: bool, before: U64)
    requires m.Valid() && InRange(offset, length, STACK_SIZE) && (x.unsure || offset < STACK_SIZE)
    ensures CanReadStack(WriteStack(m, offset, length, x), offset, length)
    ensures ReadStack(WriteStack(m, offset, length, x), offset, length, addressTaint, before)
         == Shown(x, length, x.taint || addressTaint, before)
  {
    if length > 0 {
      AnyMarked(m.present, offset, length, true);
      AnyMarked(m.taint, offset, length, x.taint);
      AnyMarked(m.unsure, offset, length, x.unsure);
      if !x.unsure {
        LoadAfterStore(m.values, offset, length, x.value);
      }
    }
  }

  lemma StackElsewhere(m: Memory, offset: nat, length: nat, x: Operand,
                       offset': nat, length': nat, addressTaint: bool, before: U64)
    requires m.Valid() && InRange(offset, length, STACK_SIZE) && (x.unsure || offset < STACK_SIZE)
    requires CanReadStack(m, offset', length') && Disjoint(offset, length, offset', length')
    ensures CanReadStack(WriteStack(m, offset, length, x), offset', length')
    ensures ReadStack(WriteStack(m, offset, length, x), offset', length', addressTaint, before)
         == ReadStack(m, offset', length', addressTaint, before)
  {
    AnyElsewhere(m.present, offset, length, true, offset', length');
    AnyElsewhere(m.taint, offset, length, x.taint, offset', length');
    AnyElsewhere(m.unsure, offset, length, x.unsure, offset', length');
    DisjointAccess(m.unsure, m.values, true, x.value, offset, length, offset', length');
  }

  /** `analyze_memory_operator` after `set_memory_operator` on the same operand, with the same registers and taints. */
  lemma OperandReadBack(m: Memory, a: Access, r: RegisterFile, t: TaintMap, x: Operand, before: U64)
    requires CanWrite(m, a, r, x) && Locate(a, r).OnStack?
    ensures CanRead(Written(m, a, r, t, x), a, r)
    ensures Read(Written(m, a, r, t, x), a, r, t, before)
         == Shown(x, a.size / 8, x.taint || AddressTaint(a, t), before)
  {
    var x' := x.(taint := x.taint || AddressTaint(a, t));
    StackReadBack(m, Locate(a, r).offset, a.size / 8, x', AddressTaint(a, t), before);
  }

  // ---------------------------------------------------------------------------------------------
  // Sequences of writes
  // ---------------------------------------------------------------------------------------------

  datatype Write = Write(a: Access, r: RegisterFile, t: TaintMap, x: Operand)

  predicate Inside(w: Write) {
    Usable(w.a, w.r) && (Locate(w.a, w.r) == OnStack(STACK_SIZE) ==> w.x.unsure)
  }

  predicate AllInside(writes: seq<Write>) {
    forall i :: 0 <= i < |writes| ==> Inside(writes[i])
  }

  /** Writes that the heap list has room for. */
  predicate Room(m: Memory, writes: seq<Write>) {
    m.Valid() && m.heapSize + |writes| <= |m.heap|
  }

  function AfterWrites(m: Memory, writes: seq<Write>): (n: Memory)
    requires AllInside(writes) && Room(m, writes)
    ensures n.Valid() && |n.heap| == |m.heap| && n.heapSize <= m.heapSize + |writes|
    decreases |writes|
  {
    if |writes| == 0 then m
    else
      var w := writes[0];
      AfterWrites(Written(m, w.a, w.r, w.t, w.x), writes[1..])
  }

  /** A write that goes to the heap list, nowhere, or to other stack bytes. */
  predicate Elsewhere(w: Write, offset: nat, length: nat) {
    var p := Locate(w.a, w.r);
    p.OnStack? ==> Disjoint(p.offset, w.a.size / 8, offset, length)
  }

  lemma {:induction false} UntouchedByWrites(m: Memory, writes: seq<Write>, offset: nat, length: nat,
                                             addressTaint: bool, before: U64)
    requires AllInside(writes) && Room(m, writes) && CanReadStack(m, offset, length)
    requires forall i :: 0 <= i < |writes| ==> Elsewhere(writes[i], offset, length)
    ensures CanReadStack(AfterWrites(m, writes), offset, length)
    ensures ReadStack(AfterWrites(m, writes), offset, length, addressTaint, before)
         == ReadStack(m, offset, length, addressTaint, before)
    decreases |writes|
  {
    if |writes| > 0 {
      var w := writes[0];
      assert Inside(w) && Elsewhere(w, offset, length);
      var m' := Written(m, w.a, w.r, w.t, w.x);
      assert forall i :: 0 <= i < |writes| - 1 ==> writes[1..][i] == writes[i + 1];
      var p := Locate(w.a, w.r);
      if p.OnStack? {
        var x := w.x.(taint := w.x.taint || AddressTaint(w.a, w.t));
        StackElsewhere(m, p.offset, w.a.size / 8, x, offset, length, addressTaint, before);
      }
      UntouchedByWrites(m', writes[1..], offset, length, addressTaint, before);
    }
  }

  /** Any number of writes to other bytes later, an operand that resolves to the same stack bytes shows what was
      written last, tainted by the operand or by either address. */
  lemma LastOperandSeen(m: Memory, w: Write, between: seq<Write>, a: Access, r: RegisterFile, t: TaintMap, before: U64)
    requires Inside(w) && AllInside(between) && Room(m, [w] + between)
    requires Locate(w.a, w.r).OnStack? && Locate(a, r) == Locate(w.a, w.r) && a.size / 8 == w.a.size / 8
    requires forall i :: 0 <= i < |between| ==> Elsewhere(between[i], Locate(a, r).offset, a.size / 8)
    ensures AllInside([w] + between) && CanRead(AfterWrites(m, [w] + between), a, r)
    ensures Read(AfterWrites(m, [w] + between), a, r, t, before)
         == Shown(w.x, a.size / 8, w.x.taint || AddressTaint(w.a, w.t) || AddressTaint(a, t), before)
  {
    var offset, length := Locate(a, r).offset, a.size / 8;
    assert ([w] + between)[0] == w && ([w] + between)[1..] == between;
    var m' := Written(m, w.a, w.r, w.t, w.x);
    var x := w.x.(taint := w.x.taint || AddressTaint(w.a, w.t));
    StackReadBack(m, offset, length, x, AddressTaint(a, t), before);
    UntouchedByWrites(m', between, offset, length, AddressTaint(a, t), before);
  }

  // ---------------------------------------------------------------------------------------------
  // Reference: addresses, written over the registers
  // ---------------------------------------------------------------------------------------------

  /** What a register number reads: register `i`, in the order RAX, RCX, RDX, RBX, RSP, RBP, RSI, RDI, R8..R15, has the
      number 2^i, and any other number reads 0xffff5555. */
  ghost predicate Reads(num: nat, r: RegisterFile, value: int) {
    if exists i: nat :: i < 16 && num == Pow2(i) then exists i: nat :: i < 16 && num == Pow2(i) && value == r.gprs[i]
    else value == 0xffff5555
  }

  /** The bits that mark a register in the two words: four for RAX, RCX, RDX and RBX, one for each of the others. */
  ghost predicate Marks(num: nat, registers: Word, canBreak: Word) {
    || (num == 0x1 && (canBreak[0] || canBreak[1] || canBreak[2] || canBreak[3]))
    || (num == 0x2 && (canBreak[4] || canBreak[5] || canBreak[6] || canBreak[7]))
    || (num == 0x4 && (canBreak[8] || canBreak[9] || canBreak[10] || canBreak[11]))
    || (num == 0x8 && (canBreak[12] || canBreak[13] || canBreak[14] || canBreak[15]))
    || (exists i: nat :: 4 <= i < 8 && num == Pow2(i) && canBreak[i])
    || (exists i: nat :: 8 <= i < 16 && num == Pow2(i) && registers[i])
  }

  /** The operand's address is `address`: base + index * scale + displacement, modulo 2^64. */
  ghost predicate HasAddress(a: Access, r: RegisterFile, address: int) {
    exists base, index :: Reads(a.base, r, base) && Reads(a.index, r, index)
      && address == (base + index * a.scale + a.displacement) % TWO_64
  }

  /** Neither register that takes part in the address is marked unsure. */
  ghost predicate SureAddress(a: Access, r: RegisterFile) {
    && !Marks(a.base, r.registersUnsure, r.canBreakUnsure)
    && (a.scale != 0 ==> !Marks(a.index, r.registersUnsure, r.canBreakUnsure))
  }

  /** A register that takes part in the address is tainted. */
  ghost predicate TaintedAddress(a: Access, t: TaintMap) {
    Marks(a.base, t.registers, t.canBreak) || (a.scale != 0 && Marks(a.index, t.registers, t.canBreak))
  }

  lemma OneHot()
    ensures Pow2(0) == 0x1 && Pow2(1) == 0x2 && Pow2(2) == 0x4 && Pow2(3) == 0x8
    ensures Pow2(4) == 0x10 && Pow2(5) == 0x20 && Pow2(6) == 0x40 && Pow2(7) == 0x80
    ensures Pow2(8) == 0x100 && Pow2(9) == 0x200 && Pow2(10) == 0x400 && Pow2(11) == 0x800
    ensures Pow2(12) == 0x1000 && Pow2(13) == 0x2000 && Pow2(14) == 0x4000 && Pow2(15) == 0x8000
  {
    assert Pow2(4) == 2 * Pow2(3) && Pow2(3) == 2 * Pow2(2) && Pow2(2) == 2 * Pow2(1) && Pow2(1) == 2 * Pow2(0);
    assert Pow2(8) == 2 * Pow2(7) && Pow2(7) == 2 * Pow2(6) && Pow2(6) == 2 * Pow2(5) && Pow2(5) == 2 * Pow2(4);
    assert Pow2(12) == 2 * Pow2(11) && Pow2(11) == 2 * Pow2(10) && Pow2(10) == 2 * Pow2(9) && Pow2(9) == 2 * Pow2(8);
    assert Pow2(15) == 2 * Pow2(14) && Pow2(14) == 2 * Pow2(13) && Pow2(13) == 2 * Pow2(12);
  }

  lemma IndexOfNumber(num: nat)
    ensures forall i: nat :: i < 16 ==> (num == Pow2(i) <==> RegisterIndex(num) == i)
    ensures -1 <= RegisterIndex(num) < 16
  {
    OneHot();
    forall i: nat | i < 16 ensures num == Pow2(i) <==> RegisterIndex(num) == i {
      assert i in {0, 1, 2, 3, 4, 5, 6, 7, 8, 9, 10, 11, 12, 13, 14, 15};
    }
  }

  lemma ReadsValue(num: nat, r: RegisterFile, value: int)
    ensures Reads(num, r, value) <==> value == RegisterValue(num, r)
  {
    IndexOfNumber(num);
    if RegisterIndex(num) >= 0 {
      assert num == Pow2(RegisterIndex(num));
    }
  }

  lemma MarksRaised(num: nat, registers: Word, canBreak: Word)
    ensures Marks(num, registers, canBreak) <==> Raised(num, registers, canBreak)
  {
    IndexOfNumber(num);
    OneHot();
    var i := RegisterIndex(num);
    if i >= 4 {
      assert num == Pow2(i);
    }
  }

  lemma AddressIs(a: Access, r: RegisterFile, address: int)
    ensures HasAddress(a, r, address) <==> address == AddressOf(a, r)
  {
    forall v ensures Reads(a.base, r, v) <==> v == RegisterValue(a.base, r) {
      ReadsValue(a.base, r, v);
    }
    forall v ensures Reads(a.index, r, v) <==> v == RegisterValue(a.index, r) {
      ReadsValue(a.index, r, v);
    }
    assert Reads(a.base, r, RegisterValue(a.base, r)) && Reads(a.index, r, RegisterValue(a.index, r));
  }

  lemma SureIs(a: Access, r: RegisterFile, t: TaintMap)
    ensures SureAddress(a, r) <==> !AddressUnsure(a, r)
    ensures TaintedAddress(a, t) <==> AddressTaint(a, t)
  {
    MarksRaised(a.base, r.registersUnsure, r.canBreakUnsure);
    MarksRaised(a.index, r.registersUnsure, r.canBreakUnsure);
    MarksRaised(a.base, t.registers, t.canBreak);
    MarksRaised(a.index, t.registers, t.canBreak);
  }

  /** The operand is [RBP - k], whatever its base, index, scale and displacement. */
  ghost predicate BelowRbp(a: Access, r: RegisterFile, k: int) {
    HasAddress(a, r, (r.gprs[5] - k) % TWO_64)
  }

  /** [RBP - k] lies at 512 + k on the shadow stack for -504 <= k <= 512; every other sure address goes to the heap
      list, and an unsure one nowhere. */
  lemma PlaceOf(a: Access, r: RegisterFile, k: int)
    requires BelowRbp(a, r, k) && -TWO_64 / 2 <= k < TWO_64 / 2
    ensures Locate(a, r) ==
      if !SureAddress(a, r) then Unknown
      else if -504 <= k <= 512 then OnStack(512 + k)
      else OnHeap((r.gprs[5] - k) % TWO_64)
  {
    AddressIs(a, r, (r.gprs[5] - k) % TWO_64);
    SureIs(a, r, TaintMap(r.rflags, r.rflags, r.rflags));
    DistanceBack(r.gprs[5], k);
    assert RbpDistance(a, r) == k by { IndexOfNumber(0x20); }
  }

  lemma DistanceBack(rbp: U64, k: int)
    requires -TWO_64 / 2 <= k < TWO_64 / 2
    ensures (rbp - (rbp - k) % TWO_64) % TWO_64 == k % TWO_64
    ensures k % TWO_64 == if k < 0 then k + TWO_64 else k
  {
  }

  /** Every operand is [RBP - k] for one k. */
  lemma SomeDistance(a: Access, r: RegisterFile) returns (k: int)
    ensures BelowRbp(a, r, k) && -TWO_64 / 2 <= k < TWO_64 / 2
  {
    k := RbpDistance(a, r);
    AddressIs(a, r, (r.gprs[5] - k) % TWO_64);
  }

  /** For base RBP without an index: [rbp - k] is [RBP - k]. */
  lemma RbpRelative(a: Access, r: RegisterFile, k: int)
    requires a.base == 0x20 && a.scale == 0 && a.displacement == -k % TWO_64
    ensures BelowRbp(a, r, k)
  {
    OneHot();
    AddressIs(a, r, (r.gprs[5] - k) % TWO_64);
    ModPeriodic(r.gprs[5] - k, 0, TWO_64);
    SumMod(r.gprs[5], -k);
  }

  lemma SumMod(x: int, y: int)
    ensures (x + y % TWO_64) % TWO_64 == (x + y) % TWO_64
  {
    ModPeriodic(x + y % TWO_64, y / TWO_64, TWO_64);
  }

  // ---------------------------------------------------------------------------------------------
  // Reads and writes by address
  // ---------------------------------------------------------------------------------------------

  /** A write that leaves the bytes [RBP - k, RBP - k + length) alone: its address is unsure, outside the window, or its
      range of bytes does not meet this one. */
  ghost predicate Misses(w: Write, k: int, length: nat) {
    || !SureAddress(w.a, w.r)
    || exists j :: -TWO_64 / 2 <= j < TWO_64 / 2 && BelowRbp(w.a, w.r, j)
         && (j < -504 || j > 512 || j - w.a.size / 8 >= k || k - length >= j)
  }

  lemma MissesElsewhere(w: Write, k: int, length: nat)
    requires Misses(w, k, length) && -504 <= k <= 512
    ensures Elsewhere(w, 512 + k, length)
  {
    SureIs(w.a, w.r, w.t);
    if SureAddress(w.a, w.r) {
      var j :| -TWO_64 / 2 <= j < TWO_64 / 2 && BelowRbp(w.a, w.r, j)
        && (j < -504 || j > 512 || j - w.a.size / 8 >= k || k - length >= j);
      PlaceOf(w.a, w.r, j);
    }
  }

  /** A read of [RBP - k] after a write to [RBP - k] of the same size, with any number of writes to other addresses in
      between and however either address is split into base, index, scale and displacement, shows the last write. */
  lemma LastWriteByAddress(m: Memory, w: Write, between: seq<Write>, a: Access, r: RegisterFile, t: TaintMap,
                           k: int, before: U64)
    requires Inside(w) && AllInside(between) && Room(m, [w] + between)
    requires -504 <= k <= 512 && BelowRbp(w.a, w.r, k) && BelowRbp(a, r, k)
    requires SureAddress(w.a, w.r) && SureAddress(a, r) && a.size / 8 == w.a.size / 8
    requires forall i :: 0 <= i < |between| ==> Misses(between[i], k, a.size / 8)
    ensures AllInside([w] + between) && CanRead(AfterWrites(m, [w] + between), a, r)
    ensures a.size / 8 <= 8
    ensures Read(AfterWrites(m, [w] + between), a, r, t, before)
         == Shown(w.x, a.size / 8, w.x.taint || TaintedAddress(w.a, w.t) || TaintedAddress(a, t), before)
  {
    PlaceOf(w.a, w.r, k);
    PlaceOf(a, r, k);
    SureIs(w.a, w.r, w.t);
    SureIs(a, r, t);
    forall i | 0 <= i < |between| ensures Elsewhere(between[i], Locate(a, r).offset, a.size / 8) {
      MissesElsewhere(between[i], k, a.size / 8);
    }
    LastOperandSeen(m, w, between, a, r, t, before);
  }

  /** Writes to other addresses leave a read of [RBP - k] as it was. */
  lemma ReadKeptByAddress(m: Memory, writes: seq<Write>, a: Access, r: RegisterFile, t: TaintMap, k: int, before: U64)
    requires AllInside(writes) && Room(m, writes) && CanRead(m, a, r)
    requires -504 <= k <= 512 && BelowRbp(a, r, k) && SureAddress(a, r)
    requires forall i :: 0 <= i < |writes| ==> Misses(writes[i], k, a.size / 8)
    ensures CanRead(AfterWrites(m, writes), a, r)
    ensures Read(AfterWrites(m, writes), a, r, t, before) == Read(m, a, r, t, before)
  {
    PlaceOf(a, r, k);
    forall i | 0 <= i < |writes| ensures Elsewhere(writes[i], 512 + k, a.size / 8) {
      MissesElsewhere(writes[i], k, a.size / 8);
    }
    UntouchedByWrites(m, writes, 512 + k, a.size / 8, AddressTaint(a, t), before);
  }

  // ---------------------------------------------------------------------------------------------
  // Reads of part of a write
  // ---------------------------------------------------------------------------------------------

  lemma AnyPart(bits: seq<bool>, offset: nat, length: nat, b: bool, s: nat, l: nat)
    requires InRange(offset, length, |bits|) && 0 < l && s + l <= length
    ensures Any(Marked(bits, offset, length, b), offset - s, l) == b
  {
    assert Marked(bits, offset, length, b)[offset - s - l] == b;
  }

  /** The right flags, and of a sure value the bytes from length - s - l on. */
  predicate ShowsPart(seen: Operand, x: Operand, length: nat, s: nat, l: nat, taint: bool, before: U64)
    requires s + l <= length
  {
    && seen.taint == taint && seen.unsure == x.unsure
    && seen.value == if x.unsure then before else x.value / Pow256(length - s - l) % Pow256(l)
  }

  lemma StackReadPart(m: Memory, offset: nat, length: nat, x: Operand, s: nat, l: nat, addressTaint: bool, before: U64)
    requires m.Valid() && InRange(offset, length, STACK_SIZE) && (x.unsure || offset < STACK_SIZE)
    requires 0 < l && s + l <= length
    ensures CanReadStack(WriteStack(m, offset, length, x), offset - s, l)
    ensures ShowsPart(ReadStack(WriteStack(m, offset, length, x), offset - s, l, addressTaint, before),
                      x, length, s, l, x.taint || addressTaint, before)
  {
    AnyPart(m.present, offset, length, true, s, l);
    AnyPart(m.taint, offset, length, x.taint, s, l);
    AnyPart(m.unsure, offset, length, x.unsure, s, l);
    if !x.unsure {
      PartRead(m.values, offset, length, x.value, s, l);
    }
  }

  lemma PartAtPlace(m: Memory, w: Write, a: Access, r: RegisterFile, t: TaintMap, at: nat, s: nat, before: U64)
    requires CanWrite(m, w.a, w.r, w.x) && a.size / 8 > 0 && s + a.size / 8 <= w.a.size / 8 && s <= at
    requires Locate(w.a, w.r) == OnStack(at) && Locate(a, r) == OnStack(at - s)
    ensures CanRead(Written(m, w.a, w.r, w.t, w.x), a, r)
    ensures ShowsPart(Read(Written(m, w.a, w.r, w.t, w.x), a, r, t, before), w.x, w.a.size / 8, s, a.size / 8,
                      w.x.taint || AddressTaint(w.a, w.t) || AddressTaint(a, t), before)
  {
    var x := w.x.(taint := w.x.taint || AddressTaint(w.a, w.t));
    StackReadPart(m, at, w.a.size / 8, x, s, a.size / 8, AddressTaint(a, t), before);
  }

  /** After a write to [RBP - k], a read of `l` bytes starting `s` bytes behind that address and inside the written
      range shows the right flags, but the value's bytes counted from the wrong end: bytes length - s - l.. where memory
      holds bytes s.. there. */
  lemma PartByAddress(m: Memory, w: Write, a: Access, r: RegisterFile, t: TaintMap, k: int, s: nat, before: U64)
    requires CanWrite(m, w.a, w.r, w.x) && a.size / 8 > 0 && s + a.size / 8 <= w.a.size / 8
    requires -504 <= k - s && k <= 512 && BelowRbp(w.a, w.r, k) && BelowRbp(a, r, k - s)
    requires SureAddress(w.a, w.r) && SureAddress(a, r)
    ensures CanRead(Written(m, w.a, w.r, w.t, w.x), a, r)
    ensures ShowsPart(Read(Written(m, w.a, w.r, w.t, w.x), a, r, t, before), w.x, w.a.size / 8, s, a.size / 8,
                      w.x.taint || TaintedAddress(w.a, w.t) || TaintedAddress(a, t), before)
  {
    PlaceOf(w.a, w.r, k);
    PlaceOf(a, r, k - s);
    SureIs(w.a, w.r, w.t);
    SureIs(a, r, t);
    PartAtPlace(m, w, a, r, t, 512 + k, s, before);
  }

  // ---------------------------------------------------------------------------------------------
  // The heap list
  // ---------------------------------------------------------------------------------------------

  /** Entry `i` counts in a scan for `address`: no earlier entry for the address is unsure. */
  predicate Counts(entries: seq<HeapEntry>, address: U64, i: int) {
    && 0 <= i < |entries| && entries[i].address == address
    && forall j :: 0 <= j < i && entries[j].address == address ==> !entries[j].unsure
  }

  /** A heap read is tainted exactly when its address is, or some entry that counts is. */
  lemma {:induction false} HeapTaintExact(entries: seq<HeapEntry>, address: U64, taint: bool, value: U64)
    ensures ReadHeap(entries, address, taint, value).taint <==>
              taint || exists i :: Counts(entries, address, i) && entries[i].taint
  {
    if |entries| > 0 {
      var e, rest := entries[0], entries[1..];
      if e.address == address && e.unsure {
        assert e.taint ==> Counts(entries, address, 0);
      } else {
        HeapTaintExact(rest, address, taint || (e.address == address && e.taint),
                       if e.address == address then e.value else value);
        if i :| Counts(entries, address, i) && entries[i].taint && i > 0 {
          assert forall j :: 0 <= j < |rest| ==> rest[j] == entries[j + 1];
          assert Counts(rest, address, i - 1) && rest[i - 1].taint;
        }
        if i :| Counts(rest, address, i) && rest[i].taint {
          assert forall j :: 0 < j <= i ==> entries[j] == rest[j - 1];
          assert Counts(entries, address, i + 1) && entries[i + 1].taint;
        }
        assert e.address == address && e.taint ==> Counts(entries, address, 0);
      }
    }
  }

  /** The value a heap scan leaves is that of the last sure entry that counts, or the one before the scan. */
  lemma {:induction false} HeapValueExact(entries: seq<HeapEntry>, address: U64, taint: bool, value: U64, last: int)
    requires forall i :: Counts(entries, address, i) && !entries[i].unsure ==> i <= last
    requires last == -1 || (Counts(entries, address, last) && !entries[last].unsure)
    ensures ReadHeap(entries, address, taint, value).value == if last == -1 then value else entries[last].value
  {
    if |entries| > 0 {
      var e, rest := entries[0], entries[1..];
      if e.address == address && e.unsure {
        assert forall i :: Counts(entries, address, i) ==> i == 0;
      } else {
        assert forall i :: 0 <= i < |rest| ==> rest[i] == entries[i + 1];
        forall i ensures Counts(rest, address, i) <==> i >= 0 && Counts(entries, address, i + 1) {
          assert forall j :: 0 < j <= i && i < |rest| ==> entries[j] == rest[j - 1];
        }
        if e.address == address {
          assert Counts(entries, address, 0);
        }
        HeapValueExact(rest, address, taint || (e.address == address && e.taint),
                       if e.address == address then e.value else value, if last <= 0 then -1 else last - 1);
      }
    }
  }

  /** Taint written to the heap is seen by a later read of the same address, unless an unsure entry for it comes
      first. */
  lemma HeapTaintSeen(m: Memory, w: Write, a: Access, r: RegisterFile, t: TaintMap, address: U64, before: U64)
    requires CanWrite(m, w.a, w.r, w.x) && CanRead(Written(m, w.a, w.r, w.t, w.x), a, r)
    requires Locate(w.a, w.r) == Locate(a, r) == OnHeap(address)
    requires w.x.taint || TaintedAddress(w.a, w.t)
    requires forall j :: 0 <= j < m.heapSize && m.heap[j].address == address ==> !m.heap[j].unsure
    ensures Read(Written(m, w.a, w.r, w.t, w.x), a, r, t, before).taint
  {
    SureIs(w.a, w.r, w.t);
    var n := Written(m, w.a, w.r, w.t, w.x);
    var entries := n.heap[..n.heapSize];
    assert Counts(entries, address, m.heapSize) && entries[m.heapSize].taint;
    HeapTaintExact(entries, address, AddressTaint(a, t), before);
  }
}
