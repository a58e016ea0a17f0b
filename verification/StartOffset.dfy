/** `get_start_addr_offset` of `pebs_taine.c`: at which offsets before a known instruction can decoding start? */
module StartOffset {
  import opened Arithmetic
  import opened Registers
  import opened Bits

  const LIMIT: nat := 0x20
  const STARTS: nat := 16

  type Positive = n: nat | n > 0 witness 1

  /** Instruction lengths by offset; `None` where no instruction can be decoded. */
  type Decoder = nat -> Option<Positive>

  /** A 32-bit mask, bit 0 first. */
  type Mask = s: seq<bool> | |s| == 32 witness seq(32, _ => false)

  function Bit(k: nat): Mask
    requires k < 32
  {
    seq(32, i => i == k)
  }

  function Union(x: Mask, y: Mask): Mask {
    seq(32, i requires 0 <= i < 32 => x[i] || y[i])
  }

  function Plus(x: Mask, y: Mask): Mask {
    Fit((Nat(x) + Nat(y)) % 0x1_0000_0000, 32)
  }

  /** Adding a bit that is not set only sets it. */
  lemma PlusNewBit(x: Mask, k: nat)
    requires k < 32 && !x[k]
    ensures Plus(x, Bit(k)) == x[k := true]
  {
    var y := x[k := true];
    NatDisjoint(x, Bit(k));
    assert y == seq(|x|, i requires 0 <= i < |x| => x[i] || Bit(k)[i]);
    NatBound(y);
    Pow64();
    SmallMod(Nat(y), 0x1_0000_0000);
    NatFit(Nat(y), 32);
    NatInjective(Plus(x, Bit(k)), y);
  }

  // ---------------------------------------------------------------------------------------------
  // Reference: linear decoding from one offset
  // ---------------------------------------------------------------------------------------------

  /** Decoding from `o` arrives at `target` after one or more instructions, without leaving the first 32 bytes. */
  predicate Reaches(d: Decoder, o: nat, target: int)
    decreases LIMIT - o
  {
    && o < LIMIT && d(o).Some?
    && var n := o + d(o).value;
       n <= target && n < LIMIT && (n == target || Reaches(d, n, target))
  }

  /** Decoding from `from` starts an instruction at `o`. */
  predicate OnChain(d: Decoder, from: nat, o: nat)
    decreases o - from
  {
    from == o || (from < o && d(from).Some? && OnChain(d, from + d(from).value, o))
  }

  lemma {:induction false} ChainTransitive(d: Decoder, a: nat, b: nat, c: nat)
    requires OnChain(d, a, b) && OnChain(d, b, c)
    ensures OnChain(d, a, c) && a <= b <= c
    decreases b - a
  {
    if a < b {
      ChainTransitive(d, a + d(a).value, b, c);
    }
  }

  /** Offsets of one chain are comparable. */
  lemma {:induction false} ChainComparable(d: Decoder, a: nat, b: nat, c: nat)
    requires OnChain(d, a, b) && OnChain(d, a, c) && b <= c
    ensures OnChain(d, b, c)
    decreases b - a
  {
    if a < b {
      ChainComparable(d, a + d(a).value, b, c);
    }
  }

  lemma {:induction false} ReachesAlong(d: Decoder, a: nat, b: nat, target: int)
    requires OnChain(d, a, b) && Reaches(d, a, target) && b < target
    ensures Reaches(d, b, target)
    decreases b - a
  {
    if a < b {
      ReachesAlong(d, a + d(a).value, b, target);
    }
  }

  /** The chain from `o` starts an instruction at the target, behind `o` and inside the first 32 bytes. */
  predicate Hits(d: Decoder, o: nat, target: int) {
    o < target < 32 && OnChain(d, o, target)
  }

  /** A start below 16 that hits the target and is on the chain of no smaller one. */
  predicate FirstOfChain(d: Decoder, i: nat, target: int) {
    i < 16 && Hits(d, i, target) && forall j :: 0 <= j < i && Hits(d, j, target) ==> !OnChain(d, j, i)
  }

  lemma CountedIsFirst(d: Decoder, target: int, i: nat)
    ensures Counted(d, target, i) <==> FirstOfChain(d, i, target)
  {
    forall o: nat ensures Reaches(d, o, target) <==> Hits(d, o, target) {
      ReachesIsChain(d, o, target);
    }
  }

  lemma {:induction false} ReachesIsChain(d: Decoder, o: nat, target: int)
    ensures Reaches(d, o, target) <==> Hits(d, o, target)
    decreases LIMIT - o
  {
    if o < target < LIMIT {
      assert OnChain(d, o, target) <==> d(o).Some? && OnChain(d, o + d(o).value, target);
      if d(o).Some? {
        ReachesIsChain(d, o + d(o).value, target);
      }
    } else {
      ReachesBelow(d, o, target);
    }
  }

  lemma {:induction false} ReachesBelow(d: Decoder, o: nat, target: int)
    ensures Reaches(d, o, target) ==> o < target < LIMIT
    decreases LIMIT - o
  {
    if o < LIMIT && d(o).Some? {
      ReachesBelow(d, o + d(o).value, target);
    }
  }

  lemma ReachesBefore(d: Decoder, o: nat, target: int)
    ensures Reaches(d, o, target) ==> o < target
  {
  }

  /** The offsets remembered after the starts below `n`: they reach the target and lie on the chain of such a start. */
  ghost predicate Remembered(d: Decoder, target: int, n: nat, o: nat) {
    o < STARTS && Reaches(d, o, target) && exists j :: 0 <= j < n && Reaches(d, j, target) && OnChain(d, j, o)
  }

  /** A start counts when it reaches the target and no smaller start that does passes through it. */
  ghost predicate Counted(d: Decoder, target: int, i: nat) {
    && i < STARTS && Reaches(d, i, target)
    && forall j :: 0 <= j < i && Reaches(d, j, target) ==> !OnChain(d, j, i)
  }

  // ---------------------------------------------------------------------------------------------
  // The search
  // ---------------------------------------------------------------------------------------------

  method GetStartAddrOffset(d: Decoder, virAddr: U64, cacheMissAddr: U64) returns (res: Mask, memOffset: Mask)
    requires virAddr + 2 * LIMIT <= TWO_64
    ensures forall o :: 0 <= o < 32 ==> (memOffset[o] <==> o < 16 && Hits(d, o, cacheMissAddr - virAddr))
    ensures forall i :: 0 <= i < 32 ==> (res[i] <==> FirstOfChain(d, i, cacheMissAddr - virAddr))
  {
    ghost var target := cacheMissAddr - virAddr;
    res, memOffset := seq(32, _ => false), seq(32, _ => false);
    var i := 0;
    while i < STARTS
      invariant 0 <= i <= STARTS
      invariant forall o :: 0 <= o < 32 ==> (memOffset[o] <==> Remembered(d, target, i, o))
      invariant forall k :: 0 <= k < 32 ==> (res[k] <==> k < i && Counted(d, target, k))
    {
      if memOffset[i] {
        SkippedStart(d, target, i);
        i := i + 1;
        continue;
      }
      memOffset, res := Walk(d, virAddr, cacheMissAddr, i, memOffset, res);
      i := i + 1;
    }
    forall i | 0 <= i < 32
      ensures Reaches(d, i, target) <==> Hits(d, i, target)
      ensures Counted(d, target, i) <==> FirstOfChain(d, i, target)
    {
      ReachesIsChain(d, i, target);
      CountedIsFirst(d, target, i);
    }
  }

  /** The inner loop: decode from `i` until the target or a remembered offset is met. After a hit of the target the code
      goes on to the test for a remembered offset, on the mask just extended; that test then fails, so the bit of the
      start is added to the result once. */
  method Walk(d: Decoder, virAddr: U64, cacheMissAddr: U64, i: nat, known: Mask, counted: Mask)
    returns (memOffset: Mask, res: Mask)
    requires virAddr + 2 * LIMIT <= TWO_64 && i < STARTS && !known[i] && !counted[i]
    requires forall o :: 0 <= o < 32 ==> (known[o] <==> Remembered(d, cacheMissAddr - virAddr, i, o))
    ensures forall o :: 0 <= o < 32 ==> (memOffset[o] <==> Remembered(d, cacheMissAddr - virAddr, i + 1, o))
    ensures Counted(d, cacheMissAddr - virAddr, i) <==> Reaches(d, i, cacheMissAddr - virAddr)
    ensures res == counted[i := Reaches(d, i, cacheMissAddr - virAddr)]
  {
    ghost var target := cacheMissAddr - virAddr;
    var currentOffset, virtualAddr := i, virAddr + i;
    memOffset, res := known, counted;
    var tmp: Mask := seq(32, _ => false);
    PlusNewBit(tmp, i);
    tmp := Plus(tmp, Bit(i));
    PlusNewBit(counted, i);
    var jmpWhile := false;
    while !jmpWhile
      invariant !jmpWhile ==> virtualAddr == virAddr + currentOffset && Walking(d, target, i, currentOffset, tmp)
      invariant !jmpWhile ==> memOffset == known && res == counted
      invariant jmpWhile ==> Finished(d, target, i, counted, memOffset, res)
      decreases !jmpWhile, LIMIT - currentOffset
    {
      var len := d(currentOffset);
      if len.None? || currentOffset + len.value > i + LIMIT {
        StartDone(d, target, i, known, tmp, false);
        jmpWhile := true;
        continue;
      }
      NextOnChain(d, i, currentOffset);
      virtualAddr := virtualAddr + len.value;
      currentOffset := currentOffset + len.value;
      if virtualAddr > cacheMissAddr || currentOffset >= LIMIT {
        StartDone(d, target, i, known, tmp, false);
        jmpWhile := true;
        continue;
      } else if virtualAddr == cacheMissAddr {
        StartDone(d, target, i, known, tmp, true);
        HitIsNew(d, target, i);
        memOffset := Union(memOffset, tmp);
        res := Plus(res, Bit(i));
        jmpWhile := true;
      }
      if memOffset[currentOffset] {
        StartDone(d, target, i, known, tmp, true);
        memOffset := Union(memOffset, tmp);
        res := Plus(res, Bit(i));
        jmpWhile := true;
        continue;
      }
      if currentOffset < STARTS {
        PlusNewBit(tmp, currentOffset);
        tmp := Plus(tmp, Bit(currentOffset));
      }
    }
  }

  /** The walk from `i` stands at offset `at`, with the chain so far in `tmp`. */
  ghost predicate Walking(d: Decoder, target: int, i: nat, at: nat, tmp: Mask) {
    && i <= at < LIMIT && OnChain(d, i, at)
    && (Reaches(d, i, target) <==> Reaches(d, at, target))
    && forall o :: 0 <= o < 32 ==> (tmp[o] <==> o < STARTS && o <= at && OnChain(d, i, o))
  }

  /** The masks after the walk from `i`. */
  ghost predicate Finished(d: Decoder, target: int, i: nat, counted: Mask, memOffset: Mask, res: Mask)
    requires i < STARTS
  {
    && (forall o :: 0 <= o < 32 ==> (memOffset[o] <==> Remembered(d, target, i + 1, o)))
    && (Counted(d, target, i) <==> Reaches(d, i, target))
    && res == counted[i := Reaches(d, i, target)]
  }

  /** The target itself is never remembered. */
  lemma HitIsNew(d: Decoder, target: int, i: nat)
    ensures forall o: nat :: o == target ==> !Remembered(d, target, i, o) && !Remembered(d, target, i + 1, o)
  {
    forall o: nat | o == target ensures !Reaches(d, o, target) {
      ReachesBefore(d, o, target);
    }
  }

  /** The chain from `i` up to where the walk stopped, at the target or at a remembered offset. */
  ghost predicate Gathered(d: Decoder, target: int, i: nat, memOffset: Mask, tmp: Mask) {
    exists stop: nat :: i < stop < 32 && OnChain(d, i, stop) && (stop == target || (memOffset[stop] && stop < target))
      && forall o :: 0 <= o < 32 ==> (tmp[o] <==> o < STARTS && o < stop && OnChain(d, i, o))
  }

  /** Between two neighbouring offsets of a chain lies none of its offsets. */
  lemma NextOnChain(d: Decoder, i: nat, o: nat)
    requires OnChain(d, i, o) && d(o).Some?
    ensures OnChain(d, i, o + d(o).value)
    ensures forall k: nat :: OnChain(d, i, k) && k < o + d(o).value ==> k <= o
  {
    var next := o + d(o).value;
    assert OnChain(d, o, next);
    ChainTransitive(d, i, o, next);
    forall k: nat | OnChain(d, i, k) && k < next ensures k <= o {
      if o < k {
        ChainComparable(d, i, o, k);
      }
    }
  }

  /** A start already remembered adds nothing. */
  lemma SkippedStart(d: Decoder, target: int, i: nat)
    requires Remembered(d, target, i, i)
    ensures !Counted(d, target, i)
    ensures forall o :: 0 <= o < 32 ==> (Remembered(d, target, i, o) <==> Remembered(d, target, i + 1, o))
  {
    var j :| 0 <= j < i && Reaches(d, j, target) && OnChain(d, j, i);
    forall o | 0 <= o < 32 && OnChain(d, i, o) ensures OnChain(d, j, o) {
      ChainTransitive(d, j, i, o);
    }
  }

  /** What one walk adds is what the reference remembers for its start. */
  lemma StartDone(d: Decoder, target: int, i: nat, memOffset: Mask, tmp: Mask, found: bool)
    requires i < STARTS && !memOffset[i]
    requires forall o :: 0 <= o < 32 ==> (memOffset[o] <==> Remembered(d, target, i, o))
    requires found <==> Reaches(d, i, target)
    requires found ==> Gathered(d, target, i, memOffset, tmp)
    ensures found <==> Counted(d, target, i)
    ensures forall o :: 0 <= o < 32 ==>
              (Remembered(d, target, i + 1, o) <==> memOffset[o] || (found && tmp[o]))
  {
    if found {
      var stop: nat :| i < stop < 32 && OnChain(d, i, stop) && (stop == target || (memOffset[stop] && stop < target))
        && forall o :: 0 <= o < 32 ==> (tmp[o] <==> o < STARTS && o < stop && OnChain(d, i, o));
      forall o | 0 <= o < 32 ensures Remembered(d, target, i + 1, o) <==> memOffset[o] || tmp[o] {
        if tmp[o] {
          ReachesAlong(d, i, o, target);
        } else if OnChain(d, i, o) && Remembered(d, target, i + 1, o) {
          BeyondStop(d, target, i, stop, o);
        }
      }
    }
  }

  lemma BeyondStop(d: Decoder, target: int, i: nat, stop: nat, o: nat)
    requires OnChain(d, i, stop) && OnChain(d, i, o) && stop <= o < STARTS && Reaches(d, o, target)
    requires stop == target || Remembered(d, target, i, stop)
    ensures Remembered(d, target, i, o)
  {
    ReachesBefore(d, o, target);
    ChainComparable(d, i, stop, o);
    var j :| 0 <= j < i && Reaches(d, j, target) && OnChain(d, j, stop);
    ChainTransitive(d, j, stop, o);
  }
}
