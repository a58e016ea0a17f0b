/** The report header: the encoder at the end of `pebs_taine_analyze` in `pebs_taine.c` and its decoder,
    `full_diasm_info::analyze_recy_data`. */
module ReportHeader {
  import opened Arithmetic
  import opened Registers
  import opened Bytes

  const REGISTERS: nat := 18
  const NAME_SIZE: nat := 16
  const MESSAGE_INFO: nat := 8 * 3 + 16 + 4
  const PREFIX_SIZE: nat := MESSAGE_INFO + 8 * REGISTERS
  const OVER_FOOT_SIZE: nat := 200
  const OVER_HEAD_SIZE: nat := 20

  /** What the kernel side reports. */
  datatype Report = Report(pid: U32, cacheMissAddr: U64, branchMissAddr: U64, comm: seq<Byte>, registers: seq<U64>)
  {
    predicate Valid() { |comm| == NAME_SIZE && |registers| == REGISTERS }

    /** `branch_miss_addr - cache_miss_addr`, unsigned. */
    function SubValue(): U64 { (branchMissAddr - cacheMissAddr) % TWO_64 }

    /** The same difference, read as signed. */
    function Distance(): int { if SubValue() >= TWO_64 / 2 then SubValue() - TWO_64 else SubValue() }
  }

  function CodeSize(r: Report): U64 {
    (r.SubValue() + 6 + OVER_FOOT_SIZE + OVER_HEAD_SIZE) % TWO_64
  }

  /** The guard before the code is copied. */
  predicate Accepted(r: Report) {
    !(CodeSize(r) <= 0 || CodeSize(r) > 100 + OVER_FOOT_SIZE + OVER_HEAD_SIZE)
  }

  /** The unsigned guard lets some negative distances through. */
  lemma AcceptedDistances(r: Report)
    ensures Accepted(r) <==> -225 <= r.Distance() <= 94
  {
  }

  // ---------------------------------------------------------------------------------------------
  // The encoder
  // ---------------------------------------------------------------------------------------------

  function RegisterBytes(registers: seq<U64>): (s: seq<Byte>)
    ensures |s| == 8 * |registers|
  {
    if |registers| == 0 then []
    else RegisterBytes(registers[..|registers| - 1]) + BytesOf(registers[|registers| - 1], 8)
  }

  /** The bytes before the registers; the four before them are not written. */
  function Prefix(r: Report, unwritten: seq<Byte>): (s: seq<Byte>)
    requires r.Valid() && |unwritten| == 4
    ensures |s| == MESSAGE_INFO
  {
    [0, r.SubValue() % 256, 0, 0] + Fields(r) + unwritten
  }

  function Header(r: Report, unwritten: seq<Byte>): (s: seq<Byte>)
    requires r.Valid() && |unwritten| == 4
    ensures |s| == PREFIX_SIZE
  {
    Prefix(r, unwritten) + RegisterBytes(r.registers)
  }

  function Spliced(s: seq<Byte>, at: nat, bytes: seq<Byte>): (t: seq<Byte>)
    requires at + |bytes| <= |s|
    ensures |t| == |s|
  {
    s[..at] + bytes + s[at + |bytes|..]
  }

  /** Writing just behind `head` extends it. */
  lemma SpliceBehind(head: seq<Byte>, tail: seq<Byte>, bytes: seq<Byte>)
    requires |bytes| <= |tail|
    ensures Spliced(head + tail, |head|, bytes) == (head + bytes) + tail[|bytes|..]
  {
  }

  /** `memcpy` to `data + at`. */
  method CopyTo(data: array<Byte>, at: nat, bytes: seq<Byte>)
    requires at + |bytes| <= data.Length
    modifies data
    ensures data[..] == Spliced(old(data[..]), at, bytes)
  {
    var i := 0;
    while i < |bytes|
      invariant 0 <= i <= |bytes|
      invariant forall k :: 0 <= k < data.Length ==>
                  data[k] == if at <= k < at + i then bytes[k - at] else old(data[k])
    {
      data[at + i] := bytes[i];
      i := i + 1;
    }
  }

  /** A store of an `n`-byte integer through a cast address, on a little-endian machine. */
  method Store(data: array<Byte>, at: nat, v: nat, n: nat)
    requires at + n <= data.Length
    modifies data
    ensures data[..] == Spliced(old(data[..]), at, BytesOf(v, n))
  {
    CopyTo(data, at, BytesOf(v, n));
  }

  /** The header is written and nothing behind it is. */
  method EncodeHeader(data: array<Byte>, r: Report)
    requires r.Valid() && data.Length >= PREFIX_SIZE
    modifies data
    ensures data[..] == Header(r, old(data[40..MESSAGE_INFO])) + old(data[PREFIX_SIZE..])
  {
    ghost var before := data[..];
    ghost var start: seq<Byte> := [0, r.SubValue() % 256, 0, 0];
    data[0], data[1], data[2], data[3] := 0, r.SubValue() % 256, 0, 0;
    assert data[..] == start + before[4..];
    EncodeFields(data, r, start, before[4..]);
    ghost var written := start + Fields(r);
    assert data[..] == Prefix(r, before[40..MESSAGE_INFO]) + before[MESSAGE_INFO..] by {
      assert before[4..][36..] == before[40..MESSAGE_INFO] + before[MESSAGE_INFO..];
      assert written + before[40..MESSAGE_INFO] == Prefix(r, before[40..MESSAGE_INFO]);
    }
    EncodeRegisters(data, r.registers, Prefix(r, before[40..MESSAGE_INFO]), before[MESSAGE_INFO..]);
    assert before[MESSAGE_INFO..][8 * REGISTERS..] == before[PREFIX_SIZE..];
  }

  /** Process, cache-miss address, return address and name, bytes 4 to 39. */
  function Fields(r: Report): (s: seq<Byte>)
    requires r.Valid()
    ensures |s| == 36
  {
    BytesOf(r.pid, 4) + BytesOf(r.cacheMissAddr, 8) + BytesOf(0, 8) + r.comm
  }

  method EncodeFields(data: array<Byte>, r: Report, ghost head: seq<Byte>, ghost tail: seq<Byte>)
    requires r.Valid() && |head| == 4 && |tail| >= 36 && data[..] == head + tail
    modifies data
    ensures data[..] == (head + Fields(r)) + tail[36..]
  {
    FieldsSpliced(head, tail, BytesOf(r.pid, 4), BytesOf(r.cacheMissAddr, 8), BytesOf(0, 8), r.comm);
    Store(data, 4, r.pid, 4);
    Store(data, 8, r.cacheMissAddr, 8);
    Store(data, 16, 0, 8);
    CopyTo(data, 24, r.comm);
  }

  lemma FieldsSpliced(head: seq<Byte>, tail: seq<Byte>, p: seq<Byte>, c: seq<Byte>, z: seq<Byte>, comm: seq<Byte>)
    requires |head| == 4 && |tail| >= 36 && |p| == 4 && |c| == |z| == 8 && |comm| == 16
    ensures Spliced(Spliced(Spliced(Spliced(head + tail, 4, p), 8, c), 16, z), 24, comm)
         == (head + (p + c + z + comm)) + tail[36..]
  {
    SpliceBehind(head, tail, p);
    SpliceBehind(head + p, tail[4..], c);
    SpliceBehind(head + p + c, tail[4..][8..], z);
    SpliceBehind(head + p + c + z, tail[4..][8..][8..], comm);
    assert head + p + c + z + comm == head + (p + c + z + comm);
    assert tail[4..][8..][8..][16..] == tail[36..];
  }

  method EncodeRegisters(data: array<Byte>, registers: seq<U64>, ghost prefix: seq<Byte>, ghost suffix: seq<Byte>)
    requires |registers| == REGISTERS && |prefix| == MESSAGE_INFO && |suffix| >= 8 * REGISTERS
    requires data[..] == prefix + suffix
    modifies data
    ensures data[..] == prefix + RegisterBytes(registers) + suffix[8 * REGISTERS..]
  {
    var i := 0;
    while i < REGISTERS
      invariant 0 <= i <= REGISTERS
      invariant data[..] == prefix + RegisterBytes(registers[..i]) + suffix[8 * i..]
    {
      SpliceBehind(prefix + RegisterBytes(registers[..i]), suffix[8 * i..], BytesOf(registers[i], 8));
      Store(data, MESSAGE_INFO + i * 8, registers[i], 8);
      assert registers[..i + 1][..i] == registers[..i];
      assert prefix + RegisterBytes(registers[..i]) + BytesOf(registers[i], 8)
          == prefix + RegisterBytes(registers[..i + 1]);
      assert suffix[8 * i..][8..] == suffix[8 * (i + 1)..];
      i := i + 1;
    }
    assert registers[..REGISTERS] == registers;
  }

  // ---------------------------------------------------------------------------------------------
  // The decoder
  // ---------------------------------------------------------------------------------------------

  /** `*(uintN_t *)(s + at)` */
  function NumberAt(s: seq<Byte>, at: nat, n: nat): nat
    requires at + n <= |s|
  {
    NumberOf(s[at..at + n])
  }

  /** A byte read through a signed `char`. */
  function SignedByte(b: Byte): int {
    if b >= 128 then b - 256 else b
  }

  /** The characters before the first NUL. */
  function UpToNul(s: seq<Byte>): (t: seq<Byte>)
    ensures |t| <= |s| && t == s[..|t|]
    ensures forall i :: 0 <= i < |t| ==> t[i] != 0
    ensures |t| < |s| ==> s[|t|] == 0
  {
    if |s| == 0 || s[0] == 0 then [] else [s[0]] + UpToNul(s[1..])
  }

  /** `full_diasm_info`, the fields the decoder fills. */
  class FullDiasmInfo {
    var is32: bool
    var targetThreadPid: nat
    var cacheMissAddr: nat
    var retAddr: nat
    var branchMissAddr: U64
    var virtualStartAddr: U64
    var execFileName: seq<Byte>
    const registers: array<nat>

    ghost predicate Valid()
      reads this
    {
      registers.Length == REGISTERS
    }

    constructor ()
      ensures Valid() && fresh(registers)
    {
      registers := new nat[REGISTERS](_ => 0);
      is32, targetThreadPid, cacheMissAddr, retAddr, branchMissAddr, virtualStartAddr := false, 0, 0, 0, 0, 0;
      execFileName := [];
    }

    /** Every field as a function of the received bytes. */
    ghost predicate Shows(s: seq<Byte>)
      requires Valid() && |s| >= PREFIX_SIZE
      reads this, registers
    {
      && is32 == (s[3] != 0)
      && targetThreadPid == NumberAt(s, 4, 4)
      && cacheMissAddr == NumberAt(s, 8, 8)
      && retAddr == NumberAt(s, 16, 8)
      && branchMissAddr == (NumberAt(s, 8, 8) + SignedByte(s[1])) % TWO_64
      && virtualStartAddr == (NumberAt(s, 8, 8) - OVER_HEAD_SIZE) % TWO_64
      && execFileName == UpToNul(s[24..24 + NAME_SIZE])
      && forall i :: 0 <= i < REGISTERS ==> registers[i] == NumberAt(s, MESSAGE_INFO + 8 * i, 8)
    }

    method AnalyzeRecyData(codeInfo: seq<Byte>) returns (isRet: bool)
      requires Valid() && |codeInfo| >= PREFIX_SIZE
      modifies this, registers
      ensures Valid() && Shows(codeInfo) && (isRet <==> codeInfo[2] != 0)
    {
      var subValue := SignedByte(codeInfo[1]);
      var isRetSituation := codeInfo[2];
      is32 := codeInfo[3] != 0;
      targetThreadPid := NumberAt(codeInfo, 4, 4);
      cacheMissAddr := NumberAt(codeInfo, 8, 8);
      retAddr := NumberAt(codeInfo, 16, 8);
      branchMissAddr := (cacheMissAddr + subValue) % TWO_64;
      virtualStartAddr := (cacheMissAddr - OVER_HEAD_SIZE) % TWO_64;
      var endIndex := 0;
      ghost var comm := codeInfo[24..24 + NAME_SIZE];
      while endIndex < NAME_SIZE
        invariant 0 <= endIndex <= NAME_SIZE
        invariant forall k :: 0 <= k < endIndex ==> comm[k] != 0
      {
        if codeInfo[24 + endIndex] == 0 {
          break;
        }
        endIndex := endIndex + 1;
      }
      NameEnds(comm, endIndex);
      execFileName := codeInfo[24..24 + endIndex];
      var i := 0;
      while i < REGISTERS
        invariant 0 <= i <= REGISTERS
        invariant forall k :: 0 <= k < i ==> registers[k] == NumberAt(codeInfo, MESSAGE_INFO + 8 * k, 8)
        modifies registers
      {
        registers[i] := NumberAt(codeInfo, MESSAGE_INFO + i * 8, 8);
        i := i + 1;
      }
      isRet := isRetSituation != 0;
    }
  }

  lemma {:induction false} NameEnds(s: seq<Byte>, n: nat)
    requires n <= |s| && (forall k :: 0 <= k < n ==> s[k] != 0) && (n < |s| ==> s[n] == 0)
    ensures UpToNul(s) == s[..n]
  {
    if n > 0 {
      NameEnds(s[1..], n - 1);
    }
  }

  // ---------------------------------------------------------------------------------------------
  // Round trip
  // ---------------------------------------------------------------------------------------------

  lemma {:induction false} RegisterBytesAt(registers: seq<U64>, i: nat)
    requires i < |registers|
    ensures RegisterBytes(registers)[8 * i..8 * i + 8] == BytesOf(registers[i], 8)
  {
    var n := |registers| - 1;
    if i < n {
      RegisterBytesAt(registers[..n], i);
      assert RegisterBytes(registers)[8 * i..8 * i + 8] == RegisterBytes(registers[..n])[8 * i..8 * i + 8];
    }
  }

  lemma NumberOfU64(v: U64)
    ensures NumberOf(BytesOf(v, 8)) == v
  {
    NumberOfBytes(v, 8);
    Pow256Grows(0, 8);
    SmallMod(v, TWO_64);
  }

  lemma RegistersRoundTrip(r: Report, unwritten: seq<Byte>, i: nat)
    requires r.Valid() && |unwritten| == 4 && i < REGISTERS
    ensures NumberAt(Header(r, unwritten), MESSAGE_INFO + 8 * i, 8) == r.registers[i]
  {
    RegisterBytesAt(r.registers, i);
    assert Header(r, unwritten)[MESSAGE_INFO + 8 * i..MESSAGE_INFO + 8 * i + 8]
        == RegisterBytes(r.registers)[8 * i..8 * i + 8];
    NumberOfU64(r.registers[i]);
  }

  lemma FieldSlices(r: Report, unwritten: seq<Byte>)
    requires r.Valid() && |unwritten| == 4
    ensures var s := Header(r, unwritten);
      && s[4..8] == BytesOf(r.pid, 4) && s[8..16] == BytesOf(r.cacheMissAddr, 8)
      && s[16..24] == BytesOf(0, 8) && s[24..24 + NAME_SIZE] == r.comm
  {
    var s, f := Header(r, unwritten), Fields(r);
    assert s[4..40] == f;
    FieldParts(r);
    SliceOfSlice(s, 4, 40, 0, 4);
    SliceOfSlice(s, 4, 40, 4, 12);
    SliceOfSlice(s, 4, 40, 12, 20);
    SliceOfSlice(s, 4, 40, 20, 36);
  }

  lemma FieldParts(r: Report)
    requires r.Valid()
    ensures var f := Fields(r);
      && f[0..4] == BytesOf(r.pid, 4) && f[4..12] == BytesOf(r.cacheMissAddr, 8)
      && f[12..20] == BytesOf(0, 8) && f[20..36] == r.comm
  {
    FourParts(BytesOf(r.pid, 4), BytesOf(r.cacheMissAddr, 8), BytesOf(0, 8), r.comm);
  }

  lemma FourParts(p: seq<Byte>, c: seq<Byte>, z: seq<Byte>, comm: seq<Byte>)
    requires |p| == 4 && |c| == |z| == 8 && |comm| == 16
    ensures var f := p + c + z + comm;
      f[0..4] == p && f[4..12] == c && f[12..20] == z && f[20..36] == comm
  {
    var f := p + c + z + comm;
    assert f[..20] == p + c + z && (p + c + z)[..12] == p + c;
    SliceOfSlice(f, 0, 20, 0, 4);
    SliceOfSlice(f, 0, 20, 4, 12);
    SliceOfSlice(f, 0, 20, 12, 20);
  }

  lemma SliceOfSlice(s: seq<Byte>, lo: nat, hi: nat, i: nat, j: nat)
    requires lo <= hi <= |s| && i <= j <= hi - lo
    ensures s[lo..hi][i..j] == s[lo + i..lo + j]
  {
    forall k | 0 <= k < j - i ensures s[lo..hi][i..j][k] == s[lo + i..lo + j][k] {
    }
  }

  lemma FieldsRoundTrip(r: Report, unwritten: seq<Byte>)
    requires r.Valid() && |unwritten| == 4
    ensures var s := Header(r, unwritten);
      && s[0] == s[2] == s[3] == 0 && s[1] == r.SubValue() % 256
      && NumberAt(s, 4, 4) == r.pid && NumberAt(s, 8, 8) == r.cacheMissAddr && NumberAt(s, 16, 8) == 0
      && s[24..24 + NAME_SIZE] == r.comm
  {
    FieldSlices(r, unwritten);
    NumberOfBytes(r.pid, 4);
    assert Pow256(4) == 0x1_0000_0000;
    NumberOfU64(r.cacheMissAddr);
    NumberOfU64(0);
  }

  /** Every byte of the header: process at 4, cache-miss address at 8, zeros at 16, name at 24, registers from 44, each
      lowest byte first. */
  lemma HeaderLayout(r: Report, unwritten: seq<Byte>, i: nat, n: nat)
    requires r.Valid() && |unwritten| == 4 && n < 18
    ensures var s := Header(r, unwritten);
      && s[0] == 0 && s[1] == r.SubValue() % 256 && s[2] == 0 && s[3] == 0
      && (i < 4 ==> s[4 + i] == r.pid / Pow256(i) % 256)
      && (i < 8 ==> s[8 + i] == r.cacheMissAddr / Pow256(i) % 256 && s[16 + i] == 0)
      && (i < 16 ==> s[24 + i] == r.comm[i])
      && (i < 4 ==> s[40 + i] == unwritten[i])
      && (i < 8 ==> s[44 + 8 * n + i] == r.registers[n] / Pow256(i) % 256)
  {
    var s := Header(r, unwritten);
    FieldSlices(r, unwritten);
    RegisterBytesAt(r.registers, n);
    if i < 8 {
      ByteAt(r.cacheMissAddr, 8, i);
      ByteAt(0, 8, i);
      ByteAt(r.registers[n], 8, i);
      assert s[8 + i] == s[8..16][i] && s[16 + i] == s[16..24][i];
      assert s[44 + 8 * n + i] == RegisterBytes(r.registers)[8 * n..8 * n + 8][i];
      ZeroDigit(Pow256(i));
    }
    if i < 4 {
      ByteAt(r.pid, 4, i);
      assert s[4 + i] == s[4..8][i];
    }
    if i < 16 {
      assert s[24 + i] == s[24..24 + NAME_SIZE][i];
    }
  }

  lemma ZeroDigit(p: nat)
    requires p > 0
    ensures 0 / p % 256 == 0
  {
  }

  /** The branch-miss address comes back exactly when the distance fits a signed byte. */
  lemma DistanceRoundTrip(r: Report)
    ensures (r.cacheMissAddr + SignedByte(r.SubValue() % 256)) % TWO_64 == r.branchMissAddr
            <==> -128 <= r.Distance() <= 127
  {
    var d := SignedByte(r.SubValue() % 256);
    assert -128 <= d <= 127;
  }

  /** The decoder inverts the encoder, whatever follows the header: every field comes back, the name up to its first
      NUL; of the accepted distances only those from -225 to -129 lose the branch-miss address. */
  lemma DecoderInvertsEncoder(r: Report, unwritten: seq<Byte>, rest: seq<Byte>, info: FullDiasmInfo)
    requires r.Valid() && |unwritten| == 4 && info.Valid() && info.Shows(Header(r, unwritten) + rest)
    ensures info.targetThreadPid == r.pid && info.cacheMissAddr == r.cacheMissAddr
    ensures info.retAddr == 0 && !info.is32
    ensures info.virtualStartAddr == (r.cacheMissAddr - 20) % TWO_64
    ensures info.execFileName == UpToNul(r.comm)
    ensures info.registers[..] == r.registers
    ensures Accepted(r) ==> (info.branchMissAddr == r.branchMissAddr <==> r.Distance() >= -128)
  {
    var h, s := Header(r, unwritten), Header(r, unwritten) + rest;
    FieldsRoundTrip(r, unwritten);
    assert s[4..8] == h[4..8] && s[8..16] == h[8..16] && s[16..24] == h[16..24];
    assert s[24..24 + NAME_SIZE] == h[24..24 + NAME_SIZE];
    forall i | 0 <= i < REGISTERS ensures info.registers[i] == r.registers[i] {
      RegistersRoundTrip(r, unwritten, i);
      assert s[MESSAGE_INFO + 8 * i..MESSAGE_INFO + 8 * i + 8] == h[MESSAGE_INFO + 8 * i..MESSAGE_INFO + 8 * i + 8];
    }
    DistanceRoundTrip(r);
    AcceptedDistances(r);
  }
}
