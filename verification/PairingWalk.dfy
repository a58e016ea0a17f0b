/** The backward walk of `pebs_record_handler` in `pebs_init.c`: pairing each branch miss with the cache miss sampled
    just before it. */
module PairingWalk {
  import opened Registers

  const CACHE_MISS: U64 := 1
  const BRANCH_MISS: U64 := 2
  const MAX_TIME: nat := 300

  /** A PEBS record: address, event type and timestamp of the sample, and its registers. */
  datatype Record = Record(memAddr: U64, countType: U64, tsp: U64, registers: seq<U64>)

  type Comm = s: seq<char> | |s| == 16 witness seq(16, _ => '\0')

  /** What is passed to `write_ring_buffer`. */
  datatype Pair = Pair(cacheMissAddr: U64, branchMissAddr: U64, startInfo: seq<U64>, endInfo: seq<U64>)

  /** Timestamp difference as the code computes it, in 32 bits. */
  function Elapsed(first: Record, second: Record): nat {
    (second.tsp - first.tsp) % TWO_32
  }

  predicate NameAndAddresses(first: Record, second: Record, comm: Comm) {
    && comm[..3] == "poc"
    && first.memAddr % 0x1000 == 0x23d && second.memAddr % 0x1000 == 0x249
  }

  /** Record `i` and the one before it make a pair. */
  predicate Qualifies(records: seq<Record>, i: nat, comm: Comm) {
    && 1 <= i < |records|
    && records[i].countType == BRANCH_MISS && records[i - 1].countType == CACHE_MISS
    && Elapsed(records[i - 1], records[i]) <= MAX_TIME
    && NameAndAddresses(records[i - 1], records[i], comm)
  }

  function PairAt(records: seq<Record>, i: nat): Pair
    requires 1 <= i < |records|
  {
    Pair(records[i - 1].memAddr, records[i].memAddr, records[i - 1].registers, records[i].registers)
  }

  /** Reference: the qualifying indices from `n` on, highest first, and their pairs. */
  function Found(records: seq<Record>, n: nat, comm: Comm): (found: seq<nat>)
    decreases |records| - n
  {
    if n >= |records| then []
    else Found(records, n + 1, comm) + if Qualifies(records, n, comm) then [n] else []
  }

  function PairsFrom(records: seq<Record>, n: nat, comm: Comm): seq<Pair>
    decreases |records| - n
  {
    if n >= |records| then []
    else PairsFrom(records, n + 1, comm) + if Qualifies(records, n, comm) then [PairAt(records, n)] else []
  }

  /** Found are exactly the indices of a branch miss (2) right behind a cache miss (1), at most 300 later in 32-bit
      time, in a process named poc.., with addresses ending in 0x23d and 0x249. */
  lemma {:induction false} FoundMembers(records: seq<Record>, n: nat, comm: Comm, i: nat)
    ensures i in Found(records, n, comm) <==>
      && n <= i < |records| && i > 0
      && records[i].countType == 2 && records[i - 1].countType == 1
      && (records[i].tsp - records[i - 1].tsp) % 0x1_0000_0000 <= 300
      && comm[0] == 'p' && comm[1] == 'o' && comm[2] == 'c'
      && records[i - 1].memAddr % 0x1000 == 0x23d && records[i].memAddr % 0x1000 == 0x249
    decreases |records| - n
  {
    assert comm[..3] == "poc" <==> comm[0] == 'p' && comm[1] == 'o' && comm[2] == 'c' by {
      assert comm[..3] == [comm[0], comm[1], comm[2]];
    }
    if n < |records| {
      FoundMembers(records, n + 1, comm, i);
    }
  }

  /** They come in descending order, so once each. */
  lemma {:induction false} FoundDescending(records: seq<Record>, n: nat, comm: Comm, k: nat, l: nat)
    requires k < l < |Found(records, n, comm)|
    ensures Found(records, n, comm)[k] > Found(records, n, comm)[l]
    decreases |records| - n
  {
    var rest := Found(records, n + 1, comm);
    if l < |rest| {
      FoundDescending(records, n + 1, comm, k, l);
    } else {
      assert rest[k] in rest;
      FoundMembers(records, n + 1, comm, rest[k]);
    }
  }

  /** Each pair carries the cache miss's address and registers as its start and the branch miss's as its end. */
  lemma {:induction false} PairsMatch(records: seq<Record>, n: nat, comm: Comm)
    ensures var found, pairs := Found(records, n, comm), PairsFrom(records, n, comm);
      && |pairs| == |found|
      && forall k :: 0 <= k < |found| ==>
           && 1 <= found[k] < |records|
           && pairs[k].cacheMissAddr == records[found[k] - 1].memAddr
           && pairs[k].branchMissAddr == records[found[k]].memAddr
           && pairs[k].startInfo == records[found[k] - 1].registers
           && pairs[k].endInfo == records[found[k]].registers
    decreases |records| - n
  {
    if n < |records| {
      PairsMatch(records, n + 1, comm);
    }
  }

  /** The buffer of one CPU; `index` is where the next record goes. */
  class DebugStore {
    const buffer: array<Record>
    var index: nat

    ghost predicate Valid()
      reads this
    {
      index <= buffer.Length
    }

    constructor (buffer: array<Record>)
      ensures Valid() && this.buffer == buffer && index == 0
    {
      this.buffer, index := buffer, 0;
    }

    /** Every qualifying pair is handed on, the latest first, and the buffer is emptied. */
    method HandleRecords(comm: Comm) returns (handed: seq<Pair>)
      requires Valid()
      modifies `index
      ensures Valid() && index == 0
      ensures handed == PairsFrom(buffer[..old(index)], 0, comm)
      ensures var records := buffer[..old(index)];
        var found := Found(records, 0, comm);
        && |handed| == |found|
        && forall k :: 0 <= k < |found| ==>
             && 1 <= found[k] < |records|
             && handed[k].cacheMissAddr == records[found[k] - 1].memAddr
             && handed[k].branchMissAddr == records[found[k]].memAddr
             && handed[k].startInfo == records[found[k] - 1].registers
             && handed[k].endInfo == records[found[k]].registers
    {
      var second, first := index - 1, index - 2;
      handed := [];
      ghost var records := buffer[..index];
      while second > 0 && first >= 0
        invariant -1 <= second < |records|
        invariant second > 0 ==> first >= 0
        invariant handed == PairsFrom(records, second + 1, comm)
        decreases second
      {
        if buffer[second].countType != BRANCH_MISS {
          second := second - 1;
          continue;
        }
        first := second - 1;
        // The loop over `first` is left in its first turn, whatever it finds.
        if first >= 0 && buffer[first].countType == CACHE_MISS {
          var time := (buffer[second].tsp - buffer[first].tsp) % TWO_32;
          if !(time > MAX_TIME) {
            var isFind := false;
            if comm[0] == 'p' && comm[1] == 'o' && comm[2] == 'c' {
              if buffer[first].memAddr % 0x1000 == 0x23d && buffer[second].memAddr % 0x1000 == 0x249 {
                isFind := true;
              }
            }
            if isFind {
              handed := handed + [Pair(buffer[first].memAddr, buffer[second].memAddr,
                                       buffer[first].registers, buffer[second].registers)];
            }
          }
        }
        second := first;
      }
      if second == 0 {
        assert handed == PairsFrom(records, 0, comm);
      }
      PairsMatch(records, 0, comm);
      index := 0;
    }
  }
}
