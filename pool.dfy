/** The string pools of the table: every interned string is copied once into
    a record (`StringValue`: a user pointer, the length, the bytes and a 0
    terminator) placed in a block of at least `POOL_SIZE` bytes.  Records are
    named by a 32-bit `vptr` that packs the pool number, counted from 1, above
    the 12-bit offset of the record inside its pool; 0 is the null vptr.

    A pool is modelled by its size and the records written into it, keyed by
    their offsets; the byte layout of a record is abstract, except for its
    size, `valueSize + length + 1`, where `valueSize` stands for
    `sizeof(StringValue)`. */
module StringPool {
  import opened MurmurHash

  const POOL_BITS: nat := 12
  const POOL_SIZE: nat := 4096
  /** The largest pool number that fits the 20 bits above the offset. */
  const MAX_POOLS: nat := 0xF_FFFF
  const NULL: nat := 0

  /** A `uint32_t`. */
  type Word = x: int | 0 <= x < 0x1_0000_0000

  datatype StringValue = StringValue(ptrvalue: nat, length: nat, lstring: seq<byte>)

  datatype Pool = Pool(size: nat, values: map<nat, StringValue>)

  /** What `getValue` yields: the null pointer, or the record at an offset of
      a pool (pool indices count from 0). */
  datatype ValueRef = Null | At(pool: int, offset: nat)

  /** `npools << POOL_BITS | nfill`, for a pool number that fits 20 bits and
      an offset inside a pool: then the shift-or is this sum. */
  function Encode(pool: nat, offset: nat): (vptr: Word)
    requires pool <= MAX_POOLS && offset < POOL_SIZE
    ensures vptr / POOL_SIZE == pool && vptr % POOL_SIZE == offset
    ensures vptr == 0 <==> pool == 0 && offset == 0
  {
    pool * POOL_SIZE + offset
  }

  /** On 32-bit words, the shift-or of `allocValue` is the sum `Encode`
      computes, and the shift and mask of `getValue` are the quotient and
      remainder by `POOL_SIZE`. */
  lemma ShiftOrIsSum(pool: bv32, offset: bv32)
    requires pool <= 0xF_FFFF && offset < 0x1000
    ensures (pool << 12) | offset == pool * 0x1000 + offset
    ensures ((pool << 12) | offset) >> 12 == pool
    ensures ((pool << 12) | offset) & 0xFFF == offset
  {
  }

  lemma ShiftMaskIsDivMod(vptr: bv32)
    ensures vptr >> 12 == vptr / 0x1000 && vptr & 0xFFF == vptr % 0x1000
  {
  }

  /** `getValue`: null for the null vptr, otherwise the pool `(vptr >>
      POOL_BITS) - 1` at offset `vptr & (POOL_SIZE - 1)`. */
  function GetValue(vptr: Word): (r: ValueRef)
    ensures r == Null <==> vptr == 0
    ensures r.At? ==> -1 <= r.pool < MAX_POOLS && r.offset < POOL_SIZE
    ensures r.At? ==> Encode(r.pool + 1, r.offset) == vptr
  {
    if vptr == 0 then Null else At(vptr / POOL_SIZE - 1, vptr % POOL_SIZE)
  }

  /** Decoding undoes encoding: the vptr of a record at `offset` of pool
      number `pool` (counted from 1) leads back to that record. */
  lemma GetValueOfEncode(pool: nat, offset: nat)
    requires 1 <= pool <= MAX_POOLS && offset < POOL_SIZE
    ensures GetValue(Encode(pool, offset)) == At(pool - 1, offset)
  {
  }

  /** `sizeof(StringValue) + length + 1`: the bytes a record occupies. */
  function RecordSize(valueSize: nat, length: nat): nat
  {
    valueSize + length + 1
  }

  /** `n + (-n & 7)`: `n` rounded up to the next multiple of 8 (on an
      unsigned word, `-n & 7` is `-n` modulo 8). */
  function Align8(n: nat): (r: nat)
    ensures r % 8 == 0 && n <= r < n + 8
  {
    n + (0 - n) % 8
  }

  /** Align8 is the least multiple of 8 that is not below `n`. */
  lemma Align8Least(n: nat, m: nat)
    requires n <= m && m % 8 == 0
    ensures Align8(n) <= m
  {
  }

  /** A record laid out as `allocValue` writes it: `length` bytes of text
      followed by a 0 terminator. */
  predicate WellFormed(sv: StringValue)
  {
    |sv.lstring| == sv.length + 1 && sv.lstring[sv.length] == 0
  }

  /** The text of a record, without its terminator. */
  function Text(sv: StringValue): (t: seq<byte>)
    requires WellFormed(sv)
    ensures |t| == sv.length && sv.lstring == t + [0]
  {
    sv.lstring[..sv.length]
  }

  /** The record `allocValue` writes for `s`. */
  function Record(s: seq<byte>): StringValue
  {
    StringValue(NULL, |s|, s + [0])
  }

  lemma RecordText(s: seq<byte>)
    ensures WellFormed(Record(s)) && Text(Record(s)) == s && Record(s).ptrvalue == NULL
  {
  }

  /** Every record of a pool starts inside the first `POOL_SIZE` bytes at a
      multiple of 8, is well formed, lies within the pool and ends before the
      next record starts. */
  ghost predicate PoolOk(p: Pool, valueSize: nat)
  {
    p.size >= POOL_SIZE &&
    forall off | off in p.values ::
      off < POOL_SIZE && off % 8 == 0 && WellFormed(p.values[off]) &&
      off + RecordSize(valueSize, p.values[off].length) <= p.size &&
      forall off' | off' in p.values && off < off' ::
        off + RecordSize(valueSize, p.values[off].length) <= off'
  }

  /** The pool bookkeeping: at most `MAX_POOLS` pools, each well formed,
      a fill mark that is a multiple of 8, is 0 while there is no pool, and
      lies past every record of the last pool. */
  ghost predicate PoolsValid(pools: seq<Pool>, nfill: nat, valueSize: nat)
  {
    |pools| <= MAX_POOLS && nfill % 8 == 0 && (|pools| == 0 ==> nfill == 0) &&
    (forall i | 0 <= i < |pools| :: PoolOk(pools[i], valueSize)) &&
    (|pools| > 0 ==> EndsBy(pools[|pools| - 1], nfill, valueSize))
  }

  /** Every record of `p` ends by `mark`. */
  ghost predicate EndsBy(p: Pool, mark: nat, valueSize: nat)
  {
    forall off | off in p.values :: off + RecordSize(valueSize, p.values[off].length) <= mark
  }

  /** `vptr` names a record that is there. */
  predicate ValidRef(pools: seq<Pool>, vptr: Word)
  {
    var r := GetValue(vptr);
    r.At? && 0 <= r.pool < |pools| && r.offset in pools[r.pool].values
  }

  /** The record `vptr` names. */
  function Deref(pools: seq<Pool>, vptr: Word): StringValue
    requires ValidRef(pools, vptr)
  {
    var r := GetValue(vptr);
    pools[r.pool].values[r.offset]
  }

  /** `after` keeps every pool and record of `before` where it was. */
  ghost predicate PoolsExtend(before: seq<Pool>, after: seq<Pool>)
  {
    |before| <= |after| &&
    forall i, off | 0 <= i < |before| && off in before[i].values ::
      off in after[i].values && after[i].values[off] == before[i].values[off]
  }

  lemma ExtendKeepsRef(before: seq<Pool>, after: seq<Pool>, vptr: Word)
    requires PoolsExtend(before, after) && ValidRef(before, vptr)
    ensures ValidRef(after, vptr) && Deref(after, vptr) == Deref(before, vptr)
  {
  }

  /** `allocValue` opens a new pool when there is none yet or the record
      does not fit behind the fill mark of the last one. */
  predicate NeedsPool(npools: nat, nfill: nat, nbytes: nat)
  {
    npools == 0 || nfill + nbytes > POOL_SIZE
  }

  /** The record can be given a vptr: either it goes into the last pool, or
      the number of the pool it opens still fits 20 bits. */
  predicate CanAllocate(npools: nat, nfill: nat, valueSize: nat, length: nat)
  {
    NeedsPool(npools, nfill, RecordSize(valueSize, length)) ==> npools < MAX_POOLS
  }

  /** The pools, the fill mark and the vptr after one `allocValue`. */
  datatype Allocation = Allocation(pools: seq<Pool>, nfill: nat, vptr: Word)

  /** The size of a pool opened for a record of `nbytes` bytes:
      `max(nbytes, POOL_SIZE)`. */
  function NewPoolSize(nbytes: nat): nat
  {
    if nbytes > POOL_SIZE then nbytes else POOL_SIZE
  }

  /** The pools after `allocValue` has opened a pool, when it needs one. */
  function WithRoom(pools: seq<Pool>, opens: bool, nbytes: nat): (ps: seq<Pool>)
    ensures |ps| == |pools| + (if opens then 1 else 0) && ps[..|pools|] == pools
  {
    if opens then pools + [Pool(NewPoolSize(nbytes), map[])] else pools
  }

  /** The pools after writing record `sv` at offset `off` of the last one. */
  function WriteLast(ps: seq<Pool>, off: nat, sv: StringValue): (ps': seq<Pool>)
    requires |ps| > 0
    ensures |ps'| == |ps| && ps'[..|ps| - 1] == ps[..|ps| - 1]
  {
    var last := ps[|ps| - 1];
    ps[|ps| - 1 := last.(values := last.values[off := sv])]
  }

  /** `allocValue(s)` on pools `pools` with fill mark `nfill`: open a pool of
      `max(nbytes, POOL_SIZE)` bytes if needed, write the record at the fill
      mark, encode its place, advance the mark to the next multiple of 8. */
  function Allocate(pools: seq<Pool>, nfill: nat, valueSize: nat, s: seq<byte>): (a: Allocation)
    requires |pools| <= MAX_POOLS && (|pools| == 0 ==> nfill == 0)
    requires CanAllocate(|pools|, nfill, valueSize, |s|)
    ensures ValidRef(a.pools, a.vptr) && Deref(a.pools, a.vptr) == Record(s)
  {
    var nbytes := RecordSize(valueSize, |s|);
    var opens := NeedsPool(|pools|, nfill, nbytes);
    var ps := WithRoom(pools, opens, nbytes);
    var off := if opens then 0 else nfill;
    var ps' := WriteLast(ps, off, Record(s));
    GetValueOfEncode(|ps'|, off);
    Allocation(ps', off + Align8(nbytes), Encode(|ps'|, off))
  }

  /** Where the record goes: into a new pool exactly when `NeedsPool`, at
      offset 0 of it, otherwise at the old fill mark of the last pool, which
      is then inside the first `POOL_SIZE` bytes; the new fill mark is the
      record's end rounded up to 8, a new pool holds `max(nbytes,
      POOL_SIZE)` bytes, and the vptr is never the null vptr. */
  lemma AllocatePlacement(pools: seq<Pool>, nfill: nat, valueSize: nat, s: seq<byte>)
    requires |pools| <= MAX_POOLS && (|pools| == 0 ==> nfill == 0)
    requires CanAllocate(|pools|, nfill, valueSize, |s|)
    ensures var a := Allocate(pools, nfill, valueSize, s);
            var nbytes := RecordSize(valueSize, |s|);
            var opens := NeedsPool(|pools|, nfill, nbytes);
            var off := if opens then 0 else nfill;
            off < POOL_SIZE && a.vptr != 0 &&
            |a.pools| == |pools| + (if opens then 1 else 0) &&
            GetValue(a.vptr) == At(|a.pools| - 1, off) &&
            a.nfill == off + Align8(nbytes) &&
            (opens ==> a.pools[|a.pools| - 1].size == NewPoolSize(nbytes))
  {
    var nbytes := RecordSize(valueSize, |s|);
    var opens := NeedsPool(|pools|, nfill, nbytes);
    GetValueOfEncode(|pools| + (if opens then 1 else 0), if opens then 0 else nfill);
  }

  /** Pools that start with `before` keep all of it. */
  lemma PrefixExtends(before: seq<Pool>, after: seq<Pool>)
    requires |before| <= |after| && after[..|before|] == before
    ensures PoolsExtend(before, after)
  {
    forall i, o | 0 <= i < |before| && o in before[i].values
      ensures o in after[i].values && after[i].values[o] == before[i].values[o]
    {
      assert after[i] == after[..|before|][i];
    }
  }

  /** Writing a record at an unused offset of the last pool keeps every
      earlier record. */
  lemma WriteLastExtends(ps: seq<Pool>, off: nat, sv: StringValue)
    requires |ps| > 0 && off !in ps[|ps| - 1].values
    ensures PoolsExtend(ps, WriteLast(ps, off, sv))
  {
    var after := WriteLast(ps, off, sv);
    forall i, o | 0 <= i < |ps| && o in ps[i].values
      ensures o in after[i].values && after[i].values[o] == ps[i].values[o]
    {
      if i < |ps| - 1 {
        assert after[i] == after[..|ps| - 1][i];
      }
    }
  }

  lemma ExtendsTransitive(a: seq<Pool>, b: seq<Pool>, c: seq<Pool>)
    requires PoolsExtend(a, b) && PoolsExtend(b, c)
    ensures PoolsExtend(a, c)
  {
  }

  /** Allocation never moves or overwrites an earlier record. */
  lemma AllocateExtends(pools: seq<Pool>, nfill: nat, valueSize: nat, s: seq<byte>)
    requires PoolsValid(pools, nfill, valueSize)
    requires CanAllocate(|pools|, nfill, valueSize, |s|)
    ensures PoolsExtend(pools, Allocate(pools, nfill, valueSize, s).pools)
  {
    var nbytes := RecordSize(valueSize, |s|);
    var opens := NeedsPool(|pools|, nfill, nbytes);
    var ps := WithRoom(pools, opens, nbytes);
    var off := if opens then 0 else nfill;
    assert Allocate(pools, nfill, valueSize, s).pools == WriteLast(ps, off, Record(s));
    if opens {
      PrefixExtends(pools, ps);
      WriteLastExtends(ps, off, Record(s));
      ExtendsTransitive(pools, ps, WriteLast(ps, off, Record(s)));
    } else {
      assert ps == pools && EndsBy(pools[|pools| - 1], nfill, valueSize);
      WriteLastExtends(ps, off, Record(s));
    }
  }

  /** Writing a well-formed record behind every record of a pool, inside its
      first `POOL_SIZE` bytes and within the pool, at a multiple of 8, keeps
      the pool well formed, and the new record is then the last to end. */
  lemma AddRecordOk(p: Pool, off: nat, valueSize: nat, sv: StringValue)
    requires PoolOk(p, valueSize) && EndsBy(p, off, valueSize) && WellFormed(sv)
    requires off < POOL_SIZE && off % 8 == 0 && off + RecordSize(valueSize, sv.length) <= p.size
    ensures PoolOk(p.(values := p.values[off := sv]), valueSize)
    ensures EndsBy(p.(values := p.values[off := sv]), off + RecordSize(valueSize, sv.length), valueSize)
  {
    var q := p.(values := p.values[off := sv]);
    forall o | o in q.values && o != off
      ensures o < off && q.values[o] == p.values[o]
    {
      assert o + RecordSize(valueSize, p.values[o].length) <= off;
    }
  }

  /** Before the record is written: every pool is well formed, and the
      record fits the last pool at its offset, behind every record there. */
  lemma RoomReady(pools: seq<Pool>, nfill: nat, valueSize: nat, nbytes: nat)
    requires PoolsValid(pools, nfill, valueSize) && nbytes > 0
    requires NeedsPool(|pools|, nfill, nbytes) ==> |pools| < MAX_POOLS
    ensures var ps := WithRoom(pools, NeedsPool(|pools|, nfill, nbytes), nbytes);
            0 < |ps| <= MAX_POOLS && forall i | 0 <= i < |ps| :: PoolOk(ps[i], valueSize)
    ensures var opens := NeedsPool(|pools|, nfill, nbytes);
            var ps := WithRoom(pools, opens, nbytes);
            var off := if opens then 0 else nfill;
            off < POOL_SIZE && off % 8 == 0 && off + nbytes <= ps[|ps| - 1].size &&
            EndsBy(ps[|ps| - 1], off, valueSize)
  {
    var opens := NeedsPool(|pools|, nfill, nbytes);
    var ps := WithRoom(pools, opens, nbytes);
    forall i | 0 <= i < |ps|
      ensures PoolOk(ps[i], valueSize)
    {
      if i < |pools| {
        assert ps[i] == ps[..|pools|][i] == pools[i];
      }
    }
  }

  /** Writing a well-formed record of `nbytes` bytes into the last of
      well-formed pools, at an offset behind its records where it fits,
      leaves valid pools with the fill mark past the record, rounded up to 8. */
  lemma StoreValid(ps: seq<Pool>, off: nat, nbytes: nat, valueSize: nat, sv: StringValue)
    requires 0 < |ps| <= MAX_POOLS && off < POOL_SIZE && off % 8 == 0
    requires forall i | 0 <= i < |ps| :: PoolOk(ps[i], valueSize)
    requires EndsBy(ps[|ps| - 1], off, valueSize) && off + nbytes <= ps[|ps| - 1].size
    requires WellFormed(sv) && nbytes == RecordSize(valueSize, sv.length)
    ensures PoolsValid(WriteLast(ps, off, sv), off + Align8(nbytes), valueSize)
  {
    var n := |ps|;
    AddRecordOk(ps[n - 1], off, valueSize, sv);
    var ps' := WriteLast(ps, off, sv);
    assert ps'[n - 1] == ps[n - 1].(values := ps[n - 1].values[off := sv]);
    PoolsValidByParts(ps', off + Align8(nbytes), valueSize, off + nbytes, ps[..n - 1]);
  }

  /** Allocation keeps the pool bookkeeping valid. */
  lemma AllocateValid(pools: seq<Pool>, nfill: nat, valueSize: nat, s: seq<byte>)
    requires PoolsValid(pools, nfill, valueSize)
    requires CanAllocate(|pools|, nfill, valueSize, |s|)
    ensures var a := Allocate(pools, nfill, valueSize, s);
            PoolsValid(a.pools, a.nfill, valueSize)
  {
    var nbytes := RecordSize(valueSize, |s|);
    var opens := NeedsPool(|pools|, nfill, nbytes);
    var off := if opens then 0 else nfill;
    var ps := WithRoom(pools, opens, nbytes);
    RoomReady(pools, nfill, valueSize, nbytes);
    RecordText(s);
    StoreValid(ps, off, nbytes, valueSize, Record(s));
    var a := Allocate(pools, nfill, valueSize, s);
    assert a.pools == WriteLast(ps, off, Record(s)) && a.nfill == off + Align8(nbytes);
  }

  /** The pools are valid when all but the last are the pools of a valid
      state and the last is a well-formed pool whose records end by a mark
      the fill mark does not fall below. */
  lemma PoolsValidByParts(pools: seq<Pool>, nfill: nat, valueSize: nat, end: nat, prefix: seq<Pool>)
    requires 0 < |pools| <= MAX_POOLS && nfill % 8 == 0 && end <= nfill
    requires pools[..|pools| - 1] == prefix && forall i | 0 <= i < |prefix| :: PoolOk(prefix[i], valueSize)
    requires PoolOk(pools[|pools| - 1], valueSize) && EndsBy(pools[|pools| - 1], end, valueSize)
    ensures PoolsValid(pools, nfill, valueSize)
  {
    forall i | 0 <= i < |pools|
      ensures PoolOk(pools[i], valueSize)
    {
      if i < |pools| - 1 {
        assert pools[i] == prefix[i];
      }
    }
  }
}
