# DMD string table, modelled in Dafny

This project models DMD's string-interning table, `src/root/stringtable.c`. The model follows its three layers:

- **`MurmurHash`** (`hash.dfy`) models `calcHash`, Austin Appleby's MurmurHash2 seeded with the length.
  - `Hash` is the digest as a function of the bytes, in 32-bit wrap-around arithmetic (`bv32`).
  - `CalcHash` is the loop over four-byte little-endian chunks, the fall-through tail and the avalanche. It is proved to compute `Hash`.
- **`StringPool`** (`pool.dfy`) models the bump-allocated pools behind `allocValue` and `getValue`.
  - Each interned string is copied once into a record: a user pointer, the length, the bytes and a 0 terminator.
  - Records go into blocks of at least `POOL_SIZE` = 4096 bytes.
  - A record is named by a 32-bit vptr, `npools << 12 | nfill`. 0 is the null vptr.
  - A pool is its size plus the records written into it, keyed by offset.
  - `Allocate` is `allocValue` as a function of the pools and the fill mark.
- **`Probing`** (`probing.dfy`) is the arithmetic of the table.
  - It covers power-of-two sizes (`nextpow2`, doubling in `grow`).
  - It covers the triangular probe sequence of `findSlot`: probe `n` lands on `(home + n(n+1)/2) mod tabledim`.
  - The central result (`ProbeReaches`) is that the first `tabledim` probes of a power-of-two table visit every slot, which is why `findSlot` stops.
- **`StringTables`** (`stringtable.dfy`) is the table itself, a class with the fields of the C++ object:
  - `table` is an `array<StringEntry>` of `(hash, vptr)` entries; `tabledim` is its length;
  - `pools`, `npools`, `nfill` and `count`;
  - the constant `valueSize`, which stands for `sizeof(StringValue)`.

  Two ghost fields hold the abstract state: `Strings` maps every interned string to its vptr, and `Steps` gives the probe step at which each string's entry sits. `Valid()` is the invariant kept by every operation:
  - `tabledim` is a power of two, at least 32;
  - the pools are valid;
  - every interned string sits on its own probe sequence, after slots that are all in use (`Placed`);
  - every slot in use holds an interned string at that string's probe step (`Owned`);
  - `count` equals both the number of strings and the number of slots in use;
  - `5 * count <= 4 * tabledim`.
- **`Scenarios`** (`scenarios.dfy`) shows what a caller can rely on across several calls.

`update` and `insert` share their insertion path, modelled as `Enter`, `Place` and `Store`.
- `Enter` grows the table when the count test asks for it, then probes again.
- `Place` counts the string, allocates its record and stores the entry.
- `Store` writes the slot.

`grow` is modelled as `Grow`, its loop as `MoveAll`, and the loop body as `MoveIn`.

## Model

| member | source | states |
|---|---|---|
| MurmurHash.CalcHash | src/root/stringtable.c:26-79 | the loop computes exactly `Hash(key)`, the digest defined chunk by chunk over any byte string |
| MurmurHash.BodyLength | src/root/stringtable.c:42-59 | the body loop consumes a multiple of 4 bytes and leaves fewer than 4 |
| MurmurHash.ChunkLittleEndian | src/root/stringtable.c:47 | byte `i` of a chunk is `data[i]`: the chunk is read little-endian |
| MurmurHash.ChunkOfBytes | src/root/stringtable.c:47 | every 32-bit word is the chunk of its own four bytes |
| MurmurHash.TailOfNothing | src/root/stringtable.c:63-69 | with no trailing byte the tail leaves the state alone, with no `h *= m` |
| MurmurHash.HashOfEmpty | src/root/stringtable.c:36-78 | the digest of the empty string is 0 |
| MurmurHash.HashOfA | src/root/stringtable.c:26-79 | the digest of "a" (a one-byte tail) is 0x92685f5e |
| MurmurHash.HashOfFoo | src/root/stringtable.c:26-79 | the digest of "foo" (a three-byte tail) is 0x8fea6375 |
| MurmurHash.HashOfHello | src/root/stringtable.c:26-79 | the digest of "hello" (one chunk and a one-byte tail) is 0xe56129cb |
| StringPool.Encode | src/root/stringtable.c:103 | the vptr of a pool and an offset gives back the pool above 12 bits and the offset below; it is 0 exactly when both are 0 |
| StringPool.ShiftOrIsSum | src/root/stringtable.c:103 | on 32-bit words, shifting the pool up by 12 bits and or-ing in the offset gives `pool * 4096 + offset`; shifting and masking give back pool and offset |
| StringPool.ShiftMaskIsDivMod | src/root/stringtable.c:112-113 | `vptr >> 12` and `vptr & 4095` are the quotient and remainder by 4096 |
| StringPool.GetValue | src/root/stringtable.c:108-115 | null exactly for vptr 0; otherwise a pool index below `MAX_POOLS` and an offset below `POOL_SIZE` that encode back to the vptr |
| StringPool.GetValueOfEncode | src/root/stringtable.c:103-114 | decoding undoes encoding: the vptr of pool `npools` at `nfill` decodes to pool index `npools - 1` at offset `nfill` |
| StringPool.Align8 | src/root/stringtable.c:104 | `n + (-n & 7)` is a multiple of 8, at least `n` and less than `n + 8` |
| StringPool.Align8Least | src/root/stringtable.c:104 | ... and no multiple of 8 at least `n` is smaller |
| StringPool.Text | src/root/stringtable.c:99-101 | the text of a record has the record's length, and the stored bytes are the text followed by a 0 terminator |
| StringPool.RecordText | src/root/stringtable.c:97-101 | the record written for `s` is well formed, its text is `s` and its `ptrvalue` is NULL |
| StringPool.WithRoom | src/root/stringtable.c:90-95 | opening a pool appends one pool and keeps every earlier one |
| StringPool.WriteLast | src/root/stringtable.c:97-101 | writing a record changes only the last pool |
| StringPool.ExtendKeepsRef | src/root/stringtable.c:90-101 | once the pools keep every earlier record, every earlier vptr still names the same record |
| StringPool.Allocate | src/root/stringtable.c:86-106 | the returned vptr names a record of the new pools, and that record is the one written for `s` |
| StringPool.AllocatePlacement | src/root/stringtable.c:88-104 | a pool opens exactly when there is none or the record does not fit behind `nfill`; a new pool has `max(nbytes, POOL_SIZE)` bytes; the record goes at offset 0 of a new pool, else at the old `nfill`, and that offset is below `POOL_SIZE`; `getValue` of the vptr is the last pool at that offset; the vptr is never 0; the new `nfill` is the record's end rounded up to 8 |
| StringPool.AllocateExtends | src/root/stringtable.c:90-101 | allocation never moves or overwrites an earlier pool or record |
| StringPool.AddRecordOk | src/root/stringtable.c:97-104 | a record written behind every record of a pool, at a multiple of 8 below `POOL_SIZE` and within the pool, keeps the pool well formed and is the last to end |
| StringPool.AllocateValid | src/root/stringtable.c:88-104 | allocation keeps the pool bookkeeping valid: at most `MAX_POOLS` pools and `nfill` a multiple of 8, past every record of the last pool; each record is well formed, starts below `POOL_SIZE` at a multiple of 8, lies within its pool and does not overlap the next |
| Probing.NextPow2 | src/root/stringtable.c:117-123 | the result is a power of two, at least `val`, and no power of two at least `val` is smaller |
| Probing.Pow2Double | src/root/stringtable.c:212 | doubling a power of two gives a power of two |
| Probing.Pow2Gap | src/root/stringtable.c:119-121 | two distinct powers of two are at least a factor of two apart |
| Probing.ProbeStep | src/root/stringtable.c:153-161 | stepping `i = (i + j) mod tabledim` from probe `n` with `j = n + 1` lands on probe `n + 1` |
| Probing.TriClosedForm | src/root/stringtable.c:151-161 | the offset of probe `n` is `n(n+1)/2` |
| Probing.ProbesDistinct | src/root/stringtable.c:151-162 | in a power-of-two table the first `tabledim` probes from any home slot are pairwise distinct |
| Probing.VisitedCount | src/root/stringtable.c:151-162 | the first `m <= tabledim` probes visit exactly `m` slots |
| Probing.ProbeReaches | src/root/stringtable.c:151-162 | every slot is reached within the first `tabledim` probes from any home slot |
| StringTables.FreeSlot | src/root/stringtable.c:153-162 | a table with fewer slots in use than slots has a free slot, which bounds the probe loop |
| StringTables.StoreOccupies | src/root/stringtable.c:184-185 | filling a free slot puts exactly one more slot in use |
| StringTables.ProbeHit | src/root/stringtable.c:156-160 | a probe that stops at an entry with the same hash, length and bytes has found the string's own entry, at its own probe step |
| StringTables.PlacedProbe | src/root/stringtable.c:156-161 | the probe sequence of an interned string reaches its entry at its probe step, after slots in use only |
| StringTables.ProbeMiss | src/root/stringtable.c:156-160 | a probe that reaches a free slot after slots holding other strings shows the string is not interned |
| StringTables.SlotFound | src/root/stringtable.c:149-163 | the slot `findSlot` stops at is free exactly when the string is not interned, and otherwise holds that string's entry; every slot probed before it is in use |
| StringTables.DistinctTexts | src/root/stringtable.c:176-185 | no two slots in use hold byte-equal strings |
| StringTables.SlotsResolve | src/root/stringtable.c:158 | every slot in use names a well-formed record, so `getValue` in `findSlot` is safe |
| StringTables.StoreKeepsSlots | src/root/stringtable.c:184-185 | storing a new string's entry in the free slot its probe reached keeps every string placed and every slot owned, with the string added |
| StringTables.ExtendKeepsSlots | src/root/stringtable.c:92-101 | allocating a record keeps the slots and the strings in agreement |
| StringTables.EnterStore | src/root/stringtable.c:184-185 | allocating the record of a new string and storing its entry keeps the whole table state, with one string more |
| StringTables.StoreNew | src/root/stringtable.c:220 | storing a string's entry where `findSlot` stopped in a table that lacks it keeps the table state, with the string added |
| StringTables.NextMove | src/root/stringtable.c:215-220 | the slot in use `i` of the old table holds a string not moved yet, with its stored hash, and moving it extends the moved part by slot `i` |
| StringTables.AllMoved | src/root/stringtable.c:215-221 | once the loop has passed every old slot, every string has moved |
| StringTables.StringTable.constructor | src/root/stringtable.c:127-136 | `tabledim` is the least power of two at least 32 and at least `size * 5 / 4`; the table is empty and there are no pools, no strings and a zero count |
| StringTables.StringTable.AllocValue | src/root/stringtable.c:86-106 | the new pools, fill mark and vptr are those of `Allocate` |
| StringTables.StringTable.FindSlot | src/root/stringtable.c:149-163 | it returns probe `n < tabledim` of the hash; every probe before it hits an entry in use whose hash, length or bytes differ; the returned slot is free or holds exactly `s` with this hash |
| StringTables.StringTable.Search | src/root/stringtable.c:149-163 | on a valid table, the returned slot is free exactly when `s` is not interned, and otherwise holds the entry of `s` |
| StringTables.StringTable.MoveIn | src/root/stringtable.c:217-220 | the entry `se` is stored, unchanged, in the slot where `findSlot` stops in the new table, and the new table then holds that string as well |
| StringTables.StringTable.MoveAll | src/root/stringtable.c:215-221 | after the loop, the new table holds exactly the strings of the old one, with the same vptrs |
| StringTables.StringTable.Grow | src/root/stringtable.c:208-223 | `tabledim` doubles; the table stays valid and holds the same strings with the same vptrs; pools, `nfill` and `count` are unchanged |
| StringTables.StringTable.Enter | src/root/stringtable.c:179-185 | the string is interned with a fresh record from `Allocate`; `count` goes up by one; `tabledim` doubles exactly when the new count exceeds four fifths of it |
| StringTables.StringTable.Place | src/root/stringtable.c:184-185 | counting, allocating and storing in the free slot makes the string interned with the vptr of `Allocate` and keeps the table valid |
| StringTables.StringTable.Store | src/root/stringtable.c:184-185 | writing the entry makes the string interned and keeps the table's slots and strings in agreement |
| StringTables.StringTable.Lookup | src/root/stringtable.c:165-171 | null exactly when `s` is not interned; otherwise the record of `s`, whose text is `s`; nothing changes |
| StringTables.StringTable.Update | src/root/stringtable.c:173-189 | never null: the record of `s`, whose text is `s`; an interned string changes nothing; a new one is interned with one more count and a fresh record, growing the table past four fifths |
| StringTables.StringTable.Insert | src/root/stringtable.c:191-206 | null with nothing changed when `s` is already interned; otherwise as `Update` for a new string |
| Scenarios.UpdateTwice | src/root/stringtable.c:173-189 | a second `update` of the same bytes yields the same record |
| Scenarios.InsertThenLookup | src/root/stringtable.c:165-206 | after `insert`, `lookup` finds the record it returned and a second `insert` yields null |
| Scenarios.TwentyFifth | src/root/stringtable.c:197-201 | at 32 slots the 25th string is inserted without growing |
| Scenarios.TwentySixth | src/root/stringtable.c:197-201 | at 32 slots the 26th string grows the table once, to 64 slots |

## Left out

- Memory management is not modelled:
  - `mem.malloc`, `calloc`, `realloc` and `free` always succeed;
  - `calloc` yields a fresh array of empty entries;
  - the destructor (lines 138-147) and `mem.free(otab)` in `grow` are left out. Allocation failure does not arise.
- The `double` load factor in `update` and `insert` is modelled as the integer test `5 * (count + 1) > 4 * tabledim`.
  - `4 * tabledim / 5` is never an integer for a power of two.
  - The rounding error of `0.8` is far below 1/5.
  - So the two tests agree at every table size the model reaches.
- The count is raised right after the growth test instead of before it. `grow` neither reads nor changes `count`, so nothing observable differs.
- StringTables.StringTable.constructor: it takes the size hint as `size * 5 / 4` in integer arithmetic. The source converts `size / 0.8` in floating point to `size_t`, and that rounding is not modelled bit for bit.
- The x86 unaligned native load (lines 44-45) is not modelled. The model uses the portable little-endian expression of line 47, which is the same value on little-endian machines.
- The byte layout of `StringValue` and the pointer casts are not modelled:
  - a record is a datatype value at an offset of its pool;
  - `sizeof(StringValue)` is the class constant `valueSize`.
  - `stringtable.h`, which defines `StringValue` and `hash_t`, is not part of this model. `hash_t` is taken as 32 bits, the width of `StringEntry.hash`.
- The model does not wrap vptrs. Opening pool number 2^20 or more would overflow the 12-bit shift of the 32-bit vptr.
  - StringTables.StringTable.AllocValue, Update and Insert require instead (`CanAllocate`) that allocation never has to open such a pool.
  - `MAX_POOLS` bounds the pool count.
- `findSlot` reduces indices with `& (tabledim - 1)`. The model reduces them with `% tabledim`, which is the same for the power-of-two sizes the invariant guarantees.
- `size_t` is not modelled at its fixed width, so these are left out:
  - the overflow of `nextpow2` above 2^63;
  - the overflow of `tabledim *= 2` and of `nfill + nbytes`.
- `memcmp` is modelled as equality of byte sequences.
- Also left out:
  - callers' use of `ptrvalue` beyond its NULL initialisation;
  - the commented-out `printf` calls;
  - threads, which the code does not use.
