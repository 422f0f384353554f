/** The string table: an open-addressing hash table of `(hash, vptr)`
    entries whose size is a power of two, probed with triangular steps,
    grown to twice its size when more than four fifths of it would be in
    use, over the string pools of `StringPool`.

    The ghost maps `Strings` and `Steps` are the abstract state: every
    interned string, its vptr, and the probe step at which its entry sits. */
module StringTables {
  import opened MurmurHash
  import opened Probing
  import opened StringPool

  datatype StringEntry = StringEntry(hash: bv32, vptr: Word)

  /** A slot as `calloc` leaves it; a slot is free exactly when its vptr is
      the null vptr. */
  const EMPTY: StringEntry := StringEntry(0, 0)

  /** The home slot of a hash, before it is reduced modulo the table size:
      `hash & (tabledim - 1)` is `hash % tabledim` for a power-of-two size. */
  function Home(hash: bv32): nat
  {
    hash as int
  }

  /** The slots in use. */
  function OccupiedSlots(t: seq<StringEntry>): set<nat>
  {
    set k: nat | k < |t| && t[k].vptr != 0
  }

  /** A table with fewer slots in use than slots has a free slot. */
  lemma FreeSlot(t: seq<StringEntry>) returns (k: nat)
    requires |OccupiedSlots(t)| < |t|
    ensures k < |t| && t[k].vptr == 0
  {
    SlotsCount(|t|);
    assert OccupiedSlots(t) <= Slots(|t|);
    var free := Slots(|t|) - OccupiedSlots(t);
    assert |free| > 0;
    k :| k in free;
  }

  /** Filling a free slot puts exactly one more slot in use. */
  lemma StoreOccupies(t: seq<StringEntry>, k: nat, e: StringEntry)
    requires k < |t| && t[k].vptr == 0 && e.vptr != 0
    ensures OccupiedSlots(t[k := e]) == OccupiedSlots(t) + {k}
    ensures |OccupiedSlots(t[k := e])| == |OccupiedSlots(t)| + 1
  {
    assert OccupiedSlots(t[k := e]) == OccupiedSlots(t) + {k};
  }

  lemma NoneOccupied(n: nat)
    ensures OccupiedSlots(seq(n, _ => EMPTY)) == {}
  {
  }

  /** The test of `findSlot`: entry `e` holds the string `s` whose hash is
      `hash` (same hash, then same length, then same bytes). */
  predicate Matches(pools: seq<Pool>, e: StringEntry, hash: bv32, s: seq<byte>)
  {
    e.vptr != 0 && e.hash == hash && ValidRef(pools, e.vptr) &&
    var sv := Deref(pools, e.vptr);
    sv.length == |s| && |s| <= |sv.lstring| && sv.lstring[..|s|] == s
  }

  /** String `s`, with vptr `v`, sits at probe step `n` of its own probe
      sequence, and the probes before it all hit slots in use. */
  ghost predicate Placed(t: seq<StringEntry>, pools: seq<Pool>, s: seq<byte>, v: Word, n: nat)
    requires |t| > 0
  {
    n < |t| && ValidRef(pools, v) && WellFormed(Deref(pools, v)) && Text(Deref(pools, v)) == s &&
    t[Probe(Home(Hash(s)), n, |t|)] == StringEntry(Hash(s), v) && Blocked(t, Hash(s), n)
  }

  /** The first `n` probes from the home slot of `hash` hit slots in use. */
  ghost predicate Blocked(t: seq<StringEntry>, hash: bv32, n: nat)
    requires |t| > 0
  {
    forall m | 0 <= m < n :: t[Probe(Home(hash), m, |t|)].vptr != 0
  }

  /** Slot `k` in use holds the entry of an interned string, at that string's
      probe step. */
  ghost predicate Owned(t: seq<StringEntry>, pools: seq<Pool>, strings: map<seq<byte>, Word>,
                        steps: map<seq<byte>, nat>, k: nat)
    requires k < |t|
  {
    ValidRef(pools, t[k].vptr) && WellFormed(Deref(pools, t[k].vptr)) &&
    var s := Text(Deref(pools, t[k].vptr));
    s in strings && s in steps && strings[s] == t[k].vptr && t[k].hash == Hash(s) &&
    Probe(Home(Hash(s)), steps[s], |t|) == k
  }

  /** The slots and the abstract state agree: every interned string is
      placed, and every slot in use is owned. */
  ghost predicate SlotsInv(t: seq<StringEntry>, strings: map<seq<byte>, Word>,
                           steps: map<seq<byte>, nat>, pools: seq<Pool>)
  {
    |t| > 0 && (forall s | s in strings :: s in steps) &&
    (forall s {:trigger Placed(t, pools, s, strings[s], steps[s])} | s in strings ::
       Placed(t, pools, s, strings[s], steps[s])) &&
    (forall k: nat {:trigger Owned(t, pools, strings, steps, k)} | k < |t| && t[k].vptr != 0 ::
       Owned(t, pools, strings, steps, k))
  }

  lemma EmptySlots(n: nat, pools: seq<Pool>)
    requires n > 0
    ensures SlotsInv(seq(n, _ => EMPTY), map[], map[], pools)
  {
  }

  /** The first `n` probes for `s` with hash `hash` all hit slots in use
      that hold other strings. */
  ghost predicate PassedBy(t: seq<StringEntry>, pools: seq<Pool>, hash: bv32, s: seq<byte>, n: nat)
    requires |t| > 0
  {
    forall m | 0 <= m < n ::
      t[Probe(Home(hash), m, |t|)].vptr != 0 && !Matches(pools, t[Probe(Home(hash), m, |t|)], hash, s)
  }

  /** Probe `n` for `s` with hash `hash` hits a free slot or one holding `s`. */
  ghost predicate StopsAt(t: seq<StringEntry>, pools: seq<Pool>, hash: bv32, s: seq<byte>, n: nat)
    requires |t| > 0
  {
    var e := t[Probe(Home(hash), n, |t|)];
    e.vptr == 0 || Matches(pools, e, hash, s)
  }

  /** A probe that stops at a slot holding `s` found the entry of `s`, at
      its own probe step. */
  lemma ProbeHit(t: seq<StringEntry>, strings: map<seq<byte>, Word>, steps: map<seq<byte>, nat>,
                 pools: seq<Pool>, s: seq<byte>, n: nat)
    requires SlotsInv(t, strings, steps, pools) && IsPow2(|t|) && n < |t|
    requires Matches(pools, t[Probe(Home(Hash(s)), n, |t|)], Hash(s), s)
    ensures s in strings && steps[s] == n
    ensures t[Probe(Home(Hash(s)), n, |t|)] == StringEntry(Hash(s), strings[s])
  {
    var h, d := Home(Hash(s)), |t|;
    var k := Probe(h, n, d);
    assert Owned(t, pools, strings, steps, k);
    assert Text(Deref(pools, t[k].vptr)) == s;
    assert Placed(t, pools, s, strings[s], steps[s]);
    if steps[s] < n {
      ProbesDistinct(h, d, steps[s], n);
    } else if steps[s] > n {
      ProbesDistinct(h, d, n, steps[s]);
    }
  }

  /** The probe sequence of an interned string: it reaches the string's
      own entry at its probe step, after slots in use only. */
  lemma PlacedProbe(t: seq<StringEntry>, strings: map<seq<byte>, Word>, steps: map<seq<byte>, nat>,
                    pools: seq<Pool>, s: seq<byte>, n: nat)
    requires SlotsInv(t, strings, steps, pools) && s in strings && n < |t|
    ensures var h, ns := Home(Hash(s)), steps[s];
            t[Probe(h, ns, |t|)].vptr != 0 && Matches(pools, t[Probe(h, ns, |t|)], Hash(s), s) &&
            (ns > n ==> t[Probe(h, n, |t|)].vptr != 0)
  {
    var h, d, ns := Home(Hash(s)), |t|, steps[s];
    assert Placed(t, pools, s, strings[s], ns);
    var e := t[Probe(h, ns, d)];
    assert e.vptr == strings[s] != 0;
    assert Deref(pools, e.vptr).lstring[..|s|] == s;
  }

  /** A probe that reaches a free slot after slots that are in use and do
      not hold `s` shows that `s` is not interned. */
  lemma ProbeMiss(t: seq<StringEntry>, strings: map<seq<byte>, Word>, steps: map<seq<byte>, nat>,
                  pools: seq<Pool>, s: seq<byte>, n: nat)
    requires SlotsInv(t, strings, steps, pools) && n < |t|
    requires PassedBy(t, pools, Hash(s), s, n)
    requires t[Probe(Home(Hash(s)), n, |t|)].vptr == 0
    ensures s !in strings
  {
    if s in strings {
      PlacedProbe(t, strings, steps, pools, s, n);
    }
  }

  /** The slot `findSlot` stops at is free exactly when the string is not
      interned, and otherwise holds the string's entry at its own probe
      step. */
  lemma SlotFound(t: seq<StringEntry>, strings: map<seq<byte>, Word>, steps: map<seq<byte>, nat>,
                  pools: seq<Pool>, s: seq<byte>, n: nat)
    requires SlotsInv(t, strings, steps, pools) && IsPow2(|t|) && n < |t|
    requires PassedBy(t, pools, Hash(s), s, n)
    requires StopsAt(t, pools, Hash(s), s, n)
    ensures t[Probe(Home(Hash(s)), n, |t|)].vptr == 0 <==> s !in strings
    ensures s in strings ==> t[Probe(Home(Hash(s)), n, |t|)] == StringEntry(Hash(s), strings[s]) && steps[s] == n
    ensures Blocked(t, Hash(s), n)
  {
    if t[Probe(Home(Hash(s)), n, |t|)].vptr == 0 {
      ProbeMiss(t, strings, steps, pools, s, n);
    } else {
      ProbeHit(t, strings, steps, pools, s, n);
    }
  }

  /** No two slots in use hold the same string. */
  lemma DistinctTexts(t: seq<StringEntry>, strings: map<seq<byte>, Word>, steps: map<seq<byte>, nat>,
                      pools: seq<Pool>, j: nat, k: nat)
    requires SlotsInv(t, strings, steps, pools) && j < k < |t| && t[j].vptr != 0 && t[k].vptr != 0
    ensures ValidRef(pools, t[j].vptr) && WellFormed(Deref(pools, t[j].vptr))
    ensures ValidRef(pools, t[k].vptr) && WellFormed(Deref(pools, t[k].vptr))
    ensures Text(Deref(pools, t[j].vptr)) != Text(Deref(pools, t[k].vptr))
  {
    assert Owned(t, pools, strings, steps, j);
    assert Owned(t, pools, strings, steps, k);
  }

  /** Every slot in use names a well-formed record. */
  ghost predicate EntriesResolve(t: seq<StringEntry>, pools: seq<Pool>)
  {
    forall k: nat | k < |t| && t[k].vptr != 0 :: ValidRef(pools, t[k].vptr) && WellFormed(Deref(pools, t[k].vptr))
  }

  lemma SlotsResolve(t: seq<StringEntry>, strings: map<seq<byte>, Word>, steps: map<seq<byte>, nat>,
                     pools: seq<Pool>)
    requires SlotsInv(t, strings, steps, pools)
    ensures EntriesResolve(t, pools)
  {
    forall k: nat | k < |t| && t[k].vptr != 0
      ensures ValidRef(pools, t[k].vptr) && WellFormed(Deref(pools, t[k].vptr))
    {
      assert Owned(t, pools, strings, steps, k);
    }
  }

  /** Storing the entry of a new string in the free slot its probe reached,
      after probes that all hit slots in use, keeps the slots and the
      abstract state in agreement. */
  lemma StoreKeepsSlots(t: seq<StringEntry>, strings: map<seq<byte>, Word>, steps: map<seq<byte>, nat>,
                        pools: seq<Pool>, s: seq<byte>, v: Word, n: nat)
    requires SlotsInv(t, strings, steps, pools) && s !in strings && n < |t|
    requires t[Probe(Home(Hash(s)), n, |t|)].vptr == 0
    requires Blocked(t, Hash(s), n)
    requires ValidRef(pools, v) && WellFormed(Deref(pools, v)) && Text(Deref(pools, v)) == s
    ensures SlotsInv(t[Probe(Home(Hash(s)), n, |t|) := StringEntry(Hash(s), v)],
                     strings[s := v], steps[s := n], pools)
  {
    StoreKeepsPlaced(t, strings, steps, pools, s, v, n);
    StoreKeepsOwned(t, strings, steps, pools, s, v, n);
    var t' := t[Probe(Home(Hash(s)), n, |t|) := StringEntry(Hash(s), v)];
    var strings', steps' := strings[s := v], steps[s := n];
    forall s' | s' in strings'
      ensures s' in steps' && Placed(t', pools, s', strings'[s'], steps'[s'])
    {
      if s' != s {
        assert s' in strings;
      }
    }
  }

  lemma StoreKeepsPlaced(t: seq<StringEntry>, strings: map<seq<byte>, Word>, steps: map<seq<byte>, nat>,
                         pools: seq<Pool>, s: seq<byte>, v: Word, n: nat)
    requires SlotsInv(t, strings, steps, pools) && s !in strings && n < |t|
    requires t[Probe(Home(Hash(s)), n, |t|)].vptr == 0
    requires Blocked(t, Hash(s), n)
    requires ValidRef(pools, v) && WellFormed(Deref(pools, v)) && Text(Deref(pools, v)) == s
    ensures var t' := t[Probe(Home(Hash(s)), n, |t|) := StringEntry(Hash(s), v)];
            Placed(t', pools, s, v, n) &&
            forall s' | s' in strings :: Placed(t', pools, s', strings[s'], steps[s'])
  {
    var k := Probe(Home(Hash(s)), n, |t|);
    var e := StringEntry(Hash(s), v);
    PlacedNew(t, pools, s, v, n);
    forall s' | s' in strings
      ensures Placed(t[k := e], pools, s', strings[s'], steps[s'])
    {
      PlacedAfterStore(t, pools, s', strings[s'], steps[s'], k, e);
    }
  }

  /** The new string is placed where its probe found a free slot. */
  lemma PlacedNew(t: seq<StringEntry>, pools: seq<Pool>, s: seq<byte>, v: Word, n: nat)
    requires n < |t| && t[Probe(Home(Hash(s)), n, |t|)].vptr == 0
    requires Blocked(t, Hash(s), n)
    requires ValidRef(pools, v) && WellFormed(Deref(pools, v)) && Text(Deref(pools, v)) == s
    ensures Placed(t[Probe(Home(Hash(s)), n, |t|) := StringEntry(Hash(s), v)], pools, s, v, n)
  {
    var h, d := Home(Hash(s)), |t|;
    var k := Probe(h, n, d);
    var t' := t[k := StringEntry(Hash(s), v)];
    forall m | 0 <= m < n
      ensures t'[Probe(h, m, d)].vptr != 0
    {
      assert t[Probe(h, m, d)].vptr != 0;
    }
  }

  /** Filling a free slot keeps every string where it was placed. */
  lemma PlacedAfterStore(t: seq<StringEntry>, pools: seq<Pool>, s: seq<byte>, v: Word, n: nat,
                         k: nat, e: StringEntry)
    requires |t| > 0 && Placed(t, pools, s, v, n) && k < |t| && t[k].vptr == 0 && e.vptr != 0
    ensures Placed(t[k := e], pools, s, v, n)
  {
    var h, d := Home(Hash(s)), |t|;
    assert t[Probe(h, n, d)].vptr == v != 0;
    forall m | 0 <= m < n
      ensures t[k := e][Probe(h, m, d)].vptr != 0
    {
      assert t[Probe(h, m, d)].vptr != 0;
    }
  }

  lemma StoreKeepsOwned(t: seq<StringEntry>, strings: map<seq<byte>, Word>, steps: map<seq<byte>, nat>,
                        pools: seq<Pool>, s: seq<byte>, v: Word, n: nat)
    requires SlotsInv(t, strings, steps, pools) && s !in strings && n < |t|
    requires t[Probe(Home(Hash(s)), n, |t|)].vptr == 0
    requires ValidRef(pools, v) && WellFormed(Deref(pools, v)) && Text(Deref(pools, v)) == s
    ensures var t' := t[Probe(Home(Hash(s)), n, |t|) := StringEntry(Hash(s), v)];
            forall j: nat | j < |t'| && t'[j].vptr != 0 :: Owned(t', pools, strings[s := v], steps[s := n], j)
  {
    var k := Probe(Home(Hash(s)), n, |t|);
    var e := StringEntry(Hash(s), v);
    var t' := t[k := e];
    forall j: nat | j < |t'| && t'[j].vptr != 0
      ensures Owned(t', pools, strings[s := v], steps[s := n], j)
    {
      if j != k {
        OwnedAfterStore(t, pools, strings, steps, j, k, e, s, v, n);
      }
    }
  }

  /** Filling a free slot for a new string keeps every other slot owned. */
  lemma OwnedAfterStore(t: seq<StringEntry>, pools: seq<Pool>, strings: map<seq<byte>, Word>,
                        steps: map<seq<byte>, nat>, j: nat, k: nat, e: StringEntry,
                        s: seq<byte>, v: Word, n: nat)
    requires j < |t| && k < |t| && j != k && Owned(t, pools, strings, steps, j) && s !in strings
    ensures Owned(t[k := e], pools, strings[s := v], steps[s := n], j)
  {
    var sj := Text(Deref(pools, t[j].vptr));
    assert sj in strings && sj != s;
  }

  /** Allocation that keeps every earlier record keeps the slots and the
      abstract state in agreement. */
  lemma ExtendKeepsSlots(t: seq<StringEntry>, strings: map<seq<byte>, Word>, steps: map<seq<byte>, nat>,
                         pools: seq<Pool>, pools': seq<Pool>)
    requires SlotsInv(t, strings, steps, pools) && PoolsExtend(pools, pools')
    ensures SlotsInv(t, strings, steps, pools')
  {
    forall s | s in strings
      ensures Placed(t, pools', s, strings[s], steps[s])
    {
      assert Placed(t, pools, s, strings[s], steps[s]);
      ExtendKeepsRef(pools, pools', strings[s]);
    }
    forall k: nat | k < |t| && t[k].vptr != 0
      ensures Owned(t, pools', strings, steps, k)
    {
      assert Owned(t, pools, strings, steps, k);
      ExtendKeepsRef(pools, pools', t[k].vptr);
    }
  }

  /** The slot of `t` that each interned string's entry occupies. */
  ghost function OldSlots(t: seq<StringEntry>, strings: map<seq<byte>, Word>,
                          steps: map<seq<byte>, nat>): (slot: map<seq<byte>, nat>)
    requires |t| > 0 && forall s | s in strings :: s in steps
    ensures slot.Keys == strings.Keys
  {
    map s | s in strings :: Probe(Home(Hash(s)), steps[s], |t|)
  }

  /** `slot` gives each interned string a slot of `t` holding its vptr, and
      the string is the text of the record that vptr names. */
  ghost predicate SlotsOf(t: seq<StringEntry>, strings: map<seq<byte>, Word>,
                          slot: map<seq<byte>, nat>, pools: seq<Pool>)
  {
    forall s | s in strings ::
      s in slot && slot[s] < |t| && t[slot[s]].vptr == strings[s] &&
      ValidRef(pools, strings[s]) && WellFormed(Deref(pools, strings[s])) && Text(Deref(pools, strings[s])) == s
  }

  /** The slots of an agreeing table are the ones its probe steps name. */
  lemma OldSlotsOf(t: seq<StringEntry>, strings: map<seq<byte>, Word>, steps: map<seq<byte>, nat>,
                   pools: seq<Pool>)
    requires SlotsInv(t, strings, steps, pools)
    ensures SlotsOf(t, strings, OldSlots(t, strings, steps), pools)
  {
    forall s | s in strings
      ensures Probe(Home(Hash(s)), steps[s], |t|) < |t|
      ensures t[Probe(Home(Hash(s)), steps[s], |t|)].vptr == strings[s]
      ensures ValidRef(pools, strings[s]) && WellFormed(Deref(pools, strings[s])) && Text(Deref(pools, strings[s])) == s
    {
      assert Placed(t, pools, s, strings[s], steps[s]);
    }
  }

  /** The slot in use `i` of an agreeing table holds an interned string,
      with that string's hash, at the slot `OldSlots` gives it. */
  lemma SlotHolder(t: seq<StringEntry>, strings: map<seq<byte>, Word>, steps: map<seq<byte>, nat>,
                   pools: seq<Pool>, i: nat)
    requires SlotsInv(t, strings, steps, pools) && i < |t| && t[i].vptr != 0
    ensures ValidRef(pools, t[i].vptr) && WellFormed(Deref(pools, t[i].vptr))
    ensures var s := Text(Deref(pools, t[i].vptr));
            s in strings && strings[s] == t[i].vptr && t[i].hash == Hash(s) &&
            OldSlots(t, strings, steps)[s] == i
  {
    assert Owned(t, pools, strings, steps, i);
  }

  /** The part of its entries that `grow` has moved into the new table:
      `moved` holds exactly those strings of `strings` whose old slot is
      below `i`. */
  ghost predicate MovedBelow(moved: map<seq<byte>, Word>, strings: map<seq<byte>, Word>,
                             slot: map<seq<byte>, nat>, i: nat)
  {
    (forall s | s in moved :: s in strings && moved[s] == strings[s] && s in slot && slot[s] < i) &&
    (forall s | s in strings && s in slot && slot[s] < i :: s in moved)
  }

  /** The slots of a table as values: a power-of-two number of them, at
      least 32, that agree with `strings`, with one free. */
  ghost predicate TableSlots(t: seq<StringEntry>, strings: map<seq<byte>, Word>, steps: map<seq<byte>, nat>,
                             pools: seq<Pool>)
  {
    IsPow2(|t|) && |t| >= 32 && SlotsInv(t, strings, steps, pools) && |OccupiedSlots(t)| == |strings| < |t|
  }

  /** The state of a table as values: its slots, over valid pools. */
  ghost predicate TableState(t: seq<StringEntry>, strings: map<seq<byte>, Word>, steps: map<seq<byte>, nat>,
                             pools: seq<Pool>, nfill: nat, valueSize: nat)
  {
    PoolsValid(pools, nfill, valueSize) && TableSlots(t, strings, steps, pools)
  }

  /** Interning a new string: allocating its record and storing its entry in
      the free slot its probe reached keeps the table state, with one string
      more, as long as a slot stays free. */
  lemma EnterStore(t: seq<StringEntry>, strings: map<seq<byte>, Word>, steps: map<seq<byte>, nat>,
                   pools: seq<Pool>, nfill: nat, valueSize: nat, s: seq<byte>, n: nat,
                   k: nat, hash: bv32, pools': seq<Pool>, nfill': nat, v: Word)
    requires TableState(t, strings, steps, pools, nfill, valueSize) && |strings| + 1 < |t|
    requires s !in strings && CanAllocate(|pools|, nfill, valueSize, |s|) && n < |t|
    requires hash == Hash(s) && k == Probe(Home(hash), n, |t|)
    requires t[k].vptr == 0 && Blocked(t, hash, n)
    requires Allocation(pools', nfill', v) == Allocate(pools, nfill, valueSize, s)
    ensures TableState(t[k := StringEntry(hash, v)], strings[s := v], steps[s := n], pools', nfill', valueSize)
  {
    AllocateExtends(pools, nfill, valueSize, s);
    AllocateValid(pools, nfill, valueSize, s);
    RecordText(s);
    ExtendKeepsSlots(t, strings, steps, pools, pools');
    StoreKeepsSlots(t, strings, steps, pools', s, v, n);
    StoreOccupies(t, k, StringEntry(hash, v));
  }

  /** Storing the entry of a string that is not in the table yet in the
      slot where `findSlot` stopped keeps the table state, with that string
      added, as long as a slot stays free. */
  lemma StoreNew(t: seq<StringEntry>, strings: map<seq<byte>, Word>, steps: map<seq<byte>, nat>,
                 pools: seq<Pool>, s: seq<byte>, v: Word, n: nat)
    requires TableSlots(t, strings, steps, pools) && |strings| + 1 < |t|
    requires s !in strings && n < |t|
    requires PassedBy(t, pools, Hash(s), s, n) && StopsAt(t, pools, Hash(s), s, n)
    requires ValidRef(pools, v) && WellFormed(Deref(pools, v)) && Text(Deref(pools, v)) == s
    ensures TableSlots(t[Probe(Home(Hash(s)), n, |t|) := StringEntry(Hash(s), v)],
                       strings[s := v], steps[s := n], pools)
  {
    SlotFound(t, strings, steps, pools, s, n);
    StoreKeepsSlots(t, strings, steps, pools, s, v, n);
    StoreOccupies(t, Probe(Home(Hash(s)), n, |t|), StringEntry(Hash(s), v));
  }

  /** `s` is the only interned string whose slot is `i`. */
  ghost predicate SoleAt(strings: map<seq<byte>, Word>, slot: map<seq<byte>, nat>, i: nat, s: seq<byte>)
  {
    forall s' | s' in strings && s' in slot && slot[s'] == i :: s' == s
  }

  /** Two interned strings never share a slot: the record in the slot
      determines the string. */
  lemma SoleHolder(t: seq<StringEntry>, strings: map<seq<byte>, Word>, slot: map<seq<byte>, nat>,
                   pools: seq<Pool>, s: seq<byte>)
    requires SlotsOf(t, strings, slot, pools) && s in strings
    ensures SoleAt(strings, slot, slot[s], s)
  {
    forall s' | s' in strings && s' in slot && slot[s'] == slot[s]
      ensures s' == s
    {
      assert strings[s'] == t[slot[s]].vptr == strings[s];
    }
  }

  /** The string held by the slot `i` of the old table, which `grow` moves
      next: its record, its hash, and the moved part one slot further. */
  lemma NextMove(t: seq<StringEntry>, strings: map<seq<byte>, Word>, steps: map<seq<byte>, nat>,
                 slot: map<seq<byte>, nat>, moved: map<seq<byte>, Word>, pools: seq<Pool>, i: nat)
    returns (s: seq<byte>)
    requires SlotsInv(t, strings, steps, pools) && slot == OldSlots(t, strings, steps)
    requires SlotsOf(t, strings, slot, pools) && MovedBelow(moved, strings, slot, i)
    requires i < |t| && t[i].vptr != 0
    ensures ValidRef(pools, t[i].vptr) && WellFormed(Deref(pools, t[i].vptr))
    ensures s == Text(Deref(pools, t[i].vptr)) && s in strings && strings[s] == t[i].vptr
    ensures t[i].hash == Hash(s) && s !in moved && |moved| < |strings|
    ensures MovedBelow(moved[s := t[i].vptr], strings, slot, i + 1)
  {
    SlotHolder(t, strings, steps, pools, i);
    s := Text(Deref(pools, t[i].vptr));
    SoleHolder(t, strings, slot, pools, s);
    MovedStep(strings, slot, moved, i, s);
  }

  /** One step of `grow` over the slot `i` of the old table, which holds
      `s`: `s` has not been moved yet, and once it is, the strings of the
      slots up to `i` have been moved. */
  lemma MovedStep(strings: map<seq<byte>, Word>, slot: map<seq<byte>, nat>,
                  moved: map<seq<byte>, Word>, i: nat, s: seq<byte>)
    requires MovedBelow(moved, strings, slot, i)
    requires s in strings && s in slot && slot[s] == i && SoleAt(strings, slot, i, s)
    ensures s !in moved && |moved| < |strings|
    ensures MovedBelow(moved[s := strings[s]], strings, slot, i + 1)
  {
    FewerMoved(moved, strings, s);
  }

  /** A string not moved yet leaves fewer strings moved than there are. */
  lemma FewerMoved(moved: map<seq<byte>, Word>, strings: map<seq<byte>, Word>, s: seq<byte>)
    requires (forall s' | s' in moved :: s' in strings) && s in strings && s !in moved
    ensures |moved| < |strings|
  {
    SubsetCount(moved.Keys, strings.Keys - {s});
  }

  /** A free slot of the old table moves nothing. */
  lemma SkipEntry(ot: seq<StringEntry>, strings: map<seq<byte>, Word>, slot: map<seq<byte>, nat>,
                  moved: map<seq<byte>, Word>, pools: seq<Pool>, i: nat)
    requires SlotsOf(ot, strings, slot, pools) && i < |ot| && ot[i].vptr == 0
    requires MovedBelow(moved, strings, slot, i)
    ensures MovedBelow(moved, strings, slot, i + 1)
  {
  }

  /** Once `grow` has passed every slot of the old table, every string has
      moved. */
  lemma AllMoved(ot: seq<StringEntry>, strings: map<seq<byte>, Word>, slot: map<seq<byte>, nat>,
                 moved: map<seq<byte>, Word>, pools: seq<Pool>)
    requires SlotsOf(ot, strings, slot, pools) && MovedBelow(moved, strings, slot, |ot|)
    ensures moved == strings
  {
  }

  class StringTable {
    /** `sizeof(StringValue)`. */
    const valueSize: nat
    var table: array<StringEntry>
    var tabledim: nat
    var pools: seq<Pool>
    var npools: nat
    var nfill: nat
    var count: nat
    /** Every interned string and its vptr. */
    ghost var Strings: map<seq<byte>, Word>
    /** The probe step at which each interned string's entry sits. */
    ghost var Steps: map<seq<byte>, nat>

    /** The table without its counter: a power-of-two size of at least 32,
        valid pools, and slots that agree with `Strings`, with a slot free. */
    ghost predicate TableOk()
      reads this`table, this`tabledim, this`pools, this`npools, this`nfill, this`Strings, this`Steps, table
    {
      tabledim == table.Length && npools == |pools| &&
      TableState(table[..], Strings, Steps, pools, nfill, valueSize)
    }

    /** ... and the counter counts the strings, within the load factor of
        four fifths. */
    ghost predicate Valid()
      reads this, table
    {
      TableOk() && count == |Strings| && 5 * count <= 4 * tabledim
    }

    /** `_init(size)`: room for `size` strings within the load factor, at
        least 32 slots, no pools, no strings. */
    constructor (size: nat, valueSize: nat)
      ensures Valid() && fresh(table)
      ensures Strings == map[] && count == 0 && pools == [] && npools == 0 && nfill == 0
      ensures this.valueSize == valueSize
      ensures IsPow2(tabledim) && tabledim >= 32 && tabledim >= size * 5 / 4 && tabledim >= size
      ensures forall p: nat :: IsPow2(p) && p >= 32 && p >= size * 5 / 4 ==> tabledim <= p
    {
      var sz := NextPow2(size * 5 / 4);
      if sz < 32 {
        assert IsPow2(2) && IsPow2(4) && IsPow2(8) && IsPow2(16);
        sz := 32;
      }
      this.valueSize := valueSize;
      table := new StringEntry[sz](_ => EMPTY);
      tabledim := sz;
      pools := [];
      npools, nfill := 0, 0;
      count := 0;
      Strings, Steps := map[], map[];
      new;
      assert table[..] == seq(sz, _ => EMPTY);
      NoneOccupied(sz);
      EmptySlots(sz, pools);
    }

    /** `allocValue(s)`: the pools, fill mark and vptr are those of
        `Allocate`. */
    method AllocValue(s: seq<byte>) returns (vptr: Word)
      requires npools == |pools| && PoolsValid(pools, nfill, valueSize)
      requires CanAllocate(npools, nfill, valueSize, |s|)
      modifies this`pools, this`npools, this`nfill
      ensures Allocation(pools, nfill, vptr) == Allocate(old(pools), old(nfill), valueSize, s)
      ensures npools == |pools|
    {
      var nbytes := RecordSize(valueSize, |s|);
      if npools == 0 || nfill + nbytes > POOL_SIZE {
        npools := npools + 1;
        pools := pools + [Pool(NewPoolSize(nbytes), map[])];
        nfill := 0;
      }
      var last := pools[npools - 1];
      pools := pools[npools - 1 := last.(values := last.values[nfill := Record(s)])];
      vptr := Encode(npools, nfill);
      nfill := nfill + Align8(nbytes);
    }

    /** `findSlot(hash, s)`: probe from the home slot with steps 1, 2, 3, ...
        and stop at the first slot that is free or holds `s` with this hash.
        A free slot exists, so it stops within the first `tabledim` probes. */
    method FindSlot(hash: bv32, s: seq<byte>) returns (i: nat, ghost n: nat)
      requires table.Length == tabledim && IsPow2(tabledim)
      requires EntriesResolve(table[..], pools) && |OccupiedSlots(table[..])| < tabledim
      ensures n < tabledim && i == Probe(Home(hash), n, tabledim) && i < tabledim
      ensures PassedBy(table[..], pools, hash, s, n) && StopsAt(table[..], pools, hash, s, n)
    {
      var d := tabledim;
      ghost var h := Home(hash);
      ghost var free := FreeSlot(table[..]);
      ghost var last := ProbeReaches(h, d, free);
      i := (hash as int) % d;
      var j: nat := 1;
      n := 0;
      while true
        invariant n <= last && j == n + 1 && i == Probe(h, n, d)
        invariant PassedBy(table[..], pools, hash, s, n)
        decreases last - n
      {
        var e := table[i];
        if e.vptr == 0 {
          return;
        }
        if e.hash == hash {
          var sv := Deref(pools, e.vptr);
          if sv.length == |s| && sv.lstring[..|s|] == s {
            return;
          }
        }
        ProbeStep(h, n, d);
        i := (i + j) % d;
        j := j + 1;
        n := n + 1;
      }
    }

    /** `findSlot` on a table that agrees with `Strings`: the slot it stops
        at is free exactly when `s` is not interned, and otherwise holds the
        entry of `s`, at its own probe step. */
    method Search(hash: bv32, s: seq<byte>) returns (i: nat, ghost n: nat)
      requires TableOk() && hash == Hash(s)
      ensures n < tabledim && i == Probe(Home(hash), n, tabledim) && i < tabledim
      ensures table[i].vptr == 0 <==> s !in Strings
      ensures s in Strings ==> table[i] == StringEntry(hash, Strings[s]) && Steps[s] == n
      ensures Blocked(table[..], hash, n)
    {
      SlotsResolve(table[..], Strings, Steps, pools);
      i, n := FindSlot(hash, s);
      SlotFound(table[..], Strings, Steps, pools, s, n);
    }

    /** The body of the loop of `grow()`: store the entry `se` of the old
        table in the slot where `findSlot` stops in the new one. */
    method MoveIn(se: StringEntry, ghost s: seq<byte>, ghost moved: map<seq<byte>, Word>,
                  ghost msteps: map<seq<byte>, nat>) returns (ghost n: nat)
      requires table.Length == tabledim && TableSlots(table[..], moved, msteps, pools)
      requires se.vptr != 0 && ValidRef(pools, se.vptr) && WellFormed(Deref(pools, se.vptr))
      requires s == Text(Deref(pools, se.vptr)) && s !in moved && se.hash == Hash(s)
      requires |moved| + 1 < tabledim
      modifies table
      ensures n < tabledim && table[..] == old(table[..])[Probe(Home(se.hash), n, tabledim) := se]
      ensures TableSlots(table[..], moved[s := se.vptr], msteps[s := n], pools)
    {
      var sv := Deref(pools, se.vptr);
      SlotsResolve(table[..], moved, msteps, pools);
      var k;
      k, n := FindSlot(se.hash, sv.lstring[..sv.length]);
      ghost var t := table[..];
      StoreNew(t, moved, msteps, pools, s, se.vptr, n);
      table[k] := se;
      assert table[..] == t[k := se];
    }

    /** `grow()`: a table of twice the size holding the same strings over the
        same pools. */
    method Grow()
      requires TableOk()
      modifies this
      ensures TableOk() && fresh(table)
      ensures tabledim == 2 * old(tabledim)
      ensures Strings == old(Strings) && pools == old(pools) && npools == old(npools)
      ensures nfill == old(nfill) && count == old(count)
    {
      var odim := tabledim;
      var otab := table;
      tabledim := tabledim * 2;
      Pow2Double(odim);
      table := new StringEntry[tabledim](_ => EMPTY);
      assert table[..] == seq(tabledim, _ => EMPTY);
      NoneOccupied(tabledim);
      EmptySlots(tabledim, pools);
      Steps := MoveAll(otab, Strings, Steps);
    }

    /** The loop of `grow()`: move every entry in use of the old table `otab`
        into the new, empty, table, which then holds the same strings. */
    method MoveAll(otab: array<StringEntry>, ghost strings: map<seq<byte>, Word>,
                   ghost steps: map<seq<byte>, nat>) returns (ghost msteps: map<seq<byte>, nat>)
      requires otab != table && table.Length == tabledim && tabledim == 2 * otab.Length
      requires SlotsInv(otab[..], strings, steps, pools) && |strings| < otab.Length
      requires TableSlots(table[..], map[], map[], pools)
      modifies table
      ensures TableSlots(table[..], strings, msteps, pools)
    {
      var odim := otab.Length;
      ghost var ot := otab[..];
      ghost var slot := OldSlots(ot, strings, steps);
      ghost var moved: map<seq<byte>, Word> := map[];
      msteps := map[];
      OldSlotsOf(ot, strings, steps, pools);
      var i := 0;
      while i < odim
        invariant 0 <= i <= odim && otab[..] == ot
        invariant TableSlots(table[..], moved, msteps, pools)
        invariant MovedBelow(moved, strings, slot, i)
      {
        var se := otab[i];
        if se.vptr != 0 {
          ghost var s := NextMove(ot, strings, steps, slot, moved, pools, i);
          ghost var n := MoveIn(se, s, moved, msteps);
          moved, msteps := moved[s := se.vptr], msteps[s := n];
        } else {
          SkipEntry(ot, strings, slot, moved, pools, i);
        }
        i := i + 1;
      }
      AllMoved(ot, strings, slot, moved, pools);
    }

    /** The insertion path shared by `update` and `insert`, once `findSlot`
        has found the free slot `i0` for `s`: grow if counting `s` puts the
        table over four fifths of its slots (`++count > tabledim *
        loadFactor`), probe the grown table again, then count and place `s`.
        `grow` neither reads nor changes the count, so counting after it is
        the same. */
    method Enter(hash: bv32, s: seq<byte>, i0: nat, ghost n0: nat) returns (vptr: Word)
      requires Valid() && hash == Hash(s) && s !in Strings
      requires n0 < tabledim && i0 == Probe(Home(hash), n0, tabledim) && table[i0].vptr == 0
      requires Blocked(table[..], hash, n0)
      requires CanAllocate(npools, nfill, valueSize, |s|)
      modifies this, table
      ensures Valid() && Strings == old(Strings)[s := vptr] && count == old(count) + 1
      ensures Allocation(pools, nfill, vptr) == Allocate(old(pools), old(nfill), valueSize, s)
      ensures tabledim == if 5 * count > 4 * old(tabledim) then 2 * old(tabledim) else old(tabledim)
      ensures table == old(table) || fresh(table)
    {
      var i := i0;
      ghost var n := n0;
      ghost var strings0, pools0, nfill0 := Strings, pools, nfill;
      if 5 * (count + 1) > 4 * tabledim {
        Grow();
        i, n := Search(hash, s);
      }
      assert Strings == strings0 && pools == pools0 && nfill == nfill0;
      assert 5 * (count + 1) <= 4 * tabledim && count == |Strings|;
      vptr := Place(hash, s, i, n);
    }

    /** Count `s`, allocate its record and store its entry in the free slot
        `i` where its probe stopped. */
    method Place(hash: bv32, s: seq<byte>, i: nat, ghost n: nat) returns (vptr: Word)
      requires TableOk() && hash == Hash(s) && s !in Strings
      requires count == |Strings| && 5 * (count + 1) <= 4 * tabledim
      requires n < tabledim && i == Probe(Home(hash), n, tabledim) && table[i].vptr == 0
      requires Blocked(table[..], hash, n)
      requires CanAllocate(npools, nfill, valueSize, |s|)
      modifies this`count, this`pools, this`npools, this`nfill, this`Strings, this`Steps, table
      ensures Valid() && Strings == old(Strings)[s := vptr] && count == old(count) + 1
      ensures Allocation(pools, nfill, vptr) == Allocate(old(pools), old(nfill), valueSize, s)
    {
      ghost var t, strings, steps, pools0, nfill0 := table[..], Strings, Steps, pools, nfill;
      count := count + 1;
      vptr := AllocValue(s);
      EnterStore(t, strings, steps, pools0, nfill0, valueSize, s, n, i, hash, pools, nfill, vptr);
      Store(i, StringEntry(hash, vptr), t, strings, steps, s, n);
      assert |Strings| == |strings| + 1;
    }

    /** Store the entry of `s` in slot `i`, which makes it interned. */
    method Store(i: nat, e: StringEntry, ghost t: seq<StringEntry>, ghost strings: map<seq<byte>, Word>,
                 ghost steps: map<seq<byte>, nat>, ghost s: seq<byte>, ghost n: nat)
      requires i < table.Length && tabledim == table.Length && npools == |pools|
      requires table[..] == t && Strings == strings && Steps == steps
      requires TableState(t[i := e], strings[s := e.vptr], steps[s := n], pools, nfill, valueSize)
      modifies this`Strings, this`Steps, table
      ensures TableOk() && Strings == old(Strings)[s := e.vptr]
    {
      table[i] := e;
      assert table[..] == t[i := e];
      Strings, Steps := Strings[s := e.vptr], Steps[s := n];
    }

    /** `lookup(s)`: the record of `s` if it is interned, null otherwise;
        nothing changes. */
    method Lookup(s: seq<byte>) returns (r: ValueRef)
      requires Valid()
      ensures r == Null <==> s !in Strings
      ensures s in Strings ==> r == GetValue(Strings[s]) && ValidRef(pools, Strings[s])
      ensures s in Strings ==> Text(Deref(pools, Strings[s])) == s
    {
      var hash := CalcHash(s);
      var i, n := Search(hash, s);
      r := GetValue(table[i].vptr);
      if s in Strings {
        assert Placed(table[..], pools, s, Strings[s], Steps[s]);
      }
    }

    /** `update(s)`: the record of `s`, interning `s` first if it is not
        interned yet; an interned string changes nothing. */
    method Update(s: seq<byte>) returns (r: ValueRef)
      requires Valid() && (s in Strings || CanAllocate(npools, nfill, valueSize, |s|))
      modifies this, table
      ensures Valid() && s in Strings && r == GetValue(Strings[s]) && r != Null
      ensures ValidRef(pools, Strings[s]) && Text(Deref(pools, Strings[s])) == s
      ensures old(s in Strings) ==>
                Strings == old(Strings) && table == old(table) && table[..] == old(table[..]) &&
                tabledim == old(tabledim) && pools == old(pools) && nfill == old(nfill) && count == old(count)
      ensures !old(s in Strings) ==>
                Strings == old(Strings)[s := Strings[s]] && count == old(count) + 1 &&
                Allocation(pools, nfill, Strings[s]) == Allocate(old(pools), old(nfill), valueSize, s) &&
                tabledim == if 5 * count > 4 * old(tabledim) then 2 * old(tabledim) else old(tabledim)
      ensures table == old(table) || fresh(table)
    {
      var hash := CalcHash(s);
      var i, n := Search(hash, s);
      if table[i].vptr == 0 {
        var v := Enter(hash, s, i, n);
        r := GetValue(v);
      } else {
        r := GetValue(table[i].vptr);
      }
      assert Placed(table[..], pools, s, Strings[s], Steps[s]);
    }

    /** `insert(s)`: intern `s` and yield its new record; null, with nothing
        changed, when `s` is already interned. */
    method Insert(s: seq<byte>) returns (r: ValueRef)
      requires Valid() && (s in Strings || CanAllocate(npools, nfill, valueSize, |s|))
      modifies this, table
      ensures Valid()
      ensures old(s in Strings) ==>
                r == Null && Strings == old(Strings) && table == old(table) && table[..] == old(table[..]) &&
                tabledim == old(tabledim) && pools == old(pools) && nfill == old(nfill) && count == old(count)
      ensures !old(s in Strings) ==>
                s in Strings && r == GetValue(Strings[s]) && r != Null &&
                Strings == old(Strings)[s := Strings[s]] && count == old(count) + 1 &&
                Allocation(pools, nfill, Strings[s]) == Allocate(old(pools), old(nfill), valueSize, s) &&
                tabledim == if 5 * count > 4 * old(tabledim) then 2 * old(tabledim) else old(tabledim)
      ensures table == old(table) || fresh(table)
    {
      var hash := CalcHash(s);
      var i, n := Search(hash, s);
      if table[i].vptr != 0 {
        return Null;
      }
      var v := Enter(hash, s, i, n);
      r := GetValue(v);
    }
  }
}
