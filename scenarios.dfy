/** What a caller of the table can rely on across several calls. */
module Scenarios {
  import opened MurmurHash
  import opened StringPool
  import opened StringTables

  /** A second `update` of the same bytes yields the same record and
      changes nothing: no new record, no new slot, no count. */
  method UpdateTwice(st: StringTable, s: seq<byte>) returns (r1: ValueRef, r2: ValueRef)
    requires st.Valid() && (s in st.Strings || CanAllocate(st.npools, st.nfill, st.valueSize, |s|))
    modifies st, st.table
    ensures r1 != Null && r2 == r1
    ensures st.Valid() && s in st.Strings && r1 == GetValue(st.Strings[s])
  {
    r1 := st.Update(s);
    ghost var count, pools, nfill := st.count, st.pools, st.nfill;
    r2 := st.Update(s);
    assert st.count == count && st.pools == pools && st.nfill == nfill;
  }

  /** After a successful `insert`, `lookup` of the same bytes finds the
      record `insert` returned, and a second `insert` is refused. */
  method InsertThenLookup(st: StringTable, s: seq<byte>) returns (r: ValueRef, found: ValueRef, again: ValueRef)
    requires st.Valid() && s !in st.Strings && CanAllocate(st.npools, st.nfill, st.valueSize, |s|)
    modifies st, st.table
    ensures r != Null && found == r && again == Null
    ensures st.Valid() && s in st.Strings
  {
    r := st.Insert(s);
    found := st.Lookup(s);
    again := st.Insert(s);
  }

  /** In a table of 32 slots, the 25th string still fits within the load
      factor... */
  method TwentyFifth(st: StringTable, s: seq<byte>) returns (r: ValueRef)
    requires st.Valid() && st.tabledim == 32 && st.count == 24
    requires s !in st.Strings && CanAllocate(st.npools, st.nfill, st.valueSize, |s|)
    modifies st, st.table
    ensures r != Null && st.count == 25 && st.tabledim == 32
  {
    r := st.Insert(s);
  }

  /** ...and the 26th grows the table once, to 64 slots. */
  method TwentySixth(st: StringTable, s: seq<byte>) returns (r: ValueRef)
    requires st.Valid() && st.tabledim == 32 && st.count == 25
    requires s !in st.Strings && CanAllocate(st.npools, st.nfill, st.valueSize, |s|)
    modifies st, st.table
    ensures r != Null && st.count == 26 && st.tabledim == 64
  {
    r := st.Insert(s);
  }
}
