/** `CLoader::validate_layout_table`, `is_enclave_buffer`, `is_metadata_buffer` and the walks over the
    table that load, trim and protect what was validated. */
module LayoutLoader {
  import opened Common
  import opened Layout

  // ----- buffers, in machine arithmetic -----

  /** `is_enclave_buffer`: the wrapped sum is checked so that the answer is the exact one. */
  method IsEnclaveBuffer(offset: U64, size: U64, enclaveSize: U64) returns (ok: bool)
    ensures ok <==> offset < enclaveSize && offset + size <= enclaveSize
  {
    if offset >= enclaveSize { return false; }
    var end := (offset + size) % WORD64;
    return !(end < offset || end < size || end > enclaveSize);
  }

  predicate IsContent(offset: nat, size: nat, header: nat, metadataSize: nat) {
    header <= offset < metadataSize && offset + size <= metadataSize
  }

  /** `is_metadata_buffer`; `header` is the offset of the data area. */
  method IsMetadataBuffer(offset: U32, size: U32, header: U32, metadataSize: U32) returns (ok: bool)
    ensures ok <==> IsContent(offset, size, header, metadataSize)
  {
    if header > offset || offset >= metadataSize { return false; }
    var end := (offset + size) % WORD32;
    return !(end < offset || end < size || end > metadataSize);
  }

  // ----- what the validator promises -----

  predicate ContentOk(table: seq<Item>, n: nat, header: U32, metadataSize: U32)
    requires n <= |table|
  {
    forall i :: 0 <= i < n && table[i].Entry? && table[i].contentOffset != 0 ==>
      IsContent(table[i].contentOffset, table[i].contentSize, header, metadataSize)
  }

  predicate AllFit(rs: seq<Range>, enclaveSize: U64) {
    forall r :: r in rs ==> Fits(r, enclaveSize)
  }

  /** Groups reach back over entries, contents lie in the metadata, and the loads are page-aligned,
      inside the enclave and pairwise apart. */
  predicate TableOk(table: seq<Item>, enclaveSize: U64, header: U32, metadataSize: U32) {
    && GroupsOk(table, |table|, enclaveSize)
    && ContentOk(table, |table|, header, metadataSize)
    && var rs := Ranges(table, Expand(table, |table|, enclaveSize)); AllFit(rs, enclaveSize) && AllApart(rs)
  }

  lemma {:induction false} CopiesSnoc(table: seq<Item>, lo: nat, hi: nat, delta: U64)
    requires lo <= hi < |table| && IsEntryRange(table, lo, hi + 1)
    ensures Ranges(table, Copies(table, lo, hi + 1, delta)) ==
      Ranges(table, Copies(table, lo, hi, delta)) + [Range(Add(table[hi].rva, delta), table[hi].pages * PAGE)]
  {
    var last := Visit(hi, Add(table[hi].rva, delta));
    RangesAppend(table, Copies(table, lo, hi, delta), [last]);
    assert Ranges(table, [last]) == [RangeOf(table, last)];
  }

  /** One load of the entries of a group: the inner loop. */
  method CollectCopies(table: seq<Item>, lo: nat, hi: nat, delta: U64, vector: seq<Range>)
    returns (ok: bool, out: seq<Range>)
    requires lo <= hi <= |table|
    ensures ok <==> IsEntryRange(table, lo, hi)
    ensures ok ==> out == vector + Ranges(table, Copies(table, lo, hi, delta))
  {
    hide Copies, Ranges;
    out := vector;
    var k := lo;
    NoCopies(table, lo, delta, vector);
    while k < hi
      invariant lo <= k <= hi && IsEntryRange(table, lo, k)
      invariant out == vector + Ranges(table, Copies(table, lo, k, delta))
    {
      if table[k].Group? { return false, out; }
      CopiesSnoc(table, lo, k, delta);
      out := out + [Range(Add(table[k].rva, delta), table[k].pages * PAGE)];
      k := k + 1;
    }
    return true, out;
  }

  lemma {:induction false} NoCopies(table: seq<Item>, lo: nat, delta: U64, vector: seq<Range>)
    requires lo <= |table|
    ensures vector + Ranges(table, Copies(table, lo, lo, delta)) == vector
  {
  }

  lemma {:induction false} RepeatsStep(table: seq<Item>, lo: nat, hi: nat, step: U64, acc: U64, n: nat)
    requires lo <= hi <= |table| && IsEntryRange(table, lo, hi) && n > 0
    ensures Ranges(table, Repeats(table, lo, hi, step, acc, n)) ==
      Ranges(table, Copies(table, lo, hi, Add(acc, step))) +
      Ranges(table, Repeats(table, lo, hi, step, Add(acc, step), n - 1))
  {
    RangesAppend(table, Copies(table, lo, hi, Add(acc, step)), Repeats(table, lo, hi, step, Add(acc, step), n - 1));
  }

  /** The group branch of the validator. */
  method CollectGroup(table: seq<Item>, i: nat, enclaveSize: U64, vector: seq<Range>)
    returns (ok: bool, out: seq<Range>)
    requires i < |table| && table[i].Group?
    ensures ok <==> GroupOk(table, i, enclaveSize)
    ensures ok ==> out == vector + Ranges(table, GroupVisits(table, i))
  {
    hide Copies, Ranges, Repeats, IsEntryRange;
    var count, times, step := table[i].count, table[i].times, table[i].step;
    out := vector;
    if count > i { return false, out; }
    var acc: U64, n := 0, 0;
    NoRepeats(table, i - count, i, step, 0, vector);
    while n < times
      invariant n <= times
      invariant StepsOk(step, 0, times, enclaveSize) <==> StepsOk(step, acc, times - n, enclaveSize)
      invariant n > 0 ==> IsEntryRange(table, i - count, i)
      invariant n == 0 ==> acc == 0 && out == vector
      invariant IsEntryRange(table, i - count, i) ==>
        vector + Ranges(table, Repeats(table, i - count, i, step, 0, times)) ==
          out + Ranges(table, Repeats(table, i - count, i, step, acc, times - n))
    {
      ghost var acc0, out0 := acc, out;
      acc := Add(acc, step);
      if acc > enclaveSize { return false, out; }
      var entries;
      entries, out := CollectCopies(table, i - count, i, acc, out);
      if !entries { return false, out; }
      RepeatsStep(table, i - count, i, step, acc0, times - n);
      Assoc(out0, Ranges(table, Copies(table, i - count, i, acc)),
        Ranges(table, Repeats(table, i - count, i, step, acc, times - n - 1)));
      n := n + 1;
    }
    NoRepeats(table, i - count, i, step, acc, out);
    if times == 0 { NoTimes(table, i, vector); }
    return true, out;
  }

  lemma {:induction false} NoRepeats(table: seq<Item>, lo: nat, hi: nat, step: U64, acc: U64, vector: seq<Range>)
    requires lo <= hi <= |table|
    ensures IsEntryRange(table, lo, hi) ==> vector + Ranges(table, Repeats(table, lo, hi, step, acc, 0)) == vector
  {
  }

  lemma {:induction false} NoTimes(table: seq<Item>, i: nat, vector: seq<Range>)
    requires i < |table| && table[i].Group? && table[i].count <= i && table[i].times == 0
    ensures vector + Ranges(table, GroupVisits(table, i)) == vector
  {
  }

  /** The collecting loop of `validate_layout_table`. */
  method CollectRanges(table: seq<Item>, enclaveSize: U64, header: U32, metadataSize: U32)
    returns (ok: bool, vector: seq<Range>)
    ensures ok <==> GroupsOk(table, |table|, enclaveSize) && ContentOk(table, |table|, header, metadataSize)
    ensures ok ==> vector == Ranges(table, Expand(table, |table|, enclaveSize))
  {
    hide GroupOk, Ranges, IsContent;
    vector := [];
    var i := 0;
    NoItems(table, enclaveSize);
    while i < |table|
      invariant i <= |table| && GroupsOk(table, i, enclaveSize) && ContentOk(table, i, header, metadataSize)
      invariant vector == Ranges(table, Expand(table, i, enclaveSize))
    {
      match table[i] {
        case Entry(rva, pages, contentOffset, contentSize, _, _) =>
          vector := vector + [Range(rva, pages * PAGE)];
          if contentOffset != 0 {
            var inside := IsMetadataBuffer(contentOffset, contentSize, header, metadataSize);
            if !inside { return false, vector; }
          }
          EntrySnoc(table, i, enclaveSize);
        case Group(_, _, _) =>
          var good;
          good, vector := CollectGroup(table, i, enclaveSize, vector);
          if !good { return false, vector; }
          GroupSnoc(table, i, enclaveSize);
      }
      i := i + 1;
    }
    return true, vector;
  }

  lemma {:induction false} NoItems(table: seq<Item>, enclaveSize: U64)
    ensures Ranges(table, Expand(table, 0, enclaveSize)) == []
  {
  }

  lemma {:induction false} EntrySnoc(table: seq<Item>, i: nat, enclaveSize: U64)
    requires i < |table| && table[i].Entry? && GroupsOk(table, i, enclaveSize)
    ensures GroupsOk(table, i + 1, enclaveSize)
    ensures Ranges(table, Expand(table, i + 1, enclaveSize)) ==
      Ranges(table, Expand(table, i, enclaveSize)) + [Range(table[i].rva, table[i].pages * PAGE)]
  {
    RangesAppend(table, Expand(table, i, enclaveSize), [Visit(i, table[i].rva)]);
    assert Ranges(table, [Visit(i, table[i].rva)]) == [RangeOf(table, Visit(i, table[i].rva))];
  }

  lemma {:induction false} GroupSnoc(table: seq<Item>, i: nat, enclaveSize: U64)
    requires i < |table| && table[i].Group? && GroupsOk(table, i, enclaveSize) && GroupOk(table, i, enclaveSize)
    ensures GroupsOk(table, i + 1, enclaveSize)
    ensures Ranges(table, Expand(table, i + 1, enclaveSize)) ==
      Ranges(table, Expand(table, i, enclaveSize)) + Ranges(table, GroupVisits(table, i))
  {
    RangesAppend(table, Expand(table, i, enclaveSize), GroupVisits(table, i));
  }

  /** The checking loop, over the sorted vector. */
  method CheckSorted(rs: seq<Range>, enclaveSize: U64) returns (ok: bool)
    requires forall i :: 0 <= i < |rs| ==> rs[i].size < WORD64
    ensures ok <==> AllFit(rs, enclaveSize) && Chained(rs)
  {
    var i := 0;
    while i < |rs|
      invariant i <= |rs|
      invariant forall j :: 0 <= j < i ==> Fits(rs[j], enclaveSize)
      invariant forall j :: 0 <= j < i && j + 1 < |rs| ==> rs[j].start + rs[j].size <= rs[j + 1].start
    {
      var r := rs[i];
      assert r in rs;
      if r.start % PAGE != 0 { return false; }
      var inside := IsEnclaveBuffer(r.start, r.size, enclaveSize);
      if !inside { return false; }
      assert Fits(r, enclaveSize);
      if i + 1 < |rs| {
        if (r.start + r.size) % WORD64 > rs[i + 1].start { return false; }
      }
      i := i + 1;
    }
    return true;
  }

  /** `validate_layout_table` accepts exactly the tables whose expansion is in order, although it only
      compares neighbours of a sorted vector, in wrapping arithmetic. */
  method ValidateLayoutTable(table: seq<Item>, enclaveSize: U64, header: U32, metadataSize: U32) returns (ok: bool)
    ensures ok <==> TableOk(table, enclaveSize, header, metadataSize)
  {
    hide GroupsOk, ContentOk, Ranges, Expand, AllApart, IsSorted, Chained, Fits, Sort;
    var collected, vector := CollectRanges(table, enclaveSize, header, metadataSize);
    if !collected { return false; }
    SizesAreSmall(table, Expand(table, |table|, enclaveSize));
    var sorted := Sort(vector);
    SortSorts(vector);
    ChainedIff(sorted);
    SortApart(vector);
    assert AllFit(sorted, enclaveSize) <==> AllFit(vector, enclaveSize);
    assert forall i :: 0 <= i < |sorted| ==> sorted[i] in vector;
    ok := CheckSorted(sorted, enclaveSize);
  }

  lemma {:induction false} SizesAreSmall(table: seq<Item>, vs: seq<Visit>)
    ensures forall r :: r in Ranges(table, vs) ==> r.size < WORD64
  {
    forall r | r in Ranges(table, vs) ensures r.size < WORD64 {
      var i :| 0 <= i < |vs| && Ranges(table, vs)[i] == r;
    }
  }

  // ----- what an accepted table guarantees -----

  /** Every load of an accepted table is page-aligned, inside the enclave, at its exact distance, and
      apart from every other load. */
  lemma {:induction false} AcceptedLoads(table: seq<Item>, enclaveSize: U64, header: U32, metadataSize: U32)
    requires TableOk(table, enclaveSize, header, metadataSize)
    ensures var vs := Visits(table, 0, |table|, 0);
      && vs == Expand(table, |table|, enclaveSize)
      && (forall i :: 0 <= i < |vs| ==> Fits(RangeOf(table, vs[i]), enclaveSize))
      && (forall i, j :: 0 <= i < j < |vs| ==> Apart(RangeOf(table, vs[i]), RangeOf(table, vs[j])))
    ensures enclaveSize <= HALF ==>
      Places(Expand(table, |table|, enclaveSize)) == ExactExpand(table, |table|, enclaveSize)
  {
    WalkIsExpansion(table, |table|, enclaveSize);
    var vs := Expand(table, |table|, enclaveSize);
    var rs := Ranges(table, vs);
    AllApartIff(rs);
    forall i | 0 <= i < |vs| ensures Fits(RangeOf(table, vs[i]), enclaveSize) { assert rs[i] in rs; }
    forall i, j | 0 <= i < j < |vs| ensures Apart(RangeOf(table, vs[i]), RangeOf(table, vs[j])) {
      assert Apart(rs[i], rs[j]);
    }
    forall i | 0 <= i < |table| && table[i].Entry? ensures table[i].rva < enclaveSize {
      var k := EntryIsLoaded(table, i, |table|, enclaveSize);
    }
    if enclaveSize <= HALF {
      forall i | 0 <= i < |vs| ensures vs[i].rva < enclaveSize { assert Fits(RangeOf(table, vs[i]), enclaveSize); }
      ExpandIsExact(table, |table|, enclaveSize);
    }
  }

  /** The loads of every accepted table are at their exact distances. */
  ghost predicate LoadsAreExact(table: seq<Item>, enclaveSize: U64, header: U32, metadataSize: U32) {
    TableOk(table, enclaveSize, header, metadataSize) ==>
      Places(Expand(table, |table|, enclaveSize)) == ExactExpand(table, |table|, enclaveSize)
  }

  /** Exact distances are certain up to half the address space, and no further: in any larger enclave a
      load can wrap around to address 0 and be accepted there. */
  lemma {:induction false} LoadsAreExactIff(enclaveSize: U64, header: U32, metadataSize: U32)
    ensures (forall table :: LoadsAreExact(table, enclaveSize, header, metadataSize)) <==> enclaveSize <= HALF
  {
    if enclaveSize <= HALF {
      forall table ensures LoadsAreExact(table, enclaveSize, header, metadataSize) {
        hide TableOk, Expand, ExactExpand, Visits;
        if TableOk(table, enclaveSize, header, metadataSize) {
          AcceptedLoads(table, enclaveSize, header, metadataSize);
        }
      }
    } else {
      var table := LoadWraps(enclaveSize, header, metadataSize);
      assert !LoadsAreExact(table, enclaveSize, header, metadataSize);
    }
  }

  lemma {:induction false} LoadWraps(enclaveSize: U64, header: U32, metadataSize: U32) returns (table: seq<Item>)
    requires enclaveSize > HALF
    ensures TableOk(table, enclaveSize, header, metadataSize)
    ensures Places(Expand(table, |table|, enclaveSize)) != ExactExpand(table, |table|, enclaveSize)
  {
    table := [Entry(HALF, 0, 0, 0, false, false), Group(1, 1, HALF)];
    assert StepsOk(HALF, 0, 1, enclaveSize);
    assert GroupOk(table, 1, enclaveSize);
    assert Expand(table, 1, enclaveSize) == [Visit(0, HALF)];
    assert Repeats(table, 0, 1, HALF, 0, 1) == [Visit(0, 0)] by {
      assert Copies(table, 0, 1, HALF) == [Visit(0, 0)];
    }
    assert Expand(table, 2, enclaveSize) == [Visit(0, HALF), Visit(0, 0)];
    var rs := Ranges(table, Expand(table, 2, enclaveSize));
    assert rs == [Range(HALF, 0), Range(0, 0)];
    assert rs[1..] == [Range(0, 0)] && AllApart(rs[1..][1..]);
    assert AllApart(rs[1..]) && ApartFrom(rs[0], rs[1..]);
    assert ExactExpand(table, 1, enclaveSize) == [Place(0, HALF)];
    assert ExactRepeats(table, 0, 1, HALF, 0, 1) == [Place(0, 2 * HALF)] by {
      assert ExactCopies(table, 0, 1, 1 * HALF) == [Place(0, 2 * HALF)];
    }
    assert ExactExpand(table, 2, enclaveSize)[1] == Place(0, 2 * HALF);
    assert Places(Expand(table, 2, enclaveSize))[1] == Place(0, 0);
  }

  /** Every entry is loaded at its own address. */
  lemma {:induction false} EntryIsLoaded(table: seq<Item>, i: nat, n: nat, enclaveSize: U64) returns (k: nat)
    requires i < n <= |table| && table[i].Entry? && GroupsOk(table, n, enclaveSize)
    ensures k < |Expand(table, n, enclaveSize)| && Expand(table, n, enclaveSize)[k] == Visit(i, table[i].rva)
    decreases n
  {
    assert table[n - 1].Group? ==> GroupOk(table, n - 1, enclaveSize);
    if i < n - 1 {
      hide ItemVisits, GroupOk;
      k := EntryIsLoaded(table, i, n - 1, enclaveSize);
    } else {
      k := |Expand(table, n - 1, enclaveSize)|;
    }
  }

  // ----- the walks -----

  /** The entries that one of the walks acts on. */
  function Selected(table: seq<Item>, vs: seq<Visit>, select: Item -> bool): seq<Visit> {
    if vs == [] then []
    else
      var v := vs[|vs| - 1];
      Selected(table, vs[..|vs| - 1], select) + if v.index < |table| && select(table[v.index]) then [v] else []
  }

  lemma {:induction false} SelectedAppend(table: seq<Item>, a: seq<Visit>, b: seq<Visit>, select: Item -> bool)
    ensures Selected(table, a + b, select) == Selected(table, a, select) + Selected(table, b, select)
  {
    if b == [] {
      assert a + b == a;
    } else {
      assert (a + b)[..|a + b| - 1] == a + b[..|b| - 1];
      SelectedAppend(table, a, b[..|b| - 1], select);
    }
  }

  /** `build_contexts` builds every entry. */
  predicate Builds(item: Item) {
    item.Entry?
  }

  /** `post_init_action` and its commit trim the entries to be removed after initialisation. */
  predicate Trims(item: Item) {
    item.Entry? && item.postRemove
  }

  /** `set_context_protection` leaves reserved memory alone on platforms without EDMM. */
  function Protects(edmm: bool): Item -> bool {
    (item: Item) => item.Entry? && (edmm || !item.reserved)
  }

  class Loader {
    const table: seq<Item>
    /** The loads acted on, in order. */
    var log: seq<Visit>

    constructor (table: seq<Item>)
      ensures this.table == table && log == []
    {
      this.table := table;
      log := [];
    }

    /** The recursion that `build_contexts`, `post_init_action` and `set_context_protection` share.
        The walk ends because a group only walks items before itself. */
    method Walk(lo: nat, hi: nat, delta: U64, select: Item -> bool)
      requires lo <= hi <= |table| && GroupsReachBack(table)
      modifies this`log
      ensures log == old(log) + Selected(table, Visits(table, lo, hi, delta), select)
      decreases hi, 0
    {
      hide Visits, Laps, Selected, GroupsReachBack;
      var i := lo;
      WalkStarts(table, lo, delta, select, log);
      while i < hi
        invariant lo <= i <= hi
        invariant log == old(log) + Selected(table, Visits(table, lo, i, delta), select)
      {
        GroupReachesBack(table, i);
        match table[i] {
          case Entry(rva, _, _, _, _, _) =>
            if select(table[i]) { log := log + [Visit(i, Add(rva, delta))]; }
            EntryWalked(table, lo, i, delta, select);
            Assoc(old(log), Selected(table, Visits(table, lo, i, delta), select),
              Selected(table, [Visit(i, Add(rva, delta))], select));
          case Group(count, times, step) =>
            WalkGroup(i, select);
            GroupWalked(table, lo, i, delta, select);
            Assoc(old(log), Selected(table, Visits(table, lo, i, delta), select),
              Selected(table, Laps(table, i - count, i, step, 0, times), select));
        }
        i := i + 1;
      }
    }

    /** `build_contexts` on a validated table loads exactly its expansion, in order. */
    method BuildContexts(enclaveSize: U64, header: U32, metadataSize: U32)
      requires TableOk(table, enclaveSize, header, metadataSize)
      modifies this`log
      ensures log == old(log) + Expand(table, |table|, enclaveSize)
    {
      WalkIsExpansion(table, |table|, enclaveSize);
      ReachBack(table, enclaveSize);
      AllSelected(table, enclaveSize, |table|);
      Walk(0, |table|, 0, Builds);
    }

    /** `post_init_action` trims the loads of removable entries, and no others. */
    method PostInitAction(enclaveSize: U64, header: U32, metadataSize: U32)
      requires TableOk(table, enclaveSize, header, metadataSize)
      modifies this`log
      ensures log == old(log) + Selected(table, Expand(table, |table|, enclaveSize), Trims)
    {
      WalkIsExpansion(table, |table|, enclaveSize);
      ReachBack(table, enclaveSize);
      Walk(0, |table|, 0, Trims);
    }

    /** `set_context_protection` protects every load but reserved memory without EDMM. */
    method SetContextProtection(edmm: bool, enclaveSize: U64, header: U32, metadataSize: U32)
      requires TableOk(table, enclaveSize, header, metadataSize)
      modifies this`log
      ensures log == old(log) + Selected(table, Expand(table, |table|, enclaveSize), Protects(edmm))
    {
      WalkIsExpansion(table, |table|, enclaveSize);
      ReachBack(table, enclaveSize);
      Walk(0, |table|, 0, Protects(edmm));
    }

    method WalkGroup(i: nat, select: Item -> bool)
      requires i < |table| && table[i].Group? && table[i].count <= i && GroupsReachBack(table)
      modifies this`log
      ensures log == old(log) +
        Selected(table, Laps(table, i - table[i].count, i, table[i].step, 0, table[i].times), select)
      decreases i, 1
    {
      hide Visits, Laps, Selected, GroupsReachBack;
      var count, times, step := table[i].count, table[i].times, table[i].step;
      var acc: U64, n := 0, 0;
      ghost var whole := Selected(table, Laps(table, i - count, i, step, 0, times), select);
      ghost var done := [];
      while n < times
        invariant n <= times
        invariant log == old(log) + done
        invariant whole == done + Selected(table, Laps(table, i - count, i, step, acc, times - n), select)
      {
        LapsStep(table, i - count, i, step, acc, times - n, select);
        acc := Add(acc, step);
        Walk(i - count, i, acc, select);
        ghost var lap := Selected(table, Visits(table, i - count, i, acc), select);
        Assoc(done, lap, Selected(table, Laps(table, i - count, i, step, acc, times - n - 1), select));
        Assoc(old(log), done, lap);
        done := done + lap;
        n := n + 1;
      }
      NoLaps(table, i - count, i, step, acc, select);
    }
  }

  lemma {:induction false} ReachBack(table: seq<Item>, enclaveSize: U64)
    requires GroupsOk(table, |table|, enclaveSize)
    ensures GroupsReachBack(table)
  {
    forall i | 0 <= i < |table| && table[i].Group? ensures table[i].count <= i {
      assert GroupOk(table, i, enclaveSize);
    }
  }

  predicate OnEntries(table: seq<Item>, vs: seq<Visit>) {
    forall i :: 0 <= i < |vs| ==> vs[i].index < |table| && table[vs[i].index].Entry?
  }

  lemma {:induction false} CopiesOnEntries(table: seq<Item>, lo: nat, hi: nat, delta: U64)
    requires lo <= hi <= |table| && IsEntryRange(table, lo, hi)
    ensures OnEntries(table, Copies(table, lo, hi, delta))
  {
    if lo < hi { CopiesOnEntries(table, lo, hi - 1, delta); }
  }

  lemma {:induction false} RepeatsOnEntries(table: seq<Item>, lo: nat, hi: nat, step: U64, acc: U64, n: nat)
    requires lo <= hi <= |table| && IsEntryRange(table, lo, hi)
    ensures OnEntries(table, Repeats(table, lo, hi, step, acc, n))
    decreases n
  {
    if n > 0 {
      CopiesOnEntries(table, lo, hi, Add(acc, step));
      RepeatsOnEntries(table, lo, hi, step, Add(acc, step), n - 1);
    }
  }

  lemma {:induction false} ItemOnEntries(table: seq<Item>, i: nat, enclaveSize: U64)
    requires i < |table| && (table[i].Group? ==> GroupOk(table, i, enclaveSize))
    ensures OnEntries(table, ItemVisits(table, i))
  {
    if table[i].Group? && table[i].times > 0 {
      RepeatsOnEntries(table, i - table[i].count, i, table[i].step, 0, table[i].times);
    }
  }

  lemma {:induction false} OnEntriesAppend(table: seq<Item>, a: seq<Visit>, b: seq<Visit>)
    requires OnEntries(table, a) && OnEntries(table, b)
    ensures OnEntries(table, a + b)
  {
  }

  lemma {:induction false} NothingOnEntries(table: seq<Item>, enclaveSize: U64)
    ensures OnEntries(table, Expand(table, 0, enclaveSize))
  {
  }

  lemma {:induction false} ExpandOnEntries(table: seq<Item>, n: nat, enclaveSize: U64)
    requires n <= |table| && GroupsOk(table, n, enclaveSize)
    ensures OnEntries(table, Expand(table, n, enclaveSize))
  {
    hide *;
    if n == 0 {
      NothingOnEntries(table, enclaveSize);
    } else {
      LastVisits(table, n, enclaveSize);
      ExpandOnEntries(table, n - 1, enclaveSize);
      ItemOnEntries(table, n - 1, enclaveSize);
      OnEntriesAppend(table, Expand(table, n - 1, enclaveSize), ItemVisits(table, n - 1));
    }
  }

  lemma {:induction false} AllSelected(table: seq<Item>, enclaveSize: U64, n: nat)
    requires n <= |table| && GroupsOk(table, n, enclaveSize)
    ensures Selected(table, Expand(table, n, enclaveSize), Builds) == Expand(table, n, enclaveSize)
  {
    ExpandOnEntries(table, n, enclaveSize);
    SelectsAll(table, Expand(table, n, enclaveSize));
  }

  lemma {:induction false} SelectsAll(table: seq<Item>, vs: seq<Visit>)
    requires OnEntries(table, vs)
    ensures Selected(table, vs, Builds) == vs
  {
    if vs != [] {
      SelectsAll(table, vs[..|vs| - 1]);
      assert vs == vs[..|vs| - 1] + [vs[|vs| - 1]];
    }
  }

  ghost predicate GroupsReachBack(table: seq<Item>) {
    forall i :: 0 <= i < |table| && table[i].Group? ==> table[i].count <= i
  }

  lemma {:induction false} GroupReachesBack(table: seq<Item>, i: nat)
    requires GroupsReachBack(table) && i < |table|
    ensures table[i].Group? ==> table[i].count <= i
  {
  }

  lemma {:induction false} WalkStarts(table: seq<Item>, lo: nat, delta: U64, select: Item -> bool, log: seq<Visit>)
    requires lo <= |table|
    ensures log == log + Selected(table, Visits(table, lo, lo, delta), select)
  {
  }

  lemma {:induction false} EntryWalked(table: seq<Item>, lo: nat, i: nat, delta: U64, select: Item -> bool)
    requires lo <= i < |table| && table[i].Entry?
    ensures var v := Visit(i, Add(table[i].rva, delta));
      && Selected(table, Visits(table, lo, i + 1, delta), select) ==
         Selected(table, Visits(table, lo, i, delta), select) + Selected(table, [v], select)
      && Selected(table, [v], select) == if select(table[i]) then [v] else []
  {
    SelectedAppend(table, Visits(table, lo, i, delta), [Visit(i, Add(table[i].rva, delta))], select);
  }

  lemma {:induction false} GroupWalked(table: seq<Item>, lo: nat, i: nat, delta: U64, select: Item -> bool)
    requires lo <= i < |table| && table[i].Group? && table[i].count <= i
    ensures Selected(table, Visits(table, lo, i + 1, delta), select) ==
      Selected(table, Visits(table, lo, i, delta), select)
      + Selected(table, Laps(table, i - table[i].count, i, table[i].step, 0, table[i].times), select)
  {
    SelectedAppend(table, Visits(table, lo, i, delta),
      Laps(table, i - table[i].count, i, table[i].step, 0, table[i].times), select);
  }

  lemma {:induction false} LapsStep(table: seq<Item>, lo: nat, hi: nat, step: U64, acc: U64, n: nat,
      select: Item -> bool)
    requires hi <= |table| && n > 0
    ensures Selected(table, Laps(table, lo, hi, step, acc, n), select) ==
      Selected(table, Visits(table, lo, hi, Add(acc, step)), select) +
      Selected(table, Laps(table, lo, hi, step, Add(acc, step), n - 1), select)
  {
    SelectedAppend(table, Visits(table, lo, hi, Add(acc, step)), Laps(table, lo, hi, step, Add(acc, step), n - 1),
      select);
  }

  lemma {:induction false} NoLaps(table: seq<Item>, lo: nat, hi: nat, step: U64, acc: U64, select: Item -> bool)
    requires hi <= |table|
    ensures Selected(table, Laps(table, lo, hi, step, acc, 0), select) == []
  {
  }
}
