/** The enclave layout table (`metadata.h`, `loader.cpp`): entries, repeat groups that count
    backwards, the ranges a table expands to, and what `validate_layout_table` promises about them. */
module Layout {
  import opened Common

  const PAGE: nat := 4096

  type U16 = n: nat | n < 0x1_0000
  type U32 = n: nat | n < WORD32
  type U64 = n: nat | n < WORD64

  datatype Item =
    | Entry(rva: U64, pages: U32, contentOffset: U32, contentSize: U32, postRemove: bool, reserved: bool)
    | Group(count: U16, times: U32, step: U64)

  /** One load of an entry: its place in the table, and the address it is loaded at. */
  datatype Visit = Visit(index: nat, rva: U64)

  datatype Range = Range(start: U64, size: nat)

  /** 64-bit addition. */
  function Add(a: U64, b: U64): U64 {
    (a + b) % WORD64
  }

  predicate IsEntryRange(table: seq<Item>, lo: nat, hi: nat)
    requires lo <= hi <= |table|
  {
    forall i :: lo <= i < hi ==> table[i].Entry?
  }

  // ----- the expansion that the validator collects -----

  /** One load of the entries `lo..hi` at a distance. */
  function Copies(table: seq<Item>, lo: nat, hi: nat, delta: U64): seq<Visit>
    requires lo <= hi <= |table| && IsEntryRange(table, lo, hi)
  {
    if lo == hi then [] else Copies(table, lo, hi - 1, delta) + [Visit(hi - 1, Add(table[hi - 1].rva, delta))]
  }

  /** `n` loads of the entries `lo..hi`, each a step further. */
  function Repeats(table: seq<Item>, lo: nat, hi: nat, step: U64, acc: U64, n: nat): seq<Visit>
    requires lo <= hi <= |table| && IsEntryRange(table, lo, hi)
    decreases n
  {
    if n == 0 then []
    else Copies(table, lo, hi, Add(acc, step)) + Repeats(table, lo, hi, step, Add(acc, step), n - 1)
  }

  /** The running step never exceeds the enclave size. */
  predicate StepsOk(step: U64, acc: U64, n: nat, enclaveSize: U64)
    decreases n
  {
    n == 0 || (Add(acc, step) <= enclaveSize && StepsOk(step, Add(acc, step), n - 1, enclaveSize))
  }

  /** A group reaches back inside the table, over entries only if it repeats at all, and its steps
      stay within the enclave. */
  predicate GroupOk(table: seq<Item>, i: nat, enclaveSize: U64)
    requires i < |table| && table[i].Group?
  {
    && table[i].count <= i
    && (table[i].times > 0 ==> IsEntryRange(table, i - table[i].count, i))
    && StepsOk(table[i].step, 0, table[i].times, enclaveSize)
  }

  predicate GroupsOk(table: seq<Item>, n: nat, enclaveSize: U64)
    requires n <= |table|
  {
    forall i :: 0 <= i < n && table[i].Group? ==> GroupOk(table, i, enclaveSize)
  }

  function GroupVisits(table: seq<Item>, i: nat): seq<Visit>
    requires i < |table| && table[i].Group? && table[i].count <= i
    requires table[i].times > 0 ==> IsEntryRange(table, i - table[i].count, i)
  {
    if table[i].times == 0 then [] else Repeats(table, i - table[i].count, i, table[i].step, 0, table[i].times)
  }

  /** The loads one item adds. */
  function ItemVisits(table: seq<Item>, i: nat): seq<Visit>
    requires i < |table|
    requires table[i].Group? ==>
      table[i].count <= i && (table[i].times > 0 ==> IsEntryRange(table, i - table[i].count, i))
  {
    if table[i].Entry? then [Visit(i, table[i].rva)] else GroupVisits(table, i)
  }

  /** All loads of the first `n` items, in order. */
  function Expand(table: seq<Item>, n: nat, enclaveSize: U64): seq<Visit>
    requires n <= |table| && GroupsOk(table, n, enclaveSize)
  {
    if n == 0 then [] else Expand(table, n - 1, enclaveSize) + ItemVisits(table, n - 1)
  }

  // ----- the recursive walks -----

  /** What `build_contexts`, `post_init_action` and `set_context_protection` visit between two items
      of the table; a group walks the items before it again, with its own distance. */
  function Visits(table: seq<Item>, lo: nat, hi: nat, delta: U64): seq<Visit>
    requires hi <= |table|
    decreases hi, 0, 0
  {
    if hi <= lo then []
    else
      var before := Visits(table, lo, hi - 1, delta);
      match table[hi - 1]
      case Entry(rva, _, _, _, _, _) => before + [Visit(hi - 1, Add(rva, delta))]
      case Group(count, times, step) =>
        if count <= hi - 1 then before + Laps(table, hi - 1 - count, hi - 1, step, 0, times) else before
  }

  function Laps(table: seq<Item>, lo: nat, hi: nat, step: U64, acc: U64, n: nat): seq<Visit>
    requires hi <= |table|
    decreases hi, 1, n
  {
    if n == 0 then []
    else Visits(table, lo, hi, Add(acc, step)) + Laps(table, lo, hi, step, Add(acc, step), n - 1)
  }

  lemma {:induction false} VisitsOfEntries(table: seq<Item>, lo: nat, hi: nat, delta: U64)
    requires lo <= hi <= |table| && IsEntryRange(table, lo, hi)
    ensures Visits(table, lo, hi, delta) == Copies(table, lo, hi, delta)
    decreases hi
  {
    if lo < hi { VisitsOfEntries(table, lo, hi - 1, delta); }
  }

  lemma {:induction false} LapsOfEntries(table: seq<Item>, lo: nat, hi: nat, step: U64, acc: U64, n: nat)
    requires lo <= hi <= |table| && IsEntryRange(table, lo, hi)
    ensures Laps(table, lo, hi, step, acc, n) == Repeats(table, lo, hi, step, acc, n)
    decreases n
  {
    if n > 0 {
      VisitsOfEntries(table, lo, hi, Add(acc, step));
      LapsOfEntries(table, lo, hi, step, Add(acc, step), n - 1);
    }
  }

  /** The walks visit exactly the expansion that was validated. */
  lemma {:induction false} WalkIsExpansion(table: seq<Item>, n: nat, enclaveSize: U64)
    requires n <= |table| && GroupsOk(table, n, enclaveSize)
    ensures Visits(table, 0, n, 0) == Expand(table, n, enclaveSize)
  {
    hide *;
    if n == 0 {
      NoVisits(table, enclaveSize);
    } else {
      LastVisits(table, n, enclaveSize);
      WalkIsExpansion(table, n - 1, enclaveSize);
      WalkOfItem(table, n - 1, enclaveSize);
    }
  }

  lemma {:induction false} NoVisits(table: seq<Item>, enclaveSize: U64)
    ensures Visits(table, 0, 0, 0) == Expand(table, 0, enclaveSize)
  {
  }

  lemma {:induction false} LastVisits(table: seq<Item>, n: nat, enclaveSize: U64)
    requires 0 < n <= |table| && GroupsOk(table, n, enclaveSize)
    ensures table[n - 1].Group? ==>
      && GroupOk(table, n - 1, enclaveSize) && table[n - 1].count <= n - 1
      && (table[n - 1].times > 0 ==> IsEntryRange(table, n - 1 - table[n - 1].count, n - 1))
    ensures GroupsOk(table, n - 1, enclaveSize)
    ensures Expand(table, n, enclaveSize) == Expand(table, n - 1, enclaveSize) + ItemVisits(table, n - 1)
  {
    hide ItemVisits;
  }

  lemma {:induction false} WalkOfItem(table: seq<Item>, i: nat, enclaveSize: U64)
    requires i < |table| && (table[i].Group? ==> GroupOk(table, i, enclaveSize))
    ensures Visits(table, 0, i + 1, 0) == Visits(table, 0, i, 0) + ItemVisits(table, i)
  {
    if table[i].Group? {
      if table[i].times > 0 { LapsOfEntries(table, i - table[i].count, i, table[i].step, 0, table[i].times); }
    }
  }

  // ----- exact addresses -----

  /** A load in unbounded integers. */
  datatype Place = Place(index: nat, at: nat)

  function Places(vs: seq<Visit>): seq<Place> {
    seq(|vs|, i requires 0 <= i < |vs| => Place(vs[i].index, vs[i].rva))
  }

  lemma {:induction false} PlacesAppend(a: seq<Visit>, b: seq<Visit>)
    ensures Places(a + b) == Places(a) + Places(b)
  {
  }

  function ExactCopies(table: seq<Item>, lo: nat, hi: nat, delta: nat): seq<Place>
    requires lo <= hi <= |table| && IsEntryRange(table, lo, hi)
  {
    if lo == hi then [] else ExactCopies(table, lo, hi - 1, delta) + [Place(hi - 1, table[hi - 1].rva + delta)]
  }

  /** Repetition `j` of a group is `j` steps away. */
  function ExactRepeats(table: seq<Item>, lo: nat, hi: nat, step: nat, j: nat, n: nat): seq<Place>
    requires lo <= hi <= |table| && IsEntryRange(table, lo, hi)
    decreases n
  {
    if n == 0 then [] else ExactCopies(table, lo, hi, (j + 1) * step) + ExactRepeats(table, lo, hi, step, j + 1, n - 1)
  }

  function ExactItem(table: seq<Item>, i: nat, enclaveSize: U64): seq<Place>
    requires i < |table| && (table[i].Group? ==> GroupOk(table, i, enclaveSize))
  {
    match table[i]
    case Entry(rva, _, _, _, _, _) => [Place(i, rva)]
    case Group(count, times, step) => if times == 0 then [] else ExactRepeats(table, i - count, i, step, 0, times)
  }

  function ExactExpand(table: seq<Item>, n: nat, enclaveSize: U64): seq<Place>
    requires n <= |table| && GroupsOk(table, n, enclaveSize)
  {
    if n == 0 then [] else ExactExpand(table, n - 1, enclaveSize) + ExactItem(table, n - 1, enclaveSize)
  }

  predicate EntriesBelow(table: seq<Item>, lo: nat, hi: nat, enclaveSize: U64)
    requires lo <= hi <= |table|
  {
    forall i :: lo <= i < hi && table[i].Entry? ==> table[i].rva < enclaveSize
  }

  predicate AllBelow(vs: seq<Visit>, enclaveSize: U64) {
    forall i :: 0 <= i < |vs| ==> vs[i].rva < enclaveSize
  }

  lemma {:induction false} AllBelowSplit(a: seq<Visit>, b: seq<Visit>, enclaveSize: U64)
    requires AllBelow(a + b, enclaveSize)
    ensures AllBelow(a, enclaveSize) && AllBelow(b, enclaveSize)
  {
    forall i | 0 <= i < |a| ensures a[i].rva < enclaveSize { assert (a + b)[i] == a[i]; }
    forall i | 0 <= i < |b| ensures b[i].rva < enclaveSize { assert (a + b)[|a| + i] == b[i]; }
  }

  /** Half the address space: up to this size, no sum of an address and a distance wraps. */
  const HALF: nat := 0x8000_0000_0000_0000

  lemma {:induction false} CopiesAreExact(table: seq<Item>, lo: nat, hi: nat, delta: U64, enclaveSize: U64)
    requires lo <= hi <= |table| && IsEntryRange(table, lo, hi) && EntriesBelow(table, lo, hi, enclaveSize)
    requires delta <= enclaveSize <= HALF
    ensures Places(Copies(table, lo, hi, delta)) == ExactCopies(table, lo, hi, delta)
  {
    if lo < hi {
      CopiesAreExact(table, lo, hi - 1, delta, enclaveSize);
      PlacesAppend(Copies(table, lo, hi - 1, delta), [Visit(hi - 1, Add(table[hi - 1].rva, delta))]);
    }
  }

  /** Copies inside the enclave are less than its size away. */
  lemma {:induction false} CopiesAreNear(table: seq<Item>, lo: nat, hi: nat, delta: U64, enclaveSize: U64)
    requires lo < hi <= |table| && IsEntryRange(table, lo, hi) && EntriesBelow(table, lo, hi, enclaveSize)
    requires delta <= enclaveSize <= HALF && AllBelow(Copies(table, lo, hi, delta), enclaveSize)
    ensures delta < enclaveSize
  {
    var vs := Copies(table, lo, hi, delta);
    assert vs[|vs| - 1].rva == table[hi - 1].rva + delta;
  }

  lemma {:induction false} RepeatsAreExact(table: seq<Item>, lo: nat, hi: nat, step: U64, acc: U64, j: nat, n: nat,
      enclaveSize: U64)
    requires lo < hi <= |table| && IsEntryRange(table, lo, hi) && EntriesBelow(table, lo, hi, enclaveSize)
    requires step <= enclaveSize <= HALF && acc == j * step && acc < enclaveSize
    requires StepsOk(step, acc, n, enclaveSize) && AllBelow(Repeats(table, lo, hi, step, acc, n), enclaveSize)
    ensures Places(Repeats(table, lo, hi, step, acc, n)) == ExactRepeats(table, lo, hi, step, j, n)
    decreases n
  {
    if n > 0 {
      NextStep(j, step, acc, enclaveSize);
      var next := Add(acc, step);
      hide Add, Places, Copies, ExactCopies, IsEntryRange, EntriesBelow, AllBelow;
      AllBelowSplit(Copies(table, lo, hi, next), Repeats(table, lo, hi, step, next, n - 1), enclaveSize);
      CopiesAreExact(table, lo, hi, next, enclaveSize);
      CopiesAreNear(table, lo, hi, next, enclaveSize);
      RepeatsAreExact(table, lo, hi, step, next, j + 1, n - 1, enclaveSize);
      PlacesAppend(Copies(table, lo, hi, next), Repeats(table, lo, hi, step, next, n - 1));
    }
  }

  lemma {:induction false} NextStep(j: nat, step: U64, acc: U64, enclaveSize: U64)
    requires step <= enclaveSize <= HALF && acc == j * step && acc < enclaveSize
    ensures Add(acc, step) == (j + 1) * step
  {
    assert (j + 1) * step == j * step + step;
  }

  /** A group without entries loads nothing, whatever its steps do. */
  lemma {:induction false} EmptyRepeats(table: seq<Item>, lo: nat, step: U64, acc: U64, j: nat, n: nat)
    requires lo <= |table|
    ensures Repeats(table, lo, lo, step, acc, n) == [] && ExactRepeats(table, lo, lo, step, j, n) == []
    decreases n
  {
    if n > 0 { EmptyRepeats(table, lo, step, Add(acc, step), j + 1, n - 1); }
  }

  /** With all loads inside an enclave of at most half the address space, no addition wraps: the
      expansion is the one in unbounded integers. */
  lemma {:induction false} ExpandIsExact(table: seq<Item>, n: nat, enclaveSize: U64)
    requires n <= |table| && GroupsOk(table, n, enclaveSize) && EntriesBelow(table, 0, n, enclaveSize)
    requires enclaveSize <= HALF && AllBelow(Expand(table, n, enclaveSize), enclaveSize)
    ensures Places(Expand(table, n, enclaveSize)) == ExactExpand(table, n, enclaveSize)
  {
    hide *;
    if n == 0 {
      NoItems(table, enclaveSize);
    } else {
      LastItem(table, n, enclaveSize);
      LastVisits(table, n, enclaveSize);
      AllBelowSplit(Expand(table, n - 1, enclaveSize), ItemVisits(table, n - 1), enclaveSize);
      ExpandIsExact(table, n - 1, enclaveSize);
      ItemIsExact(table, n - 1, enclaveSize);
      PlacesAppend(Expand(table, n - 1, enclaveSize), ItemVisits(table, n - 1));
    }
  }

  lemma {:induction false} NoItems(table: seq<Item>, enclaveSize: U64)
    ensures Places(Expand(table, 0, enclaveSize)) == ExactExpand(table, 0, enclaveSize)
  {
  }

  lemma {:induction false} LastItem(table: seq<Item>, n: nat, enclaveSize: U64)
    requires 0 < n <= |table| && GroupsOk(table, n, enclaveSize) && EntriesBelow(table, 0, n, enclaveSize)
    ensures GroupsOk(table, n - 1, enclaveSize) && EntriesBelow(table, 0, n - 1, enclaveSize)
    ensures table[n - 1].Group? ==> GroupOk(table, n - 1, enclaveSize)
    ensures ExactExpand(table, n, enclaveSize) ==
      ExactExpand(table, n - 1, enclaveSize) + ExactItem(table, n - 1, enclaveSize)
  {
    hide ExactItem;
  }

  lemma {:induction false} ItemIsExact(table: seq<Item>, i: nat, enclaveSize: U64)
    requires i < |table| && EntriesBelow(table, 0, i, enclaveSize) && enclaveSize <= HALF
    requires table[i].Group? ==> GroupOk(table, i, enclaveSize)
    requires AllBelow(ItemVisits(table, i), enclaveSize)
    ensures Places(ItemVisits(table, i)) == ExactItem(table, i, enclaveSize)
  {
    if table[i].Group? && table[i].times > 0 {
      var count, times, step := table[i].count, table[i].times, table[i].step;
      if count == 0 {
        EmptyRepeats(table, i, step, 0, 0, times);
      } else {
        assert table[i - 1].rva < enclaveSize;
        RepeatsAreExact(table, i - count, i, step, 0, 0, times, enclaveSize);
      }
    }
  }

  // ----- ranges -----

  function RangeOf(table: seq<Item>, v: Visit): Range {
    Range(v.rva, if v.index < |table| && table[v.index].Entry? then table[v.index].pages * PAGE else 0)
  }

  function Ranges(table: seq<Item>, vs: seq<Visit>): seq<Range> {
    seq(|vs|, i requires 0 <= i < |vs| => RangeOf(table, vs[i]))
  }

  lemma {:induction false} RangesAppend(table: seq<Item>, a: seq<Visit>, b: seq<Visit>)
    ensures Ranges(table, a + b) == Ranges(table, a) + Ranges(table, b)
  {
  }

  /** `is_enclave_buffer` and page alignment, without wrap-around. */
  predicate Fits(r: Range, enclaveSize: U64) {
    r.start % PAGE == 0 && r.start < enclaveSize && r.start + r.size <= enclaveSize
  }

  predicate Apart(a: Range, b: Range) {
    a.start + a.size <= b.start || b.start + b.size <= a.start
  }

  predicate ApartFrom(a: Range, rs: seq<Range>) {
    forall b :: b in rs ==> Apart(a, b)
  }

  predicate AllApart(rs: seq<Range>) {
    rs == [] || (ApartFrom(rs[0], rs[1..]) && AllApart(rs[1..]))
  }

  /** Any two loads are apart. */
  lemma {:induction false} AllApartIff(rs: seq<Range>)
    ensures AllApart(rs) <==> forall i, j :: 0 <= i < j < |rs| ==> Apart(rs[i], rs[j])
  {
    if rs != [] {
      AllApartIff(rs[1..]);
      if AllApart(rs) {
        forall i, j | 0 <= i < j < |rs| ensures Apart(rs[i], rs[j]) {
          if i > 0 {
            assert rs[i] == rs[1..][i - 1] && rs[j] == rs[1..][j - 1];
          } else {
            assert rs[j] == rs[1..][j - 1];
          }
        }
      } else if ApartFrom(rs[0], rs[1..]) {
        var i, j :| 0 <= i < j < |rs[1..]| && !Apart(rs[1..][i], rs[1..][j]);
        assert !Apart(rs[i + 1], rs[j + 1]);
      } else {
        var b :| b in rs[1..] && !Apart(rs[0], b);
        var j :| 0 <= j < |rs[1..]| && rs[1..][j] == b;
        assert !Apart(rs[0], rs[j + 1]);
      }
    }
  }

  // ----- sorting -----

  /** The order of `std::pair`. */
  predicate Before(a: Range, b: Range) {
    a.start < b.start || (a.start == b.start && a.size <= b.size)
  }

  predicate IsSorted(rs: seq<Range>) {
    forall i :: 0 <= i < |rs| - 1 ==> Before(rs[i], rs[i + 1])
  }

  function Insert(r: Range, rs: seq<Range>): (s: seq<Range>)
    ensures forall x :: x in s <==> x == r || x in rs
  {
    if rs == [] || Before(r, rs[0]) then [r] + rs else [rs[0]] + Insert(r, rs[1..])
  }

  /** `std::sort`; the order is total, so every sorting algorithm gives this result. */
  function Sort(rs: seq<Range>): (s: seq<Range>)
    ensures forall x :: x in s <==> x in rs
  {
    if rs == [] then [] else Insert(rs[0], Sort(rs[1..]))
  }

  lemma {:induction false} InsertSorts(r: Range, rs: seq<Range>)
    requires IsSorted(rs)
    ensures IsSorted(Insert(r, rs))
    ensures Insert(r, rs) != [] && (Insert(r, rs)[0] == r || (rs != [] && Insert(r, rs)[0] == rs[0]))
  {
    if rs != [] && !Before(r, rs[0]) {
      var tail := rs[1..];
      forall i | 0 <= i < |tail| - 1 ensures Before(tail[i], tail[i + 1]) {
        assert tail[i] == rs[i + 1] && tail[i + 1] == rs[i + 2] && Before(rs[i + 1], rs[i + 1 + 1]);
      }
      InsertSorts(r, rs[1..]);
      var t := Insert(r, rs[1..]);
      assert |rs| > 1 ==> rs[1..][0] == rs[1] && Before(rs[0], rs[1]);
      assert Before(rs[0], t[0]);
    }
  }

  lemma {:induction false} SortSorts(rs: seq<Range>)
    ensures IsSorted(Sort(rs))
  {
    if rs != [] {
      SortSorts(rs[1..]);
      InsertSorts(rs[0], Sort(rs[1..]));
    }
  }

  lemma {:induction false} InsertApart(r: Range, rs: seq<Range>)
    ensures AllApart(Insert(r, rs)) <==> ApartFrom(r, rs) && AllApart(rs)
  {
    if rs == [] || Before(r, rs[0]) {
      assert ([r] + rs)[1..] == rs;
    } else {
      InsertApart(r, rs[1..]);
      var t := Insert(r, rs[1..]);
      assert ([rs[0]] + t)[1..] == t;
      assert rs == [rs[0]] + rs[1..];
      assert ApartFrom(rs[0], t) <==> Apart(rs[0], r) && ApartFrom(rs[0], rs[1..]) by {
        ApartFromInsert(rs[0], r, rs[1..]);
      }
      assert ApartFrom(r, rs) <==> Apart(r, rs[0]) && ApartFrom(r, rs[1..]) by { ApartFromCons(r, rs); }
    }
  }

  lemma {:induction false} ApartFromInsert(a: Range, r: Range, rs: seq<Range>)
    ensures ApartFrom(a, Insert(r, rs)) <==> Apart(a, r) && ApartFrom(a, rs)
  {
  }

  lemma {:induction false} ApartFromCons(a: Range, rs: seq<Range>)
    requires rs != []
    ensures ApartFrom(a, rs) <==> Apart(a, rs[0]) && ApartFrom(a, rs[1..])
  {
    assert rs == [rs[0]] + rs[1..];
  }

  /** Sorting neither hides nor invents an overlap. */
  lemma {:induction false} SortApart(rs: seq<Range>)
    ensures AllApart(Sort(rs)) <==> AllApart(rs)
  {
    if rs != [] {
      SortApart(rs[1..]);
      InsertApart(rs[0], Sort(rs[1..]));
    }
  }

  /** In a sorted list, looking at neighbours is enough. */
  predicate Chained(rs: seq<Range>) {
    forall i :: 0 <= i < |rs| - 1 ==> rs[i].start + rs[i].size <= rs[i + 1].start
  }

  lemma {:induction false} ChainedBelow(rs: seq<Range>, i: nat, j: nat)
    requires Chained(rs) && i < j < |rs|
    ensures rs[i].start + rs[i].size <= rs[j].start
    decreases j
  {
    if i < j - 1 {
      ChainedBelow(rs, i, j - 1);
      assert rs[j - 1].start + rs[j - 1].size <= rs[j - 1 + 1].start;
    } else {
      assert rs[i].start + rs[i].size <= rs[i + 1].start;
    }
  }

  lemma {:induction false} ChainedIff(rs: seq<Range>)
    requires IsSorted(rs)
    ensures Chained(rs) <==> AllApart(rs)
  {
    AllApartIff(rs);
    if Chained(rs) {
      forall i, j | 0 <= i < j < |rs| ensures Apart(rs[i], rs[j]) { ChainedBelow(rs, i, j); }
    }
    if AllApart(rs) {
      forall i | 0 <= i < |rs| - 1 ensures rs[i].start + rs[i].size <= rs[i + 1].start {
        assert Before(rs[i], rs[i + 1]) && Apart(rs[i], rs[i + 1]);
      }
    }
  }
}
