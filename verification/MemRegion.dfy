/** `CLoader::build_mem_region`, `build_partial_page` and `build_pages`: a section is added page by
    page, and must come out as the flat image of its raw data padded with zeros. */
module MemRegion {
  import opened Common
  import opened Layout

  newtype Byte = n: int | 0 <= n < 256

  /** `raw` is the initialised data, `relocations` the relocation bitmap. */
  datatype Section = Section(rva: U64, raw: seq<Byte>, virtualSize: U64, writable: bool, relocations: seq<Byte>)

  /** The raw data is in memory. */
  predicate InMemory(s: Section) {
    |s.raw| + PAGE <= WORD64
  }

  /** The bytes the section takes: its virtual size, or the raw data if that is longer. */
  function Extent(s: Section): nat {
    if |s.raw| <= s.virtualSize then s.virtualSize else |s.raw|
  }

  /** `uint64_t` addition. */
  function Add64(x: nat, y: nat): (r: U64) {
    (x + y) % WORD64
  }

  const FRAMES: nat := 0x10_0000_0000_0000

  /** A page as it is handed to the driver. */
  datatype Page = Page(rva: nat, content: seq<Byte>, writable: bool)

  // ----- the image -----

  /** The byte of the flat image at an address. */
  function ImageByte(s: Section, a: nat): Byte {
    if s.rva <= a < s.rva + |s.raw| then s.raw[a - s.rva] else 0
  }

  function ImageBytes(s: Section, frame: nat): seq<Byte> {
    seq(PAGE, k requires 0 <= k < PAGE => ImageByte(s, frame * PAGE + k))
  }

  /** `is_relocation_page`, by page number. */
  predicate IsRelocationPage(frame: nat, bitmap: seq<Byte>) {
    frame / 8 < |bitmap| && (bitmap[frame / 8] as nat) / Pow2(frame % 8) % 2 == 1
  }

  /** The page with number `frame`: the image, writable if the section is or if the page holds raw
      data and is to be relocated. */
  function ImagePage(s: Section, frame: nat): Page {
    Page(frame * PAGE, ImageBytes(s, frame),
         s.writable || (HoldsRaw(s, frame) && IsRelocationPage(frame, s.relocations)))
  }

  predicate HoldsRaw(s: Section, frame: nat) {
    s.raw != [] && frame * PAGE < s.rva + |s.raw| && s.rva < (frame + 1) * PAGE
  }

  /** The first page, and the first one past the section. */
  function First(s: Section): nat {
    s.rva / PAGE
  }

  function Limit(s: Section): nat {
    if Extent(s) == 0 then First(s) else (s.rva + Extent(s) - 1) / PAGE + 1
  }

  function ImagePages(s: Section, from: nat, to: nat): (r: seq<Page>)
    requires from <= to
  {
    seq(to - from, i requires 0 <= i < to - from => ImagePage(s, from + i))
  }

  predicate Covers(s: Section, frame: nat, a: nat) {
    s.rva <= a < s.rva + Extent(s) && a / PAGE == frame
  }

  /** The pages are exactly those with an address of the section in them. */
  lemma {:induction false} PagesCover(s: Section, frame: nat)
    ensures First(s) <= frame < Limit(s) <==> exists a :: Covers(s, frame, a)
  {
    if First(s) <= frame < Limit(s) {
      assert Covers(s, frame, if frame * PAGE < s.rva then s.rva else frame * PAGE);
    }
  }

  /** Read back through the pages, every address of the section has its byte of the image. */
  lemma {:induction false} FlatImage(s: Section, a: nat)
    requires s.rva <= a < s.rva + Extent(s)
    ensures First(s) <= a / PAGE < Limit(s)
    ensures var page := ImagePages(s, First(s), Limit(s))[a / PAGE - First(s)];
      && |page.content| == PAGE
      && page.content[a % PAGE] == (if a < s.rva + |s.raw| then s.raw[a - s.rva] else 0)
      && page.rva + a % PAGE == a
  {
    var page := ImagePages(s, First(s), Limit(s))[a / PAGE - First(s)];
    assert page == ImagePage(s, a / PAGE);
    assert page.content[a % PAGE] == ImageByte(s, a / PAGE * PAGE + a % PAGE);
  }

  // ----- what is built -----

  /** The first page past the raw data, and the offset at which the loop over it ends. */
  function RawLimit(s: Section): nat {
    if s.raw == [] then First(s) else (s.rva + |s.raw| - 1) / PAGE + 1
  }

  function RawEnd(s: Section): nat {
    if s.raw == [] then 0 else RawLimit(s) * PAGE - s.rva
  }

  /** `ROUND_TO_PAGE` of a `uint64_t` sum. */
  function RoundToPage(n: nat): U64 {
    Add64(n, PAGE - 1) / PAGE * PAGE
  }

  /** The number of pages added after the raw data. */
  function ZeroCount(s: Section): nat {
    if s.virtualSize > RawEnd(s) then RoundToPage(s.virtualSize - RawEnd(s) + (s.rva + RawEnd(s)) % PAGE) / PAGE else 0
  }

  /** The image's page as the code sees it: the address wraps around. */
  function WrappedPage(s: Section, frame: nat): Page {
    Page(frame * PAGE % WORD64, ImageBytes(s, frame),
         s.writable || (HoldsRaw(s, frame) && IsRelocationPage(frame % FRAMES, s.relocations)))
  }

  function WrappedPages(s: Section, from: nat, n: nat): (r: seq<Page>) {
    seq(n, i requires 0 <= i < n => WrappedPage(s, from + i))
  }

  function Built(s: Section): seq<Page> {
    WrappedPages(s, First(s), RawLimit(s) - First(s) + ZeroCount(s))
  }

  /** The section ends in the address space, and does not fill all of it with zeros. */
  predicate NoWrap(s: Section) {
    Extent(s) > 0 ==>
      s.rva + Extent(s) <= WORD64
      && (s.raw == [] && s.rva < PAGE ==> s.rva + s.virtualSize <= WORD64 - PAGE)
  }

  lemma {:induction false} UnwrappedPage(s: Section, frame: nat)
    requires frame < FRAMES
    ensures WrappedPage(s, frame) == ImagePage(s, frame)
  {
    hide IsRelocationPage, ImageBytes, HoldsRaw;
  }

  /** As many zero pages are added as the image has, unless the rounding wraps around. */
  lemma {:induction false} CountIff(s: Section)
    requires InMemory(s) && Extent(s) > 0
    ensures s.rva + Extent(s) <= WORD64 ==> (RawLimit(s) + ZeroCount(s) == Limit(s) <==> NoWrap(s))
  {
    var e := RawEnd(s);
    EndOfRaw(s);
    if s.virtualSize > e {
      var x := s.virtualSize - e + (s.rva + e) % PAGE;
      PagesBetween(s.rva + e, s.virtualSize - e);
      assert ZeroCount(s) == (x + PAGE - 1) % WORD64 / PAGE;
      hide RawEnd, RawLimit, ZeroCount;
      RoundingWraps(x + PAGE - 1);
    }
  }

  /** The loop over the raw data ends at a page boundary, or does not start. */
  lemma {:induction false} EndOfRaw(s: Section)
    ensures (s.rva + RawEnd(s)) / PAGE == RawLimit(s)
    ensures s.raw != [] ==> RawEnd(s) > 0 && (s.rva + RawEnd(s)) % PAGE == 0
    ensures s.raw == [] ==> RawEnd(s) == 0
    ensures s.virtualSize <= RawEnd(s) ==> Limit(s) == RawLimit(s)
    ensures s.virtualSize > RawEnd(s) ==> Extent(s) == s.virtualSize
  {
  }

  lemma {:induction false} PagesBetween(a: nat, n: nat)
    requires n > 0
    ensures (n + a % PAGE + PAGE - 1) / PAGE == (a + n - 1) / PAGE + 1 - a / PAGE
  {
  }

  lemma {:induction false} RoundingWraps(x: nat)
    ensures x % WORD64 / PAGE == x / PAGE <==> x < WORD64
  {
  }

  lemma {:induction false} NoWrapFrame(s: Section, frame: nat)
    requires NoWrap(s) && frame < Limit(s) && Extent(s) > 0
    ensures frame < FRAMES
  {
  }

  lemma {:induction false} EmptyBuilt(s: Section)
    requires Extent(s) == 0
    ensures Limit(s) == First(s) == RawLimit(s) && ZeroCount(s) == 0
  {
  }

  lemma {:induction false} NoWrapBuilds(s: Section)
    requires NoWrap(s) && First(s) <= RawLimit(s) <= Limit(s) && RawLimit(s) + ZeroCount(s) == Limit(s)
    ensures Built(s) == ImagePages(s, First(s), Limit(s))
  {
    hide NoWrap, WrappedPage, ImagePage, ZeroCount, First, Limit, RawLimit;
    var from, to := First(s), Limit(s);
    if Extent(s) == 0 { EmptyBuilt(s); }
    forall i | 0 <= i < to - from ensures Built(s)[i] == ImagePages(s, from, to)[i] {
      NoWrapFrame(s, from + i);
      UnwrappedPage(s, from + i);
    }
  }

  /** The pages built are the pages of the flat image if and only if nothing wraps around. */
  lemma {:induction false} BuiltIsImageIff(s: Section)
    requires InMemory(s)
    ensures First(s) <= Limit(s)
    ensures Built(s) == ImagePages(s, First(s), Limit(s)) <==> NoWrap(s)
  {
    LimitsOrdered(s);
    hide WrappedPage, ImagePage, ZeroCount, Limit, RawLimit, First, NoWrap;
    if Extent(s) == 0 { EmptyBuilt(s); } else { CountIff(s); }
    if NoWrap(s) {
      if Extent(s) > 0 { WithinSpace(s); }
      NoWrapBuilds(s);
    } else if Built(s) == ImagePages(s, First(s), Limit(s)) {
      BuiltEnds(s);
    }
  }

  lemma {:induction false} LimitsOrdered(s: Section)
    ensures First(s) <= RawLimit(s) <= Limit(s) && (Extent(s) > 0 ==> First(s) < Limit(s))
    ensures Extent(s) == 0 ==> NoWrap(s)
  {
  }

  lemma {:induction false} WithinSpace(s: Section)
    requires NoWrap(s) && Extent(s) > 0
    ensures s.rva + Extent(s) <= WORD64
  {
  }

  lemma {:induction false} BuiltEnds(s: Section)
    requires First(s) <= RawLimit(s) && First(s) < Limit(s) && Extent(s) > 0
    requires Built(s) == ImagePages(s, First(s), Limit(s))
    ensures s.rva + Extent(s) <= WORD64 && RawLimit(s) + ZeroCount(s) == Limit(s)
  {
    hide WrappedPage, ImagePage, ZeroCount, Limit, RawLimit, First;
    var from, to := First(s), Limit(s);
    assert |Built(s)| == |ImagePages(s, from, to)| == to - from;
    assert Built(s)[to - 1 - from] == WrappedPage(s, to - 1);
    assert ImagePages(s, from, to)[to - 1 - from] == ImagePage(s, to - 1);
    LastUnwrapped(s);
  }

  lemma {:induction false} LastUnwrapped(s: Section)
    requires Extent(s) > 0 && WrappedPage(s, Limit(s) - 1) == ImagePage(s, Limit(s) - 1)
    ensures s.rva + Extent(s) <= WORD64
  {
    assert WrappedPage(s, Limit(s) - 1).rva == ImagePage(s, Limit(s) - 1).rva;
  }

  // ----- building -----

  class Driver {
    /** The pages added so far. */
    var pages: seq<Page>

    constructor ()
      ensures pages == []
    {
      pages := [];
    }

    /** `build_pages`; its assertion is the precondition. Every page gets the same content. */
    method BuildPages(start: U64, size: U64, source: seq<Byte>, writable: bool)
      requires start % PAGE == 0 && size % PAGE == 0 && |source| == PAGE
      modifies this
      ensures pages == old(pages) + SamePages(start, size / PAGE, source, writable)
    {
      var offset, rva := 0, start;
      ghost var n := 0;
      while offset < size
        invariant offset == n * PAGE && offset <= size && rva == (start + n * PAGE) % WORD64
        invariant pages == old(pages) + SamePages(start, n, source, writable)
      {
        pages := pages + [Page(rva, source, writable)];
        SamePagesSnoc(start, n, source, writable);
        offset := offset + PAGE;
        rva := Add64(rva, PAGE);
        n := n + 1;
      }
    }

    /** `build_partial_page`: zeros around the data. */
    method BuildPartialPage(rva: U64, data: seq<Byte>, writable: bool)
      requires rva % PAGE + |data| <= PAGE
      modifies this
      ensures pages == old(pages) + [Page(rva - rva % PAGE, Padded(rva % PAGE, data), writable)]
    {
      var offset := rva % PAGE;
      BuildPages(rva - offset, PAGE, Padded(offset, data), writable);
      OneSamePage(rva - offset, Padded(offset, data), writable);
    }

    /** One turn of the loop over the raw data. */
    method AddRawPage(s: Section, offset: nat, ghost frame: nat) returns (rest: nat)
      requires offset < |s.raw| && frame == (s.rva + offset) / PAGE && (offset == 0 || (s.rva + offset) % PAGE == 0)
      modifies this
      ensures pages == old(pages) + [WrappedPage(s, frame)] && rest == PAGE - (s.rva + offset) % PAGE
    {
      hide IsRelocationPage, WrappedPage, SamePages, Padded;
      var rva := Add64(s.rva, offset);
      WrappedFrame(s.rva + offset);
      rest := PAGE - rva % PAGE;
      var size := if rest < |s.raw| - offset then rest else |s.raw| - offset;
      var writable := s.writable || IsRelocationPage(rva / PAGE, s.relocations);
      RawPage(s, offset, size, frame);
      if size == PAGE {
        BuildPages(rva, size, s.raw[offset..offset + size], writable);
        OneSamePage(rva, s.raw[offset..offset + size], writable);
      } else {
        BuildPartialPage(rva, s.raw[offset..offset + size], writable);
      }
    }

    /** The pages past the raw data. */
    method AddZeroPages(s: Section, offset: nat, ghost frame: nat)
      requires frame == RawLimit(s) && offset == RawEnd(s) && s.virtualSize > offset
      modifies this
      ensures pages == old(pages) + WrappedPages(s, frame, ZeroCount(s))
    {
      hide WrappedPages, SamePages, RoundToPage, ZeroCount, RawLimit, RawEnd;
      var rva := Add64(s.rva, offset);
      WrappedFrame(s.rva + offset);
      var size := RoundToPage(s.virtualSize - offset + rva % PAGE);
      rva := rva - rva % PAGE;
      ZeroPages(s, frame, offset);
      BuildPages(rva, size, Zeros(), s.writable);
    }

    /** `build_mem_region`: each page of the section once, in ascending order, with the bytes of the
        flat image, at addresses that wrap around at 2^64. */
    method BuildMemRegion(s: Section)
      requires InMemory(s)
      modifies this
      ensures pages == old(pages) + Built(s)
      ensures First(s) <= Limit(s) && (NoWrap(s) ==> pages == old(pages) + ImagePages(s, First(s), Limit(s)))
    {
      hide WrappedPages, WrappedPage, NoWrap, ZeroCount, ImagePages;
      var offset := 0;
      ghost var frame := First(s);
      BuiltIsImageIff(s);
      NoPages(s, frame, pages);
      while offset < |s.raw|
        invariant First(s) <= frame && (frame == First(s) ==> offset == 0)
        invariant frame > First(s) ==>
          s.raw != [] && s.rva + offset == frame * PAGE && (frame - 1) * PAGE < s.rva + |s.raw|
        invariant pages == old(pages) + WrappedPages(s, First(s), frame - First(s))
      {
        PagesSnoc(s, First(s), frame - First(s));
        var rest := AddRawPage(s, offset, frame);
        offset := offset + rest;
        frame := frame + 1;
      }
      LoopEnds(s, frame, offset);
      NoPages(s, frame, pages);
      if s.virtualSize > offset { AddZeroPages(s, offset, frame); } else { NoZeros(s); }
      PagesAppend(s, First(s), frame - First(s), ZeroCount(s));
    }
  }

  lemma {:induction false} NoZeros(s: Section)
    requires s.virtualSize <= RawEnd(s)
    ensures ZeroCount(s) == 0
  {
  }

  function SamePages(start: nat, n: nat, source: seq<Byte>, writable: bool): seq<Page> {
    seq(n, i requires 0 <= i < n => Page((start + i * PAGE) % WORD64, source, writable))
  }

  lemma {:induction false} SamePagesSnoc(start: nat, n: nat, source: seq<Byte>, writable: bool)
    ensures SamePages(start, n + 1, source, writable) ==
      SamePages(start, n, source, writable) + [Page((start + n * PAGE) % WORD64, source, writable)]
  {
  }

  function Padded(offset: nat, data: seq<Byte>): seq<Byte>
    requires offset + |data| <= PAGE
  {
    seq(PAGE, k requires 0 <= k < PAGE => if offset <= k < offset + |data| then data[k - offset] else 0)
  }

  function Zeros(): (r: seq<Byte>)
    ensures |r| == PAGE
  {
    seq(PAGE, k requires 0 <= k < PAGE => 0)
  }

  lemma {:induction false} NoPages(s: Section, frame: nat, pages: seq<Page>)
    ensures pages == pages + WrappedPages(s, frame, 0)
  {
  }

  lemma {:induction false} PagesSnoc(s: Section, from: nat, n: nat)
    ensures WrappedPages(s, from, n + 1) == WrappedPages(s, from, n) + [WrappedPage(s, from + n)]
  {
  }

  lemma {:induction false} PagesAppend(s: Section, from: nat, n: nat, m: nat)
    ensures WrappedPages(s, from, n + m) == WrappedPages(s, from, n) + WrappedPages(s, from + n, m)
  {
  }

  lemma {:induction false} OneSamePage(start: U64, source: seq<Byte>, writable: bool)
    ensures SamePages(start, 1, source, writable) == [Page(start, source, writable)]
  {
  }

  /** Wrapping around keeps the place in the page. */
  lemma {:induction false} WrappedFrame(a: nat)
    ensures a % WORD64 % PAGE == a % PAGE && a % WORD64 / PAGE == a / PAGE % FRAMES
    ensures a % WORD64 - a % PAGE == a / PAGE * PAGE % WORD64
  {
    var q, f := a / WORD64, a / PAGE;
    assert a == WORD64 * q + a % WORD64;
    assert a / PAGE == FRAMES * q + a % WORD64 / PAGE;
  }

  /** Where the loop over the raw data stops. */
  lemma {:induction false} LoopEnds(s: Section, frame: nat, offset: nat)
    requires offset >= |s.raw| && First(s) <= frame && (frame == First(s) ==> offset == 0)
    requires frame > First(s) ==> s.raw != [] && s.rva + offset == frame * PAGE && (frame - 1) * PAGE < s.rva + |s.raw|
    ensures frame == RawLimit(s) && offset == RawEnd(s)
  {
  }

  /** A page with raw data, full or partial, is the image's page. */
  lemma {:induction false} RawPage(s: Section, offset: nat, size: nat, frame: nat)
    requires offset < |s.raw| && frame == (s.rva + offset) / PAGE
    requires offset == 0 || (s.rva + offset) % PAGE == 0
    requires var rest := PAGE - (s.rva + offset) % PAGE;
      size == if rest < |s.raw| - offset then rest else |s.raw| - offset
    ensures var rva, data := s.rva + offset, s.raw[offset..offset + size];
      && rva % PAGE + |data| <= PAGE
      && Page(frame * PAGE % WORD64, Padded(rva % PAGE, data),
              s.writable || IsRelocationPage(frame % FRAMES, s.relocations)) == WrappedPage(s, frame)
      && (size == PAGE ==> rva % PAGE == 0 && Padded(rva % PAGE, data) == data)
  {
    var rva, data := s.rva + offset, s.raw[offset..offset + size];
    var page := Padded(rva % PAGE, data);
    assert rva - rva % PAGE == frame * PAGE;
    forall k | 0 <= k < PAGE ensures page[k] == ImageByte(s, frame * PAGE + k) {
      var a := frame * PAGE + k;
      if rva <= a < rva + size { assert data[a - rva] == s.raw[a - s.rva]; }
    }
    assert page == ImageBytes(s, frame);
    assert HoldsRaw(s, frame);
  }

  /** Past the raw data the image is zero. */
  lemma {:induction false} ZeroPages(s: Section, frame: nat, offset: nat)
    requires frame == RawLimit(s) && offset == RawEnd(s) && s.virtualSize > offset
    ensures var rva := s.rva + offset;
      && rva / PAGE == frame
      && RoundToPage(s.virtualSize - offset + rva % PAGE) == ZeroCount(s) * PAGE
      && SamePages(frame * PAGE % WORD64, ZeroCount(s), Zeros(), s.writable) == WrappedPages(s, frame, ZeroCount(s))
  {
    var n := ZeroCount(s);
    hide Zeros, WrappedPage;
    var same, image := SamePages(frame * PAGE % WORD64, n, Zeros(), s.writable), WrappedPages(s, frame, n);
    forall i | 0 <= i < n ensures same[i] == image[i] {
      ZeroPage(s, frame + i);
      WrappedSum(frame * PAGE, i * PAGE);
    }
  }

  lemma {:induction false} WrappedSum(x: nat, y: nat)
    ensures (x % WORD64 + y) % WORD64 == (x + y) % WORD64
  {
  }

  lemma {:induction false} ZeroPage(s: Section, frame: nat)
    requires s.raw == [] || frame * PAGE >= s.rva + |s.raw|
    ensures WrappedPage(s, frame) == Page(frame * PAGE % WORD64, Zeros(), s.writable)
  {
    var bytes := ImageBytes(s, frame);
    forall k | 0 <= k < PAGE ensures bytes[k] == Zeros()[k] {
      assert bytes[k] == ImageByte(s, frame * PAGE + k);
    }
    assert bytes == Zeros();
  }
}
