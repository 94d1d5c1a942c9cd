/** `CLoader::validate_metadata`: what the loader accepts before it builds anything. */
module Metadata {
  import opened Common
  import opened Layout
  import opened LayoutLoader

  datatype Directory = Directory(offset: U32, size: U32)

  datatype Patch = Patch(dst: U64, src: U32, size: U32)

  /** The fields of `metadata_t` that are validated; `layout` and `patches` are the tables that the
      directories point to. */
  datatype Metadata = Metadata(version: U64, size: U32, tcsPolicy: U32, ssaFrameSize: U32, enclaveSize: U64,
    dirs: seq<Directory>, layout: seq<Item>, patches: seq<Patch>)

  datatype Status = Success | InvalidVersion | InvalidMetadata

  /** `offsetof(metadata_t, data)`. */
  const DATA_OFFSET: U32 := 0x5000 - 18592
  const MAJOR_VERSION: nat := 2
  const SGX_MAJOR_VERSION_GAP: nat := 10
  const TCS_POLICY_UNBIND: nat := 1
  const SSA_FRAME_SIZE_MIN: nat := 1
  const SSA_FRAME_SIZE_MAX: nat := 2

  ghost predicate IsPowerOfTwo(n: nat) {
    exists k: nat :: Pow2(k) == n
  }

  predicate IsNewer(version: U64) {
    MAJOR_VERSION % SGX_MAJOR_VERSION_GAP < version / WORD32 % SGX_MAJOR_VERSION_GAP
  }

  predicate DirOk(d: Directory, metadataSize: U32) {
    IsContent(d.offset, d.size, DATA_OFFSET, metadataSize)
  }

  /** A patch is copied from inside the metadata to inside the enclave. */
  predicate PatchOk(p: Patch, enclaveSize: U64, metadataSize: U32) {
    && IsContent(p.src, p.size, DATA_OFFSET, metadataSize)
    && p.dst < enclaveSize && p.dst + p.size <= enclaveSize
  }

  /** The metadata the loader accepts, in exact integers. */
  ghost predicate MetadataOk(m: Metadata, maxSize: U64) {
    && !IsNewer(m.version)
    && m.tcsPolicy <= TCS_POLICY_UNBIND
    && SSA_FRAME_SIZE_MIN <= m.ssaFrameSize <= SSA_FRAME_SIZE_MAX
    && m.enclaveSize <= maxSize && IsPowerOfTwo(m.enclaveSize)
    && (forall d :: d in m.dirs ==> DirOk(d, m.size))
    && TableOk(m.layout, m.enclaveSize, DATA_OFFSET, m.size)
    && (forall p :: p in m.patches ==> PatchOk(p, m.enclaveSize, m.size))
  }

  // ----- powers of two -----

  lemma {:induction false} EvenPower(n: nat)
    requires n > 0 && n % 2 == 0
    ensures IsPowerOfTwo(n) <==> IsPowerOfTwo(n / 2)
  {
    if IsPowerOfTwo(n) {
      var k: nat :| Pow2(k) == n;
      assert Pow2(k - 1) == n / 2;
    }
    if IsPowerOfTwo(n / 2) {
      var k: nat :| Pow2(k) == n / 2;
      assert Pow2(k + 1) == n;
    }
  }

  lemma {:induction false} OddPower(n: nat)
    requires n % 2 == 1 || n == 0
    ensures IsPowerOfTwo(n) <==> n == 1
  {
    assert Pow2(0) == 1;
    if IsPowerOfTwo(n) {
      var k: nat :| Pow2(k) == n;
      assert k > 0 ==> n == 2 * Pow2(k - 1);
    }
  }

  /** The halving loop of `validate_metadata`. */
  method HalveToOne(n: U64) returns (ok: bool)
    ensures ok <==> IsPowerOfTwo(n)
  {
    hide IsPowerOfTwo;
    var size: nat := n;
    while size != 0 && size % 2 != 1
      invariant IsPowerOfTwo(size) <==> IsPowerOfTwo(n)
    {
      EvenPower(size);
      size := size / 2;
    }
    OddPower(size);
    return size == 1;
  }

  lemma {:induction false} EightMore(k: nat)
    ensures Pow2(k + 8) == 256 * Pow2(k)
  {
    assert Pow2(k + 4) == 4 * Pow2(k + 2) == 16 * Pow2(k);
    assert Pow2(k + 8) == 4 * Pow2(k + 6) == 16 * Pow2(k + 4);
  }

  lemma {:induction false} PowersApart(a: nat, b: nat)
    requires Pow2(a) < 2 * Pow2(b)
    ensures Pow2(a) <= Pow2(b)
  {
    if a > 0 && b > 0 { PowersApart(a - 1, b - 1); }
  }

  /** A power of two that is a 64-bit number is at most half the address space. */
  lemma {:induction false} PowerIsHalf(n: U64)
    requires IsPowerOfTwo(n)
    ensures n <= HALF
  {
    var k: nat :| Pow2(k) == n;
    assert Pow2(63) == HALF by {
      assert Pow2(7) == 8 * Pow2(4) == 128;
      EightMore(7); EightMore(15); EightMore(23); EightMore(31); EightMore(39); EightMore(47); EightMore(55);
    }
    PowersApart(k, 63);
  }

  // ----- validation -----

  method ValidateDirs(dirs: seq<Directory>, metadataSize: U32) returns (ok: bool)
    ensures ok <==> forall d :: d in dirs ==> DirOk(d, metadataSize)
  {
    for i := 0 to |dirs|
      invariant forall j :: 0 <= j < i ==> DirOk(dirs[j], metadataSize)
    {
      var inside := IsMetadataBuffer(dirs[i].offset, dirs[i].size, DATA_OFFSET, metadataSize);
      if !inside {
        assert dirs[i] in dirs;
        return false;
      }
    }
    return true;
  }

  /** `validate_patch_table`. */
  method ValidatePatchTable(patches: seq<Patch>, enclaveSize: U64, metadataSize: U32) returns (ok: bool)
    ensures ok <==> forall p :: p in patches ==> PatchOk(p, enclaveSize, metadataSize)
  {
    for i := 0 to |patches|
      invariant forall j :: 0 <= j < i ==> PatchOk(patches[j], enclaveSize, metadataSize)
    {
      var p := patches[i];
      assert p in patches;
      var inside := IsMetadataBuffer(p.src, p.size, DATA_OFFSET, metadataSize);
      if !inside { return false; }
      inside := IsEnclaveBuffer(p.dst, p.size, enclaveSize);
      if !inside { return false; }
    }
    return true;
  }

  /** `validate_metadata`; `maxSize` is what the parser reports for the processor. */
  method ValidateMetadata(metadata: Option<Metadata>, maxSize: U64) returns (r: Status)
    ensures r == Success <==> metadata.Some? && MetadataOk(metadata.value, maxSize)
    ensures r == InvalidVersion <==> metadata.Some? && IsNewer(metadata.value.version)
  {
    hide IsPowerOfTwo, TableOk, DirOk, PatchOk;
    if metadata == None { return InvalidMetadata; }
    var m := metadata.value;
    if IsNewer(m.version) { return InvalidVersion; }
    if m.tcsPolicy > TCS_POLICY_UNBIND { return InvalidMetadata; }
    if m.ssaFrameSize < SSA_FRAME_SIZE_MIN || m.ssaFrameSize > SSA_FRAME_SIZE_MAX { return InvalidMetadata; }
    if m.enclaveSize > maxSize { return InvalidMetadata; }
    var ok := HalveToOne(m.enclaveSize);
    if !ok { return InvalidMetadata; }
    ok := ValidateDirs(m.dirs, m.size);
    if !ok { return InvalidMetadata; }
    ok := ValidateLayoutTable(m.layout, m.enclaveSize, DATA_OFFSET, m.size);
    if !ok { return InvalidMetadata; }
    ok := ValidatePatchTable(m.patches, m.enclaveSize, m.size);
    return if ok then Success else InvalidMetadata;
  }

  /** Whatever the loader accepts is loaded at exact distances, inside the enclave and without overlap:
      the test for a power of two does what the bound of 37 bits was meant to do. */
  lemma {:induction false} AcceptedIsExact(m: Metadata, maxSize: U64)
    requires MetadataOk(m, maxSize)
    ensures var vs := Visits(m.layout, 0, |m.layout|, 0);
      && Places(vs) == ExactExpand(m.layout, |m.layout|, m.enclaveSize)
      && (forall i :: 0 <= i < |vs| ==> Fits(RangeOf(m.layout, vs[i]), m.enclaveSize))
      && (forall i, j :: 0 <= i < j < |vs| ==> Apart(RangeOf(m.layout, vs[i]), RangeOf(m.layout, vs[j])))
  {
    hide Visits, Expand, ExactExpand, Fits, Apart, RangeOf;
    PowerIsHalf(m.enclaveSize);
    AcceptedLoads(m.layout, m.enclaveSize, DATA_OFFSET, m.size);
  }
}
