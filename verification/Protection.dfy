/** Page-protection coalescing (`sgx_enclave_common.cpp`): `enclave_load_data` does not protect the
    pages it loads at once. Each enclave has a pending region that grows while loads are contiguous
    and equally protected; it is applied when a load does not fit, and by `enclave_initialize`.

    Addresses and sizes are counted in pages; page 0 is never mapped. */
module Protection {
  import opened Common

  type Prot = nat

  /** `mem_region_t`. */
  datatype Region = Region(addr: nat, len: nat, prot: Prot)

  predicate Within(p: nat, lo: nat, n: nat) {
    lo <= p < lo + n
  }

  /** What one protection call does to the page map. */
  function Protected(m: map<nat, Prot>, lo: nat, n: nat, prot: Prot): (r: map<nat, Prot>)
    ensures forall p :: Lookup(r, p) == if Within(p, lo, n) then Some(prot) else Lookup(m, p)
  {
    map p | p in m.Keys + (set q | lo <= q < lo + n && Within(q, lo, n)) :: if Within(p, lo, n) then prot else m[p]
  }

  function Lookup(m: map<nat, Prot>, p: nat): Option<Prot> {
    if p in m then Some(m[p]) else None
  }

  // ----- pending regions -----

  predicate PendingIn(regions: map<nat, Region>, b: nat, p: nat) {
    b in regions && regions[b].addr != 0 && Within(p, regions[b].addr, regions[b].len)
  }

  /** At page `p` the applied map and the pending regions together give the immediate map. */
  ghost predicate AgreeAt(regions: map<nat, Region>, applied: map<nat, Prot>, immediate: map<nat, Prot>, p: nat) {
    && (forall b :: PendingIn(regions, b, p) ==> Lookup(immediate, p) == Some(regions[b].prot))
    && ((forall b :: !PendingIn(regions, b, p)) ==> Lookup(immediate, p) == Lookup(applied, p))
  }

  ghost predicate Agree(regions: map<nat, Region>, applied: map<nat, Prot>, immediate: map<nat, Prot>) {
    forall p :: AgreeAt(regions, applied, immediate, p)
  }

  /** No other enclave's region covers the pages. */
  ghost predicate Only(regions: map<nat, Region>, b: nat, lo: nat, n: nat) {
    forall c, p :: PendingIn(regions, c, p) && Within(p, lo, n) ==> c == b
  }

  /** Applying a pending region and forgetting its address changes nothing in sum. */
  lemma {:induction false} FlushAgrees(regions: map<nat, Region>, applied: map<nat, Prot>, immediate: map<nat, Prot>,
      b: nat)
    requires Agree(regions, applied, immediate) && b in regions && regions[b].addr != 0
    requires var r := regions[b]; Only(regions, b, r.addr, r.len)
    ensures var r := regions[b];
      Agree(regions[b := r.(addr := 0)], Protected(applied, r.addr, r.len, r.prot), immediate)
  {
    var r := regions[b];
    var regions', applied' := regions[b := r.(addr := 0)], Protected(applied, r.addr, r.len, r.prot);
    forall p ensures AgreeAt(regions', applied', immediate, p) {
      assert AgreeAt(regions, applied, immediate, p);
      assert forall c :: PendingIn(regions', c, p) ==> c != b && PendingIn(regions, c, p);
      if Within(p, r.addr, r.len) {
        assert PendingIn(regions, b, p);
      } else if forall c :: !PendingIn(regions', c, p) {
        assert forall c :: c != b ==> PendingIn(regions', c, p) == PendingIn(regions, c, p);
        assert forall c :: !PendingIn(regions, c, p);
      }
    }
  }

  /** Recording a load where nothing is pending. */
  lemma {:induction false} RecordAgrees(regions: map<nat, Region>, applied: map<nat, Prot>, immediate: map<nat, Prot>,
      b: nat, lo: nat, n: nat, prot: Prot)
    requires Agree(regions, applied, immediate) && b in regions && (regions[b].addr == 0 || regions[b].len == 0)
    requires lo > 0 && Only(regions, b, lo, n)
    ensures Agree(regions[b := Region(lo, n, prot)], applied, Protected(immediate, lo, n, prot))
  {
    var regions', immediate' := regions[b := Region(lo, n, prot)], Protected(immediate, lo, n, prot);
    forall p ensures AgreeAt(regions', applied, immediate', p) {
      assert AgreeAt(regions, applied, immediate, p);
      assert forall c :: c != b ==> PendingIn(regions', c, p) == PendingIn(regions, c, p);
      assert !PendingIn(regions, b, p);
      if Within(p, lo, n) {
        assert PendingIn(regions', b, p);
      } else {
        assert !PendingIn(regions', b, p);
        assert (forall c :: !PendingIn(regions', c, p)) ==> forall c :: !PendingIn(regions, c, p);
      }
    }
  }

  /** Extending the pending region by a contiguous load with the same protection. */
  lemma {:induction false} ExtendAgrees(regions: map<nat, Region>, applied: map<nat, Prot>, immediate: map<nat, Prot>,
      b: nat, n: nat)
    requires Agree(regions, applied, immediate) && b in regions && regions[b].addr != 0
    requires var r := regions[b]; Only(regions, b, r.addr, r.len + n)
    ensures var r := regions[b];
      Agree(regions[b := r.(len := r.len + n)], applied, Protected(immediate, r.addr + r.len, n, r.prot))
  {
    var r := regions[b];
    var regions', immediate' := regions[b := r.(len := r.len + n)], Protected(immediate, r.addr + r.len, n, r.prot);
    forall p ensures AgreeAt(regions', applied, immediate', p) {
      assert AgreeAt(regions, applied, immediate, p);
      assert forall c :: c != b ==> PendingIn(regions', c, p) == PendingIn(regions, c, p);
      if Within(p, r.addr, r.len + n) {
        assert PendingIn(regions', b, p);
        assert Within(p, r.addr, r.len) ==> PendingIn(regions, b, p);
      } else {
        assert !PendingIn(regions', b, p) && !PendingIn(regions, b, p);
        assert (forall c :: !PendingIn(regions', c, p)) ==> forall c :: !PendingIn(regions, c, p);
      }
    }
  }

  lemma {:induction false} NothingNew(regions: map<nat, Region>, b: nat, applied: map<nat, Prot>,
      immediate: map<nat, Prot>)
    requires Agree(regions, applied, immediate) && b !in regions
    ensures Agree(regions[b := Region(0, 0, 0)], applied, immediate)
  {
    var regions' := regions[b := Region(0, 0, 0)];
    forall p ensures AgreeAt(regions', applied, immediate, p) {
      assert AgreeAt(regions, applied, immediate, p);
      assert forall c :: PendingIn(regions', c, p) == PendingIn(regions, c, p);
    }
  }

  lemma {:induction false} OnlyKeeps(regions: map<nat, Region>, b: nat, r: Region, lo: nat, n: nat)
    requires Only(regions, b, lo, n)
    ensures Only(regions[b := r], b, lo, n)
  {
    var regions' := regions[b := r];
    forall c, p | PendingIn(regions', c, p) && Within(p, lo, n) ensures c == b {
      assert c == b || PendingIn(regions, c, p);
    }
  }

  /** A region without an address is not pending, whatever its length. */
  lemma {:induction false} SpentAgrees(regions: map<nat, Region>, applied: map<nat, Prot>, immediate: map<nat, Prot>,
      b: nat, r: Region)
    requires Agree(regions, applied, immediate) && b in regions && regions[b].addr == 0 && r.addr == 0
    ensures Agree(regions[b := r], applied, immediate)
  {
    var regions' := regions[b := r];
    forall p ensures AgreeAt(regions', applied, immediate, p) {
      assert AgreeAt(regions, applied, immediate, p);
      assert forall c :: PendingIn(regions', c, p) == PendingIn(regions, c, p);
    }
  }

  // ----- enclaves -----

  /** The enclaves' sizes and pending regions, by base address, and the protection of each page. */
  datatype Store = Store(sizes: map<nat, nat>, regions: map<nat, Region>, applied: map<nat, Prot>)

  predicate Contains(sizes: map<nat, nat>, b: nat, p: nat) {
    b in sizes && Within(p, b, sizes[b])
  }

  ghost predicate Apart(sizes: map<nat, nat>) {
    && (forall b :: b in sizes ==> b > 0)
    && (forall b, c, p :: Contains(sizes, b, p) && Contains(sizes, c, p) ==> b == c)
  }

  /** A pending region lies in its enclave. */
  predicate Inside(s: Store, b: nat)
    requires b in s.sizes && b in s.regions
  {
    var r := s.regions[b];
    r.addr != 0 ==> b <= r.addr && r.addr + r.len <= b + s.sizes[b]
  }

  ghost predicate Placed(s: Store) {
    && s.sizes.Keys == s.regions.Keys && Apart(s.sizes)
    && forall b :: b in s.regions ==> Inside(s, b)
  }

  /** The applied map and the pending regions together are the immediate map. */
  ghost predicate Good(s: Store, immediate: map<nat, Prot>) {
    Placed(s) && Agree(s.regions, s.applied, immediate)
  }

  /** After `enclave_initialize` a region keeps its length without an address: the next load of
      that enclave does not record its protection. */
  predicate Spent(s: Store, b: nat)
    requires b in s.regions
  {
    s.regions[b].addr == 0 && s.regions[b].len != 0
  }

  /** The range lies in the enclave, as the driver demands of the pages it adds. */
  predicate Fits(s: Store, b: nat, target: nat, n: nat) {
    b in s.sizes && b in s.regions && n > 0 && b <= target && target + n <= b + s.sizes[b]
  }

  /** `base` comes from a mapping that overlaps no enclave. */
  ghost predicate Free(s: Store, base: nat, size: nat) {
    base > 0 && base !in s.sizes && forall b, p :: Contains(s.sizes, b, p) ==> !Within(p, base, size)
  }

  // ----- the three operations -----

  function Created(s: Store, base: nat, size: nat): Store {
    s.(sizes := s.sizes[base := size], regions := s.regions[base := Region(0, 0, 0)])
  }

  predicate Continues(r: Region, target: nat, prot: Prot) {
    r.prot == prot && target == r.addr + r.len
  }

  /** A load that continues the pending region extends it; any other has it applied, if there is
      one, and is recorded in its place, unless applying it fails for want of an address. */
  function Loaded(s: Store, b: nat, target: nat, n: nat, prot: Prot): Store
    requires b in s.regions
  {
    var r := s.regions[b];
    if Continues(r, target, prot) then s.(regions := s.regions[b := r.(len := r.len + n)])
    else if r.len == 0 then s.(regions := s.regions[b := Region(target, n, prot)])
    else if r.addr == 0 then s
    else s.(regions := s.regions[b := Region(target, n, prot)], applied := Protected(s.applied, r.addr, r.len, r.prot))
  }

  function Initialized(s: Store, b: nat): Store
    requires b in s.regions
  {
    var r := s.regions[b];
    if r.addr == 0 then s
    else s.(regions := s.regions[b := r.(addr := 0)], applied := Protected(s.applied, r.addr, r.len, r.prot))
  }

  // ----- what they keep -----

  /** Other regions stay off an enclave's pages. */
  lemma {:induction false} OnlyOwn(s: Store, b: nat, lo: nat, n: nat)
    requires Placed(s) && b in s.sizes && b <= lo && lo + n <= b + s.sizes[b]
    ensures Only(s.regions, b, lo, n)
  {
    forall c, p | PendingIn(s.regions, c, p) && Within(p, lo, n) ensures c == b {
      assert Inside(s, c) && Contains(s.sizes, c, p) && Contains(s.sizes, b, p);
    }
  }

  /** Changing one region inside its enclave leaves the others where they are. */
  lemma {:induction false} StaysPlaced(s: Store, b: nat, r: Region, applied: map<nat, Prot>)
    requires Placed(s) && b in s.sizes && (r.addr != 0 ==> b <= r.addr && r.addr + r.len <= b + s.sizes[b])
    ensures Placed(s.(regions := s.regions[b := r], applied := applied))
  {
    var s' := s.(regions := s.regions[b := r], applied := applied);
    assert s'.regions.Keys == s.regions.Keys;
    forall c | c in s'.regions ensures Inside(s', c) {
      assert c != b ==> Inside(s, c);
    }
  }

  lemma {:induction false} CreateKeeps(s: Store, base: nat, size: nat, immediate: map<nat, Prot>)
    requires Good(s, immediate) && Free(s, base, size)
    ensures Good(Created(s, base, size), immediate)
  {
    NothingNew(s.regions, base, s.applied, immediate);
    hide Agree;
    var s' := Created(s, base, size);
    assert forall b, p :: b != base ==> Contains(s'.sizes, b, p) == Contains(s.sizes, b, p);
    assert forall p :: Contains(s'.sizes, base, p) == Within(p, base, size);
    forall b | b in s'.regions ensures Inside(s', b) {
      assert b != base ==> Inside(s, b);
    }
  }

  /** Unless the region is spent, a load takes effect, now or later, as an immediate call would;
      when it is spent, the load has no effect at all. */
  lemma {:induction false} LoadKeeps(s: Store, b: nat, target: nat, n: nat, prot: Prot, immediate: map<nat, Prot>)
    requires Good(s, immediate) && Fits(s, b, target, n)
    ensures var s' := Loaded(s, b, target, n, prot);
      && b in s'.regions && (Spent(s, b) <==> Spent(s', b)) && (Spent(s, b) ==> s'.applied == s.applied)
      && (!Spent(s, b) ==> s'.regions[b].addr != 0 && s'.regions[b].len != 0)
      && Good(s', if Spent(s, b) then immediate else Protected(immediate, target, n, prot))
  {
    var r := s.regions[b];
    assert Inside(s, b) && b > 0;
    if Continues(r, target, prot) {
      ContinueKeeps(s, b, target, n, prot, immediate);
    } else if !Spent(s, b) {
      RecordKeeps(s, b, target, n, prot, immediate);
    }
  }

  lemma {:induction false} ContinueKeeps(s: Store, b: nat, target: nat, n: nat, prot: Prot, immediate: map<nat, Prot>)
    requires Good(s, immediate) && Fits(s, b, target, n) && Continues(s.regions[b], target, prot)
    ensures Good(Loaded(s, b, target, n, prot),
           if Spent(s, b) then immediate else Protected(immediate, target, n, prot))
  {
    var r := s.regions[b];
    assert Inside(s, b) && b > 0;
    hide Agree, Only;
    StaysPlaced(s, b, r.(len := r.len + n), s.applied);
    assert Spent(s, b) == (r.addr == 0);
    assert Loaded(s, b, target, n, prot) == s.(regions := s.regions[b := r.(len := r.len + n)]);
    if r.addr != 0 {
      OnlyOwn(s, b, r.addr, r.len + n);
      hide Placed, Protected, Loaded, Spent;
      ExtendAgrees(s.regions, s.applied, immediate, b, n);
    } else {
      hide Placed, Protected, Loaded, Spent;
      SpentAgrees(s.regions, s.applied, immediate, b, r.(len := r.len + n));
    }
  }

  lemma {:induction false} RecordKeeps(s: Store, b: nat, target: nat, n: nat, prot: Prot, immediate: map<nat, Prot>)
    requires Good(s, immediate) && Fits(s, b, target, n) && !Continues(s.regions[b], target, prot) && !Spent(s, b)
    ensures Good(Loaded(s, b, target, n, prot), Protected(immediate, target, n, prot))
  {
    var r, s' := s.regions[b], Loaded(s, b, target, n, prot);
    assert Inside(s, b) && b > 0;
    StaysPlaced(s, b, Region(target, n, prot), s'.applied);
    OnlyOwn(s, b, target, n);
    if r.len == 0 {
      RecordAgrees(s.regions, s.applied, immediate, b, target, n, prot);
    } else {
      OnlyOwn(s, b, r.addr, r.len);
      FlushAgrees(s.regions, s.applied, immediate, b);
      OnlyKeeps(s.regions, b, r.(addr := 0), target, n);
      hide Agree, Only;
      RecordAgrees(s.regions[b := r.(addr := 0)], s'.applied, immediate, b, target, n, prot);
      assert s.regions[b := r.(addr := 0)][b := Region(target, n, prot)] == s'.regions;
    }
  }

  lemma {:induction false} InitializeKeeps(s: Store, b: nat, immediate: map<nat, Prot>)
    requires Good(s, immediate) && b in s.regions
    ensures var s' := Initialized(s, b);
      Good(s', immediate) && b in s'.regions && s'.regions[b] == s.regions[b].(addr := 0)
  {
    var r := s.regions[b];
    assert Inside(s, b);
    if r.addr != 0 {
      StaysPlaced(s, b, r.(addr := 0), Protected(s.applied, r.addr, r.len, r.prot));
      OnlyOwn(s, b, r.addr, r.len);
      FlushAgrees(s.regions, s.applied, immediate, b);
    }
  }

  /** With nothing pending for an enclave, its pages are as they should be. */
  lemma {:induction false} AllApplied(s: Store, b: nat, immediate: map<nat, Prot>)
    requires Good(s, immediate) && b in s.regions && s.regions[b].addr == 0
    ensures forall p :: Contains(s.sizes, b, p) ==> Lookup(s.applied, p) == Lookup(immediate, p)
  {
    forall p | Contains(s.sizes, b, p) ensures Lookup(s.applied, p) == Lookup(immediate, p) {
      assert AgreeAt(s.regions, s.applied, immediate, p);
      forall c ensures !PendingIn(s.regions, c, p) {
        if PendingIn(s.regions, c, p) { assert Inside(s, c) && Contains(s.sizes, c, p); }
      }
    }
  }

  /** A load or an initialisation touches the protection of its own enclave's pages only. */
  lemma {:induction false} OthersKeepProtection(s: Store, b: nat, target: nat, n: nat, prot: Prot)
    requires Placed(s) && b in s.regions
    ensures forall p :: !Contains(s.sizes, b, p) ==>
      && Lookup(Loaded(s, b, target, n, prot).applied, p) == Lookup(s.applied, p)
      && Lookup(Initialized(s, b).applied, p) == Lookup(s.applied, p)
  {
    assert Inside(s, b);
  }

  // ----- the code -----

  class EnclaveCommon {
    var sizes: map<nat, nat>
    var regions: map<nat, Region>
    var applied: map<nat, Prot>
    /** The protections if every load that takes effect were applied at once. */
    ghost var immediate: map<nat, Prot>

    function Current(): Store
      reads this`sizes, this`regions, this`applied
    {
      Store(sizes, regions, applied)
    }

    ghost predicate Valid()
      reads this
    {
      Good(Current(), immediate)
    }

    constructor ()
      ensures Valid() && sizes == map[] && regions == map[] && applied == map[] && immediate == map[]
    {
      sizes, regions, applied, immediate := map[], map[], map[], map[];
    }

    /** The bookkeeping of `enclave_create`. */
    method Create(base: nat, size: nat)
      requires Valid() && Free(Current(), base, size)
      modifies this
      ensures Valid() && immediate == old(immediate)
      ensures Current() == Created(old(Current()), base, size)
    {
      CreateKeeps(Current(), base, size, immediate);
      hide Good;
      sizes := sizes[base := size];
      regions := regions[base := Region(0, 0, 0)];
    }

    /** `mprotect`, or `mmap` over the range; unmapped memory is refused. */
    method Protect(r: Region) returns (ok: bool)
      modifies this`applied
      ensures ok == (r.addr != 0)
      ensures applied == if ok then Protected(old(applied), r.addr, r.len, r.prot) else old(applied)
    {
      if r.addr == 0 { return false; }
      applied := Protected(applied, r.addr, r.len, r.prot);
      return true;
    }

    /** `get_enclave_base_address_from_address`. */
    method FindBase(p: nat) returns (r: Option<nat>)
      ensures r == None ==> forall b :: !Contains(sizes, b, p)
      ensures r.Some? ==> Contains(sizes, r.value, p)
    {
      var keys := sizes.Keys;
      while keys != {}
        invariant keys <= sizes.Keys
        invariant forall b :: Contains(sizes, b, p) ==> b in keys
        decreases |keys|
      {
        var b :| b in keys;
        if Within(p, b, sizes[b]) { return Some(b); }
        keys := keys - {b};
      }
      return None;
    }

    /** `enclave_do_mprotect_region` with a size, as `enclave_load_data` calls it once the driver has
        added the pages, which it does only inside one enclave. Unless the region is spent, every
        page ends up, now or later, with the protection that an immediate call would give it. Other
        enclaves keep their regions and the protection of their pages. */
    method Load(target: nat, n: nat, prot: Prot, ghost owner: nat) returns (ok: bool)
      requires Valid() && Fits(Current(), owner, target, n)
      modifies this`regions, this`applied, this`immediate
      ensures Valid() && Current() == Loaded(old(Current()), owner, target, n, prot)
      ensures owner in regions && Spent(Current(), owner) == old(Spent(Current(), owner))
      ensures immediate ==
        if old(Spent(Current(), owner)) then old(immediate) else Protected(old(immediate), target, n, prot)
      ensures ok <==> !old(Spent(Current(), owner)) || Continues(old(regions)[owner], target, prot)
      ensures regions == old(regions)[owner := regions[owner]]
      ensures forall p :: !Contains(sizes, owner, p) ==> Lookup(applied, p) == Lookup(old(applied), p)
    {
      LoadKeeps(Current(), owner, target, n, prot, immediate);
      OthersKeepProtection(Current(), owner, target, n, prot);
      assert Contains(sizes, owner, target) && Apart(sizes);
      hide Good;
      var base := FindBase(target);
      var b := base.value;
      var r := regions[b];
      if !Spent(Current(), owner) { immediate := Protected(immediate, target, n, prot); }
      if r.prot != prot || target != r.addr + r.len {
        if r.len != 0 {
          ok := Protect(r);
          if !ok { return; }
        }
        regions := regions[b := Region(target, n, prot)];
      } else {
        regions := regions[b := r.(len := r.len + n)];
      }
      ok := true;
    }

    /** `enclave_initialize`, up to the driver call: the pending region is applied, once. Then all
        pages of the enclave have the protection of immediate calls. Its region is spent from here
        on exactly if it was ever loaded. */
    method Initialize(address: nat) returns (ok: bool)
      requires Valid()
      modifies this`regions, this`applied
      ensures Valid() && (ok <==> exists b :: Contains(sizes, b, address))
      ensures !ok ==> Current() == old(Current())
      ensures forall b :: Contains(sizes, b, address) ==>
        && b in old(regions) && Current() == Initialized(old(Current()), b)
        && regions == old(regions)[b := old(regions)[b].(addr := 0)]
        && (Spent(Current(), b) <==> old(regions)[b].len != 0)
        && (forall p :: Contains(sizes, b, p) ==> Lookup(applied, p) == Lookup(immediate, p))
        && (forall p :: !Contains(sizes, b, p) ==> Lookup(applied, p) == Lookup(old(applied), p))
    {
      assert sizes.Keys == regions.Keys && Apart(sizes);
      var found := FindBase(address);
      if found == None { return false; }
      var b := found.value;
      InitializeKeeps(Current(), b, immediate);
      AllApplied(Initialized(Current(), b), b, immediate);
      OthersKeepProtection(Current(), b, 0, 0, 0);
      assert regions[b].addr == 0 ==> regions == regions[b := regions[b].(addr := 0)];
      hide Good;
      var r := regions[b];
      if r.addr != 0 {
        var done := Protect(r);
        regions := regions[b := r.(addr := 0)];
      }
      return true;
    }
  }
}
