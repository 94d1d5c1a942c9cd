/** Whole runs of enclave creation, loading and initialisation: which protection every page of an
    enclave has in the end. */
module ProtectionRuns {
  import opened Common
  import opened Protection

  /** One call: `enclave_create`, `enclave_load_data`, and `enclave_initialize` at any address of the
      enclave. `base` is the enclave the call is about. */
  datatype Action =
    | Create(base: nat, size: nat)
    | Load(base: nat, target: nat, n: nat, prot: Prot)
    | Initialize(base: nat, address: nat)

  /** The call passes the checks made before the protections are touched. */
  ghost predicate Accepted(s: Store, a: Action) {
    match a
    case Create(base, size) => Free(s, base, size)
    case Load(base, target, n, prot) => Fits(s, base, target, n)
    case Initialize(base, address) => Contains(s.sizes, base, address) && base in s.regions
  }

  /** A call that is not accepted changes nothing. */
  ghost function Step(s: Store, a: Action): Store {
    if !Accepted(s, a) then s else
      match a
      case Create(base, size) => Created(s, base, size)
      case Load(base, target, n, prot) => Loaded(s, base, target, n, prot)
      case Initialize(base, _) => Initialized(s, base)
  }

  const Empty: Store := Store(map[], map[], map[])

  ghost function After(run: seq<Action>): Store {
    if run == [] then Empty else Step(After(Front(run)), Last(run))
  }

  function Front(run: seq<Action>): seq<Action>
    requires run != []
  {
    run[..|run| - 1]
  }

  function Last(run: seq<Action>): Action
    requires run != []
  {
    run[|run| - 1]
  }

  /** The last call of the run is an accepted load, or initialisation, of the enclave. */
  ghost predicate EndsLoading(run: seq<Action>, b: nat) {
    run != [] && Last(run).Load? && Last(run).base == b && Accepted(After(Front(run)), Last(run))
  }

  ghost predicate EndsInitializing(run: seq<Action>, b: nat) {
    run != [] && Last(run).Initialize? && Last(run).base == b && Accepted(After(Front(run)), Last(run))
  }

  /** The run contains a load, or an initialisation, of the enclave. */
  ghost predicate WasLoaded(run: seq<Action>, b: nat) {
    run != [] && (EndsLoading(run, b) || WasLoaded(Front(run), b))
  }

  ghost predicate WasInitialized(run: seq<Action>, b: nat) {
    run != [] && (EndsInitializing(run, b) || WasInitialized(Front(run), b))
  }

  /** The enclave was loaded and then initialised. */
  ghost predicate Sealed(run: seq<Action>, b: nat) {
    run != [] && (Sealed(Front(run), b) || (EndsInitializing(run, b) && WasLoaded(Front(run), b)))
  }

  /** No enclave is loaded after its own initialisation. */
  ghost predicate Orderly(run: seq<Action>) {
    run != [] ==> Orderly(Front(run)) && forall b :: EndsLoading(run, b) ==> !WasInitialized(Front(run), b)
  }

  /** No enclave is loaded once it was loaded and then initialised. */
  ghost predicate NoLate(run: seq<Action>) {
    run != [] ==> NoLate(Front(run)) && forall b :: EndsLoading(run, b) ==> !Sealed(Front(run), b)
  }

  /** No load touches a page that was loaded before, as the driver demands. */
  ghost predicate Once(run: seq<Action>) {
    run != [] ==>
      && Once(Front(run))
      && (Last(run).Load? && EndsLoading(run, Last(run).base) ==>
            forall p :: Within(p, Last(run).target, Last(run).n) ==> Lookup(AtOnce(Front(run)), p) == None)
  }

  /** The protections of a run in which each load protects its pages at once. */
  ghost function AtOnce(run: seq<Action>): map<nat, Prot> {
    if run == [] then map[]
    else if Last(run).Load? && EndsLoading(run, Last(run).base) then
      Protected(AtOnce(Front(run)), Last(run).target, Last(run).n, Last(run).prot)
    else AtOnce(Front(run))
  }

  /** The same without the loads of enclaves that were loaded and then initialised before. */
  ghost function AtOnceUnsealed(run: seq<Action>): map<nat, Prot> {
    if run == [] then map[]
    else if Last(run).Load? && EndsLoading(run, Last(run).base) && !Sealed(Front(run), Last(run).base) then
      Protected(AtOnceUnsealed(Front(run)), Last(run).target, Last(run).n, Last(run).prot)
    else AtOnceUnsealed(Front(run))
  }

  // ----- the run invariant -----

  /** An enclave's region in terms of the run: it is pending from the first load to the first
      initialisation after it, and spent from then on. */
  ghost predicate Phase(s: Store, run: seq<Action>, b: nat) {
    b in s.regions ==>
      && (s.regions[b].len != 0 <==> WasLoaded(run, b))
      && (s.regions[b].addr != 0 <==> WasLoaded(run, b) && !Sealed(run, b))
  }

  ghost predicate Phases(s: Store, run: seq<Action>) {
    && (forall b :: Phase(s, run, b))
    && (forall b :: WasLoaded(run, b) || WasInitialized(run, b) ==> b in s.regions)
  }

  lemma {:induction false} SealedWas(run: seq<Action>, b: nat)
    ensures Sealed(run, b) ==> WasLoaded(run, b) && WasInitialized(run, b)
  {
    if run != [] { SealedWas(Front(run), b); }
  }

  /** Every run keeps the applied protections and the pending regions together equal to the
      immediate protections of the loads that came before their enclave was sealed. */
  lemma {:induction false} RunAgrees(run: seq<Action>)
    ensures Good(After(run), AtOnceUnsealed(run)) && Phases(After(run), run)
  {
    if run == [] {
    } else {
      RunAgrees(Front(run));
      StepAgrees(run);
    }
  }

  lemma {:induction false} StepAgrees(run: seq<Action>)
    requires run != [] && Good(After(Front(run)), AtOnceUnsealed(Front(run))) && Phases(After(Front(run)), Front(run))
    ensures Good(After(run), AtOnceUnsealed(run)) && Phases(After(run), run)
  {
    var s, a, im := After(Front(run)), Last(run), AtOnceUnsealed(Front(run));
    forall b { SealedWas(Front(run), b); }
    if !Accepted(s, a) {
      hide Good;
      Refused(s, run);
    } else {
      match a
      case Create(base, size) =>
        CreateKeeps(s, base, size, im);
        assert base !in s.regions;
        hide Good;
        PhasesCreate(s, run);
      case Load(base, target, n, prot) =>
        LoadKeeps(s, base, target, n, prot, im);
        assert Phase(s, Front(run), base);
        hide Good;
        PhasesLoad(s, run);
      case Initialize(base, _) =>
        InitializeKeeps(s, base, im);
        hide Good;
        PhasesInitialize(s, run);
    }
  }

  lemma {:induction false} Refused(s: Store, run: seq<Action>)
    requires run != [] && s == After(Front(run)) && Phases(s, Front(run)) && !Accepted(s, Last(run))
    ensures Phases(s, run)
  {
    forall b ensures Phase(s, run, b) { assert Phase(s, Front(run), b); }
  }

  lemma {:induction false} PhasesCreate(s: Store, run: seq<Action>)
    requires run != [] && s == After(Front(run)) && Phases(s, Front(run)) && Accepted(s, Last(run))
    requires Last(run).Create? && Last(run).base !in s.regions
    requires forall b :: Sealed(Front(run), b) ==> WasLoaded(Front(run), b)
    ensures Phases(After(run), run)
  {
    var s' := After(run);
    forall b ensures Phase(s', run, b) {
      assert Phase(s, Front(run), b);
      assert WasLoaded(run, b) == WasLoaded(Front(run), b);
    }
  }

  lemma {:induction false} PhasesLoad(s: Store, run: seq<Action>)
    requires run != [] && s == After(Front(run)) && Phases(s, Front(run)) && Accepted(s, Last(run)) && Last(run).Load?
    requires var l, b := Last(run), Last(run).base; var s' := Loaded(s, b, l.target, l.n, l.prot);
      && b in s'.regions
      && (Spent(s, b) <==> Spent(s', b))
      && (!Spent(s, b) ==> s'.regions[b].addr != 0 && s'.regions[b].len != 0)
    requires forall b :: Sealed(Front(run), b) ==> WasLoaded(Front(run), b)
    ensures Phases(After(run), run)
  {
    var s' := After(run);
    forall b ensures Phase(s', run, b) {
      assert Phase(s, Front(run), b);
      assert WasLoaded(run, b) == (WasLoaded(Front(run), b) || b == Last(run).base);
      assert Sealed(run, b) == Sealed(Front(run), b);
    }
  }

  lemma {:induction false} PhasesInitialize(s: Store, run: seq<Action>)
    requires run != [] && s == After(Front(run)) && Phases(s, Front(run)) && Accepted(s, Last(run))
    requires Last(run).Initialize?
    requires var b := Last(run).base;
      var s' := Initialized(s, b); b in s'.regions && s'.regions[b] == s.regions[b].(addr := 0)
    ensures Phases(After(run), run)
  {
    var s' := After(run);
    forall b ensures Phase(s', run, b) {
      assert Phase(s, Front(run), b);
      assert WasLoaded(run, b) == WasLoaded(Front(run), b);
    }
  }

  // ----- the theorems -----

  /** Whatever the run: every page of an enclave that was sealed, or never loaded, has the protection
      that the loads before its sealing ask for. */
  lemma {:induction false} SealedPages(run: seq<Action>, b: nat, p: nat)
    requires Contains(After(run).sizes, b, p) && (WasLoaded(run, b) ==> Sealed(run, b))
    ensures Lookup(After(run).applied, p) == Lookup(AtOnceUnsealed(run), p)
  {
    RunAgrees(run);
    var s := After(run);
    assert Phase(s, run, b);
    AllApplied(s, b, AtOnceUnsealed(run));
  }

  /** An enclave that was never initialised since its first load has a load that is not applied: its
      pending region is not empty. */
  lemma {:induction false} PendingUntilSealed(run: seq<Action>, b: nat)
    requires b in After(run).regions
    ensures (exists p :: PendingIn(After(run).regions, b, p)) <==> WasLoaded(run, b) && !Sealed(run, b)
  {
    RunAgrees(run);
    var s := After(run);
    assert Phase(s, run, b);
    if s.regions[b].addr != 0 { assert PendingIn(s.regions, b, s.regions[b].addr); }
  }

  lemma {:induction false} NoLateLosesNothing(run: seq<Action>)
    requires NoLate(run)
    ensures AtOnceUnsealed(run) == AtOnce(run)
  {
    if run != [] { NoLateLosesNothing(Front(run)); }
  }

  /** If no enclave is loaded once it was loaded and then initialised, every page of every enclave
      that was initialised after its last load, or never loaded, has exactly the protection that
      protecting each load at once would have given it. */
  lemma {:induction false} NoLateRun(run: seq<Action>, b: nat, p: nat)
    requires NoLate(run) && Contains(After(run).sizes, b, p) && (WasLoaded(run, b) ==> Sealed(run, b))
    ensures Lookup(After(run).applied, p) == Lookup(AtOnce(run), p)
  {
    NoLateLosesNothing(run);
    SealedPages(run, b, p);
  }

  /** In particular if no enclave is loaded after its own initialisation; then every initialised
      enclave was initialised after its last load. */
  lemma {:induction false} OrderlyIsNoLate(run: seq<Action>)
    requires Orderly(run)
    ensures NoLate(run) && forall b :: WasInitialized(run, b) && WasLoaded(run, b) ==> Sealed(run, b)
  {
    if run != [] {
      OrderlyIsNoLate(Front(run));
      forall b { SealedWas(Front(run), b); }
    }
  }

  /** What an unsealed load protects, every load does. */
  lemma {:induction false} UnsealedIsLoaded(run: seq<Action>, p: nat)
    ensures Lookup(AtOnce(run), p) == None ==> Lookup(AtOnceUnsealed(run), p) == None
  {
    if run != [] { UnsealedIsLoaded(Front(run), p); }
  }

  /** A step neither shrinks an enclave nor unseals one. */
  lemma {:induction false} StillThere(run: seq<Action>, b: nat, p: nat)
    requires run != [] && Contains(After(Front(run)).sizes, b, p) && Sealed(Front(run), b)
    ensures Contains(After(run).sizes, b, p) && Sealed(run, b)
  {
  }

  /** A late load leaves a page of a sealed enclave unprotected for good. */
  lemma {:induction false} LateLeavesPage(run: seq<Action>) returns (b: nat, p: nat)
    requires Once(run) && !NoLate(run)
    ensures Sealed(run, b) && Contains(After(run).sizes, b, p)
    ensures Lookup(AtOnce(run), p) != None && Lookup(AtOnceUnsealed(run), p) == None
  {
    if NoLate(Front(run)) {
      b, p := Last(run).base, Last(run).target;
      assert Within(p, Last(run).target, Last(run).n);
      UnsealedIsLoaded(Front(run), p);
      assert Contains(After(Front(run)).sizes, b, p);
    } else {
      b, p := LateLeavesPage(Front(run));
    }
    StillThere(run, b, p);
  }

  ghost predicate PageAsLoaded(run: seq<Action>, b: nat, p: nat) {
    Sealed(run, b) && Contains(After(run).sizes, b, p) ==> Lookup(After(run).applied, p) == Lookup(AtOnce(run), p)
  }

  /** The exact condition: in a run that loads no page twice, all pages of all enclaves that were
      loaded and then initialised have the protection of their loads if and only if no enclave is
      loaded after that. */
  lemma {:induction false} NoLateIff(run: seq<Action>)
    requires Once(run)
    ensures (forall b, p :: PageAsLoaded(run, b, p)) <==> NoLate(run)
  {
    if NoLate(run) {
      forall b, p ensures PageAsLoaded(run, b, p) {
        if Sealed(run, b) && Contains(After(run).sizes, b, p) { NoLateRun(run, b, p); }
      }
    } else {
      var b, p := LateLeavesPage(run);
      SealedPages(run, b, p);
      assert !PageAsLoaded(run, b, p);
    }
  }

  /** Loading after an initialisation is not late in itself: nothing is lost in a run that initialises
      an enclave before its first load. */
  lemma {:induction false} EarlyInitializeIsHarmless()
    ensures var run := [Create(100, 10), Initialize(100, 100), Load(100, 100, 1, 5), Initialize(100, 100)];
      !Orderly(run) && NoLate(run) && Once(run) && Sealed(run, 100) && Lookup(After(run).applied, 100) == Some(5)
  {
    var c, i, l := Create(100, 10), Initialize(100, 100), Load(100, 100, 1, 5);
    assert Front([c]) == [] && Front([c, i]) == [c] && Front([c, i, l]) == [c, i] && Front([c, i, l, i]) == [c, i, l];
    var s1 := Created(Empty, 100, 10);
    assert After([c]) == s1 == After([c, i]);
    var s2 := s1.(regions := s1.regions[100 := Region(100, 1, 5)]);
    assert After([c, i, l]) == s2;
    assert EndsLoading([c, i, l], 100) && EndsInitializing([c, i], 100) && EndsInitializing([c, i, l, i], 100);
    assert !WasLoaded([c], 100) && !Sealed([c], 100);
    assert WasInitialized([c, i], 100) && !WasLoaded([c, i], 100) && !Sealed([c, i], 100);
    assert forall b :: EndsLoading([c, i, l], b) ==> b == 100;
    assert !Orderly([c, i, l]);
    assert NoLate([c, i]) && NoLate([c, i, l]);
    assert AtOnce([c, i]) == map[] && Once([c, i]) && Once([c, i, l]);
    assert WasLoaded([c, i, l], 100);
  }

  /** Once an enclave was loaded and then initialised, every further call about it leaves all
      protections as they are: a load is lost even if another initialisation follows. */
  lemma {:induction false} LateCallsAreLost(run: seq<Action>, late: seq<Action>, b: nat)
    requires Sealed(run, b) && forall i :: 0 <= i < |late| ==> !late[i].Create? && late[i].base == b
    ensures After(run + late).applied == After(run).applied && Sealed(run + late, b)
  {
    if late == [] {
      assert run + late == run;
    } else {
      var before := run + Front(late);
      LateCallsAreLost(run, Front(late), b);
      assert Front(run + late) == before && Last(run + late) == Last(late);
      RunAgrees(before);
      SealedWas(before, b);
      assert Phase(After(before), before, b);
    }
  }

  /** The shortest run that loses a load: page 101 was loaded with protection 3 and has none. */
  lemma {:induction false} LoadAfterInitialize()
    ensures var run := [Create(100, 10), Load(100, 100, 1, 5), Initialize(100, 100),
                   Load(100, 101, 1, 3), Initialize(100, 100)];
      && Lookup(AtOnce(run), 101) == Some(3) && Lookup(After(run).applied, 101) == None
      && Lookup(AtOnce(run), 100) == Lookup(After(run).applied, 100) == Some(5)
  {
    var c, l, i, m := Create(100, 10), Load(100, 100, 1, 5), Initialize(100, 100), Load(100, 101, 1, 3);
    assert Front([c]) == [] && Front([c, l]) == [c] && Front([c, l, i]) == [c, l];
    assert Front([c, l, i, m]) == [c, l, i] && Front([c, l, i, m, i]) == [c, l, i, m];
    var s1 := Created(Empty, 100, 10);
    assert After([c]) == s1;
    var s2 := s1.(regions := s1.regions[100 := Region(100, 1, 5)]);
    assert After([c, l]) == s2;
    var s3 := s2.(regions := s2.regions[100 := Region(0, 1, 5)], applied := Protected(map[], 100, 1, 5));
    assert After([c, l, i]) == s3;
    assert After([c, l, i, m]) == s3 == After([c, l, i, m, i]);
    assert AtOnce([c]) == map[];
    assert AtOnce([c, l]) == Protected(map[], 100, 1, 5) == AtOnce([c, l, i]);
    assert AtOnce([c, l, i, m, i]) == AtOnce([c, l, i, m]) == Protected(AtOnce([c, l, i]), 101, 1, 3);
  }
}
