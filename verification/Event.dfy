/** The futex event: one waiter, any number of wakers. A wake adds one to the counter and, if the
    counter was not zero, issues a `FUTEX_WAKE` later, as a separate step that other threads can
    overtake. */
module Event {
  /** - `Idle`: not in a wait
      - `Deciding`: took the counter from 0 to -1, about to call `FUTEX_WAIT`
      - `Asleep`: in the futex queue
      - `Leaving`: back from a timed `FUTEX_WAIT`, about to reset a counter that is still -1 */
  datatype Waiter = Idle | Deciding(timed: bool) | Asleep(timed: bool) | Leaving

  /** `pokes` is the number of `FUTEX_WAKE` calls still to be issued. The last three fields count
      the wakes, the waits that returned with a token, and the waits that timed out. */
  datatype State = State(value: int, waiter: Waiter, pokes: nat, wakes: nat, taken: nat, expired: nat)

  const INITIAL: State := State(0, Idle, 0, 0, 0, 0)

  datatype Action =
    | Wait(timed: bool)
    | Sleep
    | Expire
    | Reset
    | Wake
    | Poke

  predicate Enabled(s: State, a: Action) {
    match a
    case Wait(_) => s.waiter == Idle
    case Sleep => s.waiter.Deciding?
    case Expire => s.waiter == Asleep(true)
    case Reset => s.waiter == Leaving
    case Wake => true
    case Poke => s.pokes > 0
  }

  /** What the waiter does when `FUTEX_WAIT` comes back. */
  function Back(s: State, timed: bool): State {
    if timed then s.(waiter := Leaving) else s.(waiter := Idle, taken := s.taken + 1)
  }

  function Next(s: State, a: Action): State
    requires Enabled(s, a)
  {
    match a
    case Wait(timed) =>
      var s1 := s.(value := s.value - 1);
      if s.value == 0 then s1.(waiter := Deciding(timed)) else s1.(taken := s.taken + 1)
    case Sleep => if s.value == -1 then s.(waiter := Asleep(s.waiter.timed)) else Back(s, s.waiter.timed)
    case Expire => s.(waiter := Leaving)
    case Reset =>
      if s.value == -1 then s.(value := 0, waiter := Idle, expired := s.expired + 1)
      else s.(waiter := Idle, taken := s.taken + 1)
    case Wake => s.(value := s.value + 1, wakes := s.wakes + 1, pokes := s.pokes + if s.value != 0 then 1 else 0)
    case Poke =>
      var s1 := s.(pokes := s.pokes - 1);
      if s.waiter.Asleep? then Back(s1, s.waiter.timed) else s1
  }

  function Run(s: State, actions: seq<Action>): seq<State>
    ensures |Run(s, actions)| > 0
    decreases |actions|
  {
    if actions == [] || !Enabled(s, actions[0]) then [s] else [s] + Run(Next(s, actions[0]), actions[1..])
  }

  predicate Waiting(s: State) {
    s.waiter != Idle
  }

  // ----- what always holds -----

  /** The counter equation, and the wake-up that is owed to a sleeper whose token has come. */
  ghost predicate Inv(s: State) {
    && s.value == s.wakes - s.taken - (if Waiting(s) then 1 else 0)
    && (Waiting(s) ==> s.value >= -1)
    && (s.waiter.Asleep? && s.value != -1 ==> s.pokes > 0)
  }

  lemma {:induction false} StepKeepsInv(s: State, a: Action)
    requires Inv(s) && Enabled(s, a)
    ensures Inv(Next(s, a))
  {
  }

  /** In every state of every run, stale deliveries or not. */
  lemma {:induction false} RunKeepsInv(s: State, actions: seq<Action>, i: nat)
    requires Inv(s) && i < |Run(s, actions)|
    ensures Inv(Run(s, actions)[i])
    decreases |actions|
  {
    if i > 0 {
      StepKeepsInv(s, actions[0]);
      RunKeepsInv(Next(s, actions[0]), actions[1..], i - 1);
    }
  }

  /** The wake-up that must not happen: a poke left over from an earlier wake reaches an untimed
      sleeper whose counter is still -1. */
  predicate IsStale(s: State, a: Action) {
    a == Poke && s.waiter == Asleep(false) && s.value == -1
  }

  /** A counting semaphore: tokens are never negative. */
  ghost predicate SemaphoreOk(s: State) {
    s.taken <= s.wakes && s.value >= -1
  }

  ghost predicate Sound(s: State) {
    Inv(s) && SemaphoreOk(s) && (s.value == -1 ==> Waiting(s))
  }

  lemma {:induction false} SoundStep(s: State, a: Action)
    requires Sound(s) && Enabled(s, a)
    ensures Sound(Next(s, a)) <==> !IsStale(s, a)
    ensures SemaphoreOk(Next(s, a)) <==> !IsStale(s, a)
  {
  }

  /** No step of a run is a stale delivery. */
  predicate NeverStale(s: State, actions: seq<Action>)
    decreases |actions|
  {
    actions == [] || !Enabled(s,
      actions[0]) || (!IsStale(s, actions[0]) && NeverStale(Next(s, actions[0]), actions[1..]))
  }

  ghost predicate AllOk(run: seq<State>) {
    forall i :: 0 <= i < |run| ==> SemaphoreOk(run[i])
  }

  lemma {:induction false} AllOkCons(s: State, rest: seq<State>)
    ensures AllOk([s] + rest) <==> SemaphoreOk(s) && AllOk(rest)
  {
    var run := [s] + rest;
    if AllOk(run) {
      forall i | 0 <= i < |rest| ensures SemaphoreOk(rest[i]) { assert run[i + 1] == rest[i]; }
      assert run[0] == s;
    }
  }

  /** The event is a counting semaphore throughout a run exactly when the run has no stale delivery. */
  lemma {:induction false} SemaphoreIff(s: State, actions: seq<Action>)
    requires Sound(s)
    ensures AllOk(Run(s, actions)) <==> NeverStale(s, actions)
    decreases |actions|
  {
    if actions != [] && Enabled(s, actions[0]) {
      var s' := Next(s, actions[0]);
      SoundStep(s, actions[0]);
      AllOkCons(s, Run(s', actions[1..]));
      if IsStale(s, actions[0]) {
        assert Run(s', actions[1..])[0] == s';
      } else {
        SemaphoreIff(s', actions[1..]);
      }
    }
  }

  /** Stale deliveries do occur: two wakes on a positive counter leave a poke behind that hits the
      third wait. */
  lemma {:induction false} StaleExample()
    ensures exists actions :: !NeverStale(INITIAL, actions)
  {
    var s1 := Next(INITIAL, Wake);
    var s2 := Next(s1, Wake);
    var s3 := Next(s2, Wait(false));
    var s4 := Next(s3, Wait(false));
    var s5 := Next(s4, Wait(false));
    var s6 := Next(s5, Sleep);
    assert IsStale(s6, Poke);
    var a := [Poke];
    assert !NeverStale(s6, a);
    NotNeverStale(s5, Sleep, a);
    NotNeverStale(s4, Wait(false), [Sleep] + a);
    NotNeverStale(s3, Wait(false), [Wait(false)] + ([Sleep] + a));
    NotNeverStale(s2, Wait(false), [Wait(false)] + ([Wait(false)] + ([Sleep] + a)));
    NotNeverStale(s1, Wake, [Wait(false)] + ([Wait(false)] + ([Wait(false)] + ([Sleep] + a))));
    NotNeverStale(INITIAL, Wake, [Wake] + ([Wait(false)] + ([Wait(false)] + ([Wait(false)] + ([Sleep] + a)))));
  }

  lemma {:induction false} NotNeverStale(s: State, a: Action, rest: seq<Action>)
    requires Enabled(s, a) && !NeverStale(Next(s, a), rest)
    ensures !NeverStale(s, [a] + rest)
  {
    assert ([a] + rest)[1..] == rest;
  }

  /** Timed waits are immune: if every wait has a timeout there is no stale delivery, hence no run
      breaks the semaphore. */
  lemma {:induction false} TimedNeverStale(s: State, actions: seq<Action>)
    requires s.waiter.Deciding? || s.waiter.Asleep? ==> s.waiter.timed
    requires forall i :: 0 <= i < |actions| ==> actions[i] != Wait(false)
    ensures NeverStale(s, actions)
    decreases |actions|
  {
    if actions != [] && Enabled(s, actions[0]) { TimedNeverStale(Next(s, actions[0]), actions[1..]); }
  }

  // ----- refinement of the counting semaphore -----

  /** The abstract semaphore: its tokens. */
  ghost function Tokens(s: State): int {
    s.wakes - s.taken
  }

  /** Each step posts a token, takes one that is there, or leaves the tokens alone; a timeout that
      races with a wake either gives its decrement back or takes the token, never both. */
  lemma {:induction false} Refines(s: State, a: Action)
    requires Sound(s) && Enabled(s, a) && !IsStale(s, a)
    ensures var s' := Next(s, a);
      || (a == Wake && Tokens(s') == Tokens(s) + 1)
      || (a != Wake && Tokens(s) > 0 && Tokens(s') == Tokens(s) - 1 && s'.waiter == Idle && s'.expired == s.expired)
      || (a != Wake && Tokens(s') == Tokens(s) && s'.taken == s.taken)
    ensures Next(s, a).expired > s.expired ==> a == Reset && Tokens(s) == 0 && Next(s, a).value == 0
  {
  }

  /** No wake is lost: while a token is there, a waiter is not stuck. Either it is not asleep, or a
      poke is due that gets it up. */
  lemma {:induction false} NoLostWake(s: State)
    requires Sound(s) && Waiting(s) && Tokens(s) > 0
    ensures s.waiter.Asleep? ==> Enabled(s, Poke) && !IsStale(s, Poke) && !Next(s, Poke).waiter.Asleep?
    ensures s.waiter.Deciding? ==> !Next(s, Sleep).waiter.Asleep?
    ensures s.waiter == Leaving ==> Next(s, Reset).taken == s.taken + 1
  {
  }
}
