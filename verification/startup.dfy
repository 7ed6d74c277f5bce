/**
  The acquire-then-roll-back discipline of `EcoMain` in EcoLab1.c. The driver
  asks for four interface handles in a fixed order (system, interface bus,
  memory allocator, lab component); the first step that fails jumps to a
  single `Release:` block, which releases every handle that is non-null.

  The component calls themselves (`QueryInterface`, `QueryComponent`,
  `Release`) are foreign: each acquisition step is given as an input outcome,
  the status code the call returned and whether it wrote a non-null handle.
 */
module Startup {
  import opened CTypes

  /** The four handles `EcoMain` keeps in its locals `pISys`, `pIBus`,
      `pIMem` and `pIEcoLab1`. */
  datatype Slot = System | Bus | Memory | Lab

  /** What one acquisition call reports: its `int16_t` status and whether
      the handle it wrote through its out-pointer is non-null. */
  datatype StepOutcome = StepOutcome(status: Int16, nonNull: bool)

  /** The outcome each acquisition call would have if it were made. */
  datatype Env = Env(system: StepOutcome, bus: StepOutcome, memory: StepOutcome, lab: StepOutcome)

  /** Where acquisition stopped: after all four steps, or at a failing one. */
  datatype Stop = Completed | FailedAt(slot: Slot)

  /** The state at the `Release:` label: the non-null handles, where
      acquisition stopped, and the value of `result`. */
  datatype Acquisition = Acquisition(held: set<Slot>, stop: Stop, status: Int16)

  /** What one run of `EcoMain` does: the status it returns, the handles it
      held, the `Release` calls it makes in order, and whether it went on to
      the sort tests. */
  datatype Run = Run(status: Int16, acquired: set<Slot>, released: seq<Slot>, testsRan: bool)

  /** Number of acquisition steps, and of guarded `Release` statements. */
  const Steps: nat := 4

  /** Position of each slot in the acquisition order (lines 122-148). */
  function Step(s: Slot): (k: nat)
    ensures k < Steps
  {
    match s
    case System => 0
    case Bus => 1
    case Memory => 2
    case Lab => 3
  }

  /** The slot acquired at position `k`: system, bus, memory, lab. */
  function AcquireSlot(k: nat): (s: Slot)
    requires k < Steps
    ensures Step(s) == k
  {
    if k == 0 then System else if k == 1 then Bus else if k == 2 then Memory else Lab
  }

  /** Position of each slot in the release block (lines 255-258). */
  function ReleaseRank(s: Slot): (k: nat)
    ensures k < Steps
  {
    match s
    case Bus => 0
    case Memory => 1
    case Lab => 2
    case System => 3
  }

  /** The slot released at position `k`: bus, memory, lab, system. */
  function ReleaseSlot(k: nat): (s: Slot)
    requires k < Steps
    ensures ReleaseRank(s) == k
  {
    if k == 0 then Bus else if k == 1 then Memory else if k == 2 then Lab else System
  }

  /** The outcome of the call that acquires slot `s`. */
  function Outcome(env: Env, s: Slot): StepOutcome {
    match s
    case System => env.system
    case Bus => env.bus
    case Memory => env.memory
    case Lab => env.lab
  }

  /** A step passes its guard: status 0 and a non-null handle. */
  predicate Succeeded(o: StepOutcome) {
    o.status == 0 && o.nonNull
  }

  /** Every acquisition call succeeds. */
  ghost predicate AllSucceed(env: Env) {
    forall s :: Succeeded(Outcome(env, s))
  }

  /** `s` is the earliest step, in acquisition order, whose call fails. */
  ghost predicate FirstFailure(env: Env, s: Slot) {
    && !Succeeded(Outcome(env, s))
    && forall t :: Step(t) < Step(s) ==> Succeeded(Outcome(env, t))
  }

  /** The acquisition steps from the `k`-th on, with the handles of the
      earlier (successful) steps already held. A step's handle is held as soon
      as the call writes it non-null, even when the status then sends control
      to `Release:`. */
  function AcquireFrom(env: Env, k: nat, held: set<Slot>): (a: Acquisition)
    requires k <= Steps
    requires forall s :: s in held <==> Step(s) < k
    ensures a.stop == Completed ==>
      && a.status == 0
      && (forall s :: Step(s) >= k ==> Succeeded(Outcome(env, s)))
      && (forall s :: s in a.held)
    ensures a.stop.FailedAt? ==>
      && Step(a.stop.slot) >= k
      && !Succeeded(Outcome(env, a.stop.slot))
      && (forall s :: k <= Step(s) < Step(a.stop.slot) ==> Succeeded(Outcome(env, s)))
      && a.status == Outcome(env, a.stop.slot).status
      && (forall s :: s in a.held <==>
            Step(s) < Step(a.stop.slot) || (s == a.stop.slot && Outcome(env, s).nonNull))
    decreases Steps - k
  {
    if k == Steps then
      // `result` holds the lab step's status, which its guard forced to 0
      Acquisition(held, Completed, 0)
    else
      var slot := AcquireSlot(k);
      var o := Outcome(env, slot);
      var held' := if o.nonNull then held + {slot} else held;
      if o.status != 0 || !o.nonNull then
        Acquisition(held', FailedAt(slot), o.status)
      else
        AcquireFrom(env, k + 1, held')
  }

  /** Each release comes strictly later in the block's order than the one
      before it. */
  ghost predicate InReleaseOrder(released: seq<Slot>) {
    forall i :: 0 < i < |released| ==> ReleaseRank(released[i - 1]) < ReleaseRank(released[i])
  }

  /** The guarded `Release` statements of the `Release:` block (lines
      255-258) from the `k`-th on: each releases its handle when it is
      non-null and skips it when it is null. */
  function ReleaseFrom(held: set<Slot>, k: nat): seq<Slot>
    requires k <= Steps
    decreases Steps - k
  {
    if k == Steps then []
    else
      var slot := ReleaseSlot(k);
      (if slot in held then [slot] else []) + ReleaseFrom(held, k + 1)
  }

  /** The statements from the `k`-th on release exactly the held handles
      of rank `k` or later. */
  lemma {:induction false} ReleaseFromReleasesHeld(held: set<Slot>, k: nat)
    requires k <= Steps
    ensures forall s :: s in ReleaseFrom(held, k) <==> s in held && ReleaseRank(s) >= k
    decreases Steps - k
  {
    if k < Steps {
      ReleaseFromReleasesHeld(held, k + 1);
      var slot := ReleaseSlot(k);
      assert ReleaseFrom(held, k)
        == (if slot in held then [slot] else []) + ReleaseFrom(held, k + 1);
      forall s | ReleaseRank(s) == k
        ensures s == slot
      {
        assert ReleaseSlot(ReleaseRank(s)) == s;
      }
    } else {
      assert ReleaseFrom(held, k) == [];
    }
  }

  /** The statements from the `k`-th on release each held handle of rank
      `k` or later exactly once, and nothing else. */
  lemma {:induction false} ReleaseFromOnce(held: set<Slot>, k: nat)
    requires k <= Steps
    ensures forall s ::
      multiset(ReleaseFrom(held, k))[s] == (if s in held && ReleaseRank(s) >= k then 1 else 0)
    decreases Steps - k
  {
    if k < Steps {
      ReleaseFromOnce(held, k + 1);
      var slot := ReleaseSlot(k);
      var head := if slot in held then [slot] else [];
      assert ReleaseFrom(held, k) == head + ReleaseFrom(held, k + 1);
      assert multiset(ReleaseFrom(held, k)) == multiset(head) + multiset(ReleaseFrom(held, k + 1));
      forall s | ReleaseRank(s) == k
        ensures s == slot
      {
        assert ReleaseSlot(ReleaseRank(s)) == s;
      }
    } else {
      assert ReleaseFrom(held, k) == [];
    }
  }

  /** The statements from the `k`-th on release in strictly increasing rank. */
  lemma {:induction false} ReleaseFromOrdered(held: set<Slot>, k: nat)
    requires k <= Steps
    ensures InReleaseOrder(ReleaseFrom(held, k))
    decreases Steps - k
  {
    if k < Steps {
      ReleaseFromOrdered(held, k + 1);
      ReleaseFromReleasesHeld(held, k + 1);
      var rest := ReleaseFrom(held, k + 1);
      var slot := ReleaseSlot(k);
      if slot in held {
        var released := [slot] + rest;
        assert ReleaseFrom(held, k) == released;
        if |rest| > 0 {
          assert rest[0] in rest;
        }
        forall i | 1 < i < |released|
          ensures ReleaseRank(released[i - 1]) < ReleaseRank(released[i])
        {
          assert released[i - 1] == rest[i - 2] && released[i] == rest[i - 1];
        }
        assert InReleaseOrder(released);
      } else {
        assert ReleaseFrom(held, k) == rest;
      }
    } else {
      assert ReleaseFrom(held, k) == [];
    }
  }

  /** With all four handles held the block releases all four, in its order. */
  lemma ReleaseAllHeld(held: set<Slot>)
    requires forall s :: s in held
    ensures ReleaseFrom(held, 0) == [Bus, Memory, Lab, System]
  {
    assert ReleaseFrom(held, 3) == [System];
    assert ReleaseFrom(held, 2) == [Lab, System];
    assert ReleaseFrom(held, 1) == [Memory, Lab, System];
  }

  /** With only the system and bus handles held, the block releases the
      bus handle and then the system handle. */
  lemma ReleaseBusAndSystem(held: set<Slot>)
    requires held == {System, Bus}
    ensures ReleaseFrom(held, 0) == [Bus, System]
  {
    assert ReleaseFrom(held, 3) == [System];
    assert ReleaseFrom(held, 2) == [System];
    assert ReleaseFrom(held, 1) == [System];
  }

  /** The whole `Release:` block: one `Release` call per non-null handle,
      none for a null one, in the order bus, memory, lab, system. */
  function ReleaseBlock(held: set<Slot>): (released: seq<Slot>)
    ensures forall s :: multiset(released)[s] == if s in held then 1 else 0
    ensures InReleaseOrder(released)
  {
    ReleaseFromOnce(held, 0);
    ReleaseFromOrdered(held, 0);
    ReleaseFrom(held, 0)
  }

  /** Acquisition from a clean start stops exactly at the first failing step,
      and completes exactly when every step succeeds. */
  lemma AcquireStopsAtFirstFailure(env: Env)
    ensures AcquireFrom(env, 0, {}).stop == Completed <==> AllSucceed(env)
    ensures forall s :: FirstFailure(env, s) <==> AcquireFrom(env, 0, {}).stop == FailedAt(s)
  {
    var a := AcquireFrom(env, 0, {});
    forall s | FirstFailure(env, s)
      ensures a.stop == FailedAt(s)
    {
      if a.stop.FailedAt? {
        var t := a.stop.slot;
        assert AcquireSlot(Step(s)) == s && AcquireSlot(Step(t)) == t;
      }
    }
  }

  /** Lines 115-148 from a clean start (all four locals null): every handle
      up to the first failing step is held, the failing step's handle is held
      only if its call wrote it non-null, and later handles stay null. */
  function Acquire(env: Env): (a: Acquisition)
    ensures a.stop == Completed <==> AllSucceed(env)
    ensures AllSucceed(env) ==> a.status == 0 && forall s :: s in a.held
    ensures forall s :: FirstFailure(env, s) ==>
      && a.stop == FailedAt(s)
      && a.status == Outcome(env, s).status
      && (forall t :: t in a.held <==> Step(t) < Step(s) || (t == s && Outcome(env, s).nonNull))
  {
    AcquireStopsAtFirstFailure(env);
    AcquireFrom(env, 0, {})
  }

  /** `EcoMain`'s control flow around its tests. The guard `pISys == 0` at
      line 122 always holds (the local starts null), so the system step always
      runs and the initial `result = -1` is always overwritten. The status
      returned is 0 after a complete run (line 252), and otherwise the status
      of the first failing call, which is itself 0 when that call reported 0
      but wrote a null handle. */
  function EcoMain(env: Env): (r: Run)
    ensures r.testsRan <==> AllSucceed(env)
    ensures r.acquired == Acquire(env).held
    ensures r.status == if AllSucceed(env) then 0 else Acquire(env).status
    ensures forall s :: multiset(r.released)[s] == if s in r.acquired then 1 else 0
    ensures InReleaseOrder(r.released)
  {
    var a := Acquire(env);
    var released := ReleaseBlock(a.held);
    if a.stop == Completed then
      // line 252 sets `result = 0` once the tests have run
      Run(0, a.held, released, true)
    else
      Run(a.status, a.held, released, false)
  }

  /** A complete run returns 0 and, having held all four handles, releases
      all four. */
  lemma CompleteRunReleasesAll(env: Env)
    requires AllSucceed(env)
    ensures EcoMain(env).status == 0
    ensures EcoMain(env).acquired == {System, Bus, Memory, Lab}
    ensures EcoMain(env).released == [Bus, Memory, Lab, System]
  {
    ReleaseAllHeld(Acquire(env).held);
  }

  /** A run whose first failing step is `s` returns that step's status, holds
      every earlier handle, holds `s`'s own handle only if its call wrote it
      non-null, and leaves every later handle null. */
  lemma FailedRunStatus(env: Env, s: Slot)
    requires FirstFailure(env, s)
    ensures !EcoMain(env).testsRan
    ensures EcoMain(env).status == Outcome(env, s).status
    ensures forall t :: Step(t) < Step(s) ==> t in EcoMain(env).acquired
    ensures s in EcoMain(env).acquired <==> Outcome(env, s).nonNull
    ensures forall t :: Step(t) > Step(s) ==> t !in EcoMain(env).acquired && t !in EcoMain(env).released
  {
  }

  /** When not every call succeeds, there is a first failing call, and
      `EcoMain` returns that call's status. */
  lemma SomeStepFailsFirst(env: Env)
    requires !AllSucceed(env)
    ensures exists s :: FirstFailure(env, s) && EcoMain(env).status == Outcome(env, s).status
  {
    var a := Acquire(env);
    AcquireStopsAtFirstFailure(env);
    var s := a.stop.slot;
    assert FirstFailure(env, s);
    FailedRunStatus(env, s);
  }

  /** `EcoMain` returns 0 exactly when the run completed or when its first
      failing call reported status 0 but wrote a null handle: 0 does not
      mean that the tests ran. */
  lemma ZeroStatusIff(env: Env)
    ensures EcoMain(env).status == 0 <==>
      AllSucceed(env) || exists s :: FirstFailure(env, s) && Outcome(env, s) == StepOutcome(0, false)
  {
    if AllSucceed(env) {
      CompleteRunReleasesAll(env);
    } else {
      SomeStepFailsFirst(env);
      var s :| FirstFailure(env, s);
      FailedRunStatus(env, s);
      forall t | FirstFailure(env, t)
        ensures t == s
      {
        AcquireStopsAtFirstFailure(env);
      }
    }
  }

  /** The quirk in one instance: a system query that reports success but
      yields a null handle ends the run with status 0, no tests and no
      `Release` calls. */
  lemma NullSystemReturnsZero(env: Env)
    requires env.system == StepOutcome(0, false)
    ensures EcoMain(env) == Run(0, {}, [], false)
  {
    FailedRunStatus(env, System);
    assert EcoMain(env).acquired == {};
  }

  /** A bus query that fails with an error status but still writes a
      non-null handle: the bus handle is released, then the system handle,
      and the call's status is returned. */
  lemma BusErrorReleasesBusThenSystem(env: Env)
    requires Succeeded(env.system)
    requires env.bus.status != 0 && env.bus.nonNull
    ensures EcoMain(env).status == env.bus.status
    ensures EcoMain(env).released == [Bus, System]
  {
    assert FirstFailure(env, Bus);
    var a := Acquire(env);
    assert a.held == {System, Bus};
    ReleaseBusAndSystem(a.held);
  }
}
