# EcoLab1 test driver: sortedness validators and acquire/rollback

This project models the two self-contained pieces of the EcoOS lab test
driver `UnitTestFiles/SourceFiles/EcoLab1.c`:

- **The integer sortedness validators** `is_sorted_int32` and
  `is_sorted_int64`. Both scan the first `size` elements of a buffer and
  answer 0 at the first adjacent descent, 1 otherwise. They share one body,
  modelled once as `Validators.IsSorted` over unbounded integers, with one
  wrapper per element width (`CTypes.Int32`, `CTypes.Int64`). The loop is
  proved against an independent reference: `Validators.Sorted`, "every
  element is at most every later one".
- **The acquire-then-roll-back discipline of `EcoMain`.** The driver takes
  four interface handles in a fixed order: system, interface bus, memory
  allocator, lab component. The first failing step jumps to the `Release:`
  block, which releases every non-null handle. The component calls are
  foreign, so each step is an input `Startup.StepOutcome`: the `int16_t`
  status the call returned, and whether it wrote a non-null handle. The run
  is a pure function `Startup.EcoMain` from those outcomes to the status
  returned, the handles held, and the sequence of `Release` calls.

Modules: `CTypes` (the C integer widths), `Validators`, `EdgeInputs` (the
driver's two deterministic edge-test arrays), `Startup` (`EcoMain`'s control
flow).

Behaviour of the code that the model keeps on purpose:

- A step fails when its status is non-zero or its handle is null (lines 124,
  131, 138, 145). A call can return an error status and still write a
  non-null handle. That handle is then held and is released by the
  `Release:` block.
- A call that returns status 0 with a null handle also ends the run. `EcoMain`
  then returns 0, because `result` holds that call's status. So a return value
  of 0 does not mean the tests ran (`Startup.ZeroStatusIff`). A reading of the
  driver as "abort with a distinguishable failure" would expect a non-zero
  status here. The model follows the code.
- The guard `pISys == 0` at line 122 always holds, because the local starts
  null at line 116. The system step therefore always runs, and the initial
  `result = -1` is always overwritten.
- The validators take a C `int` size. A size of 1 or less, negative included,
  never enters the loop and yields 1. The model's only precondition is that
  the buffer holds at least `size` elements. Every call in the driver meets
  it; see "## Left out" for the one case it excludes.

## Model

| member | source | states |
|---|---|---|
| `Validators.IsSorted` | UnitTestFiles/SourceFiles/EcoLab1.c:74-88 | the shared validator body returns 0 or 1, and 1 exactly when the first `size` elements are pairwise ascending; any size of 1 or less (zero and negatives included) yields 1; every read is in bounds and the verdict depends only on that prefix |
| `Validators.IsSortedInt32` | UnitTestFiles/SourceFiles/EcoLab1.c:74-80 | `is_sorted_int32` on `int32_t` elements with a C `int` size: 1 iff the prefix is sorted, 0 otherwise, 1 for size at most 1 |
| `Validators.IsSortedInt64` | UnitTestFiles/SourceFiles/EcoLab1.c:82-88 | `is_sorted_int64`: the same contract over `int64_t` elements |
| `Validators.NoInversionIffSorted` | UnitTestFiles/SourceFiles/EcoLab1.c:76-79 | checking only adjacent pairs, as the loop does, is equivalent to every element being at most every later one (both directions) |
| `EdgeInputs.AscendingFillSorted` | UnitTestFiles/SourceFiles/EcoLab1.c:231 | the fill `arr[i] = i` is sorted for every length |
| `EdgeInputs.ReverseFillNotSorted` | UnitTestFiles/SourceFiles/EcoLab1.c:245 | the fill `arr[i] = n - i` is not sorted once it has two elements |
| `EdgeInputs.AscendingEdgeVerdict` | UnitTestFiles/SourceFiles/EcoLab1.c:228-233 | the already-sorted edge array of `N6 = 1000` elements fits `int32_t` and `is_sorted_int32` accepts it even before any sort |
| `EdgeInputs.ReverseEdgeVerdict` | UnitTestFiles/SourceFiles/EcoLab1.c:242-245 | the reverse edge array `N7 - i` with `N7 = 2000` is rejected by the validator scan before sorting |
| `Startup.AcquireFrom` | UnitTestFiles/SourceFiles/EcoLab1.c:122-148 | from step `k` on, acquisition either completes with every remaining call succeeding and all handles held, or stops at the first failing call; it then returns that call's status, holds every earlier handle, holds the failing handle only if it is non-null, and holds no later handle |
| `Startup.AcquireStopsAtFirstFailure` | UnitTestFiles/SourceFiles/EcoLab1.c:122-148 | from a clean start, acquisition completes iff every call succeeds, and stops at step `s` iff `s` is the earliest failing call |
| `Startup.Acquire` | UnitTestFiles/SourceFiles/EcoLab1.c:115-148 | in the order system, bus, memory, lab: on success all four handles are held with status 0; on a first failure at `s`, `s`'s status is kept, earlier handles are held, `s`'s only if non-null, later ones stay null |
| `Startup.ReleaseFromReleasesHeld` | UnitTestFiles/SourceFiles/EcoLab1.c:255-258 | the guarded `Release` statements from position `k` on release a handle iff it is non-null and at or after `k` in the block |
| `Startup.ReleaseFromOnce` | UnitTestFiles/SourceFiles/EcoLab1.c:255-258 | those statements release each such handle exactly once and never a null one |
| `Startup.ReleaseFromOrdered` | UnitTestFiles/SourceFiles/EcoLab1.c:255-258 | those statements release in the block's order: bus, memory, lab, system |
| `Startup.ReleaseAllHeld` | UnitTestFiles/SourceFiles/EcoLab1.c:255-258 | with all four handles non-null the block releases bus, memory, lab, system |
| `Startup.ReleaseBusAndSystem` | UnitTestFiles/SourceFiles/EcoLab1.c:255-258 | with only the system and bus handles non-null the block releases bus, then system |
| `Startup.ReleaseBlock` | UnitTestFiles/SourceFiles/EcoLab1.c:254-258 | the `Release:` block calls `Release` exactly once per non-null handle and never on a null one, in the order bus, memory, lab, system |
| `Startup.EcoMain` | UnitTestFiles/SourceFiles/EcoLab1.c:114-261 | the tests run iff all four acquisitions succeed; the handles held at `Release:` are those acquisition left non-null, and the status is 0 after a complete run and the stopping call's status otherwise; every path releases exactly the handles it acquired, each once, in the block's order |
| `Startup.CompleteRunReleasesAll` | UnitTestFiles/SourceFiles/EcoLab1.c:252-258 | a complete run returns 0, has held all four handles and releases bus, memory, lab, system |
| `Startup.FailedRunStatus` | UnitTestFiles/SourceFiles/EcoLab1.c:122-148 | a run whose first failing step is `s` skips the tests and returns `s`'s status; it holds every earlier handle, holds `s`'s only if non-null, and neither holds nor releases any later handle |
| `Startup.SomeStepFailsFirst` | UnitTestFiles/SourceFiles/EcoLab1.c:115-148 | an incomplete run always has a first failing call, and `EcoMain` returns that call's status; with the always-true guard at line 122 folded in, the initial -1 survives only if a call itself returns -1 |
| `Startup.ZeroStatusIff` | UnitTestFiles/SourceFiles/EcoLab1.c:123-261 | `EcoMain` returns 0 iff the run completed or its first failing call returned status 0 with a null handle (both directions) |
| `Startup.NullSystemReturnsZero` | UnitTestFiles/SourceFiles/EcoLab1.c:122-127 | a system query that returns 0 but yields a null handle ends the run with status 0, no tests and no `Release` calls |
| `Startup.BusErrorReleasesBusThenSystem` | UnitTestFiles/SourceFiles/EcoLab1.c:130-134 | a bus query that returns an error status but writes a non-null handle returns that status and releases bus, then system |

## Left out

- `box_line`, `box_title`, `box_section` and the `print_array*` family (lines 9-72), and every `printf` of `EcoMain`: console output only.
- The `rand()`-based fills of the five stress tests (lines 150-223): nondeterministic library input. The tests' verdicts are only printed and do not affect `EcoMain`'s status, so the model records only whether the test section was reached (`Run.testsRan`).
- `is_sorted_float`, `is_sorted_double`, `is_sorted_longdouble` (lines 90-112): floating point, where `>` is not a total order once NaN is present. The reverse edge array is `double` but holds only the integers 1 to 2000. Those are exact in `double`, so its values are modelled as integers.
- The bodies of `QueryInterface`, `QueryComponent`, `Release` and the `qsort_*` entry points: foreign vtable calls into components whose source is not part of this model. Acquisitions are input outcomes. Releases are recorded as a sequence of calls. The sort is not modelled, and neither is any reference count or registry behind these calls.
- Any permutation, stability or complexity claim about the sort: the driver checks only sortedness, and the sort algorithm is not part of this model.
- Startup.EcoMain: it does not model the five stress tests and two edge tests as separate sort calls. Between acquisition and `Release:` the run is summarised by `testsRan`. This is safe because that stretch reads the lab handle only to call the sort, and does not write the handle locals or `result`.
- Validators.IsSorted, Validators.IsSortedInt32, Validators.IsSortedInt64: they require at least `size` elements even when `size` is 1. In that case the C loop reads nothing and returns 1, so the model excludes the case of `size == 1` with an empty buffer. Every call in the driver passes a full buffer of N elements.
- The `int16_t` return type of `QueryInterface` and `QueryComponent` is assumed. The headers that declare them are not part of this model. If the calls returned a wider type, the assignment to `result` would truncate, and the model does not include that truncation.
