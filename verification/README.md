# Reactor model

A model, in Dafny, of the single-threaded reactor `ilrd::Reactor`: a
dispatcher that keeps three registration tables (EXCEPT, READ, WRITE), each
mapping a file descriptor to a callback, and a running flag. `Add` and
`Remove` edit the tables with a fixed order of checks and a fixed exception
for each failure. `Run` loops while the flag is set. Each pass returns EMPTY
when every table is empty. Otherwise it builds the three descriptor sets
from the tables and waits in `select`, retrying when interrupted. It then
invokes the first registered callback whose descriptor came back ready,
scanning the categories in the order EXCEPT, READ, WRITE and each table in
ascending descriptor order. A callback ends the run by calling `Stop`, and
`Run` then returns STOP_CALLED. A guard object clears the flag on every way
out of `Run`, exceptions included.

Layout:

- `types.dfy` (module `ReactorTypes`): the categories, statuses, error
  kinds and their standard families, the limit of 1024, and the table
  shapes.
- `sets.dfy` (module `DescriptorSets`): finite-set facts the proofs use:
  counting, and the least element of a set of descriptors.
- `registration.dfy` (module `Registration`): `Add` and `Remove` as pure
  functions on the three tables, with their error cases and round trips.
- `select.dfy` (module `Select`): the wait, over a script of operating
  system answers, and the in-place `SelectFunc` proved against it.
- `dispatch.dfy` (module `EventLoop`): which callback a wake invokes, what
  a callback may do to the reactor, and the whole loop of `Run` as a
  function of the answers and the callbacks' behaviour, with its
  termination and Stop properties.
- `reactor.dfy` (module `Reactor`): the `Reactor` class. Its array of
  three tables and its flag are updated in place, and each method is proved
  against the functions above.

The environment is modelled as parameters:

- The open-descriptor probe (`fcntl(fd, F_GETFL)`) is the boolean `fdOpen`.
- Each `select` call is a `SelectCall`: its return (success, or failure
  with an errno) and the descriptors it leaves marked.
- Each invoked callback is an `Effect`: the `Add`/`Remove` calls it makes
  on the reactor, in order, and whether it calls `Stop`.

`Run` consumes a script of each. When the select script runs out, the
model ends with `StillBlocked`, standing for a `select` that never returns.

## Model

| member | source | states |
|---|---|---|
| ReactorTypes.UsageIndexRoundTrip | reactor.hpp:18-24 | The three categories and the positions 0, 1, 2 of the table array correspond one to one, in declaration order. |
| ReactorTypes.ErrorTaxonomy | reactor.hpp:60-107 | RepeatingFD, NonValidFD and RemovingNonExistingFD are the reactor's logic errors. FDsOverflow is its only runtime error. Of the wait's plain errors, only the bad descriptor one is a logic error. |
| Registration.TryAdd | reactor.cpp:16-38 | Each error holds exactly when its check fails and the earlier checks pass: NonValidFD for a descriptor out of [0, 1024) or not open, then FDsOverflow for a full category, then RepeatingFD for a registered pair. On success exactly fd to callback is added to that category. Keys in range are preserved. |
| Registration.TryRemove | reactor.cpp:41-51 | Fails with RemovingNonExistingFD exactly when the pair is not registered. Otherwise exactly that key leaves that category. Keys in range are preserved. |
| Registration.TableSizeBounded | reactor.hpp:34 | A table whose descriptors are all valid never holds more than 1024 entries. |
| Registration.FullTableHoldsEveryDescriptor | reactor.cpp:26-29 | A category with 1024 valid entries already holds every valid descriptor. |
| Registration.OverflowOnlyForRegistered | reactor.cpp:20-37 | An Add that fails with FDsOverflow names a descriptor already registered there, so the capacity check only pre-empts the duplicate check. |
| Registration.DuplicateKeepsOriginal | reactor.cpp:33-37 | A second Add of a registered pair is refused and the first callback stays. The refusal is RepeatingFD, or FDsOverflow when the first Add filled the category. |
| Registration.AddThenRemove | reactor.cpp:41-51 | Remove after a successful Add succeeds and restores the tables. |
| Registration.RemoveThenAdd | reactor.cpp:33-34 | Removing a registered pair and adding it back with its callback succeeds and restores the tables. |
| Registration.DistinctAddsSucceed | reactor.cpp:16-38 | Adds of distinct new valid descriptors, while room remains, all succeed. The category then holds all of them, and its size has grown by their number. |
| Registration.AddEachKeeps | reactor.cpp:33-34 | Successful adds never drop a registered descriptor. |
| Registration.FillThenOverflow | reactor.cpp:26-29 | Filling an empty category with 1024 distinct descriptors succeeds. The next Add of any valid descriptor there fails with FDsOverflow. |
| Select.Masked | reactor.cpp:119-120 | After a select call the buffer holds no descriptor that was not asked for and none that the call did not mark. |
| Select.FirstDecisive | reactor.cpp:122-126 | Locates the answer that decides the wait: every answer before it is an interruption, and it is not one (or there is none). |
| Select.Wait | reactor.cpp:117-137 | The deciding answer alone fixes the outcome: EAGAIN gives the allocation runtime error, EBADF the bad-descriptor logic error, success or any other errno a wake that leaves every later answer unread, and no deciding answer a wait that never ends. A wake hands back subsets of the requested sets. |
| Select.InterruptionIsTransparent | reactor.cpp:124-126 | An interrupted call that leaves the buffer intact changes nothing: the wait behaves as if it had not happened. |
| Select.OtherErrnoFallsThrough | reactor.cpp:122-135 | An errno other than EINTR, EAGAIN and EBADF is passed over: the wait wakes on it, whatever answers follow. |
| Select.WaitFailsOnlyOnFatalErrno | reactor.cpp:122-135 | The wait throws exactly when its deciding answer is EAGAIN or EBADF and wakes exactly when it is a success or another errno; answers after the deciding one cannot change whether it throws. |
| Select.SelectFunc | reactor.cpp:117-137 | The in-place recursive wait returns what the wait does on the buffer's initial contents. On a wake the buffer holds the ready sets. |
| EventLoop.ScanFrom | reactor.cpp:96-103 | The scan from a category picks the first later category with a ready registered descriptor, the lowest such descriptor in it, and its callback. It picks nothing exactly when no later category has one. |
| EventLoop.FirstReady | reactor.cpp:96-103 | The invoked callback is registered and ready, is the lowest ready descriptor of its category, and every earlier category has none ready. None is invoked exactly when nothing registered is ready. |
| EventLoop.FirstReadyIsDetermined | reactor.cpp:173-186 | Any dispatch meeting that description is the one the scan makes, so the scan's choice is unique. |
| EventLoop.ExceptWinsOverRead | reactor.cpp:96-103 | A descriptor ready in both EXCEPT and READ causes an EXCEPT invocation, of a descriptor no higher than it. |
| EventLoop.ApplyCalls | reactor.cpp:181 | A callback's Add and Remove calls keep every registered descriptor in range. |
| EventLoop.Iterate | reactor.cpp:60-103 | A pass returns EMPTY exactly when all tables are empty, never STOP_CALLED. It throws only the wait's errors. On a wake it invokes the scan's choice over sets within the registered descriptors. |
| EventLoop.RemovedIsNotDispatched | reactor.cpp:98-99 | A pair not registered is never invoked. |
| EventLoop.SelfRemovalTakesEffect | reactor.cpp:41-51 | A callback that removes its own pair is not invoked for it by the next pass. |
| EventLoop.RunLoop | reactor.cpp:53-108 | With no registrations Run returns EMPTY at once. Registrations stay in range. EMPTY is returned only with every table empty. Throws are only the wait's errors. Tables change only through invoked callbacks. |
| EventLoop.StopCalledOnlyAfterStop | reactor.cpp:60-107 | Run returns STOP_CALLED exactly when the callback it invoked last called Stop. |
| EventLoop.StopCalledAfterDispatch | reactor.cpp:96-107 | The same, for a pass that invokes a callback. |
| EventLoop.NoStopBeforeLast | reactor.cpp:60 | No callback invoked before the last one of a run called Stop. |
| EventLoop.OneReadyReaderStops | reactor.cpp:53-108 | One READ registration, reported ready, whose callback calls Stop: Run invokes it once and returns STOP_CALLED with the tables unchanged. |
| Reactor.FdSetInit | reactor.cpp:80-86 | Clearing a set and marking every entry of a table yields exactly the table's descriptors. |
| Reactor.Reactor.constructor | reactor.cpp:12-14 | A new reactor is not running and has three empty tables. |
| Reactor.Reactor.Add | reactor.cpp:16-38 | Updates the table in place exactly as TryAdd says, returning its error and leaving the tables unchanged on failure. |
| Reactor.Reactor.Remove | reactor.cpp:41-51 | Updates the table in place exactly as TryRemove says, returning its error and leaving the tables unchanged on failure. |
| Reactor.Reactor.Stop | reactor.cpp:110-115 | Requires a running reactor and clears the flag. |
| Reactor.Reactor.Finalize | reactor.cpp:147-150 | Clears the flag. |
| Reactor.Reactor.ScanCategory | reactor.cpp:98-99 | The ascending search of one table finds nothing exactly when nothing registered there is ready. Otherwise it finds the lowest ready descriptor with its callback. |
| Reactor.Reactor.Scan | reactor.cpp:96-103 | The category-by-category search invokes exactly the FirstReady choice. |
| Reactor.Reactor.Invoke | reactor.cpp:181 | A callback's calls update the tables as ApplyCalls says, and the flag is cleared exactly when it calls Stop. |
| Reactor.Reactor.Poll | reactor.cpp:62-103 | One pass up to the invocation: counts the empty tables, builds the sets, waits and scans, with the outcome Iterate gives, changing nothing. |
| Reactor.Reactor.Run | reactor.cpp:53-108 | Outcome, final tables and invoked callbacks are those of RunLoop from the initial tables, and the flag is clear on every way out. |

## Left out

- The open-descriptor probe and `select` are not modelled. They are parameters: a boolean per Add and a script of answers per Run. The `limit` passed to `select` as its descriptor count is therefore not modelled either.
- The bodies of callbacks are not modelled. A callback is reduced to the Add/Remove calls it makes on this reactor and whether it calls Stop.
- Exceptions from a callback are not modelled. This includes an Add or Remove it makes that fails: the model assumes the callback handles the failure, so the failed call leaves the tables unchanged.
- A callback calling Stop twice, or Run recursively, is not modelled, and neither is Stop called outside a callback.
- A callback may erase its own entry, and the model applies the erase and stops the scan at once, as the source's `break` does. What is not modelled is the invalidation of the scan's iterator at reactor.cpp:98-99, which is undefined in C++.
- `StillBlocked` is an artifact of a finite script. It stands for a `select` that never returns.
- The `ERROR` status and `ExceptionSelectBadAlloc` are declared but never used. Neither is modelled.
- `m_reactHappened`, `volatile` and non-copyability carry no behaviour and are not modelled. Neither are exception message strings, apart from the error kinds they identify.
- Use from more than one thread is not modelled.
- The comment at reactor.cpp:89-90 says that every failure of `select` other than an interruption throws. The code throws only for EAGAIN and EBADF, and any other errno continues as if woken. The model follows the code.
- Reactor.Reactor.Run: its `log` result is ghost. It records which callbacks were invoked, which the source does only through the callbacks' own effects.
