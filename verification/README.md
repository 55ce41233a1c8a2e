# Reactor timer scheduler and scatter-read buffer, in Dafny

This project models two parts of a reactor-based network server's I/O core.

- **The per-reactor timer manager** (`TimerManager` in `WebServer/Timer.cpp`). It keeps the live timers in two indices:
  - `timers_`, ordered by (expiration, identity);
  - `activeTimers_`, keyed by (identity, sequence).

  It fires due timers when the kernel timer descriptor becomes readable. Repeating timers are rescheduled unless a callback of the same pass cancelled them.
- **The index arithmetic of `Buffer::readFd`** (`WebServer/Buffer.cpp`). This is a single scatter read into the buffer's writable tail plus a 64 KiB stack area, with any overflow appended.

The timer manager is a functional state machine. `Timers.TimerManager` is an immutable record holding:
- the two indices;
- the set of handles cancelled during the current firing pass (`cancelingTimers_`);
- the firing flag (`callingExpiredTimers_`);
- the deadline last programmed into the timer descriptor.

Every in-loop operation (`insert`, `addTimerInLoop`, `cancelInLoop`, `getExpired`, `reset`, `handleRead`) is a pure transition, and `Timers.Inv` is the index invariant:
- `timers_` is strictly ascending by (expiration, identity);
- identities are distinct and below the `UINTPTR_MAX` sentinel;
- `activeTimers_` holds exactly the handles of the timers in `timers_`.

The equal-size check the source asserts around every mutation is a consequence of this invariant (`Timers.IndexSizesAgree`).

Modelling choices:
- Timer addresses are natural numbers below `TimerList.MaxId` (`UINTPTR_MAX`).
- Timestamps are integer microseconds, and the clock is a parameter.
- Callbacks are represented only by the cancel requests they issue during a firing pass.
- The kernel descriptor is represented by the absolute deadline it was last armed with.
- `readv` is an input: either a failure with its `errno`, or the bytes it delivered. Those bytes are bounded by the iovec lengths offered.

Files:
- `time_spec.dfy`: `howMuchTimeFromNow`.
- `timer_list.dfy`: timers, keys and the ordered-set operations on `timers_`.
- `timers.dfy`: the manager.
- `buffer.dfy`: `readFd`.

## Model

| member | source | states |
|---|---|---|
| TimeSpecs.HowMuchTimeFromNow | WebServer/Timer.cpp:26-38 | the result is a normalized timespec (nanoseconds a whole number of microseconds below one second) whose value in microseconds is exactly max(when − now, 100) |
| TimeSpecs.DelayIsExactOrClamped | WebServer/Timer.cpp:28-30 | the descriptor fires exactly at `when` if it is at least 100 µs away, and after 100 µs otherwise |
| TimeSpecs.DelayMonotonic | WebServer/Timer.cpp:28-30 | a later deadline is never armed with a shorter delay |
| TimeSpecs.NormalizedIsUnique | WebServer/Timer.cpp:32-37 | the seconds/nanoseconds split is the only normalized timespec that denotes the clamped delay |
| TimerList.InsertSorted | WebServer/Timer.cpp:200-202 | inserting a key not yet present keeps `timers_` strictly ordered, adds exactly that timer and nothing else, and grows it by one |
| TimerList.LowerBound | WebServer/Timer.cpp:216-219 | `lower_bound`: every entry before the position is below the key, and no entry from it on is |
| TimerList.EraseKey | WebServer/Timer.cpp:148-149 | erase by key removes exactly the entries with that key, reports 1 iff one was present, and keeps the order |
| TimerList.TimerOf | WebServer/Timer.cpp:145-148 | a live handle leads to the indexed timer with that identity and sequence |
| TimerList.HandlesCardinality | WebServer/Timer.cpp:208 | with distinct identities, the handle set is exactly as large as the ordered index |
| TimerList.DuePrefix | WebServer/Timer.cpp:218-223 | in a sorted index, the timers due at `now` are a prefix, and that prefix equals the reference filter `Due` |
| Timers.NewTimerManager | WebServer/Timer.cpp:72-83 | a new manager has empty indices, is not firing, and satisfies the invariant |
| Timers.IndexSizesAgree | WebServer/Timer.cpp:157 | under the invariant, the two indices have equal sizes |
| Timers.Insert | WebServer/Timer.cpp:187-210 | `insert` keeps the invariant and adds the timer to both indices, and each grows by exactly one. It reports a change iff the new expiration is strictly below every live timer's (an equal timestamp does not count). On a change the timer is first, and otherwise the earliest timestamp is unchanged |
| Timers.EarliestChangedMeansEarliest | WebServer/Timer.cpp:192-198 | comparing against the first entry alone decides whether the new timer precedes all timers |
| Timers.AddTimerInLoop | WebServer/Timer.cpp:123-131 | the live timers become exactly the previous ones plus the new timer, in both indices. The descriptor is re-armed at the new timer's expiration iff that timer is due strictly before all others, and is otherwise untouched |
| Timers.AddTimerKeepsNoLateWakeup | WebServer/Timer.cpp:126-130 | if the descriptor was armed no later than the earliest deadline, it still is after an addition |
| Timers.CancelInLoop | WebServer/Timer.cpp:139-158 | a live handle is removed from both indices, erasing exactly one `timers_` entry. A handle that is not live is only recorded in `cancelingTimers_` while firing, and changes nothing otherwise. Every other timer stays, and the index sizes stay equal |
| Timers.CancelTwiceIsCancelOnce | WebServer/Timer.cpp:147-157 | outside a firing pass, cancelling the same handle twice is the same as cancelling it once |
| Timers.CancelUnknownIsNoOp | WebServer/Timer.cpp:154-157 | outside a firing pass, cancelling an unknown or completed handle leaves the manager unchanged |
| Timers.StaleHandleCancelsNothing | WebServer/Timer.cpp:143-147 | a handle whose identity now belongs to a timer with another sequence number does not cancel that timer |
| Timers.CancelKeepsNoLateWakeup | WebServer/Timer.cpp:147-152 | cancelling never makes the armed deadline later than the earliest live timer |
| Timers.GetExpired | WebServer/Timer.cpp:212-233 | `getExpired` returns exactly the timers due at or before `now`, in (expiration, identity) order (equal to the reference filter `Due`). It removes their handles from `activeTimers_` (each was present), and every remaining timer is due strictly after `now` |
| Timers.SweepPartition | WebServer/Timer.cpp:216-219 | the sentinel `Timers.Sentinel` is (`now`, `UINTPTR_MAX`); with all identities below it, `lower_bound` of the sentinel splits the index exactly at `now` |
| Timers.SweepKeepsInv | WebServer/Timer.cpp:223-231 | erasing the due prefix from `timers_` and its handles from `activeTimers_` keeps the invariant |
| Timers.ReschedulingFate | WebServer/Timer.cpp:163-174 | an expired timer comes back iff it repeats and was not cancelled while firing, and then it comes back at `now` plus its interval. Everything that comes back is due after `now` |
| Timers.ReschedulingOrigin | WebServer/Timer.cpp:163-174 | everything the reschedule loop puts back is the restart of an expired timer that repeats and was not cancelled while firing |
| Timers.Reinsert | WebServer/Timer.cpp:163-174 | after the reschedule loop the live timers are exactly the previous ones plus the rescheduled ones, and the invariant holds |
| Timers.Reset | WebServer/Timer.cpp:160-185 | the descriptor is re-armed at the earliest expiration iff `timers_` is non-empty (and the timestamp is valid), and is otherwise left as it was |
| Timers.CancelAll | WebServer/Timer.cpp:104-108 | after the callbacks' cancel requests, exactly the uncancelled timers are live. Every cancelled handle that was not live is recorded when firing, and nothing else is recorded |
| Timers.HandleRead | WebServer/Timer.cpp:95-111 | a firing pass keeps the invariant and lowers the firing flag. A due timer is live afterwards iff it repeats and no callback of the pass cancelled it, and then it is restarted at `now` plus its interval. A timer not yet due stays iff not cancelled, and no timer due at `now` remains. Nothing else appears: every live timer afterwards was live before or is the restart of a due one. The descriptor is armed at the earliest remaining deadline (for a valid `now`), or untouched when none remains |
| Timers.FiringPassFate | WebServer/Timer.cpp:101-110 | a due timer is in the cancellation record after the callbacks iff a callback cancelled it, because the sweep already took it off `activeTimers_`. Reset therefore brings it back iff it repeats and was not cancelled. A timer not yet due survives iff not cancelled, and no other timer appears |
| Timers.FiringPassAddsNothing | WebServer/Timer.cpp:95-111 | every timer live after a firing pass was live before it, or is the restart of a timer that was due |
| Timers.CancelledWhileFiringNotRescheduled | WebServer/Timer.cpp:165-173 | a due timer cancelled by a callback of the same pass (its own callback included) is in neither index afterwards, even if it repeats |
| Timers.OneShotFiresOnce | WebServer/Timer.cpp:166-172 | a due one-shot timer is in neither index after the pass |
| Timers.HandleReadKeepsNoLateWakeup | WebServer/Timer.cpp:176-184 | after a firing pass at a valid time, the descriptor is armed no later than the earliest live deadline |
| Timers.ExpiredFitReinsert | WebServer/Timer.cpp:101-110 | the swept timers are ordered, have distinct identities and share none with the timers left after the callbacks, so they can be reinserted |
| Buffers.NewBuffer | WebServer/Buffer.cpp:9-10 | a new buffer has an 8-byte prepend reserve, 1024 writable bytes and no readable bytes |
| Buffers.ReadCapacity | WebServer/Buffer.cpp:14-23 | the segment count `Buffers.IovecCount` is 2 iff the tail is smaller than the stack area; one read can always take at least 64 KiB. It takes more than the tail iff the tail is smaller than the stack area, which is when two segments are used |
| Buffers.WriteToTail | WebServer/Buffer.cpp:28-29 | the bytes read into the tail become readable, the write index advances by their count, and the read index and capacity stay |
| Buffers.ReadFd | WebServer/Buffer.cpp:12-36 | on failure `errno` is saved and the buffer is unchanged. Otherwise `readv`'s count is returned and the readable bytes become the old ones followed by the data read. When the data fit the tail, the write index advances by exactly the count and stays within the capacity |
| Buffers.OverflowFillsTailThenAppends | WebServer/Buffer.cpp:30-32 | when more arrived than the tail holds, the write index is set to the capacity and exactly the bytes beyond the tail are appended |
| Buffers.OverflowBounded | WebServer/Buffer.cpp:14-32 | the overflow handed to `append` is n − writable bytes, never more than 65536, and occurs only when two segments were used |
| Buffers.LargeTailNeverAppends | WebServer/Buffer.cpp:21-29 | with a tail of at least 64 KiB only one segment is used, and the read index and capacity never change |
| Buffers.ReadFdBurst | WebServer/Buffer.cpp:14-24 | with a 1024-byte tail, one call reads at most 66 560 bytes and all of them become readable |

## Left out

- Descriptor creation, `read` on the timerfd, `timerfd_settime`, `readv`, `errno` and `close` are system calls. The fatal path on creation failure and the logged `settime` failure are I/O. The descriptor is only the armed deadline, and `readv` is an input.
- `resetTimerfd` converts the deadline to a relative timespec at the moment of the call. The armed deadline is recorded as the absolute expiration, and the conversion is modelled separately (`TimeSpecs.HowMuchTimeFromNow`).
- Cross-thread marshaling (`addTimer`, `cancel`, `runInLoop`, `assertInLoopThread`) and channel registration are concurrency. Only the in-loop operations are modelled.
- The destructor's cleanup (WebServer/Timer.cpp:85-93) and `new`/`delete`: ownership is membership in the indices.
- Callback bodies: a firing pass takes only the cancel requests its callbacks issue. Callbacks that add timers or fail mid-pass are not modelled.
- Timer.h is not part of this model. The `double` interval is an integer number of microseconds, `repeat()` is `interval > 0`, and `restart(now)` sets the expiration to `now + interval`.
- Timestamp.h is not part of this model. `valid()` is taken to mean a positive timestamp, which is the convention of the library this code follows.
- Buffer.h is not part of this model. `Buffers.Append` is given this growth policy: move the readable bytes back to the reserve if that makes room, grow the storage otherwise. `readFd`'s properties use only its contract: readable bytes extended by the data, `read_index ≤ write_index ≤ capacity` kept. `retrieve`, `prepend` and the size queries other than those used here are not modelled.
- Buffers.ReadFd: the read index is stated unchanged only on the failure and in-tail paths. On the overflow path, `append` may move the readable bytes back to the reserve offset, which changes the read index. `readFd`'s own code never assigns it.
- TimeSpecs.HowMuchTimeFromNow: requires the subtraction `when − now` to fit in 64 bits, as signed overflow is undefined in the source.
- `LogFile.cpp` (a flush-every-N file wrapper) and logging calls.
- The debug asserts at WebServer/Timer.cpp:142 and 214 misspell the member names. Their intent, equal index sizes, is `Timers.IndexSizesAgree`.

## Notes on the code

- One `readFd` call takes at most the writable tail plus the 65,536-byte stack area, because that is all `readv` is offered. With a 1,024-byte tail this is 66,560 bytes (`Buffers.ReadFdBurst`). Anything more stays in the socket for the next readiness event.
- After a firing pass, `reset` re-arms the descriptor only when timers remain and `nextExpired.valid()` holds. With an invalid earliest timestamp the descriptor keeps its previous deadline, so `Timers.HandleReadKeepsNoLateWakeup` assumes a valid `now`.
