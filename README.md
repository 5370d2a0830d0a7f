# creek demultiplexers, modelled in Dafny

creek lets one forward-only byte source (a Java `InputStream`) be read independently by
several handles obtained from a demultiplexer's `get()`. This project models the core of its
`demuxers` package and proves what it promises.

- **Lifecycle tracking** (`AbstractDemux`, module `Lifecycle`). The tracker counts spawned, once-active and
  closed handles through per-proxy one-shot flags. It refuses `get()` once any handle has been
  read, fires `onFirstActive` on the first activation, and closes the source quietly and fires
  `onLastClosed` when the last spawned handle is closed. A ghost log records these steps together
  with each proxy handing a read or close on to the handle it wraps, and a ghost list records which
  strategy handle each proxy wraps.
- **The hooked variant** (`AbstractInputStreamDemux`, module `HookedLifecycle`). Its hooks receive the handle
  (first/any activated, first/last/any closed) and are called in a fixed order. Its `finally`
  closes the source after the last close even when a hook throws. Which hooks throw is a parameter
  (`failing`), and everything the demultiplexer does is recorded in a ghost event log.
- **The follow-the-leader strategy** (`FollowTheLeaderStreamDemux`, module `FollowTheLeader`). It keeps a
  sliding window `buffer[0..writePosition)` of values pulled from the source and a read position
  per handle id. A reader at the write frontier triggers a compaction into a new
  `max(2 * delta, 4096)`-slot array followed by exactly one pull from the source. The model keeps
  the `int[]` buffer as an `array<int>` and the position list as a `seq<int>` field. A ghost
  offset `base` (the stream offset of `buffer[0]`) and a ghost log `delivered` of what each handle
  has been handed let the window invariant say that, with the corrected read (see Findings), every
  handle receives the source itself, in order, up to and including its first end-of-stream marker (-1).
  In Java the strategy extends `AbstractDemux`. In the model the class holds a
  `Lifecycle.AbstractDemux` as a part, and `Get`, `HandleRead` and `HandleClose` compose the two.
- **The source** (module `Streams`). `ByteSource` has a fixed content and a count of `read()` calls,
  so the k-th read returns `ValueAt(bytes, k)`.
- **Client runs** (module `Scenarios`). These stand in for the tests: interleaved reads on any input, the five-handle
  close sequence of `TempFileDemuxTest`, and the counterexample for the finding below.

`getNewHandle` (FollowTheLeaderStreamDemux.java:37-40) appends read position 0. That is also the
trailing position, because `get()` reaches `getNewHandle` only before anything has been pulled from
the source.

## Model

| member | source | states |
|---|---|---|
| Streams.ByteSource.Read | src/main/java/com/github/rutledgepaulv/creek/demuxers/FollowTheLeaderStreamDemux.java:99 | the source's next value is the value at its pull count, or -1 for ever once exhausted; each call pulls exactly once |
| Streams.ObservedIsSourceThenEof | src/main/java/com/github/rutledgepaulv/creek/demuxers/FollowTheLeaderStreamDemux.java:7-14 | what n reads return is the source's prefix, or all of it followed by end-of-stream markers; -1 appears exactly at offsets past the end |
| Tally.CountTrueExtremes | src/main/java/com/github/rutledgepaulv/creek/demuxers/AbstractDemux.java:37-39 | a flag count equals the number of flags iff every flag is set, and is zero iff none is |
| Tally.CountTrueSet | src/main/java/com/github/rutledgepaulv/creek/demuxers/AbstractDemux.java:97-107 | setting a clear one-shot flag raises its count by exactly one |
| Lifecycle.AbstractDemux.constructor | src/main/java/com/github/rutledgepaulv/creek/demuxers/AbstractDemux.java:17-19 | all counters start at zero, with no proxy and no hook call |
| Lifecycle.AbstractDemux.CountersBounded | src/main/java/com/github/rutledgepaulv/creek/demuxers/AbstractDemux.java:97-107 | the once-active and closed counts never exceed the spawned count |
| Lifecycle.AbstractDemux.HaveAllSpawnedReadersBeenClosed | src/main/java/com/github/rutledgepaulv/creek/demuxers/AbstractDemux.java:37-39 | true iff every proxy handed out so far has reported its close |
| Lifecycle.AbstractDemux.Get | src/main/java/com/github/rutledgepaulv/creek/demuxers/AbstractDemux.java:58-68 | throws IllegalState iff a handle has been read, changing nothing; otherwise exactly one more proxy, with both flags clear, wrapping the handle `getNewHandle` returned, and no other counter changes |
| Lifecycle.AbstractDemux.DelegateRead | src/main/java/com/github/rutledgepaulv/creek/demuxers/AbstractDemux.java:85-89 | the proxy's `super.read()` is logged after `onRead` and changes no counter or flag |
| Lifecycle.AbstractDemux.DelegateClose | src/main/java/com/github/rutledgepaulv/creek/demuxers/AbstractDemux.java:91-95 | the proxy's `super.close()` is logged before `onClose` and changes no counter or flag |
| Lifecycle.AbstractDemux.MarkFollowerBecameActive | src/main/java/com/github/rutledgepaulv/creek/demuxers/AbstractDemux.java:41-46 | the once-active count rises by one, and onFirstActive fires exactly when it becomes 1 |
| Lifecycle.AbstractDemux.MarkFollowerWasClosed | src/main/java/com/github/rutledgepaulv/creek/demuxers/AbstractDemux.java:48-53 | the closed count rises by one; iff it reaches the spawned count the source is closed and then onLastClosed fires |
| Lifecycle.AbstractDemux.OnRead | src/main/java/com/github/rutledgepaulv/creek/demuxers/AbstractDemux.java:97-101 | only a proxy's first read counts an activation; later reads change nothing; afterwards `get()` is refused |
| Lifecycle.AbstractDemux.OnClose | src/main/java/com/github/rutledgepaulv/creek/demuxers/AbstractDemux.java:103-107 | only a proxy's first close counts; a second close changes nothing and is never the last; closing leaves the once-active count, and so spawning, alone |
| HookedLifecycle.ClosingHookOrder | src/main/java/com/github/rutledgepaulv/creek/demuxers/AbstractInputStreamDemux.java:50-59 | with hooks that return normally, a close calls onFirstHandleClosed (first close), onLastHandleClosed (last close), onAnyHandleClosed, in that order, and then closes the source on the last close |
| HookedLifecycle.LastCloseClosesSource | src/main/java/com/github/rutledgepaulv/creek/demuxers/AbstractInputStreamDemux.java:60-64 | whatever the hooks throw, the source is closed iff the close is the last one, and as its final step |
| HookedLifecycle.ClosingEventsCounts | src/main/java/com/github/rutledgepaulv/creek/demuxers/AbstractInputStreamDemux.java:50-64 | a close calls onFirstHandleClosed once iff it is the first, onLastHandleClosed once iff it is the last and onFirstHandleClosed did not throw before it, closes the source once iff last, and calls no activation hook |
| HookedLifecycle.ActivationEventsCounts | src/main/java/com/github/rutledgepaulv/creek/demuxers/AbstractInputStreamDemux.java:42-48 | an activation calls onFirstHandleActivated once iff it is the first, and no close hook nor source close |
| HookedLifecycle.ClosingKeepsLog | src/main/java/com/github/rutledgepaulv/creek/demuxers/AbstractInputStreamDemux.java:50-64 | a close keeps the hook log in agreement with the counters: first-close hook once after the first close, one source close per last close |
| HookedLifecycle.ActivationKeepsLog | src/main/java/com/github/rutledgepaulv/creek/demuxers/AbstractInputStreamDemux.java:42-48 | an activation keeps the hook log in agreement with the counters: first-activation hook once once a handle is active |
| HookedLifecycle.HandleEventKeepsLog | src/main/java/com/github/rutledgepaulv/creek/demuxers/AbstractInputStreamDemux.java:81-112 | spawning, delegated reads and delegated closes call no hook and do not close the source |
| HookedLifecycle.AbstractInputStreamDemux.constructor | src/main/java/com/github/rutledgepaulv/creek/demuxers/AbstractInputStreamDemux.java:18-20 | all counters start at zero, with an empty log |
| HookedLifecycle.AbstractInputStreamDemux.HaveAllSpawnedReadersBeenClosed | src/main/java/com/github/rutledgepaulv/creek/demuxers/AbstractInputStreamDemux.java:38-40 | true iff every proxy handed out so far has reported its close |
| HookedLifecycle.AbstractInputStreamDemux.CheckAllowedToSpawn | src/main/java/com/github/rutledgepaulv/creek/demuxers/AbstractInputStreamDemux.java:68-73 | passes iff no handle has been read, and otherwise fails with UnsupportedOperation |
| HookedLifecycle.AbstractInputStreamDemux.Get | src/main/java/com/github/rutledgepaulv/creek/demuxers/AbstractInputStreamDemux.java:76-83 | throws UnsupportedOperation iff a handle has been read, changing nothing; otherwise one getNewHandle call and exactly one more proxy with clear flags |
| HookedLifecycle.AbstractInputStreamDemux.MarkFollowerBecameActive | src/main/java/com/github/rutledgepaulv/creek/demuxers/AbstractInputStreamDemux.java:42-48 | the once-active count rises by one; the first activation calls onFirstHandleActivated and then onAnyHandleActivated, later ones only the latter; a throwing hook stops the sequence and is reported |
| HookedLifecycle.AbstractInputStreamDemux.MarkFollowerWasClosed | src/main/java/com/github/rutledgepaulv/creek/demuxers/AbstractInputStreamDemux.java:50-65 | the closed count rises by one; the hooks run in order until one throws; the source is closed iff every spawned handle is now closed, even after a throw |
| HookedLifecycle.AbstractInputStreamDemux.ProxyRead | src/main/java/com/github/rutledgepaulv/creek/demuxers/AbstractInputStreamDemux.java:102-118 | the activation is reported before the read is delegated, on the proxy's first read only; a throwing hook prevents the delegated read |
| HookedLifecycle.AbstractInputStreamDemux.ProxyClose | src/main/java/com/github/rutledgepaulv/creek/demuxers/AbstractInputStreamDemux.java:108-124 | close is delegated first; only the proxy's first close is counted and runs the closing hooks; a second close changes no counter |
| FollowTheLeader.LeadingReadPosition | src/main/java/com/github/rutledgepaulv/creek/demuxers/FollowTheLeaderStreamDemux.java:57-59 | the maximum: one of the positions, and no position is larger |
| FollowTheLeader.TrailingReadPosition | src/main/java/com/github/rutledgepaulv/creek/demuxers/FollowTheLeaderStreamDemux.java:61-63 | the minimum: one of the positions, and no position is smaller |
| FollowTheLeader.NewBufferLength | src/main/java/com/github/rutledgepaulv/creek/demuxers/FollowTheLeaderStreamDemux.java:68-71 | the new size is 4096 or twice the spread, at least both, and always leaves room for the window plus the value pulled next |
| FollowTheLeader.ArrayCopy | src/main/java/com/github/rutledgepaulv/creek/demuxers/FollowTheLeaderStreamDemux.java:76 | System.arraycopy: the target range holds the source range and every other slot is unchanged |
| FollowTheLeader.CopiedWindow | src/main/java/com/github/rutledgepaulv/creek/demuxers/FollowTheLeaderStreamDemux.java:73-76 | a new array of the requested size holding the copied range at its start and zeros after it |
| FollowTheLeader.ShiftPositions | src/main/java/com/github/rutledgepaulv/creek/demuxers/FollowTheLeaderStreamDemux.java:79-81 | every position drops by the same offset, so their differences are unchanged |
| FollowTheLeader.CompactionKeepsWindow | src/main/java/com/github/rutledgepaulv/creek/demuxers/FollowTheLeaderStreamDemux.java:65-87 | compacting by at most the trailing position keeps every value some handle still needs and every handle's offset in the stream |
| FollowTheLeader.PullKeepsWindow | src/main/java/com/github/rutledgepaulv/creek/demuxers/FollowTheLeaderStreamDemux.java:95-100 | pulling at the write frontier stores the stream's next value, and happens only before the source's first EOF has been handed out |
| FollowTheLeader.DeliverKeepsWindow | src/main/java/com/github/rutledgepaulv/creek/demuxers/FollowTheLeaderStreamDemux.java:102-108 | the buffered value at a handle's position is the stream's value at its offset; taking it extends the handle's output by exactly that value |
| FollowTheLeader.FollowTheLeaderStreamDemux.constructor | src/main/java/com/github/rutledgepaulv/creek/demuxers/FollowTheLeaderStreamDemux.java:27-34 | a 4096-slot buffer, no positions, write position 0, and a fresh tracker |
| FollowTheLeader.FollowTheLeaderStreamDemux.GetNewHandle | src/main/java/com/github/rutledgepaulv/creek/demuxers/FollowTheLeaderStreamDemux.java:37-46 | appends position 0, at stream offset 0; the new id is its index, so ids are dense and in spawn order |
| FollowTheLeader.FollowTheLeaderStreamDemux.PrepareBufferForMoreReadingFromSource | src/main/java/com/github/rutledgepaulv/creek/demuxers/FollowTheLeaderStreamDemux.java:65-88 | the new buffer is the window [trailing, leading) copied to the start of NewBufferLength(delta) zeroed slots; every position and the write position drop by trailing; the window invariant holds |
| FollowTheLeader.FollowTheLeaderStreamDemux.FetchFromSource | src/main/java/com/github/rutledgepaulv/creek/demuxers/FollowTheLeaderStreamDemux.java:95-100 | one compaction and exactly one pull, stored at the rebased write position; no handle's stream offset moves |
| FollowTheLeader.FollowTheLeaderStreamDemux.DeliverFrom | src/main/java/com/github/rutledgepaulv/creek/demuxers/FollowTheLeaderStreamDemux.java:102-108 | returns buffer[position] and moves the handle to position + 1 unless that value is -1; at the handle's own position inside the window that is the stream's value at its offset |
| FollowTheLeader.FollowTheLeaderStreamDemux.Read | src/main/java/com/github/rutledgepaulv/creek/demuxers/FollowTheLeaderStreamDemux.java:90-109 | with the position read again after a refill: the value at the handle's stream offset; the source is pulled iff the handle stood at the frontier, and then once; the handle advances by one unless -1, so EOF repeats without pulling again; no other handle moves; an unknown id fails, changing nothing |
| FollowTheLeader.FollowTheLeaderStreamDemux.ReadAsWritten | src/main/java/com/github/rutledgepaulv/creek/demuxers/FollowTheLeaderStreamDemux.java:90-109 | as written: agrees with Read unless the refill dropped values; then it returns 0 from an unused slot, leaving the position past the write position, or fails with an array index out of bounds |
| FollowTheLeader.FollowTheLeaderStreamDemux.OnLastClosed | src/main/java/com/github/rutledgepaulv/creek/demuxers/FollowTheLeaderStreamDemux.java:112-116 | the buffer becomes empty and every read position is forgotten |
| FollowTheLeader.FollowTheLeaderStreamDemux.Get | src/main/java/com/github/rutledgepaulv/creek/demuxers/AbstractDemux.java:58-66 | refused iff a handle has been read, changing nothing; otherwise `getNewHandle` adds one position at stream offset 0 and then the tracker counts one more proxy with clear flags wrapping that id; the buffer, the window and the other counters and the log stay as they were |
| FollowTheLeader.FollowTheLeaderStreamDemux.HandleRead | src/main/java/com/github/rutledgepaulv/creek/demuxers/AbstractDemux.java:85-89 | the log shows `onFirstActive` (on the first activation) before the delegated read, and spawning is refused from then on; with the corrected read (see Findings) the handle gets the value at its stream offset and advances unless -1; the source is pulled iff the handle stood at the frontier; no other handle moves; an id with no position fails, changing no strategy state; the close counters and flags stay |
| FollowTheLeader.FollowTheLeaderStreamDemux.HandleClose | src/main/java/com/github/rutledgepaulv/creek/demuxers/AbstractDemux.java:91-95 | the close is handed on before it is reported; only a first close raises the closed count, by one, and a second leaves it as it was; the last one logs the quiet source close and then `onLastClosed`, which drops the buffer and positions; any other close leaves the strategy unchanged |
| Scenarios.ReadInterleaved | src/main/java/com/github/rutledgepaulv/creek/demuxers/FollowTheLeaderStreamDemux.java:7-14 | with the corrected read (see Findings), for every source and every interleaving, each handle is handed the source in order, up to and including its first -1, and is read exactly as often as the schedule names it |
| Scenarios.StalePositionCounterexample | src/main/java/com/github/rutledgepaulv/creek/demuxers/FollowTheLeaderStreamDemux.java:92-105 | one handle over "Testing": read as written returns 'T' and then 0 |
| Scenarios.CorrectedSecondRead | src/main/java/com/github/rutledgepaulv/creek/demuxers/FollowTheLeaderStreamDemux.java:90-109 | with the position read again, the same run returns 'T' and then 'e' |
| Scenarios.ReadAndCloseInTurn | src/test/java/com/github/rutledgepaulv/creek/demuxers/TempFileDemuxTest.java:27-60 | with n handles read and closed one after another, the tracker's own quiet close of the source and the onLastHandleClosed hook both happen at the n-th close and not after any earlier one |
| Scenarios.LastHookLogged | src/main/java/com/github/rutledgepaulv/creek/demuxers/AbstractInputStreamDemux.java:50-64 | a delegated close and its report, with hooks that return normally, add one onLastHandleClosed call exactly when the close is the last |

## Left out

- Concurrency: `synchronized`, `volatile` and the `AtomicBoolean` compare-and-set become sequential fields and flags; interleavings of threads are not modelled.
- `finalize()` of both trackers: cleanup driven by the garbage collector, with no deterministic point in a run.
- `TempFileDemux` and `TempFileStreamDemux` are not part of this model: temporary-file creation, copying and deletion are file-system I/O. `ReadAndCloseInTurn` keeps only the lifecycle their test exercises, with hooks that do nothing. The temp-file demultiplexer's own hooks (closing the source after the copy, deleting the file in `onLastHandleClosed`) are not modelled; the scenario observes the call of `onLastHandleClosed` in the log instead.
- The multi-byte read overloads `read(byte[])` and `read(byte[], int, int)` are not modelled. They report activation like `read()`, and `ProxyRead` stands for all three. The copying they do is the JDK's default `InputStream` behaviour.
- I/O failures: the source never throws `IOException`. `IOUtils.closeQuietly` becomes a count of source closes, and the failure it swallows is not modelled. In `buffer[writePosition++] = getSource().read()` (FollowTheLeaderStreamDemux.java:99) a throwing pull would leave `writePosition` advanced past an unwritten slot; with a total source that state is not reached.
- `DelegatingInputStream` is not part of this model. The delegated read and close of both trackers are log events. The handle returned by the follow-the-leader `getNewHandle` is a plain `InputStream`, so closing it does nothing.
- The hooks of `AbstractDemux` (`onFirstActive`, `onLastClosed`) are logged; they are not modelled as throwing. Throwing hooks are modelled for `AbstractInputStreamDemux`, where a `finally` makes the difference.
- FollowTheLeader.NewBufferLength: 32-bit `int` overflow of `delta * 2` (a spread of 2^30 values or more) is not modelled; positions and the write position are unbounded integers.
- FollowTheLeader.FollowTheLeaderStreamDemux.GetNewHandle: requires that nothing has been pulled from the source yet. That is the only state in which `get()` reaches it.
- FollowTheLeader.FollowTheLeaderStreamDemux.ReadAsWritten: after a refill that dropped values it promises only the pull, the new base, write position and buffer length, the value returned (0 or an array index failure) and, on 0, the position moved past the write position; the rest of the state is not given, because the window invariant no longer holds there.
- FollowTheLeader.FollowTheLeaderStreamDemux.HandleClose: a handle closed at teardown can still be read, and its id may then name a handle spawned after the teardown. The window invariant is stated per strategy id, so the model keeps both the proxy index and the id in `Handle`; `HandleRead` and `HandleClose` require that the proxy wraps that id.

## Findings

| source | as written | input that shows it | evidently intended | confidence | as-written member | corrected member |
|---|---|---|---|---|---|---|
| src/main/java/com/github/rutledgepaulv/creek/demuxers/FollowTheLeaderStreamDemux.java:92-105 | `read(int)` reads the handle's position into a local before the refill. It then indexes the rebased buffer with that stale value and sets the position from it. Whenever the compaction drops values (trailing > 0), the read returns an unused zero slot or throws `ArrayIndexOutOfBoundsException` | one handle over "Testing": the first read returns 84 ('T') and the second returns 0 instead of 101 ('e'); the position then runs past the write position | read the position again after `prepareBufferForMoreReadingFromSource`, so the read returns the value just pulled | not executed | FollowTheLeader.FollowTheLeaderStreamDemux.ReadAsWritten, Scenarios.StalePositionCounterexample | FollowTheLeader.FollowTheLeaderStreamDemux.Read, Scenarios.CorrectedSecondRead |
