/**
 * Whole-system runs: clients that spawn handles, read them and close them, with what the
 * demultiplexers promise them stated for every input.
 */
module Scenarios {
  import opened Streams
  import FollowTheLeader
  import HookedLifecycle

  /** How many entries of `schedule` name handle `x`. */
  function Occurrences(schedule: seq<nat>, x: nat): nat
  {
    if schedule == [] then 0
    else Occurrences(schedule[..|schedule| - 1], x) + (if schedule[|schedule| - 1] == x then 1 else 0)
  }

  /** A follow-the-leader demultiplexer over `bytes` with `handles` handles spawned and nothing read. */
  method SpawnHandles(bytes: seq<int>, handles: nat)
    returns (demux: FollowTheLeader.FollowTheLeaderStreamDemux, hs: seq<FollowTheLeader.Handle>)
    requires AllBytes(bytes)
    ensures fresh(demux) && fresh(demux.source) && fresh(demux.lifecycle)
    ensures demux.Valid() && demux.source.bytes == bytes
    ensures demux.lifecycle.spawnedReaders == handles == |hs| == |demux.readPositions| == |demux.delivered|
    ensures forall j :: 0 <= j < handles ==> hs[j] == FollowTheLeader.Handle(j, j)
    ensures forall j :: 0 <= j < handles ==> demux.lifecycle.delegates[j] == j
    ensures forall j :: 0 <= j < handles ==> demux.delivered[j] == []
  {
    var source := new ByteSource(bytes);
    demux := new FollowTheLeader.FollowTheLeaderStreamDemux(source);
    hs := [];
    while |hs| < handles
      invariant demux.Valid() && demux.source == source && source.bytes == bytes
      invariant demux.lifecycle.onceActiveReaders == 0 && |hs| <= handles
      invariant demux.lifecycle.spawnedReaders == |hs| == |demux.readPositions| == |demux.delivered|
      invariant forall j :: 0 <= j < |hs| ==> hs[j] == FollowTheLeader.Handle(j, j)
      invariant forall j :: 0 <= j < |hs| ==> demux.lifecycle.delegates[j] == j
      invariant forall j :: 0 <= j < |hs| ==> demux.delivered[j] == []
    {
      var h := demux.Get();
      hs := hs + [h.value];
    }
  }

  /**
   * Spawn `handles` handles on a follow-the-leader demultiplexer over `bytes`, then read them in
   * the order `schedule` names them (entries that name no handle are skipped). Whatever the
   * interleaving, every handle is handed the stream itself, in order, up to and including its
   * first EOF, and then only EOF, and has been read exactly as often as the schedule names it.
   */
  method ReadInterleaved(bytes: seq<int>, handles: nat, schedule: seq<nat>) returns (outputs: seq<seq<int>>)
    requires AllBytes(bytes)
    ensures |outputs| == handles
    ensures forall i :: 0 <= i < handles ==> |outputs[i]| == Occurrences(schedule, i)
    ensures forall i :: 0 <= i < handles ==> outputs[i] == Observed(bytes, |outputs[i]|)
  {
    var demux, hs := SpawnHandles(bytes, handles);
    outputs := seq(handles, _ => []);
    var k := 0;
    while k < |schedule|
      invariant 0 <= k <= |schedule|
      invariant demux.Valid() && demux.source.bytes == bytes
      invariant demux.lifecycle.spawnedReaders == handles == |demux.readPositions|
      invariant forall j :: 0 <= j < handles ==> hs[j] == FollowTheLeader.Handle(j, j)
      invariant forall j :: 0 <= j < handles ==> demux.lifecycle.delegates[j] == j
      invariant outputs == demux.delivered
      invariant forall j :: 0 <= j < handles ==> |outputs[j]| == Occurrences(schedule[..k], j)
    {
      assert schedule[..k + 1][..k] == schedule[..k];
      if schedule[k] < handles {
        var r := demux.HandleRead(hs[schedule[k]]);
        outputs := outputs[schedule[k] := outputs[schedule[k]] + [r.value]];
      }
      k := k + 1;
    }
    assert schedule[..k] == schedule;
  }

  /**
   * read(int) as written, one handle over "Testing": the first read refills without dropping
   * anything and returns 'T'; the second refill drops the consumed 'T', and the stale position
   * then reads an unused zero slot instead of 'e'.
   */
  method StalePositionCounterexample() returns (first: Result<int>, second: Result<int>)
    ensures first == Ok(84) && second == Ok(0)
  {
    var source := new ByteSource([84, 101, 115, 116, 105, 110, 103]);
    var demux := new FollowTheLeader.FollowTheLeaderStreamDemux(source);
    var id := demux.GetNewHandle();
    first := demux.ReadAsWritten(id);
    assert demux.readPositions == [1];
    second := demux.ReadAsWritten(id);
  }

  /** The corrected read on the same run returns 'T' and then 'e'. */
  method CorrectedSecondRead() returns (first: Result<int>, second: Result<int>)
    ensures first == Ok(84) && second == Ok(101)
  {
    var source := new ByteSource([84, 101, 115, 116, 105, 110, 103]);
    var demux := new FollowTheLeader.FollowTheLeaderStreamDemux(source);
    var id := demux.GetNewHandle();
    first := demux.Read(id);
    second := demux.Read(id);
  }

  /**
   * A delegated close followed by markFollowerWasClosed with hooks that do not throw adds one
   * onLastHandleClosed call to the log exactly when it is the last close.
   */
  lemma LastHookLogged(before: seq<HookedLifecycle.Event>, handle: nat, first: bool, last: bool)
    ensures var after := before + [HookedLifecycle.HandleClose(handle)]
                         + HookedLifecycle.ClosingEvents(handle, first, last, {});
      HookedLifecycle.Count(after, HookedLifecycle.CallOf(HookedLifecycle.LastHandleClosed))
      == HookedLifecycle.Count(before, HookedLifecycle.CallOf(HookedLifecycle.LastHandleClosed))
         + (if last then 1 else 0)
  {
    var p := HookedLifecycle.CallOf(HookedLifecycle.LastHandleClosed);
    var added := HookedLifecycle.ClosingEvents(handle, first, last, {});
    HookedLifecycle.CountAppend(before, [HookedLifecycle.HandleClose(handle)], p);
    HookedLifecycle.CountAppend(before + [HookedLifecycle.HandleClose(handle)], added, p);
    HookedLifecycle.CountShort([HookedLifecycle.HandleClose(handle)], p);
    HookedLifecycle.ClosingEventsCounts(handle, first, last, {});
  }

  /**
   * Spawn `n` handles on an AbstractInputStreamDemux with hooks that do not throw, then read and
   * close them one after another, as the five-handle temp-file test does. After each close,
   * report whether the tracker has closed the source quietly and whether onLastHandleClosed has
   * run: both happen at the last close and not before.
   */
  method ReadAndCloseInTurn(n: nat) returns (sourceClosed: seq<bool>, ghost lastHookRan: seq<bool>)
    ensures |sourceClosed| == n && |lastHookRan| == n
    ensures forall i :: 0 <= i < n ==> sourceClosed[i] == (i == n - 1)
    ensures forall i :: 0 <= i < n ==> lastHookRan[i] == (i == n - 1)
  {
    var demux := new HookedLifecycle.AbstractInputStreamDemux();
    var i := 0;
    while i < n
      invariant i <= n && demux.Valid()
      invariant demux.spawnedReaders == i && demux.onceActiveReaders == 0 && demux.closedReaders == 0
      invariant demux.sourceCloses == 0
      invariant forall j :: 0 <= j < i ==> !demux.reportedClosed[j]
    {
      var _ := demux.Get();
      i := i + 1;
    }
    sourceClosed, lastHookRan := [], [];
    i := 0;
    while i < n
      invariant i <= n && demux.Valid()
      invariant demux.spawnedReaders == n && demux.closedReaders == i
      invariant forall j :: i <= j < n ==> !demux.reportedClosed[j]
      invariant demux.sourceCloses == (if i == n && n > 0 then 1 else 0)
      invariant |sourceClosed| == i && |lastHookRan| == i
      invariant forall j :: 0 <= j < i ==> sourceClosed[j] == (j == n - 1)
      invariant forall j :: 0 <= j < i ==> lastHookRan[j] == (j == n - 1)
    {
      var _ := demux.ProxyRead(i, {});
      ghost var before := demux.events;
      var _ := demux.ProxyClose(i, {});
      LastHookLogged(before, i, i == 0, i == n - 1);
      sourceClosed := sourceClosed + [demux.sourceCloses > 0];
      lastHookRan := lastHookRan + [HookedLifecycle.Count(demux.events, HookedLifecycle.CallOf(HookedLifecycle.LastHandleClosed)) > 0];
      i := i + 1;
    }
  }
}
