/**
 * The reader-lifecycle tracker AbstractDemux: it counts spawned, once-active and closed
 * handles, refuses new handles once any handle has been read, and closes the source when
 * the last spawned handle is closed.
 */
module Lifecycle {
  import opened Streams
  import opened Tally

  /** What the tracker does on a transition, in the order it does it. */
  datatype Event =
    | FirstActive   // onFirstActive()
    | SourceClosed  // IOUtils.closeQuietly(source)
    | LastClosed    // onLastClosed()
    | ReadDelegated(proxy: nat)   // the proxy handing read() on to the handle it wraps
    | CloseDelegated(proxy: nat)  // the proxy handing close() on to the handle it wraps

  /** How many times `e` appears in the log `events`. */
  function Logged(events: seq<Event>, e: Event): nat
  {
    if events == [] then 0 else (if events[0] == e then 1 else 0) + Logged(events[1..], e)
  }

  /** Appending to a log adds the appended occurrences. */
  lemma {:induction false} LoggedAppend(events: seq<Event>, added: seq<Event>, e: Event)
    ensures Logged(events + added, e) == Logged(events, e) + Logged(added, e)
  {
    if events == [] {
      assert events + added == added;
    } else {
      assert (events + added)[1..] == events[1..] + added;
      LoggedAppend(events[1..], added, e);
    }
  }

  class AbstractDemux {
    var closedReaders: nat      // numberOfClosedReaders
    var onceActiveReaders: nat  // numberOfOnceActiveReaders
    var spawnedReaders: nat     // numberOfSpawnedReaders
    // the one-shot flags haveReportedActiveStatus / haveReportedClosedStatus of each
    // proxy returned by get(), indexed in spawn order
    var reportedActive: seq<bool>
    var reportedClosed: seq<bool>
    var sourceCloses: nat       // calls of IOUtils.closeQuietly(source)
    // the handle getNewHandle() returned for each proxy, which the proxy delegates to
    ghost var delegates: seq<nat>
    ghost var events: seq<Event>

    /**
     * The tracker's invariant, with the once-active and closed counts given explicitly so that
     * the state between a proxy flipping its flag and the tracker counting it can be named.
     */
    ghost predicate Counted(active: int, closed: int)
      reads this
    {
      && |reportedActive| == spawnedReaders
      && |reportedClosed| == spawnedReaders
      && |delegates| == spawnedReaders
      && active == CountTrue(reportedActive)
      && closed == CountTrue(reportedClosed)
      && Logged(events, FirstActive) == (if onceActiveReaders > 0 then 1 else 0)
      && Logged(events, SourceClosed) == sourceCloses
      && Logged(events, LastClosed) == sourceCloses
    }

    ghost predicate Valid()
      reads this
    {
      Counted(onceActiveReaders, closedReaders)
    }

    /** The counters can never exceed the number of spawned handles. */
    lemma CountersBounded()
      requires Valid()
      ensures onceActiveReaders <= spawnedReaders && closedReaders <= spawnedReaders
    {
    }

    constructor ()
      ensures Valid()
      ensures spawnedReaders == 0 && onceActiveReaders == 0 && closedReaders == 0
      ensures reportedActive == [] && reportedClosed == [] && sourceCloses == 0 && events == []
      ensures delegates == []
    {
      closedReaders, onceActiveReaders, spawnedReaders := 0, 0, 0;
      reportedActive, reportedClosed := [], [];
      sourceCloses := 0;
      events := [];
      delegates := [];
    }

    /** True exactly when every proxy handed out so far has reported its close. */
    function HaveAllSpawnedReadersBeenClosed(): (b: bool)
      reads this
      requires Valid()
      ensures b <==> forall p :: 0 <= p < |reportedClosed| ==> reportedClosed[p]
    {
      CountTrueExtremes(reportedClosed);
      spawnedReaders == closedReaders
    }

    /**
     * The counting part of get(): refused once a handle is active, otherwise one more proxy,
     * with both of its flags clear, wrapping `delegate`, the handle getNewHandle() returned.
     */
    method Get(delegate: nat) returns (r: Result<nat>)
      requires Valid()
      modifies this
      ensures Valid()
      ensures old(onceActiveReaders) > 0 ==> r == Err(IllegalState) && unchanged(this)
      ensures old(onceActiveReaders) == 0 ==>
        && r == Ok(old(spawnedReaders))
        && spawnedReaders == old(spawnedReaders) + 1
        && reportedActive == old(reportedActive) + [false]
        && reportedClosed == old(reportedClosed) + [false]
        && onceActiveReaders == old(onceActiveReaders) && closedReaders == old(closedReaders)
        && sourceCloses == old(sourceCloses) && events == old(events)
        && delegates == old(delegates) + [delegate]
    {
      if onceActiveReaders > 0 {
        return Err(IllegalState);
      }
      ghost var active, closed := reportedActive, reportedClosed;
      r := Ok(spawnedReaders);
      spawnedReaders, delegates := spawnedReaders + 1, delegates + [delegate];
      reportedActive, reportedClosed := reportedActive + [false], reportedClosed + [false];
      CountTrueAppendFalse(active, reportedActive);
      CountTrueAppendFalse(closed, reportedClosed);
    }

    /** markFollowerBecameActive: count the activation; the first one fires onFirstActive. */
    method MarkFollowerBecameActive()
      requires Counted(onceActiveReaders + 1, closedReaders)
      modifies this
      ensures Valid()
      ensures onceActiveReaders == old(onceActiveReaders) + 1
      ensures events == old(events) + (if onceActiveReaders == 1 then [FirstActive] else [])
      ensures spawnedReaders == old(spawnedReaders) && closedReaders == old(closedReaders)
      ensures reportedActive == old(reportedActive) && reportedClosed == old(reportedClosed)
      ensures sourceCloses == old(sourceCloses) && delegates == old(delegates)
    {
      onceActiveReaders := onceActiveReaders + 1;
      if onceActiveReaders == 1 {
        LoggedAppend(events, [FirstActive], FirstActive);
        LoggedAppend(events, [FirstActive], SourceClosed);
        LoggedAppend(events, [FirstActive], LastClosed);
        events := events + [FirstActive];
      }
    }

    /**
     * markFollowerWasClosed: count the close; when it makes closed == spawned the source is
     * closed quietly and then onLastClosed fires, which the result reports to the strategy.
     */
    method MarkFollowerWasClosed() returns (lastClosed: bool)
      requires Counted(onceActiveReaders, closedReaders + 1)
      modifies this
      ensures Valid()
      ensures closedReaders == old(closedReaders) + 1
      ensures lastClosed <==> closedReaders == spawnedReaders
      ensures sourceCloses == old(sourceCloses) + (if lastClosed then 1 else 0)
      ensures events == old(events) + (if lastClosed then [SourceClosed, LastClosed] else [])
      ensures spawnedReaders == old(spawnedReaders) && onceActiveReaders == old(onceActiveReaders)
      ensures reportedActive == old(reportedActive) && reportedClosed == old(reportedClosed)
      ensures delegates == old(delegates)
    {
      closedReaders := closedReaders + 1;
      lastClosed := spawnedReaders == closedReaders;
      if lastClosed {
        sourceCloses := sourceCloses + 1;
        LoggedAppend(events, [SourceClosed, LastClosed], FirstActive);
        LoggedAppend(events, [SourceClosed, LastClosed], SourceClosed);
        LoggedAppend(events, [SourceClosed, LastClosed], LastClosed);
        events := events + [SourceClosed, LastClosed];
      }
    }

    /**
     * The proxy's onRead, run by every read overload before it delegates: only the proxy's
     * first read reports the activation.
     */
    method OnRead(proxy: nat)
      requires Valid() && proxy < spawnedReaders
      modifies this
      ensures Valid()
      ensures old(reportedActive[proxy]) ==> unchanged(this)
      ensures !old(reportedActive[proxy]) ==>
        && reportedActive == old(reportedActive)[proxy := true]
        && onceActiveReaders == old(onceActiveReaders) + 1
        && events == old(events) + (if onceActiveReaders == 1 then [FirstActive] else [])
      ensures reportedActive[proxy] && onceActiveReaders > 0
      ensures spawnedReaders == old(spawnedReaders) && closedReaders == old(closedReaders)
      ensures reportedClosed == old(reportedClosed) && sourceCloses == old(sourceCloses)
      ensures delegates == old(delegates)
    {
      CountTrueExtremes(reportedActive);
      if !reportedActive[proxy] {
        CountTrueSet(reportedActive, proxy);
        reportedActive := reportedActive[proxy := true];
        MarkFollowerBecameActive();
      }
    }

    /**
     * The proxy's onClose, run after close() has delegated: only the proxy's first close is
     * counted, and the result says whether it was the last one.
     */
    method OnClose(proxy: nat) returns (lastClosed: bool)
      requires Valid() && proxy < spawnedReaders
      modifies this
      ensures Valid()
      ensures old(reportedClosed[proxy]) ==> !lastClosed && unchanged(this)
      ensures !old(reportedClosed[proxy]) ==>
        && reportedClosed == old(reportedClosed)[proxy := true]
        && closedReaders == old(closedReaders) + 1
        && (lastClosed <==> closedReaders == spawnedReaders)
        && sourceCloses == old(sourceCloses) + (if lastClosed then 1 else 0)
        && events == old(events) + (if lastClosed then [SourceClosed, LastClosed] else [])
      ensures reportedClosed[proxy]
      ensures spawnedReaders == old(spawnedReaders) && onceActiveReaders == old(onceActiveReaders)
      ensures reportedActive == old(reportedActive) && delegates == old(delegates)
    {
      lastClosed := false;
      if !reportedClosed[proxy] {
        CountTrueSet(reportedClosed, proxy);
        reportedClosed := reportedClosed[proxy := true];
        lastClosed := MarkFollowerWasClosed();
      }
    }

    /** The proxy's `super.read()`: the read is handed on to the wrapped handle after onRead. */
    ghost method DelegateRead(proxy: nat)
      requires Valid()
      modifies this
      ensures Valid() && events == old(events) + [ReadDelegated(proxy)]
      ensures spawnedReaders == old(spawnedReaders) && onceActiveReaders == old(onceActiveReaders)
      ensures closedReaders == old(closedReaders) && sourceCloses == old(sourceCloses)
      ensures reportedActive == old(reportedActive) && reportedClosed == old(reportedClosed)
      ensures delegates == old(delegates)
    {
      LoggedAppend(events, [ReadDelegated(proxy)], FirstActive);
      LoggedAppend(events, [ReadDelegated(proxy)], SourceClosed);
      LoggedAppend(events, [ReadDelegated(proxy)], LastClosed);
      events := events + [ReadDelegated(proxy)];
    }

    /** The proxy's `super.close()`: the close is handed on to the wrapped handle before onClose. */
    ghost method DelegateClose(proxy: nat)
      requires Valid()
      modifies this
      ensures Valid() && events == old(events) + [CloseDelegated(proxy)]
      ensures spawnedReaders == old(spawnedReaders) && onceActiveReaders == old(onceActiveReaders)
      ensures closedReaders == old(closedReaders) && sourceCloses == old(sourceCloses)
      ensures reportedActive == old(reportedActive) && reportedClosed == old(reportedClosed)
      ensures delegates == old(delegates)
    {
      LoggedAppend(events, [CloseDelegated(proxy)], FirstActive);
      LoggedAppend(events, [CloseDelegated(proxy)], SourceClosed);
      LoggedAppend(events, [CloseDelegated(proxy)], LastClosed);
      events := events + [CloseDelegated(proxy)];
    }
  }
}
