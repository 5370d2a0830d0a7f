/**
 * AbstractInputStreamDemux: the same lifecycle tracker as AbstractDemux, with a richer set of
 * hooks that receive the handle they concern, fired in a fixed order, and a `finally` block
 * that closes the source after the last close even when a hook throws.
 */
module HookedLifecycle {
  import opened Streams
  import opened Tally

  /** The overridable hooks. */
  datatype Hook =
    | FirstHandleActivated | AnyHandleActivated
    | FirstHandleClosed | LastHandleClosed | AnyHandleClosed

  /** What the demultiplexer does, in order; handles are named by their spawn index. */
  datatype Event =
    | NewHandle(handle: nat)            // getNewHandle() for the handle spawned as `handle`
    | Invoked(hook: Hook, handle: nat)  // a hook called with that handle
    | HandleRead(handle: nat)           // the proxy delegating a read to the handle
    | HandleClose(handle: nat)          // the proxy delegating close() to the handle
    | SourceClosed                      // IOUtils.closeQuietly(getSource())

  /** What a count over the log looks for: calls of one hook, with any handle, or closes of the source. */
  datatype Probe = CallOf(hook: Hook) | SourceClose

  /** Whether `e` is what `p` looks for. */
  function Matches(e: Event, p: Probe): nat
  {
    match p
    case CallOf(hook) => if e.Invoked? && e.hook == hook then 1 else 0
    case SourceClose => if e.SourceClosed? then 1 else 0
  }

  /** How many of the events in `events` `p` looks for. */
  function Count(events: seq<Event>, p: Probe): nat
  {
    if events == [] then 0 else Matches(events[0], p) + Count(events[1..], p)
  }

  /** Counts over a concatenation add up. */
  lemma {:induction false} CountAppend(s: seq<Event>, t: seq<Event>, p: Probe)
    ensures Count(s + t, p) == Count(s, p) + Count(t, p)
  {
    if s == [] {
      assert s + t == t;
    } else {
      assert (s + t)[1..] == s[1..] + t;
      CountAppend(s[1..], t, p);
    }
  }

  /**
   * The hooks markFollowerBecameActive calls for `handle`: onFirstHandleActivated on the first
   * activation, then onAnyHandleActivated, unless a hook in `failing` throws first.
   */
  function ActivationEvents(handle: nat, first: bool, failing: set<Hook>): seq<Event>
  {
    if first && FirstHandleActivated in failing then [Invoked(FirstHandleActivated, handle)]
    else (if first then [Invoked(FirstHandleActivated, handle)] else [])
         + [Invoked(AnyHandleActivated, handle)]
  }

  /** Whether a hook threw during markFollowerBecameActive. */
  predicate ActivationThrows(first: bool, failing: set<Hook>)
  {
    (first && FirstHandleActivated in failing) || AnyHandleActivated in failing
  }

  /**
   * The events of markFollowerWasClosed for `handle`: onFirstHandleClosed when this is the first
   * close, onLastHandleClosed when it is the last, then onAnyHandleClosed, each only if no
   * earlier hook threw; and, in the `finally`, the source closed quietly after the last close.
   */
  function ClosingEvents(handle: nat, first: bool, last: bool, failing: set<Hook>): seq<Event>
  {
    var threwFirst := first && FirstHandleClosed in failing;
    var threwLast := threwFirst || (last && LastHandleClosed in failing);
    (if first then [Invoked(FirstHandleClosed, handle)] else [])
    + (if !threwFirst && last then [Invoked(LastHandleClosed, handle)] else [])
    + (if !threwLast then [Invoked(AnyHandleClosed, handle)] else [])
    + (if last then [SourceClosed] else [])
  }

  /** Whether a hook threw during markFollowerWasClosed. */
  predicate ClosingThrows(first: bool, last: bool, failing: set<Hook>)
  {
    (first && FirstHandleClosed in failing)
    || (last && LastHandleClosed in failing)
    || AnyHandleClosed in failing
  }

  /** With hooks that return normally, a close fires first, last and any, in that order. */
  lemma ClosingHookOrder(handle: nat, first: bool, last: bool)
    ensures ClosingEvents(handle, first, last, {})
      == (if first then [Invoked(FirstHandleClosed, handle)] else [])
         + (if last then [Invoked(LastHandleClosed, handle)] else [])
         + [Invoked(AnyHandleClosed, handle)]
         + (if last then [SourceClosed] else [])
    ensures !ClosingThrows(first, last, {})
  {
  }

  /** The `finally`: the last close closes the source as its final step, whatever the hooks do. */
  lemma LastCloseClosesSource(handle: nat, first: bool, last: bool, failing: set<Hook>)
    ensures SourceClosed in ClosingEvents(handle, first, last, failing) <==> last
    ensures last ==> ClosingEvents(handle, first, last, failing)[|ClosingEvents(handle, first, last, failing)| - 1] == SourceClosed
  {
  }

  /** No event or one event counts as `Matches` says. */
  lemma CountShort(s: seq<Event>, p: Probe)
    requires |s| <= 1
    ensures Count(s, p) == if s == [] then 0 else Matches(s[0], p)
  {
    if s != [] {
      assert s[1..] == [];
    }
  }

  /** Counts over four concatenated parts of at most one event each. */
  lemma CountOfParts(a: seq<Event>, b: seq<Event>, c: seq<Event>, d: seq<Event>, p: Probe)
    requires |a| <= 1 && |b| <= 1 && |c| <= 1 && |d| <= 1
    ensures Count(a + b + c + d, p) == Count(a, p) + Count(b, p) + Count(c, p) + Count(d, p)
    ensures Count(a, p) == if a == [] then 0 else Matches(a[0], p)
    ensures Count(b, p) == if b == [] then 0 else Matches(b[0], p)
    ensures Count(c, p) == if c == [] then 0 else Matches(c[0], p)
    ensures Count(d, p) == if d == [] then 0 else Matches(d[0], p)
  {
    CountAppend(a, b, p);
    CountAppend(a + b, c, p);
    CountAppend(a + b + c, d, p);
    CountShort(a, p);
    CountShort(b, p);
    CountShort(c, p);
    CountShort(d, p);
  }

  /**
   * What markFollowerWasClosed logs, counted: onFirstHandleClosed once on the first close,
   * onLastHandleClosed once on the last unless onFirstHandleClosed threw before it, the source
   * closed once on the last close, and no activation hook.
   */
  lemma ClosingEventsCounts(handle: nat, first: bool, last: bool, failing: set<Hook>)
    ensures Count(ClosingEvents(handle, first, last, failing), CallOf(FirstHandleClosed)) == (if first then 1 else 0)
    ensures Count(ClosingEvents(handle, first, last, failing), CallOf(LastHandleClosed))
      == (if last && !(first && FirstHandleClosed in failing) then 1 else 0)
    ensures Count(ClosingEvents(handle, first, last, failing), SourceClose) == (if last then 1 else 0)
    ensures Count(ClosingEvents(handle, first, last, failing), CallOf(FirstHandleActivated)) == 0
  {
    var threwFirst := first && FirstHandleClosed in failing;
    var threwLast := threwFirst || (last && LastHandleClosed in failing);
    var a := if first then [Invoked(FirstHandleClosed, handle)] else [];
    var b := if !threwFirst && last then [Invoked(LastHandleClosed, handle)] else [];
    var c := if !threwLast then [Invoked(AnyHandleClosed, handle)] else [];
    var d := if last then [SourceClosed] else [];
    assert ClosingEvents(handle, first, last, failing) == a + b + c + d;
    CountOfParts(a, b, c, d, CallOf(FirstHandleClosed));
    CountOfParts(a, b, c, d, CallOf(LastHandleClosed));
    CountOfParts(a, b, c, d, SourceClose);
    CountOfParts(a, b, c, d, CallOf(FirstHandleActivated));
  }

  /**
   * What markFollowerBecameActive logs, counted: onFirstHandleActivated once on the first
   * activation, and no close hook nor source close.
   */
  lemma ActivationEventsCounts(handle: nat, first: bool, failing: set<Hook>)
    ensures Count(ActivationEvents(handle, first, failing), CallOf(FirstHandleActivated)) == (if first then 1 else 0)
    ensures Count(ActivationEvents(handle, first, failing), CallOf(FirstHandleClosed)) == 0
    ensures Count(ActivationEvents(handle, first, failing), CallOf(LastHandleClosed)) == 0
    ensures Count(ActivationEvents(handle, first, failing), SourceClose) == 0
  {
    var a := if first then [Invoked(FirstHandleActivated, handle)] else [];
    var b := if first && FirstHandleActivated in failing then [] else [Invoked(AnyHandleActivated, handle)];
    assert ActivationEvents(handle, first, failing) == a + b + [] + [];
    CountOfParts(a, b, [], [], CallOf(FirstHandleActivated));
    CountOfParts(a, b, [], [], CallOf(FirstHandleClosed));
    CountOfParts(a, b, [], [], CallOf(LastHandleClosed));
    CountOfParts(a, b, [], [], SourceClose);
  }

  /**
   * What the log says about the counters: onFirstHandleActivated and onFirstHandleClosed are
   * called once, at the first activation and the first close; the source is closed once per
   * last close, and onLastHandleClosed never fires more often than that.
   */
  ghost predicate LogAgrees(events: seq<Event>, onceActive: nat, closed: nat, sourceCloses: nat)
  {
    && Count(events, CallOf(FirstHandleActivated)) == (if onceActive > 0 then 1 else 0)
    && Count(events, CallOf(FirstHandleClosed)) == (if closed > 0 then 1 else 0)
    && Count(events, SourceClose) == sourceCloses
    && Count(events, CallOf(LastHandleClosed)) <= sourceCloses
  }

  /** A close, logged as ClosingEvents, keeps the log in agreement with the updated counters. */
  lemma ClosingKeepsLog(before: seq<Event>, after: seq<Event>, handle: nat, onceActive: nat, closed: nat,
                        spawned: nat, sourceCloses: nat, failing: set<Hook>)
    requires LogAgrees(before, onceActive, closed, sourceCloses)
    requires after == before + ClosingEvents(handle, closed + 1 == 1, closed + 1 == spawned, failing)
    ensures LogAgrees(after, onceActive, closed + 1, sourceCloses + (if closed + 1 == spawned then 1 else 0))
  {
    var added := ClosingEvents(handle, closed + 1 == 1, closed + 1 == spawned, failing);
    ClosingEventsCounts(handle, closed + 1 == 1, closed + 1 == spawned, failing);
    CountAppend(before, added, CallOf(FirstHandleActivated));
    CountAppend(before, added, CallOf(FirstHandleClosed));
    CountAppend(before, added, CallOf(LastHandleClosed));
    CountAppend(before, added, SourceClose);
  }

  /** An activation, logged as ActivationEvents, keeps the log in agreement with the updated counter. */
  lemma ActivationKeepsLog(before: seq<Event>, after: seq<Event>, handle: nat, onceActive: nat, closed: nat,
                           sourceCloses: nat, failing: set<Hook>)
    requires LogAgrees(before, onceActive, closed, sourceCloses)
    requires after == before + ActivationEvents(handle, onceActive + 1 == 1, failing)
    ensures LogAgrees(after, onceActive + 1, closed, sourceCloses)
  {
    var added := ActivationEvents(handle, onceActive + 1 == 1, failing);
    ActivationEventsCounts(handle, onceActive + 1 == 1, failing);
    CountAppend(before, added, CallOf(FirstHandleActivated));
    CountAppend(before, added, CallOf(FirstHandleClosed));
    CountAppend(before, added, CallOf(LastHandleClosed));
    CountAppend(before, added, SourceClose);
  }

  /** Creating, reading or closing a handle is not counted: the log stays in agreement. */
  lemma HandleEventKeepsLog(before: seq<Event>, e: Event, onceActive: nat, closed: nat, sourceCloses: nat)
    requires e.NewHandle? || e.HandleRead? || e.HandleClose?
    requires LogAgrees(before, onceActive, closed, sourceCloses)
    ensures LogAgrees(before + [e], onceActive, closed, sourceCloses)
  {
    CountOfParts([e], [], [], [], CallOf(FirstHandleActivated));
    CountOfParts([e], [], [], [], CallOf(FirstHandleClosed));
    CountOfParts([e], [], [], [], CallOf(LastHandleClosed));
    CountOfParts([e], [], [], [], SourceClose);
    CountAppend(before, [e], CallOf(FirstHandleActivated));
    CountAppend(before, [e], CallOf(FirstHandleClosed));
    CountAppend(before, [e], CallOf(LastHandleClosed));
    CountAppend(before, [e], SourceClose);
  }

  class AbstractInputStreamDemux {
    var closedReaders: nat      // numberOfClosedReaders
    var onceActiveReaders: nat  // numberOfOnceActiveReaders
    var spawnedReaders: nat     // numberOfSpawnedReaders
    // haveReportedActiveStatus / haveReportedClosedStatus of each proxy, in spawn order
    var reportedActive: seq<bool>
    var reportedClosed: seq<bool>
    var sourceCloses: nat       // calls of IOUtils.closeQuietly(getSource())
    ghost var events: seq<Event>

    /** The invariant, with the once-active and closed counts given explicitly (see Lifecycle). */
    ghost predicate Counted(active: int, closed: int)
      reads this
    {
      && |reportedActive| == spawnedReaders
      && |reportedClosed| == spawnedReaders
      && active == CountTrue(reportedActive)
      && closed == CountTrue(reportedClosed)
      && LogAgrees(events, onceActiveReaders, closedReaders, sourceCloses)
    }

    ghost predicate Valid()
      reads this
    {
      Counted(onceActiveReaders, closedReaders)
    }

    constructor ()
      ensures Valid()
      ensures spawnedReaders == 0 && onceActiveReaders == 0 && closedReaders == 0
      ensures reportedActive == [] && reportedClosed == [] && sourceCloses == 0 && events == []
    {
      closedReaders, onceActiveReaders, spawnedReaders := 0, 0, 0;
      reportedActive, reportedClosed := [], [];
      sourceCloses := 0;
      events := [];
    }

    /** True exactly when every proxy handed out so far has reported its close. */
    function HaveAllSpawnedReadersBeenClosed(): (b: bool)
      reads this
      requires Valid()
      ensures b <==> forall p :: 0 <= p < |reportedClosed| ==> reportedClosed[p]
    {
      CountTrueExtremes(reportedClosed);
      spawnedReaders == closedReaders
    }

    /** checkAllowedToSpawn: refuses once any handle has been read. */
    method CheckAllowedToSpawn() returns (o: Outcome)
      ensures o == Pass <==> onceActiveReaders == 0
      ensures o != Pass ==> o == Fail(UnsupportedOperation)
    {
      if onceActiveReaders > 0 {
        return Fail(UnsupportedOperation);
      }
      return Pass;
    }

    /** get(): the check, one getNewHandle() call, and one more proxy with clear flags. */
    method Get() returns (r: Result<nat>)
      requires Valid()
      modifies this
      ensures Valid()
      ensures old(onceActiveReaders) > 0 ==> r == Err(UnsupportedOperation) && unchanged(this)
      ensures old(onceActiveReaders) == 0 ==>
        && r == Ok(old(spawnedReaders))
        && spawnedReaders == old(spawnedReaders) + 1
        && reportedActive == old(reportedActive) + [false]
        && reportedClosed == old(reportedClosed) + [false]
        && events == old(events) + [NewHandle(old(spawnedReaders))]
        && onceActiveReaders == old(onceActiveReaders) && closedReaders == old(closedReaders)
        && sourceCloses == old(sourceCloses)
    {
      var allowed := CheckAllowedToSpawn();
      if allowed.Fail? {
        return Err(allowed.error);
      }
      HandleEventKeepsLog(events, NewHandle(spawnedReaders), onceActiveReaders, closedReaders, sourceCloses);
      events := events + [NewHandle(spawnedReaders)];
      CountTrueAppendFalse(reportedActive, reportedActive + [false]);
      CountTrueAppendFalse(reportedClosed, reportedClosed + [false]);
      r := Ok(spawnedReaders);
      spawnedReaders := spawnedReaders + 1;
      reportedActive := reportedActive + [false];
      reportedClosed := reportedClosed + [false];
    }

    /**
     * markFollowerBecameActive(handle): count the activation, then call onFirstHandleActivated
     * (first activation only) and onAnyHandleActivated; a hook in `failing` throws.
     */
    method MarkFollowerBecameActive(handle: nat, failing: set<Hook>) returns (o: Outcome)
      requires Counted(onceActiveReaders + 1, closedReaders)
      modifies this
      ensures Valid()
      ensures onceActiveReaders == old(onceActiveReaders) + 1
      ensures events == old(events) + ActivationEvents(handle, onceActiveReaders == 1, failing)
      ensures o == if ActivationThrows(onceActiveReaders == 1, failing) then Fail(HookFailed) else Pass
      ensures spawnedReaders == old(spawnedReaders) && closedReaders == old(closedReaders)
      ensures reportedActive == old(reportedActive) && reportedClosed == old(reportedClosed)
      ensures sourceCloses == old(sourceCloses)
    {
      ghost var before := events;
      onceActiveReaders := onceActiveReaders + 1;
      // the hooks' calls, logged in locals and stored once the call is over
      ghost var a, b: seq<Event> := [], [];
      o := Pass;
      if onceActiveReaders == 1 {
        a := [Invoked(FirstHandleActivated, handle)];
        if FirstHandleActivated in failing {
          o := Fail(HookFailed);
        }
      }
      if o.Pass? {
        b := [Invoked(AnyHandleActivated, handle)];
        if AnyHandleActivated in failing {
          o := Fail(HookFailed);
        }
      }
      assert a + b == ActivationEvents(handle, onceActiveReaders == 1, failing);
      events := events + (a + b);
      ActivationKeepsLog(before, events, handle, onceActiveReaders - 1, closedReaders, sourceCloses, failing);
    }

    /**
     * markFollowerWasClosed(handle): count the close, call onFirstHandleClosed,
     * onLastHandleClosed and onAnyHandleClosed as they apply until one throws, and in the
     * `finally` close the source quietly if every spawned handle is now closed.
     */
    method MarkFollowerWasClosed(handle: nat, failing: set<Hook>) returns (o: Outcome)
      requires Counted(onceActiveReaders, closedReaders + 1)
      modifies this
      ensures Valid()
      ensures closedReaders == old(closedReaders) + 1
      ensures events
        == old(events) + ClosingEvents(handle, closedReaders == 1, closedReaders == spawnedReaders, failing)
      ensures sourceCloses == old(sourceCloses) + (if closedReaders == spawnedReaders then 1 else 0)
      ensures o == if ClosingThrows(closedReaders == 1, closedReaders == spawnedReaders, failing)
                   then Fail(HookFailed) else Pass
      ensures spawnedReaders == old(spawnedReaders) && onceActiveReaders == old(onceActiveReaders)
      ensures reportedActive == old(reportedActive) && reportedClosed == old(reportedClosed)
    {
      ghost var before, closedBefore, closesBefore := events, closedReaders, sourceCloses;
      closedReaders := closedReaders + 1;
      var allClosed := spawnedReaders == closedReaders;
      // the hooks' calls, logged in a local and stored once the call is over
      ghost var a, b, c, d: seq<Event> := [], [], [], [];
      // try
      var threw := false;
      if closedReaders == 1 {
        a := [Invoked(FirstHandleClosed, handle)];
        threw := FirstHandleClosed in failing;
      }
      if !threw && allClosed {
        b := [Invoked(LastHandleClosed, handle)];
        threw := LastHandleClosed in failing;
      }
      if !threw {
        c := [Invoked(AnyHandleClosed, handle)];
        threw := AnyHandleClosed in failing;
      }
      // finally
      if allClosed {
        sourceCloses := sourceCloses + 1;
        d := [SourceClosed];
      }
      assert a + b + c + d == ClosingEvents(handle, closedReaders == 1, allClosed, failing);
      events := events + (a + b + c + d);
      ClosingKeepsLog(before, events, handle, onceActiveReaders, closedBefore, spawnedReaders, closesBefore, failing);
      o := if threw then Fail(HookFailed) else Pass;
    }

    /**
     * A read on the proxy of `handle` (any overload): on the first read only, report the
     * activation; if that threw, the read is not delegated; otherwise delegate.
     */
    method ProxyRead(handle: nat, failing: set<Hook>) returns (o: Outcome)
      requires Valid() && handle < spawnedReaders
      modifies this
      ensures Valid()
      ensures reportedActive == old(reportedActive)[handle := true]
      ensures old(reportedActive[handle]) ==>
        o == Pass && onceActiveReaders == old(onceActiveReaders)
        && events == old(events) + [HandleRead(handle)]
      ensures !old(reportedActive[handle]) ==>
        var first := onceActiveReaders == 1;
        && onceActiveReaders == old(onceActiveReaders) + 1
        && events == old(events) + ActivationEvents(handle, first, failing)
                     + (if ActivationThrows(first, failing) then [] else [HandleRead(handle)])
        && o == if ActivationThrows(first, failing) then Fail(HookFailed) else Pass
      ensures spawnedReaders == old(spawnedReaders) && closedReaders == old(closedReaders)
      ensures reportedClosed == old(reportedClosed) && sourceCloses == old(sourceCloses)
    {
      o := Pass;
      if !reportedActive[handle] {
        CountTrueSet(reportedActive, handle);
        reportedActive := reportedActive[handle := true];
        o := MarkFollowerBecameActive(handle, failing);
      }
      if o.Pass? {
        HandleEventKeepsLog(events, HandleRead(handle), onceActiveReaders, closedReaders, sourceCloses);
        events := events + [HandleRead(handle)];
      }
    }

    /**
     * close() on the proxy of `handle`: delegate first, then, on the first close only,
     * report it.
     */
    method ProxyClose(handle: nat, failing: set<Hook>) returns (o: Outcome)
      requires Valid() && handle < spawnedReaders
      modifies this
      ensures Valid()
      ensures reportedClosed == old(reportedClosed)[handle := true]
      ensures old(reportedClosed[handle]) ==>
        o == Pass && closedReaders == old(closedReaders) && sourceCloses == old(sourceCloses)
        && events == old(events) + [HandleClose(handle)]
      ensures !old(reportedClosed[handle]) ==>
        var first, last := closedReaders == 1, closedReaders == spawnedReaders;
        && closedReaders == old(closedReaders) + 1
        && events == old(events) + [HandleClose(handle)] + ClosingEvents(handle, first, last, failing)
        && sourceCloses == old(sourceCloses) + (if last then 1 else 0)
        && o == if ClosingThrows(first, last, failing) then Fail(HookFailed) else Pass
      ensures spawnedReaders == old(spawnedReaders) && onceActiveReaders == old(onceActiveReaders)
      ensures reportedActive == old(reportedActive)
    {
      HandleEventKeepsLog(events, HandleClose(handle), onceActiveReaders, closedReaders, sourceCloses);
      events := events + [HandleClose(handle)];
      o := Pass;
      if !reportedClosed[handle] {
        CountTrueSet(reportedClosed, handle);
        reportedClosed := reportedClosed[handle := true];
        o := MarkFollowerWasClosed(handle, failing);
      }
    }
  }
}
