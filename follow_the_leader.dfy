/**
 * FollowTheLeaderStreamDemux: one forward-only source fanned out to several handles through a
 * sliding window. The window `buffer[0..writePosition)` holds what has been pulled from the
 * source and is still needed; each handle id has a read position into it. When a reader
 * reaches the write frontier the window is compacted into a new array and exactly one more
 * value is pulled from the source.
 */
module FollowTheLeader {
  import opened Streams
  import Lifecycle

  /** The smallest buffer ever allocated by a compaction, and the initial buffer size. */
  const MIN_BUF: nat := 4096

  function Min(a: int, b: int): int { if a <= b then a else b }

  /** Collections.max(readPositions): the position of the reader furthest ahead. */
  function LeadingReadPosition(positions: seq<int>): (r: int)
    requires |positions| > 0
    ensures r in positions
    ensures forall i :: 0 <= i < |positions| ==> positions[i] <= r
  {
    if |positions| == 1 then positions[0]
    else
      var rest := LeadingReadPosition(positions[..|positions| - 1]);
      if positions[|positions| - 1] > rest then positions[|positions| - 1] else rest
  }

  /** Collections.min(readPositions): the position of the reader furthest behind. */
  function TrailingReadPosition(positions: seq<int>): (r: int)
    requires |positions| > 0
    ensures r in positions
    ensures forall i :: 0 <= i < |positions| ==> r <= positions[i]
  {
    if |positions| == 1 then positions[0]
    else
      var rest := TrailingReadPosition(positions[..|positions| - 1]);
      if positions[|positions| - 1] < rest then positions[|positions| - 1] else rest
  }

  /**
   * Math.max(delta * 2, MIN_BUF): the size of the buffer a compaction allocates. It always has
   * room for the live window plus the one value pulled next, and it depends only on the spread
   * between the readers, not on how much of the stream has gone by.
   */
  function NewBufferLength(delta: int): (r: int)
    ensures r >= MIN_BUF && r >= 2 * delta
    ensures r == MIN_BUF || r == 2 * delta
    ensures delta >= 0 ==> r >= delta + 1
  {
    if delta * 2 > MIN_BUF then delta * 2 else MIN_BUF
  }

  /** Every read position dropped by `offset`: the rebasing a compaction performs. */
  function Shifted(positions: seq<int>, offset: int): (r: seq<int>)
    ensures |r| == |positions|
    ensures forall i :: 0 <= i < |r| ==> r[i] == positions[i] - offset
  {
    seq(|positions|, i requires 0 <= i < |positions| => positions[i] - offset)
  }

  /** A zero-filled buffer of `size` slots whose first `length` hold `contents[from..from + length]`. */
  function Copied(contents: seq<int>, from: nat, length: nat, size: nat): (r: seq<int>)
    requires from + length <= |contents| && length <= size
    ensures |r| == size
    ensures forall k :: 0 <= k < length ==> r[k] == contents[from + k]
    ensures forall k :: length <= k < size ==> r[k] == 0
  {
    contents[from..from + length] + seq(size - length, _ => 0)
  }

  /** System.arraycopy(src, srcPos, dest, destPos, length) between two distinct arrays. */
  method ArrayCopy(src: array<int>, srcPos: nat, dest: array<int>, destPos: nat, length: nat)
    requires src != dest
    requires srcPos + length <= src.Length && destPos + length <= dest.Length
    modifies dest
    ensures forall k :: 0 <= k < dest.Length ==>
      dest[k] == if destPos <= k < destPos + length then src[srcPos + k - destPos] else old(dest[k])
  {
    var i := 0;
    while i < length
      invariant 0 <= i <= length
      invariant forall k :: 0 <= k < dest.Length ==>
        dest[k] == if destPos <= k < destPos + i then src[srcPos + k - destPos] else old(dest[k])
    {
      dest[destPos + i] := src[srcPos + i];
      i := i + 1;
    }
  }

  /**
   * `new int[size]` followed by System.arraycopy(src, from, newBuf, 0, length): a new buffer
   * whose first `length` slots hold `src[from..from + length]` and whose other slots are zero.
   */
  method CopiedWindow(src: array<int>, from: nat, length: nat, size: nat) returns (newBuf: array<int>)
    requires from + length <= src.Length && length <= size
    ensures fresh(newBuf) && newBuf[..] == Copied(src[..], from, length, size)
  {
    newBuf := new int[size](_ => 0);
    ArrayCopy(src, from, newBuf, 0, length);
    assert newBuf[..] == Copied(src[..], from, length, size);
  }

  /** The rebasing loop of prepareBufferForMoreReadingFromSource: every position drops by `offset`. */
  method ShiftPositions(positions: seq<int>, offset: int) returns (shifted: seq<int>)
    ensures shifted == Shifted(positions, offset)
  {
    shifted := positions;
    var i := 0;
    while i < |shifted|
      invariant 0 <= i <= |shifted| == |positions|
      invariant forall j :: 0 <= j < i ==> shifted[j] == positions[j] - offset
      invariant forall j :: i <= j < |shifted| ==> shifted[j] == positions[j]
    {
      shifted := shifted[i := shifted[i] - offset];
      i := i + 1;
    }
  }

  /**
   * One reader in the window: its position lies in `[0, w]`, it has been handed the stream in
   * order, up to and including its first EOF, and stands at the offset of its next value.
   */
  ghost predicate ReaderAt(bytes: seq<int>, position: int, delivered: seq<int>, w: int, base: nat)
    requires AllBytes(bytes)
  {
    && 0 <= position <= w
    && delivered == Observed(bytes, |delivered|)
    && base + position == Min(|delivered|, |bytes|)
  }

  /**
   * The window invariant over plain values. `contents` is the buffer, `w` the write position,
   * `base` the offset in the stream of `contents[0]`, and `pulls` the number of values pulled
   * from a source over `bytes`. Every read position lies in `[0, w]`; the window holds the
   * stream from `base` on; each handle id has been handed the stream in order, up to and
   * including its first EOF, and stands at the offset of the next value it will be handed.
   */
  ghost predicate Window(bytes: seq<int>, pulls: nat, positions: seq<int>, delivered: seq<seq<int>>,
                         contents: seq<int>, w: int, base: nat)
  {
    && AllBytes(bytes)
    && 0 <= w
    && pulls == base + w
    && pulls <= |bytes| + 1
    && |delivered| == |positions|
    && (forall i :: 0 <= i < |positions| ==> ReaderAt(bytes, positions[i], delivered[i], w, base))
    && (positions != [] ==> w <= |contents|)
    && (positions != [] ==> forall k :: 0 <= k < w ==> contents[k] == ValueAt(bytes, base + k))
  }

  /**
   * Compaction keeps the window: with `t` at most every read position, the values at `[t, w)`
   * move to the start of a zero-filled buffer of `size` slots, every position and the write
   * position drop by `t`, and the stream offset of the buffer start rises by as much.
   */
  lemma CompactionKeepsWindow(bytes: seq<int>, pulls: nat, positions: seq<int>, delivered: seq<seq<int>>,
                              contents: seq<int>, w: int, base: nat, t: nat, size: nat,
                              newPositions: seq<int>, newContents: seq<int>, newW: int, newBase: nat)
    requires Window(bytes, pulls, positions, delivered, contents, w, base) && positions != []
    requires t <= w <= t + size && forall i :: 0 <= i < |positions| ==> t <= positions[i]
    requires newPositions == Shifted(positions, t) && newContents == Copied(contents, t, w - t, size)
    requires newW == w - t && newBase == base + t
    ensures Window(bytes, pulls, newPositions, delivered, newContents, newW, newBase)
  {
  }

  /**
   * Pulling one value at the write frontier keeps the window; a reader stands at the frontier,
   * so the source has not yet handed out its first EOF.
   */
  lemma PullKeepsWindow(bytes: seq<int>, pulls: nat, positions: seq<int>, delivered: seq<seq<int>>,
                        contents: seq<int>, w: int, base: nat, id: nat,
                        newPulls: nat, newContents: seq<int>, newW: int)
    requires Window(bytes, pulls, positions, delivered, contents, w, base)
    requires id < |positions| && positions[id] == w && w < |contents|
    requires newPulls == pulls + 1 && newContents == contents[w := ValueAt(bytes, pulls)] && newW == w + 1
    ensures pulls <= |bytes|
    ensures Window(bytes, newPulls, positions, delivered, newContents, newW, base)
  {
  }

  /**
   * Handing a reader the buffered value at its position keeps the window: the value is the
   * stream's value at the reader's offset, and the reader moves on by one unless it was EOF.
   */
  lemma DeliverKeepsWindow(bytes: seq<int>, pulls: nat, positions: seq<int>, delivered: seq<seq<int>>,
                           contents: seq<int>, w: int, base: nat, id: nat,
                           newPositions: seq<int>, newDelivered: seq<seq<int>>)
    requires Window(bytes, pulls, positions, delivered, contents, w, base)
    requires id < |positions| && positions[id] < w
    requires var v := contents[positions[id]];
      && newPositions == positions[id := if v == EOF then positions[id] else positions[id] + 1]
      && newDelivered == delivered[id := delivered[id] + [v]]
    ensures contents[positions[id]] == ValueAt(bytes, base + positions[id])
    ensures Window(bytes, pulls, newPositions, newDelivered, contents, w, base)
  {
    ObservedExtend(bytes, |delivered[id]|);
  }

  /** What `getNewHandle` reports: the strategy's handle, together with the proxy wrapping it. */
  datatype Handle = Handle(proxy: nat, id: nat)

  class FollowTheLeaderStreamDemux {
    const source: ByteSource
    /** The lifecycle tracker this demultiplexer extends, held as a part. */
    const lifecycle: Lifecycle.AbstractDemux
    var readPositions: seq<int>
    var buffer: array<int>
    var writePosition: int
    /** The offset in the stream of `buffer[0]`. */
    ghost var base: nat
    /** What each read of each handle id has returned, in order. */
    ghost var delivered: seq<seq<int>>

    /** The offset in the stream of the next value handle `id` reads. */
    ghost function Absolute(id: nat): int
      reads this
      requires id < |readPositions|
    {
      base + readPositions[id]
    }

    /** The window invariant (see Window) over the fields. */
    ghost predicate BufferValid()
      reads this, buffer, source
    {
      && source.Valid()
      && Window(source.bytes, source.pulls, readPositions, delivered, buffer[..], writePosition, base)
    }

    /** The whole demultiplexer: the window, the tracker, and no pull before the first read. */
    ghost predicate Valid()
      reads this, buffer, source, lifecycle
    {
      && BufferValid()
      && lifecycle.Valid()
      && (lifecycle.onceActiveReaders == 0 ==> source.pulls == 0)
    }

    constructor (source: ByteSource)
      requires source.Valid() && source.pulls == 0
      ensures Valid()
      ensures this.source == source && fresh(lifecycle) && fresh(buffer)
      ensures readPositions == [] && buffer.Length == MIN_BUF && writePosition == 0
      ensures lifecycle.spawnedReaders == 0 && lifecycle.onceActiveReaders == 0
      ensures lifecycle.closedReaders == 0 && lifecycle.sourceCloses == 0
    {
      this.source := source;
      lifecycle := new Lifecycle.AbstractDemux();
      readPositions := [];
      buffer := new int[MIN_BUF](_ => 0);
      writePosition := 0;
      base := 0;
      delivered := [];
    }

    /**
     * getNewHandle: a new read position 0, whose index is the new handle's id. It is only
     * reached while nothing has been pulled from the source, so 0 is the start of the stream.
     */
    method GetNewHandle() returns (id: nat)
      requires BufferValid() && source.pulls == 0
      modifies this
      ensures BufferValid()
      ensures id == old(|readPositions|) && readPositions == old(readPositions) + [0]
      ensures Absolute(id) == 0 && delivered == old(delivered) + [[]]
      ensures buffer == old(buffer) && writePosition == old(writePosition) && base == old(base)
    {
      readPositions := readPositions + [0];
      delivered := delivered + [[]];
      id := |readPositions| - 1;
    }

    /**
     * prepareBufferForMoreReadingFromSource, called when the leading reader stands at the write
     * frontier: copy the window `[trailing, leading)` to the start of a new, zero-filled buffer
     * of NewBufferLength(leading - trailing) slots and rebase every position by `trailing`.
     */
    method PrepareBufferForMoreReadingFromSource()
      requires BufferValid() && readPositions != []
      requires LeadingReadPosition(readPositions) == writePosition
      modifies this
      ensures BufferValid()
      ensures base == old(base + TrailingReadPosition(readPositions))
      ensures writePosition == old(writePosition - TrailingReadPosition(readPositions))
      ensures fresh(buffer)
      ensures buffer[..] == Copied(old(buffer[..]), old(TrailingReadPosition(readPositions)),
                                   writePosition, NewBufferLength(writePosition))
      ensures readPositions == Shifted(old(readPositions), old(TrailingReadPosition(readPositions)))
      ensures delivered == old(delivered)
    {
      ghost var positions, contents := readPositions, buffer[..];
      var trailing := TrailingReadPosition(readPositions);
      var leading := LeadingReadPosition(readPositions);
      var delta := leading - trailing;

      // size the new buffer for the spread doubling
      var bufferLength := NewBufferLength(delta);

      // copy the parts of the old buffer that are still needed into a new, zero-filled one
      var newBuf := CopiedWindow(buffer, trailing, delta, bufferLength);

      // rebase every read position by the dropped prefix
      readPositions := ShiftPositions(readPositions, trailing);

      // the frontier moves down with the window, and the ghost offset of slot 0 moves up
      writePosition := writePosition - trailing;
      base := base + trailing;

      // the compacted copy replaces the old array
      buffer := newBuf;
      CompactionKeepsWindow(source.bytes, source.pulls, positions, delivered, contents, old(writePosition),
                            old(base), trailing, bufferLength, readPositions, buffer[..], writePosition, base);
    }

    /**
     * The refill in read(readerId), for a reader standing at the write frontier: compact the
     * buffer, then pull one value from the source into the slot at the (rebased) write position.
     * No reader's offset in the stream moves; the caller now stands just before the new value.
     */
    method FetchFromSource(readerId: nat)
      requires BufferValid() && readerId < |readPositions| && readPositions[readerId] >= writePosition
      modifies this, source
      ensures BufferValid()
      ensures source.pulls == old(source.pulls) + 1
      ensures base == old(base + TrailingReadPosition(readPositions))
      ensures writePosition == old(writePosition - TrailingReadPosition(readPositions)) + 1
      ensures fresh(buffer)
      ensures buffer[..] == Copied(old(buffer[..]), old(TrailingReadPosition(readPositions)), writePosition - 1,
                                   NewBufferLength(writePosition - 1))[writePosition - 1 := ValueAt(source.bytes, old(source.pulls))]
      ensures readPositions == Shifted(old(readPositions), old(TrailingReadPosition(readPositions)))
      ensures delivered == old(delivered)
      ensures readPositions[readerId] == writePosition - 1
      ensures forall i :: 0 <= i < |readPositions| ==> Absolute(i) == old(Absolute(i))
    {
      PrepareBufferForMoreReadingFromSource();
      ghost var pulls, contents := source.pulls, buffer[..];

      // read another value from the source into the buffer
      var fetched := source.Read();
      buffer[writePosition] := fetched;
      writePosition := writePosition + 1;

      PullKeepsWindow(source.bytes, pulls, readPositions, delivered, contents, writePosition - 1, base,
                      readerId, source.pulls, buffer[..], writePosition);
    }

    /**
     * The tail of read(readerId): `buffer[position]`, and the reader moved to `position + 1`
     * unless that value is EOF. When `position` is the reader's own position inside the window,
     * the value is the stream's value at the reader's offset.
     */
    method DeliverFrom(readerId: nat, position: int) returns (r: Result<int>)
      requires BufferValid() && readerId < |readPositions| && 0 <= position
      modifies this
      ensures position >= buffer.Length ==> r == Err(ArrayIndexOutOfBounds) && unchanged(this)
      ensures position < buffer.Length ==> r == Ok(buffer[position])
      ensures position < buffer.Length ==>
        readPositions == old(readPositions)[readerId := if r.value == EOF then old(readPositions[readerId]) else position + 1]
      ensures position < buffer.Length ==> delivered == old(delivered)[readerId := old(delivered[readerId]) + [r.value]]
      ensures position == old(readPositions[readerId]) < writePosition ==>
        BufferValid() && r == Ok(ValueAt(source.bytes, old(Absolute(readerId))))
      ensures buffer == old(buffer) && writePosition == old(writePosition) && base == old(base)
    {
      if position >= buffer.Length {
        return Err(ArrayIndexOutOfBounds);
      }
      ghost var positions, handed := readPositions, delivered;
      var b := buffer[position];
      delivered := delivered[readerId := delivered[readerId] + [b]];
      if b != EOF {
        readPositions := readPositions[readerId := position + 1];
      }
      if position == positions[readerId] < writePosition {
        DeliverKeepsWindow(source.bytes, source.pulls, positions, handed, buffer[..], writePosition, base,
                           readerId, readPositions, delivered);
      }
      return Ok(b);
    }

    /**
     * read(readerId), with the read position fetched again after a compaction has rebased it
     * (see README, Findings): the value at the reader's offset in the stream. The source is read
     * exactly when the reader stands at the write frontier, and then exactly once; an EOF leaves
     * the position where it is; no other reader's position moves.
     */
    method Read(readerId: nat) returns (r: Result<int>)
      requires BufferValid()
      modifies this, source
      ensures BufferValid()
      ensures readerId >= old(|readPositions|) ==>
        r == Err(IndexOutOfBounds) && unchanged(this, source)
      ensures readerId < old(|readPositions|) ==> r == Ok(ValueAt(source.bytes, old(Absolute(readerId))))
      ensures readerId < old(|readPositions|) ==>
        delivered == old(delivered)[readerId := old(delivered[readerId]) + [r.value]]
      ensures readerId < old(|readPositions|) ==>
        |readPositions| == old(|readPositions|)
        && Absolute(readerId) == old(Absolute(readerId)) + (if r.value == EOF then 0 else 1)
      ensures readerId < old(|readPositions|) ==>
        forall i :: 0 <= i < |readPositions| && i != readerId ==> Absolute(i) == old(Absolute(i))
      ensures readerId < old(|readPositions|) ==>
        source.pulls == old(source.pulls) + (if old(readPositions[readerId] >= writePosition) then 1 else 0)
      ensures r == Ok(EOF) ==> readPositions[readerId] < writePosition
    {
      if readerId >= |readPositions| {
        return Err(IndexOutOfBounds);
      }

      // a reader at the frontier has nothing buffered left: refill first
      if readPositions[readerId] >= writePosition {
        FetchFromSource(readerId);
      }

      r := DeliverFrom(readerId, readPositions[readerId]);
    }

    /**
     * read(readerId) exactly as written: the position is read once, before the refill, and that
     * stale value indexes the compacted buffer and sets the new position. Without a refill, or
     * when the refill dropped nothing (trailing == 0), it agrees with Read. When the refill
     * dropped `trailing > 0` values, it returns the zero in an unused slot of the new buffer, or
     * fails with an array index out of bounds when the stale position lies beyond it.
     */
    method ReadAsWritten(readerId: nat) returns (r: Result<int>)
      requires BufferValid()
      modifies this, source
      ensures readerId >= old(|readPositions|) ==>
        r == Err(IndexOutOfBounds) && unchanged(this, source)
      ensures readerId < old(|readPositions|) ==>
        source.pulls == old(source.pulls) + (if old(readPositions[readerId] >= writePosition) then 1 else 0)
      ensures readerId < old(|readPositions|) && old(readPositions[readerId] >= writePosition) ==>
        && base == old(base + TrailingReadPosition(readPositions))
        && writePosition == old(writePosition - TrailingReadPosition(readPositions)) + 1
        && buffer.Length == NewBufferLength(writePosition - 1)
      ensures readerId < old(|readPositions|) ==>
        (old(readPositions[readerId] < writePosition || TrailingReadPosition(readPositions) == 0) ==>
          && BufferValid()
          && r == Ok(ValueAt(source.bytes, old(Absolute(readerId))))
          && |readPositions| == old(|readPositions|)
          && Absolute(readerId) == old(Absolute(readerId)) + (if r.value == EOF then 0 else 1))
      ensures readerId < old(|readPositions|) ==>
        (old(readPositions[readerId] >= writePosition && TrailingReadPosition(readPositions) > 0) ==>
          r == if old(readPositions[readerId]) < buffer.Length then Ok(0) else Err(ArrayIndexOutOfBounds))
      ensures readerId < old(|readPositions|) && r == Ok(0) ==>
        (old(readPositions[readerId] >= writePosition && TrailingReadPosition(readPositions) > 0) ==>
          && |readPositions| == old(|readPositions|)
          && readPositions[readerId] == old(readPositions[readerId]) + 1 > writePosition)
    {
      if readerId >= |readPositions| {
        return Err(IndexOutOfBounds);
      }
      var nextPositionToRead := readPositions[readerId];

      // a reader at the frontier has nothing buffered left: refill first
      if nextPositionToRead >= writePosition {
        FetchFromSource(readerId);
      }

      r := DeliverFrom(readerId, nextPositionToRead);
    }

    /** onLastClosed: drop the buffer and forget every read position. */
    method OnLastClosed()
      requires BufferValid()
      modifies this
      ensures BufferValid()
      ensures fresh(buffer) && buffer.Length == 0 && readPositions == [] && delivered == []
      ensures writePosition == old(writePosition) && base == old(base)
    {
      buffer := new int[0];
      readPositions := [];
      delivered := [];
    }

    /**
     * get(): refused once any handle has been read; otherwise getNewHandle adds a read position
     * at the start of the stream, and the tracker counts a new proxy wrapping that handle (its
     * own refusal check, repeated there, then passes).
     */
    method Get() returns (r: Result<Handle>)
      requires Valid()
      modifies this, lifecycle
      ensures Valid()
      ensures old(lifecycle.onceActiveReaders) > 0 ==> r == Err(IllegalState) && unchanged(this, lifecycle)
      ensures old(lifecycle.onceActiveReaders) == 0 ==>
        && r == Ok(Handle(old(lifecycle.spawnedReaders), old(|readPositions|)))
        && readPositions == old(readPositions) + [0]
        && delivered == old(delivered) + [[]]
        && buffer == old(buffer) && writePosition == old(writePosition) && base == old(base)
      ensures old(lifecycle.onceActiveReaders) == 0 ==>
        && lifecycle.spawnedReaders == old(lifecycle.spawnedReaders) + 1
        && lifecycle.reportedActive == old(lifecycle.reportedActive) + [false]
        && lifecycle.reportedClosed == old(lifecycle.reportedClosed) + [false]
        && lifecycle.delegates == old(lifecycle.delegates) + [r.value.id]
        && lifecycle.closedReaders == old(lifecycle.closedReaders)
        && lifecycle.sourceCloses == old(lifecycle.sourceCloses)
        && lifecycle.events == old(lifecycle.events)
      ensures old(lifecycle.onceActiveReaders) == 0 ==> Absolute(r.value.id) == 0
      ensures lifecycle.onceActiveReaders == old(lifecycle.onceActiveReaders)
      ensures unchanged(source)
    {
      if lifecycle.onceActiveReaders > 0 {
        return Err(IllegalState);
      }
      var id := GetNewHandle();
      var proxy := lifecycle.Get(id);
      return Ok(Handle(proxy.value, id));
    }

    /**
     * read() on a handle: the proxy reports its first read to the tracker (which from then on
     * refuses new handles) and then hands the read on to the strategy's read(id), which returns
     * the value at the handle's offset in the stream.
     */
    method HandleRead(h: Handle) returns (r: Result<int>)
      requires Valid() && h.proxy < lifecycle.spawnedReaders && lifecycle.delegates[h.proxy] == h.id
      modifies this, source, lifecycle
      ensures Valid()
      ensures lifecycle.reportedActive == old(lifecycle.reportedActive)[h.proxy := true]
      ensures lifecycle.onceActiveReaders ==
        old(lifecycle.onceActiveReaders) + (if old(lifecycle.reportedActive[h.proxy]) then 0 else 1)
      ensures lifecycle.events == old(lifecycle.events)
        + (if !old(lifecycle.reportedActive[h.proxy]) && old(lifecycle.onceActiveReaders) == 0
           then [Lifecycle.FirstActive] else [])
        + [Lifecycle.ReadDelegated(h.proxy)]
      ensures lifecycle.spawnedReaders == old(lifecycle.spawnedReaders)
      ensures lifecycle.closedReaders == old(lifecycle.closedReaders)
      ensures lifecycle.reportedClosed == old(lifecycle.reportedClosed)
      ensures lifecycle.sourceCloses == old(lifecycle.sourceCloses)
      ensures lifecycle.delegates == old(lifecycle.delegates)
      ensures h.id >= old(|readPositions|) ==> r == Err(IndexOutOfBounds) && unchanged(this, source)
      ensures h.id < old(|readPositions|) ==>
        && r == Ok(ValueAt(source.bytes, old(Absolute(h.id))))
        && delivered == old(delivered)[h.id := old(delivered[h.id]) + [r.value]]
        && |readPositions| == old(|readPositions|)
        && Absolute(h.id) == old(Absolute(h.id)) + (if r.value == EOF then 0 else 1)
      ensures h.id < old(|readPositions|) ==>
        forall i :: 0 <= i < |readPositions| && i != h.id ==> Absolute(i) == old(Absolute(i))
      ensures h.id < old(|readPositions|) ==>
        source.pulls == old(source.pulls) + (if old(readPositions[h.id] >= writePosition) then 1 else 0)
    {
      lifecycle.OnRead(h.proxy);
      lifecycle.DelegateRead(h.proxy);
      r := Read(h.id);
    }

    /**
     * close() on a handle: the proxy hands the close on to the strategy's handle, which does
     * nothing, then reports its first close; the close that leaves no open handle closes the
     * source and drops the buffer.
     */
    method HandleClose(h: Handle) returns (lastClosed: bool)
      requires Valid() && h.proxy < lifecycle.spawnedReaders && lifecycle.delegates[h.proxy] == h.id
      modifies this, lifecycle
      ensures Valid()
      ensures lifecycle.reportedClosed == old(lifecycle.reportedClosed)[h.proxy := true]
      ensures lifecycle.closedReaders ==
        old(lifecycle.closedReaders) + (if old(lifecycle.reportedClosed[h.proxy]) then 0 else 1)
      ensures lastClosed <==>
        !old(lifecycle.reportedClosed[h.proxy]) && lifecycle.closedReaders == lifecycle.spawnedReaders
      ensures lifecycle.sourceCloses == old(lifecycle.sourceCloses) + (if lastClosed then 1 else 0)
      ensures lifecycle.events == old(lifecycle.events) + [Lifecycle.CloseDelegated(h.proxy)]
        + (if lastClosed then [Lifecycle.SourceClosed, Lifecycle.LastClosed] else [])
      ensures lifecycle.spawnedReaders == old(lifecycle.spawnedReaders)
      ensures lifecycle.onceActiveReaders == old(lifecycle.onceActiveReaders)
      ensures lifecycle.reportedActive == old(lifecycle.reportedActive)
      ensures lifecycle.delegates == old(lifecycle.delegates)
      ensures lastClosed ==>
        && readPositions == [] && delivered == [] && buffer.Length == 0
        && writePosition == old(writePosition) && base == old(base)
      ensures !lastClosed ==> unchanged(this)
    {
      lifecycle.DelegateClose(h.proxy);
      lastClosed := lifecycle.OnClose(h.proxy);
      if lastClosed {
        OnLastClosed();
      }
    }
  }
}
