/** The byte source every demultiplexer fans out, and the failures its callers see. */
module Streams {

  /** What `InputStream.read()` returns once the stream is exhausted. */
  const EOF: int := -1

  predicate IsByte(b: int) { 0 <= b < 256 }

  predicate AllBytes(s: seq<int>) { forall i :: 0 <= i < |s| ==> IsByte(s[i]) }

  /** The exceptions the modelled Java code throws. */
  datatype Error =
    | IllegalState          // AbstractDemux.get after a handle has been read
    | UnsupportedOperation  // AbstractInputStreamDemux.get after a handle has been read
    | IndexOutOfBounds      // readPositions.get with an id the list no longer holds
    | ArrayIndexOutOfBounds // an int[] access outside the array
    | HookFailed            // an overridden lifecycle hook threw

  datatype Result<T> = Ok(value: T) | Err(error: Error)

  datatype Outcome = Pass | Fail(error: Error)

  /** The value the k-th (0-based) call of `read()` on a stream over `bytes` returns. */
  function ValueAt(bytes: seq<int>, k: nat): (b: int)
    requires AllBytes(bytes)
    ensures b == EOF <==> k >= |bytes|
  {
    if k < |bytes| then bytes[k] else EOF
  }

  /** The values `n` successive calls of `read()` on a fresh stream over `bytes` return. */
  function Observed(bytes: seq<int>, n: nat): (r: seq<int>)
    requires AllBytes(bytes)
    ensures |r| == n
  {
    seq(n, k requires 0 <= k < n => ValueAt(bytes, k))
  }

  /** One more read extends what has been observed by the value at the next offset. */
  lemma ObservedExtend(bytes: seq<int>, n: nat)
    requires AllBytes(bytes)
    ensures Observed(bytes, n + 1) == Observed(bytes, n) + [ValueAt(bytes, n)]
  {
    assert Observed(bytes, n + 1)[..n] == Observed(bytes, n);
  }

  /**
   * A reader that has called `read()` n times has seen the source itself, or all of it
   * followed by nothing but end-of-stream markers: the source up to and including its first EOF.
   */
  lemma ObservedIsSourceThenEof(bytes: seq<int>, n: nat)
    requires AllBytes(bytes)
    ensures n <= |bytes| ==> Observed(bytes, n) == bytes[..n]
    ensures n > |bytes| ==> Observed(bytes, n)[..|bytes| + 1] == bytes + [EOF]
    ensures forall k :: 0 <= k < n ==> (Observed(bytes, n)[k] == EOF <==> k >= |bytes|)
  {
    if n > |bytes| {
      assert Observed(bytes, n)[..|bytes| + 1] == bytes + [EOF];
    }
  }

  /**
   * The single, forward-only source. `bytes` is what it will produce; `pulls` counts the
   * calls of `read()` made on it, so the next call returns `ValueAt(bytes, pulls)`.
   */
  class ByteSource {
    const bytes: seq<int>
    var pulls: nat

    ghost predicate Valid()
      reads this
    {
      AllBytes(bytes)
    }

    constructor (bytes: seq<int>)
      requires AllBytes(bytes)
      ensures Valid() && this.bytes == bytes && pulls == 0
    {
      this.bytes := bytes;
      pulls := 0;
    }

    /** `InputStream.read()`: the next byte, or EOF forever once the bytes are exhausted. */
    method Read() returns (b: int)
      requires Valid()
      modifies this
      ensures Valid() && pulls == old(pulls) + 1
      ensures b == ValueAt(bytes, old(pulls))
    {
      b := if pulls < |bytes| then bytes[pulls] else EOF;
      pulls := pulls + 1;
    }
  }
}
