/**
 * The body tracker (`Tracker`): a native engine behind a handle, fed through a
 * bounded input queue of captures and drained through a bounded output queue
 * of results. The engine itself is an abstract step (`Process`) that turns
 * the oldest queued capture into a result frame. Blocking is modelled
 * sequentially: nothing else runs while a call waits, so a finite wait on a
 * full (or, for `PopResult`, empty) queue ends in a timeout and nothing is
 * dropped.
 */
module Tracking {

  import opened Wrappers
  import opened Native
  import opened Frames

  datatype SensorOrientation = Default | Clockwise90 | CounterClockwise90 | Flip180

  datatype TrackerConfiguration = TrackerConfiguration(
    sensorOrientation: SensorOrientation,
    cpuOnly: bool)

  const DefaultTrackerConfiguration: TrackerConfiguration := TrackerConfiguration(Default, false)

  /** The depth camera's calibration, passed through to the engine unread. */
  datatype Calibration = Calibration(raw: seq<uint8>)

  /** A sensor capture, as far as the tracker looks at it. */
  datatype Capture = Capture(serial: nat, hasDepth: bool)

  /** The exceptions the wrapper throws. */
  datatype Exception = TimeoutException | AzureKinectException

  /** A call of the wrapper either returns a value or throws. */
  datatype Outcome<T> = Returned(value: T) | Threw(exception: Exception)

  /** `(int)TimeSpan.FromMilliseconds(-1).TotalMilliseconds`: wait without limit. */
  const InfiniteTimeout: int := -1

  /** `TimeSpan.TicksPerMillisecond`: a tick is 100 ns. */
  const TicksPerMillisecond: int := 10000

  /**
   * `(int)timeout.TotalMilliseconds` for a span of `ticks`: the millisecond
   * count truncated toward zero, or `None` when it does not fit an `int`,
   * where the C# cast leaves the result unspecified.
   */
  function TimeoutMs(ticks: int): (ms: Option<int>)
    ensures ms.None? <==>
      ticks <= -(MaxInt32 + 2) * TicksPerMillisecond || ticks >= (MaxInt32 + 1) * TicksPerMillisecond
    ensures ms.Some? ==> -(MaxInt32 + 1) <= ms.value <= MaxInt32
    ensures ms.Some? && ticks >= 0 ==>
      ms.value * TicksPerMillisecond <= ticks < (ms.value + 1) * TicksPerMillisecond
    ensures ms.Some? && ticks < 0 ==>
      (ms.value - 1) * TicksPerMillisecond < ticks <= ms.value * TicksPerMillisecond
  {
    var truncated := if ticks >= 0 then ticks / TicksPerMillisecond else -((-ticks) / TicksPerMillisecond);
    if -(MaxInt32 + 1) <= truncated <= MaxInt32 then Some(truncated) else None
  }

  /**
   * The overloads without a timeout pass `TimeSpan.FromMilliseconds(-1)`,
   * which converts to the infinite wait; so does any span in (-2 ms, -1 ms],
   * while a span in (-1 ms, 1 ms) converts to 0, a poll.
   */
  lemma TruncatedTimeouts(ticks: int)
    ensures TimeoutMs(-TicksPerMillisecond) == Some(InfiniteTimeout)
    ensures -2 * TicksPerMillisecond < ticks <= -TicksPerMillisecond ==> TimeoutMs(ticks) == Some(InfiniteTimeout)
    ensures -TicksPerMillisecond < ticks < TicksPerMillisecond ==> TimeoutMs(ticks) == Some(0)
  {
  }

  /** The engine buffers at least this many results before it stops taking captures. */
  const MinBufferedFrames: nat := 3

  /** The exception the wrapper throws for a native wait result; `None` means it returns normally. */
  function CheckWait(w: WaitResult): (thrown: Option<Exception>)
    ensures thrown.None? <==> w == WaitSucceeded
    ensures thrown == Some(TimeoutException) <==> w == WaitTimeout
    ensures thrown == Some(AzureKinectException) <==> w == WaitFailed
  {
    match w
    case WaitSucceeded => None
    case WaitTimeout => Some(TimeoutException)
    case WaitFailed => Some(AzureKinectException)
  }

  /** Distinct native outcomes stay distinguishable after translation. */
  lemma CheckWaitInjective(a: WaitResult, b: WaitResult)
    ensures CheckWait(a) == CheckWait(b) ==> a == b
  {
  }

  /** The results the engine produces for a sequence of captures, in order. */
  function Inferred(infer: Capture -> FrameData, captures: seq<Capture>): (results: seq<FrameData>)
    ensures |results| == |captures|
    ensures forall i :: 0 <= i < |captures| ==> results[i] == infer(captures[i])
  {
    seq(|captures|, i requires 0 <= i < |captures| => infer(captures[i]))
  }

  lemma InferredAppend(infer: Capture -> FrameData, s: seq<Capture>, c: Capture)
    ensures Inferred(infer, s + [c]) == Inferred(infer, s) + [infer(c)]
  {
  }

  class Tracker {
    /** Capacity of each of the two queues. */
    const capacity: nat
    /** The inference engine: the result it produces for a capture. */
    const infer: Capture -> FrameData

    /** Captures waiting for the engine, oldest first. */
    var inputQ: seq<Capture>
    /** Results waiting to be popped, oldest first. */
    var outputQ: seq<FrameData>
    var isShutdown: bool
    /** Whether `Dispose` has released the native handle. */
    var disposed: bool

    /** Captures the engine has already turned into results, in order. */
    ghost var processed: seq<Capture>
    /** Results already popped, in order. */
    ghost var retrieved: seq<FrameData>
    /** How many times `k4abt_tracker_destroy` has run on the handle. */
    ghost var nativeDestroys: nat

    ghost predicate Valid()
      reads this
    {
      && capacity >= MinBufferedFrames
      && |inputQ| <= capacity
      && |outputQ| <= capacity
      && (forall c :: WellFormed(infer(c)))
      && retrieved + outputQ == Inferred(infer, processed)
      && nativeDestroys == (if disposed then 1 else 0)
    }

    /** Open for submissions, with nothing waiting in either queue. */
    ghost predicate Idle()
      reads this
    {
      Valid() && !disposed && !isShutdown && inputQ == [] && outputQ == []
    }

    /** Every capture the tracker ever accepted, in submission order. */
    ghost function Accepted(): seq<Capture>
      reads this
    {
      processed + inputQ
    }

    /** A new tracker with empty queues; the engine buffers `capacity` items per queue. */
    constructor (capacity: nat, infer: Capture -> FrameData)
      requires capacity >= MinBufferedFrames
      requires forall c :: WellFormed(infer(c))
      ensures Valid()
      ensures this.capacity == capacity && this.infer == infer
      ensures inputQ == [] && outputQ == [] && !isShutdown && !disposed
      ensures processed == [] && retrieved == []
    {
      this.capacity := capacity;
      this.infer := infer;
      inputQ, outputQ := [], [];
      isShutdown, disposed := false, false;
      processed, retrieved := [], [];
      nativeDestroys := 0;
    }

    /**
     * `new Tracker(calibration, configuration)`: throws when the native create
     * reports failure, and otherwise yields a running tracker. The calibration
     * and the configuration only go to the native create, whose outcome is
     * `created`; the managed object keeps neither.
     */
    static method Create(
      calibration: Calibration, configuration: TrackerConfiguration, created: ResultCode,
      capacity: nat, infer: Capture -> FrameData)
      returns (r: Outcome<Tracker>)
      requires capacity >= MinBufferedFrames
      requires forall c :: WellFormed(infer(c))
      ensures r.Threw? <==> created == Failed
      ensures r.Threw? ==> r.exception == AzureKinectException
      ensures r.Returned? ==> fresh(r.value) && r.value.Valid()
      ensures r.Returned? ==> r.value.inputQ == [] && r.value.outputQ == []
      ensures r.Returned? ==> !r.value.isShutdown && !r.value.disposed && r.value.Accepted() == []
      ensures r.Returned? ==> r.value.infer == infer && r.value.capacity == capacity
    {
      if created == Failed {
        return Threw(AzureKinectException);
      }
      var t := new Tracker(capacity, infer);
      r := Returned(t);
    }

    /** Either queue is full, so an enqueue has to wait; in a valid tracker, full means at capacity. */
    predicate Full(): (full: bool)
      reads this
      ensures Valid() ==> (full <==> |inputQ| == capacity || |outputQ| == capacity)
    {
      |inputQ| >= capacity || |outputQ| >= capacity
    }

    /** What the native enqueue reports once its wait, if any, is over. */
    function EnqueueWait(capture: Capture): (w: WaitResult)
      reads this
      ensures w == WaitSucceeded <==> !isShutdown && capture.hasDepth && !Full()
      ensures isShutdown ==> w == WaitFailed
      ensures w == WaitTimeout ==> Full()
    {
      if isShutdown then WaitFailed
      else if !capture.hasDepth then WaitFailed
      else if Full() then WaitTimeout
      else WaitSucceeded
    }

    /**
     * `EnqueueCapture(capture, timeout)`. An infinite wait on a full queue only
     * ends when another thread makes room, which the sequential model cannot
     * express, so callers must not make one.
     */
    method EnqueueCaptureWithin(capture: Capture, timeoutMs: int) returns (thrown: Option<Exception>)
      requires Valid() && !disposed
      requires timeoutMs == InfiniteTimeout ==> EnqueueWait(capture) != WaitTimeout
      modifies this
      ensures Valid()
      ensures thrown == CheckWait(old(EnqueueWait(capture)))
      ensures thrown.None? ==> inputQ == old(inputQ) + [capture]
      ensures thrown.Some? ==> inputQ == old(inputQ)
      ensures Accepted() == if thrown.None? then old(Accepted()) + [capture] else old(Accepted())
      ensures outputQ == old(outputQ) && processed == old(processed) && retrieved == old(retrieved)
      ensures isShutdown == old(isShutdown) && disposed == old(disposed)
      ensures nativeDestroys == old(nativeDestroys)
    {
      var w := EnqueueWait(capture);
      if w == WaitSucceeded {
        inputQ := inputQ + [capture];
      }
      thrown := CheckWait(w);
    }

    /** `EnqueueCapture(capture)`: waits without limit, so it never throws a timeout. */
    method EnqueueCapture(capture: Capture) returns (thrown: Option<Exception>)
      requires Valid() && !disposed
      requires EnqueueWait(capture) != WaitTimeout
      modifies this
      ensures Valid()
      ensures thrown != Some(TimeoutException)
      ensures thrown == CheckWait(old(EnqueueWait(capture)))
      ensures thrown.None? ==> inputQ == old(inputQ) + [capture]
      ensures thrown.Some? ==> inputQ == old(inputQ)
      ensures outputQ == old(outputQ) && processed == old(processed) && retrieved == old(retrieved)
      ensures isShutdown == old(isShutdown) && disposed == old(disposed)
      ensures nativeDestroys == old(nativeDestroys)
    {
      thrown := EnqueueCaptureWithin(capture, InfiniteTimeout);
    }

    /** The engine takes the oldest queued capture and queues its result. */
    method Process()
      requires Valid() && !disposed
      requires |inputQ| > 0 && |outputQ| < capacity
      modifies this
      ensures Valid()
      ensures inputQ == old(inputQ)[1..]
      ensures outputQ == old(outputQ) + [infer(old(inputQ)[0])]
      ensures processed == old(processed) + [old(inputQ)[0]]
      ensures Accepted() == old(Accepted())
      ensures retrieved == old(retrieved)
      ensures isShutdown == old(isShutdown) && disposed == old(disposed)
      ensures nativeDestroys == old(nativeDestroys)
    {
      var c := inputQ[0];
      InferredAppend(infer, processed, c);
      assert processed + inputQ == (processed + [c]) + inputQ[1..];
      processed := processed + [c];
      inputQ := inputQ[1..];
      outputQ := outputQ + [infer(c)];
    }

    /**
     * What the native pop reports once its wait, if any, is over: a queued
     * result is handed out even after shutdown; once shut down with nothing
     * left in either queue it fails at once.
     */
    function PopWait(): (w: WaitResult)
      reads this
      ensures w == WaitSucceeded <==> |outputQ| > 0
      ensures w == WaitFailed <==> |outputQ| == 0 && isShutdown && |inputQ| == 0
    {
      if |outputQ| > 0 then WaitSucceeded
      else if isShutdown && |inputQ| == 0 then WaitFailed
      else WaitTimeout
    }

    /**
     * `PopResult(timeout)`: the oldest result, removed from the output queue
     * and wrapped in a new `Frame`. An infinite wait on an empty queue that can
     * still receive a result is excluded as for `EnqueueCaptureWithin`.
     */
    method PopResultWithin(timeoutMs: int) returns (r: Outcome<Frame>)
      requires Valid() && !disposed
      requires timeoutMs == InfiniteTimeout ==> PopWait() != WaitTimeout
      modifies this
      ensures Valid()
      ensures r.Returned? <==> CheckWait(old(PopWait())).None?
      ensures r.Threw? ==> CheckWait(old(PopWait())) == Some(r.exception)
      ensures r.Returned? ==> fresh(r.value) && r.value.Valid() && !r.value.released
      ensures r.Returned? ==> r.value.data == old(outputQ)[0] && outputQ == old(outputQ)[1..]
      ensures r.Returned? ==> retrieved == old(retrieved) + [r.value.data]
      ensures r.Threw? ==> outputQ == old(outputQ) && retrieved == old(retrieved)
      ensures inputQ == old(inputQ) && processed == old(processed)
      ensures isShutdown == old(isShutdown) && disposed == old(disposed)
      ensures nativeDestroys == old(nativeDestroys)
    {
      var w := PopWait();
      match CheckWait(w)
      case Some(e) =>
        r := Threw(e);
      case None =>
        var d := outputQ[0];
        assert WellFormed(d) by {
          assert Inferred(infer, processed)[|retrieved|] == d;
        }
        assert (retrieved + [d]) + outputQ[1..] == retrieved + outputQ;
        retrieved := retrieved + [d];
        outputQ := outputQ[1..];
        var f := new Frame(d);
        r := Returned(f);
    }

    /** `PopResult()`: waits without limit, so it never throws a timeout. */
    method PopResult() returns (r: Outcome<Frame>)
      requires Valid() && !disposed
      requires PopWait() != WaitTimeout
      modifies this
      ensures Valid()
      ensures r != Threw(TimeoutException)
      ensures r.Returned? <==> old(|outputQ|) > 0
      ensures r.Threw? ==> r.exception == AzureKinectException
      ensures r.Returned? ==> fresh(r.value) && r.value.Valid() && !r.value.released
      ensures r.Returned? ==> r.value.data == old(outputQ)[0] && outputQ == old(outputQ)[1..]
      ensures r.Returned? ==> retrieved == old(retrieved) + [r.value.data]
      ensures r.Threw? ==> outputQ == old(outputQ) && retrieved == old(retrieved)
      ensures inputQ == old(inputQ) && processed == old(processed)
      ensures isShutdown == old(isShutdown) && disposed == old(disposed)
      ensures nativeDestroys == old(nativeDestroys)
    {
      r := PopResultWithin(InfiniteTimeout);
    }

    /** `Shutdown`: from now on every enqueue fails at once. */
    method Shutdown()
      requires Valid() && !disposed
      modifies this
      ensures Valid()
      ensures isShutdown
      ensures inputQ == old(inputQ) && outputQ == old(outputQ)
      ensures processed == old(processed) && retrieved == old(retrieved)
      ensures disposed == old(disposed) && nativeDestroys == old(nativeDestroys)
    {
      isShutdown := true;
    }

    /** `Dispose`: destroys the native tracker; a second call does nothing. */
    method Dispose()
      requires Valid()
      modifies this
      ensures Valid()
      ensures disposed && nativeDestroys == 1
      ensures old(disposed) ==> nativeDestroys == old(nativeDestroys)
      ensures inputQ == old(inputQ) && outputQ == old(outputQ) && isShutdown == old(isShutdown)
      ensures processed == old(processed) && retrieved == old(retrieved)
    {
      if !disposed {
        disposed := true;
        nativeDestroys := nativeDestroys + 1;
      }
    }
  }

  /** Results come out in the order their captures went in, and none is lost or invented. */
  lemma RetrievedInSubmissionOrder(t: Tracker)
    requires t.Valid()
    ensures |t.retrieved| + |t.outputQ| + |t.inputQ| == |t.Accepted()|
    ensures forall k :: 0 <= k < |t.retrieved| ==> t.retrieved[k] == t.infer(t.Accepted()[k])
    ensures forall k :: 0 <= k < |t.outputQ| ==>
      t.outputQ[k] == t.infer(t.Accepted()[|t.retrieved| + k])
  {
    var all := t.retrieved + t.outputQ;
    forall k | 0 <= k < |t.retrieved| ensures t.retrieved[k] == t.infer(t.Accepted()[k]) {
      assert all[k] == t.retrieved[k];
    }
    forall k | 0 <= k < |t.outputQ| ensures t.outputQ[k] == t.infer(t.Accepted()[|t.retrieved| + k]) {
      assert all[|t.retrieved| + k] == t.outputQ[k];
    }
  }

  /** Backpressure: a full queue makes an enqueue wait or fail, never drop or overflow. */
  lemma FullQueueRefusesCaptures(t: Tracker, c: Capture)
    requires t.Valid() && t.Full()
    ensures t.EnqueueWait(c) != WaitSucceeded
    ensures !t.isShutdown && c.hasDepth ==> CheckWait(t.EnqueueWait(c)) == Some(TimeoutException)
  {
  }
}
