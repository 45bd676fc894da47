# Azure Kinect body tracking: a Dafny model of the C# wrapper's core

This project models the core of the managed wrapper around the Azure Kinect
body-tracking engine, together with the PeopleAlerter sample that drives it:

- **Tracker** (module `Tracking`, `tracker.dfy`). The tracker has an input queue of
  captures and an output queue of body frames. `EnqueueCapture` and
  `PopResult` translate the native wait result into nothing, a
  `TimeoutException` or an `AzureKinectException`. `Shutdown` closes the
  input side. `Dispose` destroys the native handle once.
- **Frame** (`frame.dfy`). The frame accessors are `NumberOfBodies`,
  `GetBodySkeleton`, `GetBodyId`, `GetBodyIndexMap` and `DeviceTimestamp`.
  In the model, each returns its failure value when the handle cannot be
  used: 0, the default skeleton, `uint.MaxValue`, an empty map or timestamp 0. `Dispose` releases the native frame
  once.
- **The value types** (`skeleton.dfy`, `joint_id.dfy`, `joint_confidence.dfy`).
  These are `Body`, `Skeleton` and `Joint`, the 32 `JointId` values in
  declaration order, and the four `JointConfidenceLevel` values with their
  ordering. They also cover how the WPF renderer's tests use those levels.
- **PeopleAlerter** (`people_alerter.dfy`). The sample's `Process` loop runs
  one pass per capture: enqueue, pop, then compare this frame's body ids with
  the previous frame's. Ids that disappeared are reported as exited, and
  bodies whose id is new are reported as entered, each with its head joint.
  The ids are then remembered for the next pass.

The native engine is a parameter, `infer: Capture -> FrameData`. A tracker
holds it and is required to produce well-formed frames:
- every skeleton has 32 joints;
- at most int.MaxValue (2^31 - 1) bodies, so that both the wrapper's `(uint)`
  cast of the count and the sample's `(int)` cast keep it;
- every body-index-map value is either background or the index of a body.

The engine is sequential: `Tracker.Process` moves the oldest queued capture's
result into the output queue. Ghost histories (`processed`, `retrieved`)
record the order of events. Together with `Tracker.Valid` they give the
first-in-first-out promise: results come back in submission order.

Supporting files: `wrappers.dfy` (Option) and `native.dfy` (the native result
codes and constants).

## Model

| member | source | states |
|---|---|---|
| Native.WaitResultValue | src/csharp/SDK/Native/NativeMethods.cs:52-58 | the wait-result codes are 0, 1 and 2, and 0 is exactly success |
| Native.WaitResultFromValue | src/csharp/SDK/Native/NativeMethods.cs:52-58 | a native integer decodes to a wait result exactly when it is 0, 1 or 2, and it decodes to the result with that code |
| Native.WaitResultRoundTrip | src/csharp/SDK/Native/NativeMethods.cs:52-58 | encoding a wait result and decoding it gives back the same result |
| JointIds.Ordinal | src/csharp/SDK/JointId.cs:6-72 | every joint's numeric value is below the joint count, 32 |
| JointIds.DeclaredAt | src/csharp/SDK/JointId.cs:6-72 | the joint declared at position k has numeric value k |
| JointIds.FromOrdinal | src/csharp/SDK/JointId.cs:6-72 | an int names a joint exactly when it is in 0..31, and then it names the joint with that value (a C# enum cast never fails; only indexing with an unnamed value does) |
| JointIds.FromOrdinalOfOrdinal | src/csharp/SDK/JointId.cs:6-72 | casting a joint's value back gives the same joint |
| JointIds.OrdinalInjective | src/csharp/SDK/JointId.cs:6-72 | distinct joints have distinct values |
| JointIds.OrdinalOfFromOrdinal | src/csharp/SDK/JointId.cs:6-72 | every value in 0..31 names a joint whose value it is |
| JointIds.DeclarationOrderIsOrdinalOrder | src/csharp/SDK/JointId.cs:6-72 | the values follow declaration order with no gap: the list of all joints, indexed by value, is the enumeration in order |
| JointIds.KnownOrdinals | src/csharp/SDK/JointId.cs:9-71 | Pelvis is 0, Head is 26, and EarRight is the last joint (31) |
| JointConfidence.Ordinal | src/csharp/SDK/JointConfidenceLevel.cs:6-24 | levels take values 0..3, and 0 is exactly None |
| JointConfidence.FromOrdinal | src/csharp/SDK/JointConfidenceLevel.cs:6-24 | an int names a level exactly when it is in 0..3, and then it names the level with that value (a C# enum cast never fails) |
| JointConfidence.FromOrdinalOfOrdinal | src/csharp/SDK/JointConfidenceLevel.cs:6-24 | casting a level's value back gives the same level |
| JointConfidence.LessIsStrictTotalOrder | src/csharp/SDK/JointConfidenceLevel.cs:11-23 | comparing levels by value is irreflexive, transitive, total and asymmetric |
| JointConfidence.NoneIsLeast | src/csharp/SDK/JointConfidenceLevel.cs:9-11 | None is below every other level |
| JointConfidence.DrawnIffNotSkipped | src/csharp/Examples/WPF/SkeletonRenderer.cs:57-117 | the renderer's two tests agree: a joint is drawn (`> None`, line 57) exactly when the bone test (`== None`, line 117) does not skip it |
| JointConfidence.KnownOrdinals | src/csharp/SDK/JointConfidenceLevel.cs:11-23 | None is 0, Low is 1, Medium is 2 and High is 3 |
| JointConfidence.Less | src/csharp/SDK/JointConfidenceLevel.cs:11-23 | the `<` of two levels holds exactly for None below any other level, Low below Medium and High, and Medium below High |
| JointConfidence.Drawn | src/csharp/Examples/WPF/SkeletonRenderer.cs:57 | a joint is drawn exactly when its level is not None |
| JointConfidence.Skipped | src/csharp/Examples/WPF/SkeletonRenderer.cs:117 | a bone end is skipped exactly when its level has value 0 |
| JointConfidence.OnlyHighIsUnreported | src/csharp/SDK/JointConfidenceLevel.cs:17-22 | a fact about the enumeration only: High is the only level above Medium, the highest level the documentation says the current SDK reports; the engine's frames are not constrained by it |
| Skeletons.JointAt | src/csharp/SDK/Skeleton.cs:16-17 | indexing a skeleton's joints by a JointId succeeds exactly when the array is long enough, always for a 32-joint skeleton, and yields one of its joints |
| Skeletons.FullSkeletonJointsAddressable | src/csharp/SDK/Skeleton.cs:16-17 | in a 32-joint skeleton every JointId addresses its own slot, and distinct ids address distinct slots |
| Skeletons.DefaultSkeletonHasNoJoints | src/csharp/SDK/Frame.cs:50-54 | the failure skeleton has no joints, so no JointId can be read from it |
| Frames.IdsOf | src/csharp/SDK/Frame.cs:60-61 | a frame's ids, one per body in body order (position i holds body i's id), and exactly the ids its bodies carry |
| Frames.PixelBody | src/csharp/SDK/Frame.cs:70-73 | a body-index-map pixel has no body exactly when it is background (255); otherwise it names the body at that index of the same frame |
| Frames.Frame.constructor | src/csharp/SDK/Frame.cs:14-17 | a new frame holds a live handle to the engine's result, not yet released |
| Frames.Frame.Dispose | src/csharp/SDK/Frame.cs:20-37 | disposing releases the native frame exactly once, however often it is called |
| Frames.Frame.Visible | src/csharp/SDK/Frame.cs:12 | what the queries see is the frame's data while live, and always well formed when the data is |
| Frames.Frame.NumberOfBodies | src/csharp/SDK/Frame.cs:42-43 | the body count is 0 after release, and otherwise the number of bodies |
| Frames.Frame.GetBodySkeleton | src/csharp/SDK/Frame.cs:50-54 | a valid index yields that body's 32-joint skeleton, and any other index the default skeleton |
| Frames.Frame.GetBodyId | src/csharp/SDK/Frame.cs:60-61 | a valid index yields that body's id, and any other index uint.MaxValue |
| Frames.Frame.BodyIndexMap | src/csharp/SDK/Frame.cs:70-76 | a live frame yields its map; every value is background or below the body count |
| Frames.Frame.DeviceTimestamp | src/csharp/SDK/Frame.cs:90-94 | the timestamp is 0 exactly when the frame is unusable or its capture was taken at time 0; otherwise it is the frame's timestamp |
| Frames.ValidIndicesAreBelowCount | src/csharp/SDK/Frame.cs:42-61 | an index below NumberOfBodies is exactly one whose skeleton is not the failure value, and an index at or above it reads uint.MaxValue as its id |
| Frames.LiveFrameIds | src/csharp/SDK/Frame.cs:42-61 | on a live frame, GetBodyId(0..NumberOfBodies-1) lists the frame's body ids in body order |
| Tracking.CheckWait | src/csharp/SDK/Tracker.cs:75-82 | success throws nothing, a timeout throws TimeoutException, and a failure throws AzureKinectException, each exactly in its case |
| Tracking.CheckWaitInjective | src/csharp/SDK/Tracker.cs:75-82 | distinct wait results lead to distinct outcomes |
| Tracking.TimeoutMs | src/csharp/SDK/Tracker.cs:74 | `(int)timeout.TotalMilliseconds` truncates the span toward zero to whole milliseconds, and has no defined value exactly when the count falls outside the `int` range |
| Tracking.TruncatedTimeouts | src/csharp/SDK/Tracker.cs:42-104 | the parameterless overloads' -1 ms converts to the infinite wait, as does any span in (-2 ms, -1 ms]; any span in (-1 ms, 1 ms) converts to 0, a poll |
| Tracking.Inferred | src/csharp/SDK/Tracker.cs:56-62 | the engine's results for a capture sequence are one per capture, in the same order |
| Tracking.InferredAppend | src/csharp/SDK/Tracker.cs:56-62 | one more capture adds its own result at the end |
| Tracking.Tracker.constructor | src/csharp/SDK/Tracker.cs:27-34 | a new tracker has empty queues, is neither shut down nor disposed, and holds the engine and the queue capacity; like the C# object it keeps no configuration, whose only field is the native handle |
| Tracking.Tracker.Create | src/csharp/SDK/Tracker.cs:27-34 | construction throws AzureKinectException exactly when the native create fails; otherwise it gives a fresh tracker with empty queues that holds the given engine and queue capacity; the calibration and configuration go only to the native create |
| Tracking.Tracker.Full | src/csharp/SDK/Tracker.cs:59 | on a valid tracker, the queues are full exactly when one of them holds as many entries as the capacity |
| Tracking.Tracker.EnqueueWait | src/csharp/SDK/Tracker.cs:59-67 | the native enqueue succeeds exactly when the tracker is not shut down, the capture has depth and neither queue is full; it fails after shutdown and times out only when a queue is full |
| Tracking.Tracker.EnqueueCaptureWithin | src/csharp/SDK/Tracker.cs:71-83 | the outcome is the translated wait result; on success the capture joins the end of the input queue, and on any exception nothing changes |
| Tracking.Tracker.EnqueueCapture | src/csharp/SDK/Tracker.cs:40-43 | the overload without a timeout never throws TimeoutException, and otherwise behaves as the timed overload |
| Tracking.Tracker.Process | src/csharp/SDK/Tracker.cs:56-58 | the oldest queued capture leaves the input queue, and its result joins the end of the output queue |
| Tracking.Tracker.PopWait | src/csharp/SDK/Tracker.cs:97-99 | the native pop succeeds exactly when a result is queued, even after shutdown, and fails exactly when the tracker is shut down with both queues empty |
| Tracking.Tracker.PopResultWithin | src/csharp/SDK/Tracker.cs:102-114 | the outcome is the translated wait result; on success the oldest result is removed and returned as a fresh live Frame, and on an exception the queues are unchanged |
| Tracking.Tracker.PopResult | src/csharp/SDK/Tracker.cs:88 | the overload without a timeout never throws TimeoutException; it returns exactly when a result is queued, and otherwise throws AzureKinectException |
| Tracking.Tracker.Shutdown | src/csharp/SDK/Tracker.cs:127-141 | the tracker is shut down, and both queues are kept for later pops |
| Tracking.Tracker.Dispose | src/csharp/SDK/Tracker.cs:144-161 | disposing destroys the native tracker exactly once, however often it is called |
| Tracking.RetrievedInSubmissionOrder | src/csharp/SDK/Tracker.cs:56-62 | results come back first in, first out: the k-th frame popped and the frames still queued are the engine's results for the captures in submission order |
| Tracking.FullQueueRefusesCaptures | src/csharp/SDK/Tracker.cs:59 | while a queue is full no capture is accepted; a depth capture to a running tracker times out |
| PeopleAlerter.Indexed | src/csharp/Examples/PeopleAlerter/Program.cs:85 | the (index, id) list pairs each id with its position, in increasing index order, and dropping the indices gives the ids back |
| PeopleAlerter.Ids | src/csharp/Examples/PeopleAlerter/Program.cs:86-99 | selecting the ids keeps one id per entry, and exactly the ids the entries carry |
| PeopleAlerter.ExceptFrom | src/csharp/Examples/PeopleAlerter/Program.cs:86 | set difference as LINQ `Except` computes it: the values of the first list not excluded, each once |
| PeopleAlerter.Except | src/csharp/Examples/PeopleAlerter/Program.cs:86 | the previous ids missing from the current ids, each once |
| PeopleAlerter.Entered | src/csharp/Examples/PeopleAlerter/Program.cs:87 | the current entries whose id the previous round lacked, kept in index order |
| PeopleAlerter.Arrivals | src/csharp/Examples/PeopleAlerter/Program.cs:92-95 | one arrival per entered entry, in the same order, with its index and id and the head joint of the body at that index |
| PeopleAlerter.ReportFor | src/csharp/Examples/PeopleAlerter/Program.cs:85-98 | one round's report: the exited ids are exactly the previous ids not in the frame, each once; the arrivals are listed in strictly increasing body index, so there is at most one per body |
| PeopleAlerter.HeadOf | src/csharp/Examples/PeopleAlerter/Program.cs:94-95 | the head joint is the skeleton's joint at JointId.Head |
| PeopleAlerter.EnteredIndicesInFrame | src/csharp/Examples/PeopleAlerter/Program.cs:87-94 | every entered index is a body index of the current frame, so GetBodySkeleton succeeds for it |
| PeopleAlerter.EnteredComplete | src/csharp/Examples/PeopleAlerter/Program.cs:87-95 | body i is reported as entered, with its index, id and head, exactly when its id is not among the previous ids |
| PeopleAlerter.EnteredSound | src/csharp/Examples/PeopleAlerter/Program.cs:87-95 | every reported arrival names a body of the frame by its index, with that body's id, and that id is new |
| PeopleAlerter.EnteredInIndexOrder | src/csharp/Examples/PeopleAlerter/Program.cs:92 | arrivals are reported in increasing body index |
| PeopleAlerter.ReportContents | src/csharp/Examples/PeopleAlerter/Program.cs:85-98 | one round's full report: the exited ids are the previous ids not in the frame, each once; the arrivals are exactly the new bodies, in index order |
| PeopleAlerter.EnteredAndExitedDisjoint | src/csharp/Examples/PeopleAlerter/Program.cs:86-87 | no id is reported as both exited and entered in one round |
| PeopleAlerter.FirstFrameReportsEveryone | src/csharp/Examples/PeopleAlerter/Program.cs:72 | with the initial empty id list, every body of the first frame enters, in index order, and nobody exits |
| PeopleAlerter.EnteredWithNothingBefore | src/csharp/Examples/PeopleAlerter/Program.cs:87 | with no previous ids, the entered list is the whole current list |
| PeopleAlerter.SameIdsReportNothing | src/csharp/Examples/PeopleAlerter/Program.cs:86-87 | a frame with the same ids as the previous round reports nobody entering or exiting |
| PeopleAlerter.RunReports | src/csharp/Examples/PeopleAlerter/Program.cs:78-102 | a run whose rounds compare each frame with the ids of the one before produces one report per frame |
| PeopleAlerter.RunReportsAppend | src/csharp/Examples/PeopleAlerter/Program.cs:78-102 | one more frame adds one report, which compares it with the ids of the last frame, and leaves the earlier reports unchanged |
| PeopleAlerter.AllWellFormedAppend | src/csharp/Examples/PeopleAlerter/Program.cs:78-102 | a frame the engine produces keeps the run's frames well formed |
| PeopleAlerter.Trace | src/csharp/Examples/PeopleAlerter/Program.cs:78-102 | a run over n frames produces n reports |
| PeopleAlerter.TraceAppend | src/csharp/Examples/PeopleAlerter/Program.cs:78-102 | one more frame adds one report, which compares it with the ids of the last frame |
| PeopleAlerter.TraceAt | src/csharp/Examples/PeopleAlerter/Program.cs:99 | round k is compared with round k-1's ids, and round 0 with the starting ids |
| PeopleAlerter.TraceIsSetDifferences | src/csharp/Examples/PeopleAlerter/Program.cs:85-99 | over a run, round k reports exited = ids(k-1) minus ids(k) and entered ids = ids(k) minus ids(k-1) |
| PeopleAlerter.DepthPrefix | src/csharp/Examples/PeopleAlerter/Program.cs:78-82 | the captures the loop gets through form the longest prefix of captures with depth data |
| PeopleAlerter.ArrivalsOf | src/csharp/Examples/PeopleAlerter/Program.cs:92-98 | the loop over entered bodies collects, in order, each one's index, id and head joint, read from the frame |
| PeopleAlerter.Alerter.constructor | src/csharp/Examples/PeopleAlerter/Program.cs:72 | the alerter starts with no remembered ids |
| PeopleAlerter.Alerter.Step | src/csharp/Examples/PeopleAlerter/Program.cs:85-99 | one pass reports the exits and arrivals of the frame against the remembered ids, then remembers exactly the frame's ids, one per body |
| PeopleAlerter.Iterate | src/csharp/Examples/PeopleAlerter/Program.cs:80-101 | one loop pass returns the report for the engine's result for the capture exactly when the capture has depth; otherwise it throws AzureKinectException and changes nothing; the frame is disposed and the tracker is left idle |
| PeopleAlerter.InferredStep | src/csharp/Examples/PeopleAlerter/Program.cs:80-84 | one more accepted capture extends the engine's results by its own result |
| PeopleAlerter.TraceStep | src/csharp/Examples/PeopleAlerter/Program.cs:85-99 | one more frame extends the trace by that round's report, and its ids become the ones remembered |
| PeopleAlerter.RunAdvance | src/csharp/Examples/PeopleAlerter/Program.cs:78-102 | one more accepted capture extends the run's frames by its result and its reports by that round's report |
| PeopleAlerter.Run | src/csharp/Examples/PeopleAlerter/Program.cs:74-103 | the loop produces the trace of reports for the captures up to the first without depth; it ends with AzureKinectException exactly when there is such a capture; the tracker has accepted exactly those captures |

## Left out

- Tracking.Tracker.EnqueueCapture: requires that the wait not time out. In .NET an infinite wait on a full queue lasts until another thread makes room, and a sequential model cannot express that. EnqueueCaptureWithin carries the same requirement for timeout -1.
- Tracking.Tracker.PopResult: requires that the wait not time out, for the same reason. With an empty output queue and a capture still queued, it would wait for the engine. PopResultWithin carries the same requirement for timeout -1.
- PeopleAlerter.Alerter.Step: a frame with more than int.MaxValue bodies is excluded by the engine assumption `WellFormed`. On such a frame the sample's `(int)` cast of NumberOfBodies (src/csharp/Examples/PeopleAlerter/Program.cs:85) is negative and Enumerable.Range throws ArgumentOutOfRangeException; that exception is not modelled.
- Tracking.Tracker.PopWait: an unbounded wait for the engine is not modelled. Without a queued result, a tracker that is not shut down, or one still holding input, reports a timeout. The engine's work is the explicit step Tracker.Process.
- Tracking.Tracker.EnqueueCaptureWithin: the parameter is the millisecond count after the `(int)timeout.TotalMilliseconds` conversion (src/csharp/SDK/Tracker.cs:74). Tracking.TimeoutMs models that conversion separately, but the method does not take a TimeSpan, so a span whose count is out of the `int` range (where the cast is unspecified) is not modelled. Every count other than -1, negative ones included, is treated as a finite wait; the engine's handling of other negative values is not part of this model.
- Tracking.Tracker.PopResultWithin: the same holds for its timeout (src/csharp/SDK/Tracker.cs:104). The parameter is the converted millisecond count, an out-of-range span is not modelled, and every count other than -1, negative ones included, is treated as a finite wait.
- Frames.Frame.NumberOfBodies: after Dispose it returns 0. It passes the raw pointer (src/csharp/SDK/Frame.cs:43), so the released handle reaches the native library; that library's answer for a released handle is not part of this model, and 0 stands for it.
- Frames.Frame.GetBodySkeleton: after Dispose it returns the default skeleton. It passes the SafeHandle itself (src/csharp/SDK/Frame.cs:52), so in .NET it throws ObjectDisposedException, which is not modelled.
- Frames.Frame.GetBodyId: after Dispose it returns uint.MaxValue. It passes the SafeHandle itself (src/csharp/SDK/Frame.cs:61), so in .NET it throws ObjectDisposedException, which is not modelled.
- Frames.Frame.BodyIndexMap: after Dispose it returns an empty map. GetBodyIndexMap passes the SafeHandle itself (src/csharp/SDK/Frame.cs:80), so in .NET it throws ObjectDisposedException, which is not modelled.
- Frames.Frame.DeviceTimestamp: after Dispose it returns 0. It passes the SafeHandle itself (src/csharp/SDK/Frame.cs:94), so in .NET it throws ObjectDisposedException, which is not modelled.
- Frames.Frame.Dispose: the SDK memory that a popped frame holds until it is disposed (src/csharp/SDK/Tracker.cs:60, 100) is not modelled. The tracker's capacity counts only its two queues, so a frame that is never disposed does not delay an enqueue or a pop in this model.
- Tracker methods after Dispose are excluded by a `!disposed` precondition. EnqueueCapture and PopResult pass the raw pointer (src/csharp/SDK/Tracker.cs:74, 104), so a released handle would reach the native library; Shutdown and SetTemporalSmoothing pass the SafeHandle and would throw ObjectDisposedException. Neither behaviour is modelled.
- Engine-internal failures (low memory, other unexpected native issues) are not modelled. A missing depth image and shutdown are the only enqueue failures.
- The engine's own state is not modelled: temporal tracking of ids across frames, and the skeleton geometry.
- SetTemporalSmoothing (src/csharp/SDK/Tracker.cs:122-125) is left out. It only forwards a float to the engine, whose smoothing is not modelled.
- Floating point is left out. Joint positions and orientations are reals that are carried along but never computed with. The sample's distance (square root, division by 1000) and its console formatting are not modelled; an arrival carries the head joint instead.
- Console output, `async`/`Task.Run`, `lock`, the cancellation token and disposal of the Capture object are left out. Cancellation is modelled as the end of the given capture list.
- Reflection is left out: the way the wrapper fetches the capture's native handle and builds a `Sensor.Image` in GetBodyIndexMap. The map is modelled as its pixel values.
- Skeletons.DefaultSkeleton: C#'s `default(Skeleton)` has a null `Joints` array. It is modelled as an empty joint list, so indexing it fails in both.
- Both queues share one capacity (at least three, the minimum buffering the documentation promises). The engine's actual queue sizes are not part of this model.
- The background value 255 of the body-index map comes from the native body-tracking header, which is not part of this model.
- The WPF sample's window and drawing code are left out. Only its two confidence tests are modelled.
- Device opening, calibration and the native create call are left out. Their result is a parameter of Tracking.Tracker.Create.
