/**
 * The people-alerter driver: each round it submits a capture, pops the
 * result, and compares the body ids of the result with those of the previous
 * result, reporting the ids that left and the bodies that entered the view
 * (with the head joint of each newcomer). The previous ids are kept in
 * `Alerter.bodyIds`, which each round replaces.
 */
module PeopleAlerter {

  import opened Wrappers
  import opened Native
  import opened Skeletons
  import opened Frames
  import opened Tracking
  import JointIds

  /** One element of `currentIds`: a body index and the id read at that index. */
  datatype Entry = Entry(index: uint32, id: uint32)

  /** A body that entered the view: where it is in the frame, its id, and its head joint. */
  datatype Arrival = Arrival(index: uint32, id: uint32, head: Joint)

  /** What one round reports: the ids that exited and the bodies that entered. */
  datatype Report = Report(exited: seq<uint32>, entered: seq<Arrival>)

  /**
   * `Enumerable.Range(0, n).Select(i => (index: i, id: ids[i]))`: each id
   * paired with its position. Dropping the positions gives the ids back.
   */
  function Indexed(ids: seq<uint32>): (entries: seq<Entry>)
    requires |ids| < UInt32Range
    ensures Ids(entries) == ids
    ensures InIndexOrder(entries)
    ensures forall e :: e in entries ==> e.index as int < |ids| && ids[e.index] == e.id
  {
    var entries := seq(|ids|, i requires 0 <= i < |ids| => Entry(i as uint32, ids[i]));
    assert Ids(entries) == ids by {
      forall i | 0 <= i < |ids| ensures Ids(entries)[i] == ids[i] {
      }
    }
    entries
  }

  /** `entries.Select(e => e.id)`: one id per entry, and exactly the ids the entries carry. */
  function Ids(entries: seq<Entry>): (ids: seq<uint32>)
    ensures |ids| == |entries|
    ensures forall x :: x in ids <==> exists e :: e in entries && e.id == x
  {
    var ids := seq(|entries|, i requires 0 <= i < |entries| => entries[i].id);
    assert forall x :: x in ids ==> exists e :: e in entries && e.id == x by {
      forall x | x in ids ensures exists e :: e in entries && e.id == x {
        var i :| 0 <= i < |ids| && ids[i] == x;
        assert entries[i] in entries;
      }
    }
    assert forall e :: e in entries ==> e.id in ids by {
      forall e | e in entries ensures e.id in ids {
        var i :| 0 <= i < |entries| && entries[i] == e;
        assert ids[i] == e.id;
      }
    }
    ids
  }

  predicate Distinct(s: seq<uint32>)
  {
    forall i, j :: 0 <= i < j < |s| ==> s[i] != s[j]
  }

  /** Body indices strictly increase along the list. */
  predicate InIndexOrder(entries: seq<Entry>)
  {
    forall i, j :: 0 <= i < j < |entries| ==> entries[i].index < entries[j].index
  }

  /**
   * LINQ's `Except` run over `s` with the set of ids still to be withheld:
   * an element is yielded the first time it is met outside that set, and is
   * then added to it.
   */
  function ExceptFrom(s: seq<uint32>, excluded: set<uint32>): (r: seq<uint32>)
    ensures forall x :: x in r <==> x in s && x !in excluded
    ensures Distinct(r)
  {
    if s == [] then []
    else if s[0] in excluded then ExceptFrom(s[1..], excluded)
    else [s[0]] + ExceptFrom(s[1..], excluded + {s[0]})
  }

  /** `first.Except(second)`: the set difference, each element once, in order of first occurrence. */
  function Except(first: seq<uint32>, second: seq<uint32>): (r: seq<uint32>)
    ensures forall x :: x in r <==> x in first && x !in second
    ensures Distinct(r)
  {
    ExceptFrom(first, set x | x in second)
  }

  /** `current.Where(c => !previous.Contains(c.id))`. */
  function Entered(previous: seq<uint32>, current: seq<Entry>): (r: seq<Entry>)
    ensures |r| <= |current|
    ensures forall e :: e in r <==> e in current && e.id !in previous
    ensures InIndexOrder(current) ==> InIndexOrder(r)
  {
    if current == [] then []
    else
      var rest := Entered(previous, current[1..]);
      assert InIndexOrder(current) ==> forall e :: e in rest ==> current[0].index < e.index by {
        if InIndexOrder(current) {
          forall e | e in rest ensures current[0].index < e.index {
            var j :| 0 <= j < |current[1..]| && current[1..][j] == e;
            assert current[j + 1] == e;
          }
        }
      }
      if current[0].id in previous then rest else [current[0]] + rest
  }

  /** The head joint, `skeleton.Joints[(int)JointId.Head]`. */
  function HeadOf(s: Skeleton): (j: Joint)
    requires FullSkeleton(s)
    ensures JointAt(s, JointIds.Head) == Some(j)
  {
    s.joints[JointIds.Ordinal(JointIds.Head)]
  }

  /** Every entry listed for a frame names one of its bodies. */
  predicate IndicesInFrame(d: FrameData, entries: seq<Entry>)
  {
    forall e :: e in entries ==> e.index as int < |d.bodies|
  }

  /**
   * The arrivals reported for the entered entries of a frame, in the same
   * order: each keeps its entry's index and id and carries the head joint of
   * the body at that index.
   */
  function Arrivals(d: FrameData, entries: seq<Entry>): (r: seq<Arrival>)
    requires WellFormed(d)
    requires IndicesInFrame(d, entries)
    ensures |r| == |entries|
    ensures forall k :: 0 <= k < |r| ==>
      && r[k].index == entries[k].index
      && r[k].id == entries[k].id
      && JointAt(d.bodies[entries[k].index].skeleton, JointIds.Head) == Some(r[k].head)
  {
    seq(|entries|, k requires 0 <= k < |entries| =>
      assert entries[k] in entries;
      Arrival(entries[k].index, entries[k].id, HeadOf(d.bodies[entries[k].index].skeleton)))
  }

  /** Every body reported as entered is a body of the current frame. */
  lemma EnteredIndicesInFrame(previous: seq<uint32>, d: FrameData)
    requires WellFormed(d)
    ensures IndicesInFrame(d, Entered(previous, Indexed(IdsOf(d))))
  {
    forall e | e in Entered(previous, Indexed(IdsOf(d))) ensures e.index as int < |d.bodies| {
      var i :| 0 <= i < |Indexed(IdsOf(d))| && Indexed(IdsOf(d))[i] == e;
    }
  }

  /**
   * The report of one round, given the ids of the previous round and the
   * current frame: the previous ids the frame lacks, each once, and at most
   * one arrival per body of the frame, in body-index order.
   */
  function ReportFor(previous: seq<uint32>, d: FrameData): (r: Report)
    requires WellFormed(d)
    ensures forall x :: x in r.exited <==> x in previous && x !in IdsOf(d)
    ensures Distinct(r.exited)
    ensures |r.entered| <= |d.bodies|
    ensures forall k, l :: 0 <= k < l < |r.entered| ==> r.entered[k].index < r.entered[l].index
  {
    var current := Indexed(IdsOf(d));
    EnteredIndicesInFrame(previous, d);
    Report(Except(previous, Ids(current)), Arrivals(d, Entered(previous, current)))
  }

  /** The body at index i of the frame is reported as entered exactly when its id is new. */
  lemma EnteredComplete(previous: seq<uint32>, d: FrameData, i: nat)
    requires WellFormed(d) && i < |d.bodies|
    ensures d.bodies[i].id !in previous <==>
      Arrival(i as uint32, d.bodies[i].id, HeadOf(d.bodies[i].skeleton)) in ReportFor(previous, d).entered
  {
    var current := Indexed(IdsOf(d));
    var entered := Entered(previous, current);
    EnteredIndicesInFrame(previous, d);
    var arrivals := ReportFor(previous, d).entered;
    assert arrivals == Arrivals(d, entered);
    var e := Entry(i as uint32, d.bodies[i].id);
    var a := Arrival(i as uint32, d.bodies[i].id, HeadOf(d.bodies[i].skeleton));
    assert current[i] == e;
    if d.bodies[i].id !in previous {
      var k :| 0 <= k < |entered| && entered[k] == e;
      assert arrivals[k] == a;
    } else {
      forall k | 0 <= k < |arrivals| ensures arrivals[k] != a {
        assert entered[k] in entered;
      }
    }
  }

  /** Every arrival is a body of the frame, with that body's id, and the id is new. */
  lemma EnteredSound(previous: seq<uint32>, d: FrameData, k: nat)
    requires WellFormed(d)
    requires k < |ReportFor(previous, d).entered|
    ensures var a := ReportFor(previous, d).entered[k];
      a.index as int < |d.bodies| && a.id == d.bodies[a.index].id && a.id !in previous
  {
    var current := Indexed(IdsOf(d));
    var entered := Entered(previous, current);
    EnteredIndicesInFrame(previous, d);
    assert ReportFor(previous, d).entered == Arrivals(d, entered);
    assert entered[k] in entered;
    var j :| 0 <= j < |current| && current[j] == entered[k];
  }

  /** Arrivals are listed in body-index order. */
  lemma EnteredInIndexOrder(previous: seq<uint32>, d: FrameData)
    requires WellFormed(d)
    ensures var r := ReportFor(previous, d);
      forall k, l :: 0 <= k < l < |r.entered| ==> r.entered[k].index < r.entered[l].index
  {
    var current := Indexed(IdsOf(d));
    var entered := Entered(previous, current);
    EnteredIndicesInFrame(previous, d);
    assert ReportFor(previous, d).entered == Arrivals(d, entered);
    assert InIndexOrder(current);
  }

  /**
   * What a round reports. Exited: each id of the previous round missing from
   * this frame, once. Entered: exactly the bodies of this frame whose id the
   * previous round did not have, in body-index order, each with its own
   * index, id and head joint.
   */
  lemma ReportContents(previous: seq<uint32>, d: FrameData)
    requires WellFormed(d)
    ensures var r := ReportFor(previous, d);
      && (forall x :: x in r.exited <==> x in previous && x !in IdsOf(d))
      && Distinct(r.exited)
      && (forall i :: 0 <= i < |d.bodies| ==>
            (d.bodies[i].id !in previous <==>
             Arrival(i as uint32, d.bodies[i].id, HeadOf(d.bodies[i].skeleton)) in r.entered))
      && (forall k :: 0 <= k < |r.entered| ==>
            && r.entered[k].index as int < |d.bodies|
            && r.entered[k].id == d.bodies[r.entered[k].index].id
            && r.entered[k].id !in previous)
      && (forall k, l :: 0 <= k < l < |r.entered| ==> r.entered[k].index < r.entered[l].index)
  {
    forall i | 0 <= i < |d.bodies| {
      EnteredComplete(previous, d, i);
    }
    forall k | 0 <= k < |ReportFor(previous, d).entered| {
      EnteredSound(previous, d, k);
    }
    EnteredInIndexOrder(previous, d);
  }

  /** No id is reported both as exited and as entered in the same round. */
  lemma EnteredAndExitedDisjoint(previous: seq<uint32>, d: FrameData)
    requires WellFormed(d)
    ensures var r := ReportFor(previous, d);
      forall a, x :: a in r.entered && x in r.exited ==> a.id != x
  {
    ReportContents(previous, d);
    var r := ReportFor(previous, d);
    forall a, x | a in r.entered && x in r.exited ensures a.id != x {
      var k :| 0 <= k < |r.entered| && r.entered[k] == a;
    }
  }

  /** With no previous ids every body enters, in index order, and nobody exits. */
  lemma FirstFrameReportsEveryone(d: FrameData)
    requires WellFormed(d)
    ensures var r := ReportFor([], d);
      && r.exited == []
      && |r.entered| == |d.bodies|
      && forall i :: 0 <= i < |d.bodies| ==>
           r.entered[i] == Arrival(i as uint32, d.bodies[i].id, HeadOf(d.bodies[i].skeleton))
  {
    var current := Indexed(IdsOf(d));
    EnteredWithNothingBefore(current);
  }

  lemma {:induction false} EnteredWithNothingBefore(current: seq<Entry>)
    ensures Entered([], current) == current
  {
    if current != [] {
      EnteredWithNothingBefore(current[1..]);
      assert [current[0]] + current[1..] == current;
    }
  }

  /** A frame whose ids are the same as the previous round's reports nothing. */
  lemma SameIdsReportNothing(d: FrameData)
    requires WellFormed(d)
    ensures ReportFor(IdsOf(d), d) == Report([], [])
  {
    var current := Indexed(IdsOf(d));
    var r := ReportFor(IdsOf(d), d);
    forall e | e in current ensures e.id in IdsOf(d) {
      var j :| 0 <= j < |current| && current[j] == e;
      assert IdsOf(d)[j] == e.id;
    }
    EmptyWithoutMembers(Entered(IdsOf(d), current));
    EmptyWithoutMembers(r.exited);
  }

  lemma EmptyWithoutMembers<T>(s: seq<T>)
    ensures (forall x :: x !in s) ==> s == []
  {
    if s != [] {
      assert s[0] in s;
    }
  }

  /** The ids the alerter holds after a sequence of frames. */
  function LastIds(previous: seq<uint32>, frames: seq<FrameData>): seq<uint32>
  {
    if frames == [] then previous else IdsOf(frames[|frames| - 1])
  }

  predicate AllWellFormed(frames: seq<FrameData>)
  {
    forall i :: 0 <= i < |frames| ==> WellFormed(frames[i])
  }

  /** The ids that round k of a run compares against: the starting ids for round 0, else round k-1's. */
  function IdsBefore(previous: seq<uint32>, frames: seq<FrameData>, k: nat): seq<uint32>
    requires k <= |frames|
  {
    if k == 0 then previous else IdsOf(frames[k - 1])
  }

  /**
   * The reports of a run over `frames` whose rounds are compared by `round`,
   * starting from the ids `previous`: round k compares frame k with the ids
   * of the round before it.
   */
  function RunReports(round: (seq<uint32>, FrameData) -> Report, previous: seq<uint32>, frames: seq<FrameData>)
    : (reports: seq<Report>)
    ensures |reports| == |frames|
  {
    seq(|frames|, k requires 0 <= k < |frames| => round(IdsBefore(previous, frames, k), frames[k]))
  }

  /** One more frame adds one report, which compares it with the ids of the last frame. */
  lemma RunReportsAppend(round: (seq<uint32>, FrameData) -> Report, previous: seq<uint32>,
                         frames: seq<FrameData>, d: FrameData)
    ensures RunReports(round, previous, frames + [d]) ==
      RunReports(round, previous, frames) + [round(LastIds(previous, frames), d)]
  {
    var whole := frames + [d];
    var longer := RunReports(round, previous, whole);
    var shorter := RunReports(round, previous, frames) + [round(LastIds(previous, frames), d)];
    forall k | 0 <= k < |whole| ensures longer[k] == shorter[k] {
      assert longer[k] == round(IdsBefore(previous, whole, k), whole[k]);
      if k < |frames| {
        assert whole[k] == frames[k];
        assert IdsBefore(previous, whole, k) == IdsBefore(previous, frames, k) by {
          if k > 0 {
            assert whole[k - 1] == frames[k - 1];
          }
        }
        assert shorter[k] == RunReports(round, previous, frames)[k];
        assert RunReports(round, previous, frames)[k] == round(IdsBefore(previous, frames, k), frames[k]);
      } else {
        assert whole[k] == d;
        assert IdsBefore(previous, whole, k) == LastIds(previous, frames) by {
          if k > 0 {
            assert whole[k - 1] == frames[|frames| - 1];
          }
        }
      }
    }
  }

  /**
   * One round's report on any frame. The engine only produces well-formed
   * frames; any other frame would report nothing.
   */
  function Round(previous: seq<uint32>, d: FrameData): Report
  {
    if WellFormed(d) then ReportFor(previous, d) else Report([], [])
  }

  /** The reports of a run over `frames`, starting from the ids `previous`. */
  function Trace(previous: seq<uint32>, frames: seq<FrameData>): (reports: seq<Report>)
    ensures |reports| == |frames|
  {
    RunReports(Round, previous, frames)
  }

  /** Appending a well-formed frame keeps every frame well formed. */
  lemma AllWellFormedAppend(frames: seq<FrameData>, d: FrameData)
    requires AllWellFormed(frames) && WellFormed(d)
    ensures AllWellFormed(frames + [d])
  {
    var whole := frames + [d];
    forall i | 0 <= i < |whole| ensures WellFormed(whole[i]) {
      if i < |frames| {
        assert whole[i] == frames[i];
      }
    }
  }

  /** One more frame adds one report, which compares it with the ids of the last frame. */
  lemma TraceAppend(previous: seq<uint32>, frames: seq<FrameData>, d: FrameData)
    requires AllWellFormed(frames) && WellFormed(d)
    ensures AllWellFormed(frames + [d])
    ensures Trace(previous, frames + [d]) == Trace(previous, frames) + [ReportFor(LastIds(previous, frames), d)]
  {
    AllWellFormedAppend(frames, d);
    RunReportsAppend(Round, previous, frames, d);
  }

  /** Round k of a run is compared with round k-1, and round 0 with the starting ids. */
  lemma TraceAt(previous: seq<uint32>, frames: seq<FrameData>, k: nat)
    requires AllWellFormed(frames)
    requires k < |frames|
    ensures Trace(previous, frames)[k] ==
      ReportFor(if k == 0 then previous else IdsOf(frames[k - 1]), frames[k])
  {
    assert Trace(previous, frames)[k] == Round(IdsBefore(previous, frames, k), frames[k]);
  }

  /**
   * For ids S0, S1, ... fed in order with S(-1) the starting ids, round k
   * reports exited = S(k-1) - S(k) and entered = S(k) - S(k-1).
   */
  lemma TraceIsSetDifferences(previous: seq<uint32>, frames: seq<FrameData>, k: nat)
    requires AllWellFormed(frames)
    requires k < |frames|
    ensures var before := if k == 0 then previous else IdsOf(frames[k - 1]);
      var now := IdsOf(frames[k]);
      var r := Trace(previous, frames)[k];
      && (forall x :: x in r.exited <==> x in before && x !in now)
      && (forall x :: (exists a :: a in r.entered && a.id == x) <==> x in now && x !in before)
  {
    var before := if k == 0 then previous else IdsOf(frames[k - 1]);
    var d := frames[k];
    TraceAt(previous, frames, k);
    ReportContents(before, d);
    var r := ReportFor(before, d);
    forall x | x in IdsOf(d) && x !in before
      ensures exists a :: a in r.entered && a.id == x
    {
      var i :| 0 <= i < |IdsOf(d)| && IdsOf(d)[i] == x;
      assert Arrival(i as uint32, d.bodies[i].id, HeadOf(d.bodies[i].skeleton)) in r.entered;
    }
    forall a | a in r.entered ensures a.id in IdsOf(d) {
      assert IdsOf(d)[a.index] == a.id;
    }
  }

  /** Number of leading captures that carry depth data. */
  function DepthPrefix(captures: seq<Capture>): (n: nat)
    ensures n <= |captures|
    ensures forall j :: 0 <= j < n ==> captures[j].hasDepth
    ensures n < |captures| ==> !captures[n].hasDepth
  {
    if captures == [] || !captures[0].hasDepth then 0
    else 1 + DepthPrefix(captures[1..])
  }

  /**
   * The entered bodies' head joints, read from the frame one entry at a time
   * in the order the entries are listed.
   */
  method ArrivalsOf(frame: Frame, entries: seq<Entry>) returns (arrivals: seq<Arrival>)
    requires WellFormed(frame.data)
    requires IndicesInFrame(frame.Visible(), entries)
    ensures arrivals == Arrivals(frame.Visible(), entries)
  {
    arrivals := [];
    for k := 0 to |entries|
      invariant arrivals == Arrivals(frame.Visible(), entries[..k])
    {
      var e := entries[k];
      assert e in entries;
      var s := frame.GetBodySkeleton(e.index);
      var head := s.joints[JointIds.Ordinal(JointIds.Head)];
      arrivals := arrivals + [Arrival(e.index, e.id, head)];
    }
    assert entries[..|entries|] == entries;
  }

  class Alerter {
    /** The ids of the previous round's frame, in body-index order. */
    var bodyIds: seq<uint32>

    constructor ()
      ensures bodyIds == []
    {
      bodyIds := [];
    }

    /** One round's comparison of the frame's ids with `bodyIds`, which it then replaces. */
    method Step(frame: Frame) returns (report: Report)
      requires WellFormed(frame.data)
      modifies this
      ensures report == ReportFor(old(bodyIds), frame.Visible())
      ensures bodyIds == IdsOf(frame.Visible())
      ensures |bodyIds| == frame.NumberOfBodies()
    {
      var d := frame.Visible();
      var n := frame.NumberOfBodies();
      var currentIds := seq(n, i requires 0 <= i < n reads frame => Entry(i as uint32, frame.GetBodyId(i as uint32)));
      assert currentIds == Indexed(IdsOf(d));
      var bodiesLeft := Except(bodyIds, Ids(currentIds));
      var bodiesEntered := Entered(bodyIds, currentIds);
      EnteredIndicesInFrame(bodyIds, d);
      var arrivals := ArrivalsOf(frame, bodiesEntered);
      report := Report(bodiesLeft, arrivals);
      bodyIds := Ids(currentIds);
    }
  }

  /**
   * One pass of the driver loop: submit the capture, let the engine process
   * it, pop its result, compare ids, and dispose of the frame. An exception
   * from the tracker ends the pass and is handed back.
   */
  method Iterate(tracker: Tracker, alerter: Alerter, capture: Capture)
    returns (r: Outcome<Report>, ghost frame: Frame?)
    requires tracker.Idle()
    modifies tracker, alerter
    ensures tracker.Idle()
    ensures r.Returned? <==> capture.hasDepth
    ensures r.Threw? ==> r.exception == AzureKinectException
    ensures r.Threw? ==> alerter.bodyIds == old(alerter.bodyIds) && tracker.Accepted() == old(tracker.Accepted())
    ensures r.Threw? ==> tracker.retrieved == old(tracker.retrieved)
    ensures r.Returned? ==> r.value == ReportFor(old(alerter.bodyIds), tracker.infer(capture))
    ensures r.Returned? ==> alerter.bodyIds == IdsOf(tracker.infer(capture))
    ensures r.Returned? ==> tracker.Accepted() == old(tracker.Accepted()) + [capture]
    ensures r.Returned? ==> tracker.retrieved == old(tracker.retrieved) + [tracker.infer(capture)]
    ensures r.Returned? ==> frame != null && fresh(frame) && frame.released && frame.Valid()
  {
    frame := null;
    var thrown := tracker.EnqueueCapture(capture);
    if thrown.Some? {
      return Threw(thrown.value), frame;
    }
    tracker.Process();
    var popped := tracker.PopResult();
    assert popped.Returned?;
    var f := popped.value;
    var report := alerter.Step(f);
    f.Dispose();
    frame := f;
    r := Returned(report);
  }

  /** The engine's results for one more capture extend the results so far. */
  lemma InferredStep(infer: Capture -> FrameData, captures: seq<Capture>, i: nat, frames: seq<FrameData>)
    requires i < |captures|
    requires frames == Inferred(infer, captures[..i])
    ensures captures[..i + 1] == captures[..i] + [captures[i]]
    ensures frames + [infer(captures[i])] == Inferred(infer, captures[..i + 1])
  {
    assert captures[..i + 1] == captures[..i] + [captures[i]];
    InferredAppend(infer, captures[..i], captures[i]);
  }

  /** One more frame extends the trace by its report and makes its ids the last ones. */
  lemma TraceStep(previous: seq<uint32>, frames: seq<FrameData>, d: FrameData, report: Report)
    requires AllWellFormed(frames) && WellFormed(d)
    requires report == ReportFor(LastIds(previous, frames), d)
    ensures AllWellFormed(frames + [d])
    ensures Trace(previous, frames + [d]) == Trace(previous, frames) + [report]
    ensures LastIds(previous, frames + [d]) == IdsOf(d)
  {
    TraceAppend(previous, frames, d);
    var extended := frames + [d];
    assert extended[|extended| - 1] == d;
  }

  /** One more accepted capture extends the run by its frame and its report. */
  lemma RunAdvance(infer: Capture -> FrameData, previous: seq<uint32>, captures: seq<Capture>,
                   i: nat, frames: seq<FrameData>, report: Report)
    requires i < |captures|
    requires frames == Inferred(infer, captures[..i]) && AllWellFormed(frames)
    requires WellFormed(infer(captures[i]))
    requires report == ReportFor(LastIds(previous, frames), infer(captures[i]))
    ensures captures[..i + 1] == captures[..i] + [captures[i]]
    ensures frames + [infer(captures[i])] == Inferred(infer, captures[..i + 1])
    ensures AllWellFormed(frames + [infer(captures[i])])
    ensures Trace(previous, frames + [infer(captures[i])]) == Trace(previous, frames) + [report]
    ensures LastIds(previous, frames + [infer(captures[i])]) == IdsOf(infer(captures[i]))
  {
    InferredStep(infer, captures, i, frames);
    TraceStep(previous, frames, infer(captures[i]), report);
  }

  /**
   * The driver loop over the captures the device delivers before the loop is
   * cancelled. The first capture without depth data makes the enqueue throw,
   * which ends the loop; every earlier capture yields one report.
   */
  method Run(tracker: Tracker, alerter: Alerter, captures: seq<Capture>)
    returns (reports: seq<Report>, failure: Option<Exception>)
    requires tracker.Idle()
    modifies tracker, alerter
    ensures tracker.Idle()
    ensures var frames := Inferred(tracker.infer, captures[..DepthPrefix(captures)]);
      && AllWellFormed(frames)
      && reports == Trace(old(alerter.bodyIds), frames)
      && alerter.bodyIds == LastIds(old(alerter.bodyIds), frames)
    ensures failure == if DepthPrefix(captures) < |captures| then Some(AzureKinectException) else None
    ensures tracker.Accepted() == old(tracker.Accepted()) + captures[..DepthPrefix(captures)]
  {
    ghost var start := alerter.bodyIds;
    ghost var accepted0 := tracker.Accepted();
    ghost var n := DepthPrefix(captures);
    ghost var frames: seq<FrameData> := [];
    reports, failure := [], None;
    var i := 0;
    while i < |captures| && failure.None?
      invariant 0 <= i <= n
      invariant failure.Some? ==> i == n < |captures| && failure == Some(AzureKinectException)
      invariant tracker.Idle()
      invariant frames == Inferred(tracker.infer, captures[..i])
      invariant AllWellFormed(frames)
      invariant reports == Trace(start, frames)
      invariant alerter.bodyIds == LastIds(start, frames)
      invariant tracker.Accepted() == accepted0 + captures[..i]
      decreases |captures| - i, if failure.None? then 1 else 0
    {
      var r, _ := Iterate(tracker, alerter, captures[i]);
      if r.Threw? {
        failure := Some(r.exception);
      } else {
        RunAdvance(tracker.infer, start, captures, i, frames, r.value);
        frames := frames + [tracker.infer(captures[i])];
        reports := reports + [r.value];
        i := i + 1;
      }
    }
  }
}
