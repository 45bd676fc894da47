/**
 * A body-tracking result (`Frame`): the bodies the engine detected, the
 * device timestamp of the capture, and the body-index map (one value per
 * depth pixel: background, or the index of the body the pixel belongs to).
 * The wrapper reads these through a native handle that `Dispose` releases.
 */
module Frames {

  import opened Wrappers
  import opened Native
  import opened Skeletons

  /** What the native frame handle refers to. */
  datatype FrameData = FrameData(
    bodies: seq<Body>,
    deviceTimestamp: uint64,
    bodyIndexMap: seq<uint8>)

  /** Every pixel of the body-index map is background or the index of a body of the same frame. */
  predicate IndexMapValid(d: FrameData)
  {
    forall p :: 0 <= p < |d.bodyIndexMap| ==>
      d.bodyIndexMap[p] == BodyIndexMapBackground || d.bodyIndexMap[p] < |d.bodies|
  }

  /**
   * A frame as the engine produces it: 32 joints per skeleton, a consistent
   * body-index map, and at most `int.MaxValue` bodies, so that the `(uint)`
   * cast of the count and the sample's later `(int)` cast both keep it.
   */
  predicate WellFormed(d: FrameData)
  {
    && |d.bodies| <= MaxInt32
    && (forall i :: 0 <= i < |d.bodies| ==> FullSkeleton(d.bodies[i].skeleton))
    && IndexMapValid(d)
  }

  /** What every native query answers for a handle it cannot use: no bodies, timestamp 0, no map. */
  const NoFrame: FrameData := FrameData([], 0, [])

  /** The body a pixel of the body-index map belongs to, if any. */
  function PixelBody(d: FrameData, p: nat): (r: Option<Body>)
    requires IndexMapValid(d)
    requires p < |d.bodyIndexMap|
    ensures r.None? <==> d.bodyIndexMap[p] == BodyIndexMapBackground
    ensures r.Some? ==> r.value in d.bodies
    ensures r.Some? ==> r.value == d.bodies[d.bodyIndexMap[p]]
  {
    var v := d.bodyIndexMap[p];
    if v == BodyIndexMapBackground then None else Some(d.bodies[v])
  }

  /** The ids of a frame's bodies, in body-index order: one per body, and exactly the bodies' ids. */
  function IdsOf(d: FrameData): (ids: seq<uint32>)
    ensures |ids| == |d.bodies|
    ensures forall i :: 0 <= i < |ids| ==> ids[i] == d.bodies[i].id
    ensures forall x :: x in ids <==> exists b :: b in d.bodies && b.id == x
  {
    var ids := seq(|d.bodies|, i requires 0 <= i < |d.bodies| => d.bodies[i].id);
    assert forall x :: x in ids ==> exists b :: b in d.bodies && b.id == x by {
      forall x | x in ids ensures exists b :: b in d.bodies && b.id == x {
        var i :| 0 <= i < |ids| && ids[i] == x;
        assert d.bodies[i] in d.bodies;
      }
    }
    assert forall b :: b in d.bodies ==> b.id in ids by {
      forall b | b in d.bodies ensures b.id in ids {
        var i :| 0 <= i < |d.bodies| && d.bodies[i] == b;
        assert ids[i] == b.id;
      }
    }
    ids
  }

  class Frame {
    /** The result the native handle refers to. */
    const data: FrameData
    /** Whether `Dispose` has released the native handle. */
    var released: bool
    /** How many times `k4abt_frame_release` has run on the handle. */
    ghost var nativeReleases: nat

    ghost predicate Valid()
      reads this
    {
      && WellFormed(data)
      && nativeReleases == (if released then 1 else 0)
    }

    /** Wraps a handle that the tracker popped from its output queue. */
    constructor (d: FrameData)
      ensures data == d && !released && nativeReleases == 0
      ensures WellFormed(d) ==> Valid()
    {
      data := d;
      released := false;
      nativeReleases := 0;
    }

    /** Releases the native handle; a second call does nothing. */
    method Dispose()
      requires Valid()
      modifies this
      ensures Valid() && released
      ensures nativeReleases == 1
      ensures old(released) ==> nativeReleases == old(nativeReleases)
    {
      if !released {
        released := true;
        nativeReleases := nativeReleases + 1;
      }
    }

    /** The frame as the native queries see it: a released handle reads as `NoFrame`. */
    function Visible(): (d: FrameData)
      reads this
      ensures !released ==> d == data
      ensures WellFormed(data) ==> WellFormed(d)
    {
      if released then NoFrame else data
    }

    /** `NumberOfBodies`: the native count cast to `uint`, 0 if the query fails. */
    function NumberOfBodies(): (n: uint32)
      reads this
      ensures released ==> n == 0
      ensures WellFormed(data) ==> n == |Visible().bodies|
    {
      if released then 0 else |data.bodies| % UInt32Range
    }

    /** `GetBodySkeleton`: the body's skeleton, or `default(Skeleton)` when the query fails. */
    function GetBodySkeleton(index: uint32): (s: Skeleton)
      reads this
      ensures index < |Visible().bodies| ==> s == Visible().bodies[index].skeleton
      ensures index >= |Visible().bodies| ==> s == DefaultSkeleton
      ensures WellFormed(data) && index < NumberOfBodies() ==> FullSkeleton(s)
    {
      if !released && index < |data.bodies| then data.bodies[index].skeleton else DefaultSkeleton
    }

    /** `GetBodyId`: the body's id, or `uint.MaxValue` for every failure. */
    function GetBodyId(index: uint32): (id: uint32)
      reads this
      ensures index < |Visible().bodies| ==> id == Visible().bodies[index].id
      ensures index >= |Visible().bodies| ==> id == MaxUInt32
    {
      if !released && index < |data.bodies| then data.bodies[index].id else MaxUInt32
    }

    /** `GetBodyIndexMap`: the segmentation map of the frame. */
    function BodyIndexMap(): (m: seq<uint8>)
      reads this
      ensures !released ==> m == data.bodyIndexMap
      ensures WellFormed(data) ==>
        forall p :: 0 <= p < |m| ==> m[p] == BodyIndexMapBackground || m[p] < NumberOfBodies()
    {
      if released then [] else data.bodyIndexMap
    }

    /**
     * `DeviceTimestamp` in microseconds: 0 for an unusable handle, but a live
     * frame whose capture was taken at time 0 reads 0 as well.
     */
    function DeviceTimestamp(): (t: uint64)
      reads this
      ensures t == 0 <==> released || data.deviceTimestamp == 0
      ensures !released ==> t == data.deviceTimestamp
    {
      if released then 0 else data.deviceTimestamp
    }
  }

  /**
   * On a tracked frame the valid body indices are exactly those below the count:
   * there the skeleton query succeeds (a 32-joint skeleton), at and above it
   * the query fails and the id query gives the sentinel.
   */
  lemma ValidIndicesAreBelowCount(f: Frame, index: uint32)
    requires WellFormed(f.data)
    ensures index < f.NumberOfBodies() <==> f.GetBodySkeleton(index) != DefaultSkeleton
    ensures index >= f.NumberOfBodies() ==> f.GetBodyId(index) == MaxUInt32
  {
    if index < f.NumberOfBodies() {
      assert FullSkeleton(f.GetBodySkeleton(index));
    }
  }

  /** A live frame's ids, read index by index, are the ids of the bodies it holds. */
  lemma LiveFrameIds(f: Frame)
    requires WellFormed(f.data) && !f.released
    ensures |IdsOf(f.data)| == f.NumberOfBodies()
    ensures forall i: uint32 :: i < f.NumberOfBodies() ==> f.GetBodyId(i) == IdsOf(f.data)[i]
  {
  }
}
