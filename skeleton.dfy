/**
 * The per-body data of a tracking result: joints, the 32-joint skeleton and
 * the body (id + skeleton). Positions and orientations are carried as opaque
 * values; no geometry is done on them.
 */
module Skeletons {

  import opened Wrappers
  import opened Native
  import JointIds
  import JointConfidence

  /** A position in millimetres, relative to the depth camera. */
  datatype Vector3 = Vector3(x: real, y: real, z: real)

  /** A normalised orientation quaternion. */
  datatype Quaternion = Quaternion(w: real, x: real, y: real, z: real)

  datatype Joint = Joint(
    position: Vector3,
    orientation: Quaternion,
    confidenceLevel: JointConfidence.JointConfidenceLevel)

  /**
   * A skeleton's joint array. The tracker fills it with exactly 32 joints,
   * indexed by joint ordinal; `default(Skeleton)` has no joint array at all,
   * which is modelled as the empty sequence.
   */
  datatype Skeleton = Skeleton(joints: seq<Joint>)

  /** `default(Skeleton)`, what a failed skeleton query yields. */
  const DefaultSkeleton: Skeleton := Skeleton([])

  /** A skeleton as the tracker produces it. */
  predicate FullSkeleton(s: Skeleton)
  {
    |s.joints| == JointIds.JointCount
  }

  /** `skeleton.Joints[(int)id]`; `None` where that access would fail. */
  function JointAt(s: Skeleton, id: JointIds.JointId): (r: Option<Joint>)
    ensures r.Some? <==> JointIds.Ordinal(id) < |s.joints|
    ensures FullSkeleton(s) ==> r.Some?
    ensures r.Some? ==> r.value in s.joints
  {
    var k := JointIds.Ordinal(id);
    if k < |s.joints| then Some(s.joints[k]) else None
  }

  /** Every joint of a tracked skeleton can be read, and distinct ids read distinct slots. */
  lemma FullSkeletonJointsAddressable(s: Skeleton, a: JointIds.JointId, b: JointIds.JointId)
    requires FullSkeleton(s)
    ensures JointAt(s, a).Some? && JointAt(s, a).value == s.joints[JointIds.Ordinal(a)]
    ensures a != b ==> JointIds.Ordinal(a) != JointIds.Ordinal(b)
  {
    JointIds.OrdinalInjective(a, b);
  }

  /** The default skeleton has no readable joint, and it is never a tracked skeleton. */
  lemma DefaultSkeletonHasNoJoints(id: JointIds.JointId)
    ensures JointAt(DefaultSkeleton, id).None?
    ensures !FullSkeleton(DefaultSkeleton)
  {
  }

  /** One detected body: the id used to follow it from frame to frame, and its skeleton. */
  datatype Body = Body(id: uint32, skeleton: Skeleton)
}
