/**
 * The joints of a body-tracking skeleton. The enumeration starts at 0 and
 * numbers its members consecutively in declaration order, so the ordinal of a
 * joint is its index in a skeleton's 32-element joint array.
 */
module JointIds {

  import opened Wrappers

  /** Number of joints, and so of entries in every skeleton. */
  const JointCount: nat := 32

  datatype JointId =
    Pelvis
    | SpineNaval
    | SpineChest
    | Neck
    | ClavivleLeft
    | ShoulderLeft
    | ElbowLeft
    | WristLeft
    | HandLeft
    | HandTipLeft
    | ThumbLeft
    | ClavicleRight
    | ShoulderRight
    | ElbowRight
    | WristRight
    | HandRight
    | HandTipRight
    | ThumbRight
    | HipLeft
    | KneeLeft
    | AnkleLeft
    | FootLeft
    | HipRight
    | KneeRight
    | AnkleRight
    | FootRight
    | Head
    | Nose
    | EyeLeft
    | EarLeft
    | EyeRight
    | EarRight

  /** The value of `(int)id`. */
  function Ordinal(id: JointId): (n: nat)
    ensures n < JointCount
  {
    match id
    case Pelvis => 0
    case SpineNaval => 1
    case SpineChest => 2
    case Neck => 3
    case ClavivleLeft => 4
    case ShoulderLeft => 5
    case ElbowLeft => 6
    case WristLeft => 7
    case HandLeft => 8
    case HandTipLeft => 9
    case ThumbLeft => 10
    case ClavicleRight => 11
    case ShoulderRight => 12
    case ElbowRight => 13
    case WristRight => 14
    case HandRight => 15
    case HandTipRight => 16
    case ThumbRight => 17
    case HipLeft => 18
    case KneeLeft => 19
    case AnkleLeft => 20
    case FootLeft => 21
    case HipRight => 22
    case KneeRight => 23
    case AnkleRight => 24
    case FootRight => 25
    case Head => 26
    case Nose => 27
    case EyeLeft => 28
    case EarLeft => 29
    case EyeRight => 30
    case EarRight => 31
  }

  /** The member declared at position k (counting from 0), which `(JointId)k` names. */
  function DeclaredAt(k: int): (id: JointId)
    requires 0 <= k < JointCount
    ensures Ordinal(id) == k
  {
    match k
    case 0 => Pelvis
    case 1 => SpineNaval
    case 2 => SpineChest
    case 3 => Neck
    case 4 => ClavivleLeft
    case 5 => ShoulderLeft
    case 6 => ElbowLeft
    case 7 => WristLeft
    case 8 => HandLeft
    case 9 => HandTipLeft
    case 10 => ThumbLeft
    case 11 => ClavicleRight
    case 12 => ShoulderRight
    case 13 => ElbowRight
    case 14 => WristRight
    case 15 => HandRight
    case 16 => HandTipRight
    case 17 => ThumbRight
    case 18 => HipLeft
    case 19 => KneeLeft
    case 20 => AnkleLeft
    case 21 => FootLeft
    case 22 => HipRight
    case 23 => KneeRight
    case 24 => AnkleRight
    case 25 => FootRight
    case 26 => Head
    case 27 => Nose
    case 28 => EyeLeft
    case 29 => EarLeft
    case 30 => EyeRight
    case 31 => EarRight
  }

  /** The value of `(JointId)n` when `n` names a member; `None` for any other integer. */
  function FromOrdinal(n: int): (r: Option<JointId>)
    ensures r.Some? <==> 0 <= n < JointCount
    ensures r.Some? ==> Ordinal(r.value) == n
  {
    if 0 <= n < JointCount then Some(DeclaredAt(n)) else None
  }

  /** The members in declaration order. */
  const AllJoints: seq<JointId> :=
    seq(JointCount, k requires 0 <= k < JointCount => DeclaredAt(k))

  /** `(JointId)(int)id == id`: no two joints share an ordinal. */
  lemma FromOrdinalOfOrdinal(id: JointId)
    ensures FromOrdinal(Ordinal(id)) == Some(id)
  {
  }

  lemma OrdinalInjective(a: JointId, b: JointId)
    ensures Ordinal(a) == Ordinal(b) ==> a == b
  {
    FromOrdinalOfOrdinal(a);
    FromOrdinalOfOrdinal(b);
  }

  /** `(int)(JointId)n == n` for every index of a skeleton's joint array. */
  lemma OrdinalOfFromOrdinal(n: int)
    requires 0 <= n < JointCount
    ensures FromOrdinal(n).Some? && Ordinal(FromOrdinal(n).value) == n
  {
  }

  /** Ordinals are exactly 0..31: every joint is listed once, at the position of its ordinal. */
  lemma DeclarationOrderIsOrdinalOrder()
    ensures |AllJoints| == JointCount
    ensures forall k :: 0 <= k < |AllJoints| ==> Ordinal(AllJoints[k]) == k
    ensures forall id :: AllJoints[Ordinal(id)] == id
  {
    forall id ensures AllJoints[Ordinal(id)] == id {
      FromOrdinalOfOrdinal(id);
    }
  }

  /** The first, last and head joints have the ordinals the rest of the code relies on. */
  lemma KnownOrdinals()
    ensures Ordinal(Pelvis) == 0
    ensures Ordinal(EarRight) == JointCount - 1
    ensures Ordinal(Head) == 26
    ensures forall id :: Ordinal(id) <= Ordinal(EarRight)
  {
  }
}
