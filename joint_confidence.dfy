/**
 * The confidence the tracker attaches to a joint. The enumeration's values
 * are None = 0, Low = 1, Medium = 2, High = 3, and C# compares members by
 * these values, so the levels are totally ordered with None the least.
 */
module JointConfidence {

  import Wrappers

  datatype JointConfidenceLevel =
    | None    // out of range: too far from the depth camera
    | Low     // not observed (likely occluded): a predicted pose
    | Medium  // the highest level the current tracker reports
    | High    // reserved for a future tracker

  /** The value of `(int)level`. */
  function Ordinal(level: JointConfidenceLevel): (n: nat)
    ensures n < 4
    ensures n == 0 <==> level == None
  {
    match level
    case None => 0
    case Low => 1
    case Medium => 2
    case High => 3
  }

  /** The value of `(JointConfidenceLevel)n` when `n` names a member. */
  function FromOrdinal(n: int): (r: Wrappers.Option<JointConfidenceLevel>)
    ensures r.Some? <==> 0 <= n < 4
    ensures r.Some? ==> Ordinal(r.value) == n
  {
    if n == 0 then Wrappers.Some(None)
    else if n == 1 then Wrappers.Some(Low)
    else if n == 2 then Wrappers.Some(Medium)
    else if n == 3 then Wrappers.Some(High)
    else Wrappers.None
  }

  lemma FromOrdinalOfOrdinal(level: JointConfidenceLevel)
    ensures FromOrdinal(Ordinal(level)) == Wrappers.Some(level)
  {
  }

  /** C#'s `a < b` on the enumeration: None < Low < Medium < High. */
  predicate Less(a: JointConfidenceLevel, b: JointConfidenceLevel): (less: bool)
    ensures less <==>
      || (a == None && b != None)
      || (a == Low && (b == Medium || b == High))
      || (a == Medium && b == High)
  {
    Ordinal(a) < Ordinal(b)
  }

  /** `Less` is a strict total order. */
  lemma LessIsStrictTotalOrder(a: JointConfidenceLevel, b: JointConfidenceLevel, c: JointConfidenceLevel)
    ensures !Less(a, a)
    ensures Less(a, b) && Less(b, c) ==> Less(a, c)
    ensures a == b || Less(a, b) || Less(b, a)
    ensures !(Less(a, b) && Less(b, a))
  {
    if Ordinal(a) == Ordinal(b) {
      FromOrdinalOfOrdinal(a);
      FromOrdinalOfOrdinal(b);
    }
  }

  /** None is below every other level. */
  lemma NoneIsLeast(level: JointConfidenceLevel)
    ensures level == None || Less(None, level)
  {
  }

  /** The renderer's test for drawing a joint (`level > None`): every level but None. */
  predicate Drawn(level: JointConfidenceLevel): (drawn: bool)
    ensures drawn <==> level != None
  {
    Less(None, level)
  }

  /** The renderer's test for skipping a bone end (`level == None`): the level whose value is 0. */
  predicate Skipped(level: JointConfidenceLevel): (skipped: bool)
    ensures skipped <==> Ordinal(level) == 0
  {
    level == None
  }

  /** The two tests are complementary: a joint is drawn exactly when it is not skipped. */
  lemma DrawnIffNotSkipped(level: JointConfidenceLevel)
    ensures Drawn(level) <==> !Skipped(level)
  {
  }

  /**
   * Levels at or below Medium, the highest level the documentation says the
   * current SDK reports. A fact about the enumeration: frames are not constrained by it.
   */
  predicate ReportedByCurrentTracker(level: JointConfidenceLevel)
  {
    !Less(Medium, level)
  }

  /** The values the enumeration declares: None 0, Low 1, Medium 2, High 3. */
  lemma KnownOrdinals()
    ensures Ordinal(None) == 0 && Ordinal(Low) == 1 && Ordinal(Medium) == 2 && Ordinal(High) == 3
  {
  }

  /** High is the only level above Medium. */
  lemma OnlyHighIsUnreported(level: JointConfidenceLevel)
    ensures ReportedByCurrentTracker(level) <==> level != High
  {
  }
}
