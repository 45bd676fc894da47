/**
 * The values that cross the boundary to the native body-tracking library:
 * the fixed-width integers it uses and its two result enumerations.
 * The foreign functions themselves are not modelled; their outcomes are
 * parameters or state of the classes that call them.
 */
module Native {

  import opened Wrappers

  type uint8 = x: int | 0 <= x < 0x100
  type uint32 = x: int | 0 <= x < 0x1_0000_0000
  type uint64 = x: int | 0 <= x < 0x1_0000_0000_0000_0000

  /** `uint.MaxValue`, the value every failing body-id query returns. */
  const MaxUInt32: uint32 := 0xFFFF_FFFF

  /** `int.MaxValue`, the largest count an `(int)` cast keeps unchanged. */
  const MaxInt32: int := 0x7FFF_FFFF

  /** Number of values of a 32-bit unsigned integer; `(uint)` casts reduce modulo this. */
  const UInt32Range: int := 0x1_0000_0000

  /** Value of a body-index-map pixel that belongs to no body (K4ABT_BODY_INDEX_MAP_BACKGROUND). */
  const BodyIndexMapBackground: uint8 := 255

  /** `k4a_result_t`: outcome of a call that cannot wait. */
  datatype ResultCode = Succeeded | Failed

  /** `k4a_wait_result_t`: outcome of a call that can wait up to a timeout. */
  datatype WaitResult = WaitSucceeded | WaitFailed | WaitTimeout

  /** The integer the native library uses for a `k4a_wait_result_t`. */
  function WaitResultValue(w: WaitResult): (v: int)
    ensures 0 <= v < 3
    ensures v == 0 <==> w == WaitSucceeded
  {
    match w
    case WaitSucceeded => 0
    case WaitFailed => 1
    case WaitTimeout => 2
  }

  /** Reads a native wait result back; values outside the enumeration are no member. */
  function WaitResultFromValue(v: int): (r: Option<WaitResult>)
    ensures r.Some? <==> 0 <= v < 3
    ensures r.Some? ==> WaitResultValue(r.value) == v
  {
    if v == 0 then Some(WaitSucceeded)
    else if v == 1 then Some(WaitFailed)
    else if v == 2 then Some(WaitTimeout)
    else None
  }

  lemma WaitResultRoundTrip(w: WaitResult)
    ensures WaitResultFromValue(WaitResultValue(w)) == Some(w)
  {
  }
}
