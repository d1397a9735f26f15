/** ControllerExpandVolume: what a run of expansions does to the stored size, and what the node sees. */
module Expansion {
  import opened Int64
  import opened Results
  import opened Capacity

  /** What one call may do to the stored size: nothing, or write the rounded request over a size that
      is not larger. */
  predicate ExpandOutcome(size: Option<int64>, required: int64, size': Option<int64>) {
    || size' == size
    || (size.Some? && RoundUpBytes(required) >= size.value && size' == Some(RoundUpBytes(required)))
  }

  /** Calls on one volume, one after the other; sizes[i] is what call i finds. */
  ghost predicate ExpandRun(sizes: seq<Option<int64>>, requests: seq<int64>) {
    && |sizes| == |requests| + 1
    && forall i | 0 <= i < |requests| :: ExpandOutcome(sizes[i], requests[i], sizes[i + 1])
  }

  /** Whatever int64 values are requested, the stored size never decreases. */
  lemma {:induction false} SizeNeverDecreases(sizes: seq<Option<int64>>, requests: seq<int64>, i: nat, j: nat)
    requires ExpandRun(sizes, requests) && i <= j < |sizes| && sizes[i].Some?
    ensures sizes[j].Some? && sizes[i].value <= sizes[j].value
    decreases j
  {
    if i < j {
      SizeNeverDecreases(sizes, requests, i, j - 1);
      assert ExpandOutcome(sizes[j - 1], requests[j - 1], sizes[j]);
    }
  }

  /** An accepted expansion gives what was asked for exactly when the request can be rounded, which a
      non-negative stored size guarantees: a wrapped rounding is negative and refused. */
  lemma AcceptedExpansionMeetsRequest(size: int64, required: int64)
    requires RoundUpBytes(required) >= size
    ensures required <= RoundUpBytes(required) <==> required <= MAX_ROUNDABLE
    ensures size >= 0 ==> required <= MAX_ROUNDABLE
    ensures size >= 0 && required > 0 ==> LeastMultiple(RoundUpBytes(required), required)
  {
    RoundUpBytesWraps(required);
    RoundUpBytesExact(required);
  }

  /** From a non-negative size on, every size a run writes is whole GiB and at least the request. */
  lemma WrittenSizes(sizes: seq<Option<int64>>, requests: seq<int64>, i: nat)
    requires ExpandRun(sizes, requests) && sizes[0].Some? && sizes[0].value >= 0
    requires i < |requests| && sizes[i + 1] != sizes[i]
    ensures sizes[i + 1].Some? && sizes[i + 1].value % GIB == 0
    ensures requests[i] <= sizes[i + 1].value && sizes[i].Some? && sizes[i].value < sizes[i + 1].value
  {
    SizeNeverDecreases(sizes, requests, 0, i);
    assert ExpandOutcome(sizes[i], requests[i], sizes[i + 1]);
    RoundUpBytesIsWhole(requests[i]);
    AcceptedExpansionMeetsRequest(sizes[i].value, requests[i]);
  }

  /** A JSON merge patch carries the size only if it differs from the size that was read. */
  function MergeSize(read: int64, wanted: int64, live: int64): int64 {
    if wanted == read then live else wanted
  }

  /** The argument checks of NodeExpandVolume; a missing range is accepted. */
  function CheckNodeRange(range: Option<CapacityRange>): Result<int64> {
    match range
    case None => Success(0)
    case Some(r) =>
      if r.required <= 0 then Failure(InvalidArgument)
      else if r.limit > 0 && r.limit < r.required then Failure(OutOfRange)
      else Success(r.required)
  }

  /** Its answer once the filesystem is resized and the device has the given size. */
  function NodeExpandAnswer(range: Option<CapacityRange>, deviceSize: int64): Result<int64> {
    match CheckNodeRange(range)
    case Failure(e) => Failure(e)
    case Success(required) => if deviceSize < required then Failure(Internal) else Success(deviceSize)
  }

  /** Controller and node agree: after an accepted expansion of a volume of non-negative size, a node
      whose device has the stored size answers the same capacity, which is at least what was asked. */
  lemma NodeConfirmsExpansion(size: int64, r: CapacityRange)
    requires size >= 0 && RoundUpBytes(r.required) >= size
    ensures var answer := NodeExpandAnswer(Some(r), RoundUpBytes(r.required));
            && (answer.Success? <==> CheckNodeRange(Some(r)).Success?)
            && (answer.Success? ==> answer.value == RoundUpBytes(r.required) >= r.required)
  {
    AcceptedExpansionMeetsRequest(size, r.required);
  }
}
