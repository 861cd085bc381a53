/**
 The iterator helper of the RPC package: `Iterator<T>.nextOrNull()`.
 An iterator is modelled by the sequence of elements it has not yet produced.
 */
module Utils {
  import opened Base

  /** Result of `nextOrNull`: the element (or `null`) and what the iterator still holds. */
  datatype Step<T> = Step(element: Option<T>, remaining: seq<T>)

  /**
   `hasNext()` is `|rest| > 0`; `next()` yields the head and advances by one.
   When there is no next element only `hasNext()` runs, so nothing is consumed.
   */
  function NextOrNull<T>(rest: seq<T>): (r: Step<T>)
    ensures r.element.None? <==> |rest| == 0
    ensures r.element.None? ==> r.remaining == rest
    ensures r.element.Some? ==> r.element.value == rest[0] && [r.element.value] + r.remaining == rest
    ensures r.element.Some? ==> |r.remaining| == |rest| - 1
  {
    if |rest| > 0 then Step(Some(rest[0]), rest[1..]) else Step(None, rest)
  }
}
