/**
 * `whenAllSettled` of src/util.js and src/ChainResponse.js. Promises are modelled by how they
 * settle; `Promise.all` keeps input order, so settling all inputs is a map over the list.
 */
module Settle {
  import opened Wrappers

  /** A promise (an object with callable `then` and `catch`), by the way it settles. */
  datatype Awaitable<V> = Resolves(value: V) | Rejects(reason: V)

  /**
   * One input of `whenAllSettled`: a bare promise, an object `{promise, data}` whose `promise` is a
   * promise, or any other value `item` (which then also serves as the entry's data).
   */
  datatype SettleInput<V, D> =
    | Bare(promise: Awaitable<V>)
    | Tagged(promise: Awaitable<V>, data: D)
    | Invalid(item: D)

  /** Why an entry was rejected: the promise's own reason, or `new Error("invalid_promise")`. */
  datatype Failure<V> = Reason(reason: V) | InvalidPromise

  /** `{isResolved: true, result, data}` or `{isRejected: true, error, data}`; a missing data is `None`. */
  datatype Settled<V, D> =
    | Fulfilled(result: V, data: Option<D>)
    | Failed(error: Failure<V>, data: Option<D>)

  function SettleOne<V, D>(item: SettleInput<V, D>): Settled<V, D>
  {
    match item
    case Bare(p) => if p.Resolves? then Fulfilled(p.value, None) else Failed(Reason(p.reason), None)
    case Tagged(p, d) => if p.Resolves? then Fulfilled(p.value, Some(d)) else Failed(Reason(p.reason), Some(d))
    case Invalid(x) => Failed(InvalidPromise, Some(x))
  }

  /** One settled entry per input, in input order; no input's failure affects another's entry. */
  function WhenAllSettled<V, D>(items: seq<SettleInput<V, D>>): (r: seq<Settled<V, D>>)
    ensures |r| == |items|
    ensures forall i :: 0 <= i < |items| ==>
      (r[i].Fulfilled? <==> !items[i].Invalid? && items[i].promise.Resolves?)
    ensures forall i :: 0 <= i < |items| && r[i].Fulfilled? ==> r[i].result == items[i].promise.value
    ensures forall i :: 0 <= i < |items| && items[i].Tagged? ==> r[i].data == Some(items[i].data)
    ensures forall i :: 0 <= i < |items| && items[i].Bare? ==> r[i].data == None
    ensures forall i :: 0 <= i < |items| && items[i].Invalid? ==> r[i] == Failed(InvalidPromise, Some(items[i].item))
  {
    if items == [] then [] else [SettleOne(items[0])] + WhenAllSettled(items[1..])
  }
}
