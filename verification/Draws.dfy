/**
 * Random draws made explicit.  Every call the simulation makes into its
 * random source becomes an input of the model: `randint(a, b)` is an `int`
 * the caller supplies, and `random.choice(xs)` is an index draw `k`.
 */
module Draws {

  datatype Option<+T> = None | Some(value: T)

  /**
   * `random.choice(xs)` driven by the index draw `k`.  An empty list makes
   * Python raise IndexError, modelled as `None`.
   */
  function Choice<T>(xs: seq<T>, k: nat): (r: Option<T>)
    ensures r.Some? <==> |xs| > 0
    ensures r.Some? ==> r.value in xs
    ensures k < |xs| ==> r == Some(xs[k])
  {
    if |xs| == 0 then None else Some(xs[k % |xs|])
  }
}
