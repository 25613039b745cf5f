/** The optional value used throughout the model for JavaScript's "absent" (undefined). */
module Wrappers {

  datatype Option<+T> = None | Some(value: T)

  /** Regrouping a list that ends in `t`: from `zs == (a + b) + t` and `ys == b + t`, `zs == a + ys`. */
  lemma RegroupLast<T>(zs: seq<T>, a: seq<T>, b: seq<T>, ys: seq<T>, t: seq<T>)
    requires zs == (a + b) + t && ys == b + t
    ensures zs == a + ys
  {
  }

  /** Regrouping a list that starts with `h`: from `zs == h + (a + b)` and `xs == h + a`, `zs == xs + b`. */
  lemma RegroupFirst<T>(zs: seq<T>, h: seq<T>, a: seq<T>, b: seq<T>, xs: seq<T>)
    requires zs == h + (a + b) && xs == h + a
    ensures zs == xs + b
  {
  }
}
