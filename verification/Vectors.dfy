/** Sums of products over sequences of elements: scalars, or whole quantized blocks; parts put
    together. */
module Vectors {
  function Times(a: real, b: real): real {
    a * b
  }

  function Concat<T>(parts: seq<seq<T>>): seq<T> {
    if parts == [] then [] else Concat(parts[..|parts| - 1]) + parts[|parts| - 1]
  }

  lemma {:induction false} ConcatFirst<T>(parts: seq<seq<T>>)
    requires parts != []
    ensures Concat(parts) == parts[0] + Concat(parts[1..])
  {
    var n := |parts| - 1;
    if n > 0 {
      ConcatFirst(parts[..n]);
      assert parts[..n][1..] == parts[1..][..n - 1];
    } else {
      assert parts[..0] == [];
    }
  }

  /** The sum of the products of paired elements, from the first on. */
  function Dot<TA, TB>(term: (TA, TB) -> real, x: seq<TA>, y: seq<TB>): real
    requires |x| == |y|
  {
    if x == [] then 0.0 else Dot(term, x[..|x| - 1], y[..|y| - 1]) + term(x[|x| - 1], y[|y| - 1])
  }

  lemma {:induction false} DotConcat<TA, TB>(term: (TA, TB) -> real, x: seq<TA>, y: seq<TB>, u: seq<TA>, v: seq<TB>)
    requires |x| == |y| && |u| == |v|
    ensures Dot(term, x + u, y + v) == Dot(term, x, y) + Dot(term, u, v)
  {
    if u == [] {
      assert x + u == x && y + v == y;
    } else {
      var n := |u| - 1;
      assert (x + u)[..|x + u| - 1] == x + u[..n] && (y + v)[..|y + v| - 1] == y + v[..n];
      DotConcat(term, x, y, u[..n], v[..n]);
    }
  }
}
