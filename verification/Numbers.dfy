/** Numbers the remote protocol counts with. */
module Numbers {

  /** Number.MAX_SAFE_INTEGER */
  const MAX_SAFE_INTEGER: int := 9007199254740991

  ghost predicate Increasing(s: seq<int>) {
    forall i, j | 0 <= i < j < |s| :: s[i] < s[j]
  }

  lemma IncreasingSnoc(s: seq<int>, x: int)
    requires Increasing(s) && (s != [] ==> s[|s| - 1] < x)
    ensures Increasing(s + [x])
  {}

  /** An item of least rank. */
  method LeastBy<T(==)>(items: set<T>, rank: T -> int) returns (least: T)
    requires items != {}
    ensures least in items && forall x | x in items :: rank(least) <= rank(x)
  {
    least :| least in items;
    var rest := items - {least};
    while rest != {}
      invariant rest <= items && least in items
      invariant forall x | x in items && x !in rest :: rank(least) <= rank(x)
      decreases rest
    {
      var x :| x in rest;
      if rank(x) < rank(least) { least := x; }
      rest := rest - {x};
    }
  }
}
