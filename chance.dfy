/** The random source, injected as choices: every property proved about a caller holds
    for every outcome of every draw. */
module Chance {

  /** `Math.floor(Math.random() * n)`: some k below n, and 0 when n is 0. */
  method Pick(n: nat) returns (k: nat)
    ensures if n == 0 then k == 0 else k < n
  {
    if n == 0 {
      k := 0;
    } else {
      k :| k < n;
    }
  }

  /** The Fisher-Yates shuffle the generators run over a small list: from the last index
      down to 1, swap entry i with an entry j drawn from [0, i]. The result is a
      permutation of the input. */
  method Shuffle<T>(s: seq<T>) returns (r: seq<T>)
    ensures |r| == |s| && multiset(r) == multiset(s)
  {
    r := s;
    var i := |r| - 1;
    while i > 0
      invariant i < |r| == |s|
      invariant multiset(r) == multiset(s)
    {
      var j := Pick(i + 1);
      r := r[i := r[j]][j := r[i]];
      i := i - 1;
    }
  }

  /** A draw compared against a threshold (`Math.random() < p`): either outcome can occur. */
  method Coin() returns (heads: bool)
  {
    heads :| true;
  }

  /** `Array.prototype.sort` with the comparator `() => Math.random() - 0.5`: the order that comes
      out is not specified, only that it is a rearrangement of the input. */
  method AnyOrder<T(==)>(s: seq<T>) returns (r: seq<T>)
    ensures |r| == |s| && multiset(r) == multiset(s)
  {
    assert |s| == |s| && multiset(s) == multiset(s);
    r :| |r| == |s| && multiset(r) == multiset(s);
  }
}
