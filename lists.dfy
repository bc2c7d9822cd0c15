/** Array helpers with JavaScript's meaning. */
module Lists {

  /** `s.slice(0, end)`: a negative `end` counts back from the end of the array. */
  function SliceTo<T>(s: seq<T>, end: int): (r: seq<T>)
    ensures r <= s
    ensures 0 <= end ==> |r| == if end <= |s| then end else |s|
    ensures end < 0 ==> |r| == if -end <= |s| then |s| + end else 0
  {
    if 0 <= end then (if end <= |s| then s[..end] else s)
    else if -end <= |s| then s[..|s| + end]
    else []
  }

  predicate Distinct<T(==)>(s: seq<T>)
  {
    forall i, j :: 0 <= i < j < |s| ==> s[i] != s[j]
  }

  /** The elements of a set, each once, in some order (what SMEMBERS returns). */
  method Members<T(==)>(s: set<T>) returns (xs: seq<T>)
    ensures Distinct(xs)
    ensures forall x :: x in xs <==> x in s
    ensures |xs| == |s|
  {
    var rest := s;
    xs := [];
    while rest != {}
      invariant rest <= s
      invariant Distinct(xs)
      invariant forall x :: x in xs <==> x in s && x !in rest
      invariant |xs| + |rest| == |s|
      decreases |rest|
    {
      var x :| x in rest;
      xs := xs + [x];
      rest := rest - {x};
    }
  }
}
