/** Optional values and the "first element that qualifies" search that the
    plugin's loops (`for … { if … { return … } }`, `find_map`) all share. */
module Optional {

  datatype Option<+T> = None | Some(value: T)

  /** Index of the first element of `s`, at or after `from`, that satisfies `p`. */
  function FirstIndexFrom<T>(s: seq<T>, p: T -> bool, from: nat): (r: Option<nat>)
    requires from <= |s|
    ensures r.None? <==> forall i :: from <= i < |s| ==> !p(s[i])
    ensures r.Some? ==> from <= r.value < |s| && p(s[r.value])
    ensures r.Some? ==> forall i :: from <= i < r.value ==> !p(s[i])
    decreases |s| - from
  {
    if from == |s| then None
    else if p(s[from]) then Some(from)
    else FirstIndexFrom(s, p, from + 1)
  }

  /** Index of the first element of `s` that satisfies `p`. */
  function FirstIndex<T>(s: seq<T>, p: T -> bool): (r: Option<nat>)
    ensures r.None? <==> forall i :: 0 <= i < |s| ==> !p(s[i])
    ensures r.Some? ==> r.value < |s| && p(s[r.value])
    ensures r.Some? ==> forall i :: 0 <= i < r.value ==> !p(s[i])
  {
    FirstIndexFrom(s, p, 0)
  }
}
