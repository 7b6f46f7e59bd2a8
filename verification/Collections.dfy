/** Optional values and constant lists. */
module Collections {

  datatype Option<+T> = None | Some(value: T)

  function Repeat(x: nat, n: nat): (r: seq<nat>)
    ensures |r| == n
    ensures forall i :: 0 <= i < n ==> r[i] == x
  {
    seq(n, _ => x)
  }
}
