/** Definitions shared by the models of the individual files. */
module Prelude {

  datatype Option<+T> = None | Some(value: T)

  /** The value a map holds at a key, or None when the key is absent. */
  function Lookup<K, V>(m: map<K, V>, k: K): Option<V> {
    if k in m then Some(m[k]) else None
  }

  lemma SliceOfSlice<T>(s: seq<T>, from: nat, to: nat, lo: nat, hi: nat)
    requires from <= to <= |s| && lo <= hi <= to - from
    ensures s[from..to][lo..hi] == s[from + lo..from + hi]
  {
    forall k | 0 <= k < hi - lo
      ensures s[from..to][lo..hi][k] == s[from + lo..from + hi][k]
    {
      assert s[from..to][lo + k] == s[from + (lo + k)];
    }
  }

  lemma SliceOfRest<T>(s: seq<T>, from: nat, lo: nat, hi: nat)
    requires from <= |s| && lo <= hi <= |s| - from
    ensures s[from..][lo..hi] == s[from + lo..from + hi]
    ensures s[from..][hi..] == s[from + hi..]
  {
  }

  lemma KeyOf<K(!new), V>(m: map<K, V>, v: V) returns (k: K)
    requires v in m.Values
    ensures k in m && m[k] == v
  {
    k :| k in m && m[k] == v;
  }

  function Reversed<T>(s: seq<T>): (r: seq<T>)
    ensures |r| == |s| && forall k :: 0 <= k < |s| ==> r[k] == s[|s| - 1 - k]
  {
    seq(|s|, k requires 0 <= k < |s| => s[|s| - 1 - k])
  }
}
