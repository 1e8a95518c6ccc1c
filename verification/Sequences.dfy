/** Facts about sequences that several models share. */
module Sequences {

  function Min(a: nat, b: nat): (r: nat) { if a <= b then a else b }

  /** The sequence without its element at k. */
  function Omit<T>(s: seq<T>, k: nat): (r: seq<T>)
    requires k < |s|
    ensures |r| == |s| - 1 && forall i | 0 <= i < |r| :: r[i] == s[if i < k then i else i + 1]
  {
    s[..k] + s[k + 1..]
  }

  lemma Append<T>(a: seq<T>, b: seq<T>, c: seq<T>)
    ensures a + b + c == a + (b + c)
  {
  }
}
