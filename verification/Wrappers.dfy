/** Values shared by every module: optional results, and bytes. */
module Wrappers {

  /** None stands for a raised error (or, where the source says so, for an absent value). */
  datatype Option<+T> = None | Some(value: T)

  type Byte = b: nat | b < 256

  type Bytes = seq<Byte>

  lemma Sliced<T>(items: seq<T>, k: nat, n: nat)
    requires k + n <= |items|
    ensures items[..k + n] == items[..k] + items[k..][..n]
    ensures items[k..][..n] == items[..k + n][k..]
    ensures items == items[..k] + items[k..]
  {
  }
}
