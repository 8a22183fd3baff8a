/** Types shared by the component models. */
module Common {

  datatype Option<+T> = None | Some(value: T)

  /** The outcome of an operation that the program may leave by throwing. */
  datatype Outcome<+T> = Ok(value: T) | Throw

  type Byte = b: int | 0 <= b < 256
  type Bytes = seq<Byte>

  function Find<K, V>(m: map<K, V>, k: K): Option<V> {
    if k in m then Some(m[k]) else None
  }

  function Min(a: int, b: int): int {
    if a < b then a else b
  }

  function Max(a: int, b: int): int {
    if a < b then b else a
  }

  function Reversed<T>(s: seq<T>): (r: seq<T>)
    ensures |r| == |s| && forall i | 0 <= i < |s| :: r[i] == s[|s| - 1 - i]
  {
    if s == [] then [] else [s[|s| - 1]] + Reversed(s[..|s| - 1])
  }

  function One(b: bool): nat {
    if b then 1 else 0
  }

  const TWO_32: nat := 0x1_0000_0000
  const TWO_64: nat := 0x1_0000_0000_0000_0000
  const TWO_256: nat := 0x1_0000000000000000_0000000000000000_0000000000000000_0000000000000000

  /** A 256-bit hash; the all-zero hash is the program's null hash. */
  type Hash256 = h: int | 0 <= h < TWO_256 witness 0

  const NULL_HASH: Hash256 := 0
}
