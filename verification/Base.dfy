// Types shared by every component of the model.
module Base {
  /** An unsigned char. */
  type byte = x: int | 0 <= x < 256

  /** An unsigned 16-bit integer. */
  type word = x: int | 0 <= x < 0x1_0000

  datatype Option<+T> = None | Some(value: T)

  function Max(a: int, b: int): (m: int)
    ensures m >= a && m >= b && (m == a || m == b)
  {
    if a < b then b else a
  }

  function Min(a: int, b: int): (m: int)
    ensures m <= a && m <= b && (m == a || m == b)
  {
    if a < b then a else b
  }

  function Zeros(n: nat): (z: seq<byte>)
    ensures |z| == n && forall k | 0 <= k < n :: z[k] == 0
  {
    seq(n, _ => 0)
  }

  lemma Associate<T>(a: seq<T>, b: seq<T>, c: seq<T>)
    ensures a + (b + c) == (a + b) + c
    ensures a + [] == a && [] + c == c
  {
  }

  /** memcpy() of a whole block to dst, starting at index off. */
  method Memcpy<T>(dst: array<T>, off: nat, block: seq<T>)
    requires off + |block| <= dst.Length
    modifies dst
    ensures dst[..] == old(dst[..off]) + block + old(dst[off + |block|..])
  {
    forall k | 0 <= k < |block| {
      dst[off + k] := block[k];
    }
  }
}
