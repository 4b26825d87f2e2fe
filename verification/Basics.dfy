/** Number ranges, the option type and the allocator as the rest of the model uses them. */
module Basics {
  /** `uint8_t` and `uint16_t`. */
  type byte = x: int | 0 <= x < 0x100
  type uint16 = x: int | 0 <= x < 0x1_0000

  datatype Option<+T> = None | Some(value: T)

  /** A callback together with the context pointer that is handed to it. */
  datatype Signal = Signal(handler: nat, context: nat)

  /** The values of `errno` that the modelled code distinguishes. */
  datatype Errno =
    OK | EBADMSG | EDOM | EFAULT | EILSEQ | EINVAL | ENXIO | EOPNOTSUPP | EPERM | ERANGE | ETIME | EWOULDBLOCK

  /** `n` uninitialised slots: whatever memory held, which the proofs must accept for every `junk`. */
  function Slots<T>(n: nat, junk: seq<T>, filler: T): (s: seq<T>)
    ensures |s| == n
    ensures |junk| == n ==> s == junk
  {
    if n <= |junk| then junk[..n] else junk + seq(n - |junk|, _ => filler)
  }

  lemma ConcatAssociative<T>(a: seq<T>, b: seq<T>, c: seq<T>)
    ensures a + b + c == a + (b + c)
  {
  }

  /** Division with remainder has one result. */
  lemma QuotientAndRemainder(x: nat, m: nat, q: nat, r: nat)
    requires r < m && x == m * q + r
    ensures x / m == q && x % m == r
  {
    var d := x / m - q;
    assert x == m * (x / m) + x % m;
    assert m * d == r - x % m;
    NonZeroProduct(m, d);
  }

  lemma NonZeroProduct(m: nat, d: int)
    ensures d >= 1 ==> m * d >= m
    ensures d <= -1 ==> m * d <= -(m as int)
  {
  }

  /** `realloc`: the old contents survive, slots beyond them are uninitialised. */
  method Realloc<T(0)>(block: array?<T>, n: nat) returns (grown: array<T>)
    ensures fresh(grown) && grown.Length == n
    ensures block != null ==> forall i :: 0 <= i < block.Length && i < n ==> grown[i] == block[i]
  {
    grown := new T[n];
    if block != null {
      for i := 0 to if block.Length < n then block.Length else n
        invariant forall k :: 0 <= k < i ==> grown[k] == block[k]
      {
        grown[i] := block[i];
      }
    }
  }
}
