/** Bytes and big-endian numbers. */
module Bytes {

  type Byte = x: int | 0 <= x < 256

  /** The first `n` bytes as a big-endian number. */
  function Lead(s: seq<Byte>, n: nat): nat
    requires n <= |s|
  {
    if n == 0 then 0 else Lead(s, n - 1) * 256 + s[n - 1]
  }

  function Pow256(k: nat): nat { if k == 0 then 1 else 256 * Pow256(k - 1) }

  /** The lowest `k` bytes of a number, most significant first. */
  function BigEndian(n: nat, k: nat): (s: seq<Byte>)
    ensures |s| == k
  {
    if k == 0 then [] else BigEndian(n / 256, k - 1) + [n % 256]
  }

  lemma {:induction false} LeadOfPrefix(s: seq<Byte>, t: seq<Byte>, n: nat)
    requires n <= |s|
    ensures Lead(s + t, n) == Lead(s, n)
  {
    if n > 0 { LeadOfPrefix(s, t, n - 1); }
  }

  /** A number is read back from the bytes it was written to, whatever follows. */
  lemma {:induction false} BigEndianRoundTrip(n: nat, k: nat, t: seq<Byte>)
    requires n < Pow256(k)
    ensures Lead(BigEndian(n, k) + t, k) == n
  {
    LeadOfPrefix(BigEndian(n, k), t, k);
    if k > 0 {
      BigEndianRoundTrip(n / 256, k - 1, [n % 256]);
    }
  }
}
