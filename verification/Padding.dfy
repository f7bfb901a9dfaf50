/** Padding of node payloads (`apply_padding`, `remove_padding`), after ISO/IEC 7816-4. */
module Padding {
  import opened Wrappers
  import opened Bytes

  const MIN_PADDING_BIN: nat := 128

  function Zeros(n: nat): (s: seq<Byte>)
    ensures |s| == n && forall i | 0 <= i < n :: s[i] == 0
  {
    seq(n, _ => 0)
  }

  function Pow2(k: nat): nat { if k == 0 then 1 else 2 * Pow2(k - 1) }

  ghost predicate IsPow2(n: nat) { exists k: nat :: n == Pow2(k) }

  /** The bins that payloads are padded to. */
  ghost predicate IsBin(n: nat) { n >= MIN_PADDING_BIN && IsPow2(n) }

  lemma {:induction false} Pow2Grows(j: nat, k: nat)
    requires j <= k
    ensures 1 <= Pow2(j) <= Pow2(k) && (j < k ==> 2 * Pow2(j) <= Pow2(k))
    decreases k
  {
    if j < k { Pow2Grows(j, k - 1); } else if k > 0 { Pow2Grows(j - 1, k - 1); }
  }

  /** `next_power_of_two` */
  method NextPowerOfTwo(n: nat) returns (p: nat)
    ensures IsPow2(p) && p >= n && forall m: nat | IsPow2(m) && m >= n :: p <= m
  {
    p := 1;
    ghost var k := 0;
    forall m: nat | IsPow2(m) ensures m >= 1 {
      var j: nat :| m == Pow2(j);
      Pow2Grows(0, j);
    }
    while p < n
      invariant p == Pow2(k) >= 1
      invariant forall m: nat | IsPow2(m) && m >= n :: p <= m
      decreases n - p
    {
      forall m: nat | IsPow2(m) && m >= n ensures 2 * p <= m {
        var j: nat :| m == Pow2(j);
        if j <= k { Pow2Grows(j, k); } else { Pow2Grows(k, j); }
      }
      p, k := 2 * p, k + 1;
    }
  }

  lemma MinimumIsPow2()
    ensures IsPow2(MIN_PADDING_BIN)
  {
    assert Pow2(3) == 8;
    assert Pow2(5) == 32;
    assert Pow2(7) == MIN_PADDING_BIN;
  }

  method ApplyPadding(data: seq<Byte>) returns (padded: seq<Byte>)
    ensures |padded| > |data| && padded == data + [0x80] + Zeros(|padded| - |data| - 1)
    ensures IsBin(|padded|) && forall m: nat | IsBin(m) && m > |data| :: |padded| <= m
  {
    var size := NextPowerOfTwo(|data| + 1);
    if size < MIN_PADDING_BIN {
      size := MIN_PADDING_BIN;
      MinimumIsPow2();
    }
    padded := data + [0x80] + Zeros(size - |data| - 1);
  }

  /** Succeeds exactly on data followed by 0x80 and zeros, and returns that data. */
  method RemovePadding(padded: seq<Byte>) returns (data: Option<seq<Byte>>)
    ensures data.Some? ==> |data.value| < |padded| && padded == data.value + [0x80] + Zeros(|padded| - |data.value| - 1)
    ensures data.None? ==> forall d: seq<Byte> | |d| < |padded| :: padded != d + [0x80] + Zeros(|padded| - |d| - 1)
  {
    var pos := |padded|;
    while pos > 0 && padded[pos - 1] == 0
      invariant 0 <= pos <= |padded|
      invariant forall i | pos <= i < |padded| :: padded[i] == 0
    {
      pos := pos - 1;
    }
    if pos > 0 && padded[pos - 1] == 0x80 {
      data := Some(padded[..pos - 1]);
      assert padded == data.value + [0x80] + Zeros(|padded| - pos);
    } else {
      data := None;
      forall d: seq<Byte> | |d| < |padded| ensures padded != d + [0x80] + Zeros(|padded| - |d| - 1) {
        LastNonZero(d, |padded| - |d| - 1);
      }
    }
  }

  lemma LastNonZero(d: seq<Byte>, n: nat)
    ensures (d + [0x80] + Zeros(n))[|d|] == 0x80
    ensures forall i | |d| < i < |d| + 1 + n :: (d + [0x80] + Zeros(n))[i] == 0
  {
  }

  /** The padding determines the data. */
  lemma PaddingIsInjective(d: seq<Byte>, e: seq<Byte>, m: nat, n: nat)
    requires d + [0x80] + Zeros(m) == e + [0x80] + Zeros(n)
    ensures d == e
  {
    var p := d + [0x80] + Zeros(m);
    LastNonZero(d, m);
    LastNonZero(e, n);
    assert d == p[..|d|] && e == p[..|e|];
  }

  /** Padding and removing it gives back any data. */
  method RoundTrip(data: seq<Byte>) returns (back: Option<seq<Byte>>)
    ensures back == Some(data)
  {
    var padded := ApplyPadding(data);
    back := RemovePadding(padded);
    if back.Some? { PaddingIsInjective(back.value, data, |padded| - |back.value| - 1, |padded| - |data| - 1); }
  }
}
