/**
 The fixed-size bit set of tox-sequenced (`BitSet<N>`): N machine words scanned
 word by word with masks and trailing/leading-zero counts.

 A machine word is its 64 bits, least significant first, so a shift is a slice
 and a mask is a pointwise operation.  Every scan is proved against a scan of the
 plain set of members, which is what the rest of the model works with.
 */
module Bits {
  import opened Wrappers

  // ---------------------------------------------------------------- words

  type Word = w: seq<bool> | |w| == 64 witness seq(64, i => false)

  function Zero(): Word { seq(64, i => false) }

  function Not(w: Word): Word { seq(64, i requires 0 <= i < 64 => !w[i]) }

  function And(a: Word, b: Word): Word { seq(64, i requires 0 <= i < 64 => a[i] && b[i]) }

  function Or(a: Word, b: Word): Word { seq(64, i requires 0 <= i < 64 => a[i] || b[i]) }

  /** `w >> k` */
  function Shr(w: Word, k: nat): Word
    requires k < 64
  {
    w[k..] + seq(k, i => false)
  }

  /** `w << k` */
  function Shl(w: Word, k: nat): Word
    requires k < 64
  {
    seq(k, i => false) + w[..64 - k]
  }

  /** `(1 << k) - 1` */
  function LowMask(k: nat): Word
    requires k < 64
  {
    seq(64, i => i < k)
  }

  /** `1 << k` */
  function Single(k: nat): Word
    requires k < 64
  {
    seq(64, i => i == k)
  }

  /** Position of the lowest set bit at or above `from`, 64 when there is none. */
  function LowestFrom(w: Word, from: nat): (r: nat)
    requires from <= 64
    ensures from <= r <= 64
    ensures forall i | from <= i < r :: !w[i]
    ensures r < 64 ==> w[r]
    decreases 64 - from
  {
    if from == 64 || w[from] then from else LowestFrom(w, from + 1)
  }

  function TrailingZeros(w: Word): nat { LowestFrom(w, 0) }

  function TrailingOnes(w: Word): nat { LowestFrom(Not(w), 0) }

  /** Number of clear bits above the highest set bit below `upTo`, plus the bits from `upTo` on. */
  function LeadingZerosBelow(w: Word, upTo: nat): (r: nat)
    requires upTo <= 64
    ensures 64 - upTo <= r <= 64
    ensures forall i | 64 - r <= i < upTo :: !w[i]
    ensures r < 64 ==> w[63 - r]
  {
    if upTo == 0 || w[upTo - 1] then 64 - upTo else LeadingZerosBelow(w, upTo - 1)
  }

  function LeadingZeros(w: Word): nat { LeadingZerosBelow(w, 64) }

  lemma ZeroWord(w: Word)
    ensures w == Zero() <==> forall i | 0 <= i < 64 :: !w[i]
  {
    if forall i | 0 <= i < 64 :: !w[i] {
      assert w == Zero();
    }
  }

  lemma FullWord(w: Word)
    ensures w == Not(Zero()) <==> TrailingOnes(w) == 64
  {
    var ones, inverted := Not(Zero()), Not(w);
    assert forall i | 0 <= i < 64 :: ones[i] && inverted[i] == !w[i];
    if TrailingOnes(w) == 64 {
      assert w == ones;
    }
  }

  // ------------------------------------------------- scans of a plain set

  /** The least index in [start, limit) outside `s`. */
  function GapFrom(s: set<nat>, start: nat, limit: nat): (r: Option<nat>)
    ensures r.None? ==> forall i | start <= i < limit :: i in s
    ensures r.Some? ==> start <= r.value < limit && r.value !in s && forall i | start <= i < r.value :: i in s
    decreases limit - start
  {
    if start >= limit then None
    else if start !in s then Some(start)
    else GapFrom(s, start + 1, limit)
  }

  /** The least index outside `s`, clamped to `limit`. */
  function FirstGap(s: set<nat>, limit: nat): (r: nat)
    ensures r <= limit && forall i | 0 <= i < r :: i in s
    ensures r < limit ==> r !in s
  {
    match GapFrom(s, 0, limit)
    case None => limit
    case Some(i) => i
  }

  /** The greatest member of `s` below `limit`. */
  function LastMember(s: set<nat>, limit: nat): (r: Option<nat>)
    ensures r.None? ==> forall i | 0 <= i < limit :: i !in s
    ensures r.Some? ==> r.value < limit && r.value in s && forall i | r.value < i < limit :: i !in s
  {
    if limit == 0 then None
    else if limit - 1 in s then Some(limit - 1)
    else LastMember(s, limit - 1)
  }

  lemma GapFromUnique(s: set<nat>, start: nat, limit: nat, r: Option<nat>)
    requires r.None? ==> forall i | start <= i < limit :: i in s
    requires r.Some? ==> start <= r.value < limit && r.value !in s && forall i | start <= i < r.value :: i in s
    ensures r == GapFrom(s, start, limit)
  {
    var q := GapFrom(s, start, limit);
  }

  lemma LastMemberUnique(s: set<nat>, limit: nat, r: Option<nat>)
    requires r.None? ==> forall i | 0 <= i < limit :: i !in s
    requires r.Some? ==> r.value < limit && r.value in s && forall i | r.value < i < limit :: i !in s
    ensures r == LastMember(s, limit)
  {
    var q := LastMember(s, limit);
  }

  // ---------------------------------------------------------- the bit set

  predicate BitAt(words: seq<Word>, i: nat) {
    i < 64 * |words| && words[i / 64][i % 64]
  }

  function Members(words: seq<Word>): (s: set<nat>)
    ensures forall i: nat :: i in s <==> BitAt(words, i)
  {
    set i: nat | i < 64 * |words| && BitAt(words, i)
  }

  lemma Locate(w: nat, b: nat)
    requires b < 64
    ensures (64 * w + b) / 64 == w && (64 * w + b) % 64 == b
  {
  }

  lemma Split(i: nat)
    ensures i == 64 * (i / 64) + i % 64 && 0 <= i % 64 < 64
  {
  }

  class BitSet {
    const words: array<Word>

    constructor (n: nat)
      ensures fresh(words) && words.Length == n && Members(words[..]) == {}
    {
      words := new Word[n](i => Zero());
    }

    ghost function View(): set<nat>
      reads this, words
    {
      Members(words[..])
    }

    method Get(index: nat) returns (r: bool)
      ensures r <==> index in View()
    {
      if index >= words.Length * 64 { return false; }
      r := And(words[index / 64], Single(index % 64)) != Zero();
      ghost var w := And(words[index / 64], Single(index % 64));
      ZeroWord(w);
      assert w[index % 64] == words[..][index / 64][index % 64];
    }

    method Set(index: nat) returns (changed: bool)
      modifies words
      ensures changed <==> index < 64 * words.Length && index !in old(View())
      ensures View() == if changed then old(View()) + {index} else old(View())
    {
      var had := Get(index);
      if index >= words.Length * 64 || had { return false; }
      ghost var before := words[..];
      words[index / 64] := Or(words[index / 64], Single(index % 64));
      forall i: nat | i < 64 * |before|
        ensures BitAt(words[..], i) <==> BitAt(before, i) || i == index
      {
        Split(i);
        Split(index);
      }
      assert View() == old(View()) + {index};
      return true;
    }

    method Unset(index: nat) returns (changed: bool)
      modifies words
      ensures changed <==> index in old(View())
      ensures View() == old(View()) - {index}
    {
      var had := Get(index);
      if !had { return false; }
      ghost var before := words[..];
      words[index / 64] := And(words[index / 64], Not(Single(index % 64)));
      forall i: nat | i < 64 * |before|
        ensures BitAt(words[..], i) <==> BitAt(before, i) && i != index
      {
        Split(i);
        Split(index);
      }
      assert View() == old(View()) - {index};
      return true;
    }

    method FirstZero(limit: nat) returns (r: nat)
      ensures r == FirstGap(View(), limit)
    {
      var base := 0;
      ghost var s := View();
      for k := 0 to words.Length
        invariant base == 64 * k
        invariant forall i: nat | i < base :: i in s
      {
        if words[k] == Not(Zero()) {
          forall i: nat | base <= i < base + 64
            ensures i in s
          {
            Locate(k, i - base);
            assert words[..][k][i - base];
          }
          base := base + 64;
        } else {
          var trailing := TrailingOnes(words[k]);
          ghost var inverted := Not(words[k]);
          FullWord(words[k]);
          forall i: nat | base <= i < base + trailing
            ensures i in s
          {
            Locate(k, i - base);
            assert !inverted[i - base];
          }
          Locate(k, trailing);
          assert inverted[trailing];
          assert base + trailing !in s;
          r := if base + trailing < limit then base + trailing else limit;
          GapFromUnique(s, 0, limit, if r == limit then None else Some(r));
          return;
        }
      }
      r := if base < limit then base else limit;
      GapFromUnique(s, 0, limit, if base < limit then Some(base) else None);
    }

    method NextZero(start: nat, limit: nat) returns (r: Option<nat>)
      ensures r == GapFrom(View(), start, limit)
    {
      var idx := start;
      ghost var s := View();
      while idx < limit
        invariant idx >= start
        invariant forall i: nat | start <= i < idx && i < limit :: i in s
        decreases limit - idx
      {
        var wordIdx := idx / 64;
        Split(idx);
        if wordIdx >= words.Length {
          GapFromUnique(s, start, limit, Some(idx));
          return Some(idx);
        }
        var bitIdx := idx % 64;
        var masked := And(Not(words[wordIdx]), Not(LowMask(bitIdx)));
        ZeroWord(masked);
        forall i: nat | idx <= i < 64 * wordIdx + 64
          ensures i in s <==> !masked[i - 64 * wordIdx]
        {
          Locate(wordIdx, i - 64 * wordIdx);
        }
        if masked != Zero() {
          var trailing := TrailingZeros(masked);
          var found := wordIdx * 64 + trailing;
          assert bitIdx <= trailing < 64;
          assert masked[trailing];
          assert found !in s;
          r := if found < limit then Some(found) else None;
          GapFromUnique(s, start, limit, r);
          return;
        }
        idx := (wordIdx + 1) * 64;
      }
      GapFromUnique(s, start, limit, None);
      return None;
    }

    method LastOne(limit: nat) returns (r: Option<nat>)
      ensures r == LastMember(View(), limit)
    {
      ghost var s := View();
      var clamped := if limit < words.Length * 64 then limit else words.Length * 64;
      if clamped == 0 {
        LastMemberUnique(s, limit, None);
        return None;
      }
      var lastIdx := clamped - 1;
      Split(lastIdx);
      var wordIdx := lastIdx / 64;
      var bitLimit := lastIdx % 64 + 1;
      if bitLimit < 64 {
        var masked := And(words[wordIdx], LowMask(bitLimit));
        ZeroWord(masked);
        forall i: nat | 64 * wordIdx <= i < clamped
          ensures i in s <==> masked[i - 64 * wordIdx]
        {
          Locate(wordIdx, i - 64 * wordIdx);
        }
        if masked != Zero() {
          var leading := LeadingZeros(masked);
          assert leading < 64;
          r := Some(wordIdx * 64 + (63 - leading));
          LastMemberUnique(s, limit, r);
          return;
        }
        if wordIdx == 0 {
          LastMemberUnique(s, limit, None);
          return None;
        }
        wordIdx := wordIdx - 1;
      }
      r := LastOneInFullWords(wordIdx);
      LastMemberUnique(s, limit, r);
    }

    /** The backward scan over whole words 0..wordIdx. */
    method LastOneInFullWords(start: nat) returns (r: Option<nat>)
      requires start < words.Length
      ensures r == LastMember(View(), 64 * start + 64)
    {
      ghost var s := View();
      var wordIdx := start;
      while true
        invariant 0 <= wordIdx <= start
        invariant forall i: nat | 64 * wordIdx + 64 <= i < 64 * start + 64 :: i !in s
        decreases wordIdx
      {
        var word := words[wordIdx];
        ZeroWord(word);
        forall i: nat | 64 * wordIdx <= i < 64 * wordIdx + 64
          ensures i in s <==> word[i - 64 * wordIdx]
        {
          Locate(wordIdx, i - 64 * wordIdx);
        }
        if word != Zero() {
          var leading := LeadingZeros(word);
          assert leading < 64;
          r := Some(wordIdx * 64 + (63 - leading));
          LastMemberUnique(s, 64 * start + 64, r);
          return;
        }
        if wordIdx == 0 { break; }
        wordIdx := wordIdx - 1;
      }
      LastMemberUnique(s, 64 * start + 64, None);
      return None;
    }

    /** Bit i of the result says whether `baseIndex + 1 + i` is a member. */
    method SackMask(baseIndex: nat) returns (mask: Word)
      ensures forall i | 0 <= i < 64 :: mask[i] <==> baseIndex + 1 + i in View()
    {
      var start := baseIndex + 1;
      Split(start);
      var wordIdx := start / 64;
      var bitIdx := start % 64;
      if wordIdx >= words.Length { return Zero(); }
      mask := Shr(words[wordIdx], bitIdx);
      if bitIdx > 0 && wordIdx + 1 < words.Length {
        mask := Or(mask, Shl(words[wordIdx + 1], 64 - bitIdx));
      }
      forall i: nat | i < 64
        ensures mask[i] <==> start + i in View()
      {
        if bitIdx + i < 64 {
          Locate(wordIdx, bitIdx + i);
        } else {
          Locate(wordIdx + 1, bitIdx + i - 64);
        }
      }
    }
  }
}
