/**
 The pack index of merkle-tox-fs (`PackIndex`): records sorted by hash behind a Bloom
 filter and a fanout table of prefix sums.  The hash that spreads a key over the Bloom
 filter is a parameter.
 */
module Pack {
  import opened Wrappers
  import opened Sorting
  import opened Bytes

  const HASH_SIZE: nat := 32
  const U32: int := 0x1_0000_0000

  datatype Record = Record(hash: seq<Byte>, offset: nat, rank: nat, payloadLength: nat, nodeType: nat, status: nat,
                           adminDistance: nat)

  // ------------------------------------------------------- hashes, their order and prefixes

  predicate IsHash(h: seq<Byte>) { |h| == HASH_SIZE }

  /** The order of byte arrays: by the first byte that differs. */
  predicate LexLess(a: seq<Byte>, b: seq<Byte>, from: nat)
    requires IsHash(a) && IsHash(b) && from <= HASH_SIZE
    decreases HASH_SIZE - from
  {
    from < HASH_SIZE && (a[from] < b[from] || (a[from] == b[from] && LexLess(a, b, from + 1)))
  }

  function Key(r: Record): nat { Lead(r.hash, |r.hash|) }

  lemma {:induction false} LeadInjective(a: seq<Byte>, b: seq<Byte>, n: nat)
    requires n <= |a| && n <= |b| && Lead(a, n) == Lead(b, n)
    ensures a[..n] == b[..n]
  {
    if n > 0 {
      LeadInjective(a, b, n - 1);
      assert a[..n] == a[..n - 1] + [a[n - 1]] && b[..n] == b[..n - 1] + [b[n - 1]];
    }
  }

  lemma {:induction false} LeadMonotone(a: seq<Byte>, b: seq<Byte>, m: nat, n: nat)
    requires m <= n <= |a| && n <= |b|
    ensures Lead(a, n) <= Lead(b, n) ==> Lead(a, m) <= Lead(b, m)
    ensures Lead(a, m) < Lead(b, m) ==> Lead(a, n) < Lead(b, n)
    decreases n
  {
    if m < n {
      LeadMonotone(a, b, m, n - 1);
    }
  }

  /** The order of byte arrays is the order of the big-endian numbers they spell. */
  lemma {:induction false} LexIsNumeric(a: seq<Byte>, b: seq<Byte>, from: nat)
    requires IsHash(a) && IsHash(b) && from <= HASH_SIZE && Lead(a, from) == Lead(b, from)
    ensures LexLess(a, b, from) <==> Lead(a, HASH_SIZE) < Lead(b, HASH_SIZE)
    decreases HASH_SIZE - from
  {
    if from < HASH_SIZE {
      if a[from] == b[from] {
        LexIsNumeric(a, b, from + 1);
      } else {
        LeadMonotone(a, b, from + 1, HASH_SIZE);
        LeadMonotone(b, a, from + 1, HASH_SIZE);
      }
    }
  }

  /** Shifts, one bit at a time. */
  function Shl(x: nat, n: nat): nat { if n == 0 then x else 2 * Shl(x, n - 1) }

  function Shr(x: nat, n: nat): nat { if n == 0 then x else Shr(x / 2, n - 1) }

  lemma {:induction false} ShlSum(x: nat, m: nat, n: nat)
    ensures Shl(Shl(x, m), n) == Shl(x, m + n)
  {
    if n > 0 { ShlSum(x, m, n - 1); }
  }

  lemma ShlByte(x: nat)
    ensures Shl(x, 8) == 256 * x
  {
    assert Shl(x, 1) == 2 * x;
    assert Shl(x, 2) == 4 * x;
    assert Shl(x, 3) == 8 * x;
    assert Shl(x, 4) == 16 * x;
    assert Shl(x, 5) == 32 * x;
    assert Shl(x, 6) == 64 * x;
    assert Shl(x, 7) == 128 * x;
  }

  lemma {:induction false} ShrSplit(p: nat, x: nat, n: nat)
    ensures Shr(Shl(p, n) + x, n) == p + Shr(x, n)
  {
    if n > 0 {
      assert (2 * Shl(p, n - 1) + x) / 2 == Shl(p, n - 1) + x / 2;
      ShrSplit(p, x / 2, n - 1);
    }
  }

  lemma {:induction false} ShrMonotone(x: nat, y: nat, n: nat)
    requires x <= y
    ensures Shr(x, n) <= Shr(y, n)
  {
    if n > 0 { ShrMonotone(x / 2, y / 2, n - 1); }
  }

  lemma {:induction false} ShrBound(x: nat, q: nat, n: nat)
    requires x < Shl(q, n)
    ensures Shr(x, n) < q
  {
    if n > 0 { ShrBound(x / 2, q, n - 1); }
  }

  /** The leading bits of a hash as a number. */
  function Prefix(h: seq<Byte>, bits: nat): nat
    requires IsHash(h) && bits <= 32
  {
    var full, rest := bits / 8, bits % 8;
    if rest == 0 then Lead(h, full) else Shl(Lead(h, full), rest) + Shr(h[full], 8 - rest)
  }

  /** It is the number spelled by the bytes it touches, shifted. */
  lemma PrefixIsShift(h: seq<Byte>, bits: nat)
    requires IsHash(h) && bits <= 32 && bits % 8 != 0
    ensures Prefix(h, bits) == Shr(Lead(h, bits / 8 + 1), 8 - bits % 8)
  {
    var full, rest := bits / 8, bits % 8;
    var p := Lead(h, full);
    ShlByte(p);
    ShlSum(p, rest, 8 - rest);
    ShrSplit(Shl(p, rest), h[full], 8 - rest);
  }

  lemma {:induction false} LeadBound(h: seq<Byte>, n: nat)
    requires n <= |h|
    ensures Lead(h, n) < Shl(1, 8 * n)
  {
    if n > 0 {
      LeadBound(h, n - 1);
      ShlSum(1, 8 * (n - 1), 8);
      ShlByte(Shl(1, 8 * (n - 1)));
    }
  }

  /** A prefix fits its number of bits, so it indexes the fanout table. */
  lemma PrefixBound(h: seq<Byte>, bits: nat)
    requires IsHash(h) && bits <= 32
    ensures Prefix(h, bits) < Shl(1, bits)
  {
    var full, rest := bits / 8, bits % 8;
    assert bits == 8 * full + rest;
    if rest == 0 {
      LeadBound(h, full);
      assert Prefix(h, bits) == Lead(h, full);
    } else {
      LeadBound(h, full + 1);
      PrefixIsShift(h, bits);
      CutBound(Lead(h, full + 1), full, rest);
    }
  }

  lemma CutBound(x: nat, full: nat, rest: nat)
    requires x < Shl(1, 8 * (full + 1)) && 0 < rest < 8
    ensures Shr(x, 8 - rest) < Shl(1, 8 * full + rest)
  {
    ShlSum(1, 8 * full + rest, 8 - rest);
    ShrBound(x, Shl(1, 8 * full + rest), 8 - rest);
  }

  /** Prefixes follow the order of the hashes. */
  lemma PrefixMonotone(a: seq<Byte>, b: seq<Byte>, bits: nat)
    requires IsHash(a) && IsHash(b) && bits <= 32 && Lead(a, HASH_SIZE) <= Lead(b, HASH_SIZE)
    ensures Prefix(a, bits) <= Prefix(b, bits)
  {
    var full, rest := bits / 8, bits % 8;
    if rest == 0 {
      LeadMonotone(a, b, full, HASH_SIZE);
    } else {
      LeadMonotone(a, b, full + 1, HASH_SIZE);
      PrefixIsShift(a, bits);
      PrefixIsShift(b, bits);
      ShrMonotone(Lead(a, full + 1), Lead(b, full + 1), 8 - rest);
    }
  }

  /** `get_prefix`: 32-bit shifts, which drop nothing for up to 32 bits. */
  method GetPrefix(h: seq<Byte>, bits: nat) returns (prefix: nat)
    requires IsHash(h) && bits <= 32
    ensures prefix == Prefix(h, bits) < Shl(1, bits)
  {
    prefix := 0;
    var full := bits / 8;
    for i := 0 to full
      invariant prefix == Lead(h, i)
    {
      LeadFits(h, i, 8);
      ShlByte(prefix);
      prefix := Shl(prefix, 8) % U32 + h[i];
    }
    var rest := bits % 8;
    PrefixBound(h, bits);
    if rest > 0 {
      LeadFits(h, full, rest);
      prefix := Shl(prefix, rest) % U32 + Shr(h[full], 8 - rest);
    }
  }

  /** Up to three bytes can be shifted by one more within 32 bits. */
  lemma LeadFits(h: seq<Byte>, n: nat, shift: nat)
    requires n < 4 && IsHash(h) && shift <= 8
    ensures Shl(Lead(h, n), shift) < U32
  {
    assert Lead(h, 0) == 0 && Lead(h, 1) < 256 && Lead(h, 2) < 0x1_0000 && Lead(h, 3) < 0x100_0000;
    ShlGrows(Lead(h, n), shift, 8);
    ShlByte(Lead(h, n));
  }

  lemma {:induction false} ShlGrows(x: nat, m: nat, n: nat)
    requires m <= n
    ensures Shl(x, m) <= Shl(x, n)
  {
    if m < n { ShlGrows(x, m, n - 1); }
  }

  // ------------------------------------------------------- counting by prefix

  ghost predicate AllHashes(s: seq<Record>) { forall i | 0 <= i < |s| :: IsHash(s[i].hash) }

  /** How many records have exactly this prefix, and how many have at most it. */
  ghost function CountAt(s: seq<Record>, bits: nat, p: int): nat
    requires AllHashes(s) && bits <= 32
  {
    if s == [] then 0
    else CountAt(s[..|s| - 1], bits, p) + if Prefix(s[|s| - 1].hash, bits) == p then 1 else 0
  }

  ghost function CountUpTo(s: seq<Record>, bits: nat, p: int): nat
    requires AllHashes(s) && bits <= 32
  {
    if s == [] then 0
    else CountUpTo(s[..|s| - 1], bits, p) + if Prefix(s[|s| - 1].hash, bits) <= p then 1 else 0
  }

  lemma {:induction false} CountStep(s: seq<Record>, bits: nat, p: int)
    requires AllHashes(s) && bits <= 32
    ensures CountUpTo(s, bits, p) == CountUpTo(s, bits, p - 1) + CountAt(s, bits, p)
  {
    if s != [] { CountStep(s[..|s| - 1], bits, p); }
  }

  lemma {:induction false} CountNone(s: seq<Record>, bits: nat)
    requires AllHashes(s) && bits <= 32
    ensures CountUpTo(s, bits, -1) == 0
  {
    if s != [] { CountNone(s[..|s| - 1], bits); }
  }

  ghost predicate InOrder(s: seq<Record>) { forall i, j | 0 <= i < j < |s| :: Key(s[i]) <= Key(s[j]) }

  /** In sorted records the count up to a prefix is where that prefix ends. */
  lemma {:induction false} CountSplits(s: seq<Record>, bits: nat, p: int, i: nat)
    requires AllHashes(s) && bits <= 32 && InOrder(s) && i < |s|
    ensures CountUpTo(s, bits, p) <= |s|
    ensures i < CountUpTo(s, bits, p) <==> Prefix(s[i].hash, bits) <= p
  {
    var init, last := s[..|s| - 1], s[|s| - 1];
    if i < |s| - 1 {
      CountSplits(init, bits, p, i);
      assert Key(s[i]) <= Key(last);
      PrefixMonotone(s[i].hash, last.hash, bits);
      if Prefix(last.hash, bits) <= p { CountAll(init, last, bits, p); }
    } else if Prefix(last.hash, bits) <= p {
      CountAll(init, last, bits, p);
    } else {
      CountAtMost(init, bits, p);
    }
  }

  lemma {:induction false} CountAtMost(s: seq<Record>, bits: nat, p: int)
    requires AllHashes(s) && bits <= 32
    ensures CountUpTo(s, bits, p) <= |s|
  {
    if s != [] { CountAtMost(s[..|s| - 1], bits, p); }
  }

  lemma {:induction false} CountAll(s: seq<Record>, last: Record, bits: nat, p: int)
    requires AllHashes(s) && bits <= 32 && IsHash(last.hash) && Prefix(last.hash, bits) <= p
    requires forall i | 0 <= i < |s| :: Key(s[i]) <= Key(last)
    ensures CountUpTo(s, bits, p) == |s|
  {
    if s != [] {
      CountAll(s[..|s| - 1], last, bits, p);
      PrefixMonotone(s[|s| - 1].hash, last.hash, bits);
    }
  }

  // ------------------------------------------------------- Bloom filter

  /** Ten bits a record, at least 64 bytes, cut to 32 bits. */
  function BloomBytes(n: nat): nat {
    var m := (n * 10 + 7) / 8;
    (if m < 64 then 64 else m) % U32
  }

  /** The number of bits, in 32-bit arithmetic. */
  function BloomBits(bytes: nat): (bits: nat)
    ensures bits <= bytes * 8
  {
    bytes * 8 % U32
  }

  /** Fewer than 2^32 records, and a number of bits that can be divided by. */
  predicate Indexable(n: nat) { n < U32 && BloomBits(BloomBytes(n)) > 0 }

  const BITS_WRAP: int := 0x2000_0000

  lemma NoBits(n: nat)
    requires n < U32
    ensures Indexable(n) <==> n == 0 || (n * 10 + 7) / 8 % BITS_WRAP != 0
  {
  }

  /** The record counts at which the size in bits, cut to 32 bits, is zero. */
  const CUT_TO_ZERO: set<nat> :=
    {429_496_729, 858_993_459, 1_717_986_918, 2_147_483_648, 2_576_980_377, 3_006_477_107, 3_865_470_566}

  /** Below 2^32 records, exactly seven counts leave no bits to divide by. */
  lemma IndexableMeans(n: nat)
    ensures Indexable(n) <==> n < U32 && n !in CUT_TO_ZERO
  {
    if n < U32 {
      NoBits(n);
      var m := (n * 10 + 7) / 8;
      var c := m / BITS_WRAP;
      assert 0 <= c <= 10;
      assert m % BITS_WRAP == 0 <==> n * 10 <= c * (8 * BITS_WRAP) <= n * 10 + 7;
    }
  }

  /** The position of the `k`-th bit of a hash; the hasher is fed `k` as one byte. */
  function BloomBit(spread: (nat, seq<Byte>) -> nat, k: nat, h: seq<Byte>, bits: nat): (idx: nat)
    requires bits > 0
    ensures idx < bits
  {
    spread(k % 256, h) % bits
  }

  /** A byte of the filter: eight bits, lowest first. */
  type Octet = b: seq<bool> | |b| == 8 witness [false, false, false, false, false, false, false, false]

  const ZERO: Octet := [false, false, false, false, false, false, false, false]

  predicate BitAt(filter: seq<Octet>, idx: nat)
    requires idx / 8 < |filter|
  {
    filter[idx / 8][idx % 8]
  }

  /** Every bit of the hash is set. */
  ghost predicate Admits(filter: seq<Octet>, spread: (nat, seq<Byte>) -> nat, bloomK: nat, h: seq<Byte>)
    requires BloomBits(|filter|) > 0
  {
    forall k | 0 <= k < bloomK :: BitAt(filter, BloomBit(spread, k, h, BloomBits(|filter|)))
  }

  /** Setting a bit keeps what the filter admits. */
  lemma SetKeeps(filter: seq<Octet>, idx: nat, after: seq<Octet>)
    requires idx / 8 < |filter|
    requires after == filter[idx / 8 := filter[idx / 8][idx % 8 := true]]
    ensures forall j: nat | j / 8 < |filter| :: BitAt(after, j) <==> BitAt(filter, j) || j == idx
  {
    forall j: nat | j / 8 < |filter| ensures BitAt(after, j) <==> BitAt(filter, j) || j == idx {
      assert j / 8 == idx / 8 && j % 8 == idx % 8 ==> j == idx;
    }
  }

  // ------------------------------------------------------- the index

  class PackIndex {
    const fanoutBits: nat
    const bloomK: nat
    const spread: (nat, seq<Byte>) -> nat
    var bloomFilter: seq<Octet>
    var fanoutTable: array<nat>
    var records: seq<Record>

    ghost predicate Sized()
      reads this
    {
      && fanoutBits <= 32 && fanoutTable.Length == Shl(1, fanoutBits)
      && AllHashes(records) && InOrder(records) && Indexable(|records|)
      && |bloomFilter| == BloomBytes(|records|)
    }

    /** What `build` establishes and `lookup` relies on. */
    ghost predicate Valid()
      reads this, fanoutTable
    {
      && Sized()
      && (forall i | 0 <= i < |records| :: Admits(bloomFilter, spread, bloomK, records[i].hash))
      && (forall p | 0 <= p < fanoutTable.Length :: fanoutTable[p] == CountUpTo(records, fanoutBits, p))
    }

    /** `build` */
    constructor (input: seq<Record>, fanoutBits: nat, bloomK: nat, spread: (nat, seq<Byte>) -> nat)
      requires fanoutBits <= 32 && AllHashes(input) && Indexable(|input|)
      ensures Valid() && fresh(fanoutTable)
      ensures multiset(records) == multiset(input)
      ensures this.fanoutBits == fanoutBits && this.bloomK == bloomK && this.spread == spread
    {
      this.fanoutBits, this.bloomK, this.spread := fanoutBits, bloomK, spread;
      var sorted := SortByHash(input);
      records := sorted;
      bloomFilter := seq(BloomBytes(|sorted|), _ => ZERO);
      fanoutTable := new nat[Shl(1, fanoutBits)](_ => 0);
      new;
      SortedRecords(input);
      FillBloom();
      CountPrefixes();
      SumPrefixes();
    }

    method FillBloom()
      requires Sized()
      modifies `bloomFilter
      ensures Sized()
      ensures forall i | 0 <= i < |records| :: Admits(bloomFilter, spread, bloomK, records[i].hash)
    {
      for i := 0 to |records|
        invariant Sized()
        invariant forall j | 0 <= j < i :: Admits(bloomFilter, spread, bloomK, records[j].hash)
      {
        AddToBloom(records[i].hash);
      }
    }

    method AddToBloom(h: seq<Byte>)
      requires BloomBits(|bloomFilter|) > 0
      modifies `bloomFilter
      ensures |bloomFilter| == |old(bloomFilter)| && Admits(bloomFilter, spread, bloomK, h)
      ensures forall g :: Admits(old(bloomFilter), spread, bloomK, g) ==> Admits(bloomFilter, spread, bloomK, g)
    {
      var bits := BloomBits(|bloomFilter|);
      for k := 0 to bloomK
        invariant |bloomFilter| == |old(bloomFilter)|
        invariant forall j: nat | j / 8 < |bloomFilter| && BitAt(old(bloomFilter), j) :: BitAt(bloomFilter, j)
        invariant forall j | 0 <= j < k :: BitAt(bloomFilter, BloomBit(spread, j, h, bits))
      {
        var idx := BloomBit(spread, k, h, bits);
        SetKeeps(bloomFilter, idx, bloomFilter[idx / 8 := bloomFilter[idx / 8][idx % 8 := true]]);
        bloomFilter := bloomFilter[idx / 8 := bloomFilter[idx / 8][idx % 8 := true]];
      }
    }

    method CountPrefixes()
      requires Sized() && forall p | 0 <= p < fanoutTable.Length :: fanoutTable[p] == 0
      modifies fanoutTable
      ensures forall p | 0 <= p < fanoutTable.Length :: fanoutTable[p] == CountAt(records, fanoutBits, p)
    {
      for i := 0 to |records|
        invariant forall p | 0 <= p < fanoutTable.Length :: fanoutTable[p] == CountAt(records[..i], fanoutBits, p)
      {
        var prefix := GetPrefix(records[i].hash, fanoutBits);
        assert records[..i + 1][..i] == records[..i];
        fanoutTable[prefix] := fanoutTable[prefix] + 1;
      }
      assert records[..|records|] == records;
    }

    method SumPrefixes()
      requires Sized()
      requires forall p | 0 <= p < fanoutTable.Length :: fanoutTable[p] == CountAt(records, fanoutBits, p)
      modifies fanoutTable
      ensures forall p | 0 <= p < fanoutTable.Length :: fanoutTable[p] == CountUpTo(records, fanoutBits, p)
    {
      var sum := 0;
      CountNone(records, fanoutBits);
      for i := 0 to fanoutTable.Length
        invariant sum == CountUpTo(records, fanoutBits, i - 1)
        invariant forall p | 0 <= p < i :: fanoutTable[p] == CountUpTo(records, fanoutBits, p)
        invariant forall p | i <= p < fanoutTable.Length :: fanoutTable[p] == CountAt(records, fanoutBits, p)
      {
        CountStep(records, fanoutBits, i);
        sum := sum + fanoutTable[i];
        fanoutTable[i] := sum;
      }
    }

    /** The filter has no false negatives: a hash it rejects belongs to no record. */
    method MayContain(h: seq<Byte>) returns (maybe: bool)
      requires Valid()
      ensures maybe <==> Admits(bloomFilter, spread, bloomK, h)
      ensures !maybe ==> forall i | 0 <= i < |records| :: records[i].hash != h
    {
      var bits := BloomBits(|bloomFilter|);
      for k := 0 to bloomK
        invariant forall j | 0 <= j < k :: BitAt(bloomFilter, BloomBit(spread, j, h, bits))
      {
        var idx := BloomBit(spread, k, h, bits);
        if !BitAt(bloomFilter, idx) { return false; }
      }
      return true;
    }

    /** The slice of the records with the prefix of `h`. */
    method Bucket(h: seq<Byte>) returns (low: nat, high: nat)
      requires Valid() && IsHash(h)
      ensures low <= high <= |records|
      ensures forall i | 0 <= i < |records| ::
                low <= i < high <==> Prefix(records[i].hash, fanoutBits) == Prefix(h, fanoutBits)
    {
      var prefix := GetPrefix(h, fanoutBits);
      low := if prefix == 0 then 0 else fanoutTable[prefix - 1];
      high := fanoutTable[prefix];
      BucketBounds(records, fanoutBits, prefix);
    }

    /** `lookup` agrees with a plain search of all records. */
    method Lookup(h: seq<Byte>) returns (found: Option<Record>)
      requires Valid() && IsHash(h)
      ensures found.Some? ==> found.value in records && found.value.hash == h
      ensures found.None? ==> forall r | r in records :: r.hash != h
    {
      var maybe := MayContain(h);
      if !maybe { return None; }
      var low, high := Bucket(h);
      found := BinarySearch(records, h, low, high);
    }
  }

  lemma BucketBounds(s: seq<Record>, bits: nat, p: nat)
    requires AllHashes(s) && bits <= 32 && InOrder(s)
    ensures CountUpTo(s, bits, -1) == 0 && CountUpTo(s, bits, p - 1) <= CountUpTo(s, bits, p) <= |s|
    ensures forall i | 0 <= i < |s| ::
              CountUpTo(s, bits, p - 1) <= i < CountUpTo(s, bits, p) <==> Prefix(s[i].hash, bits) == p
  {
    CountNone(s, bits);
    CountStep(s, bits, p);
    CountAtMost(s, bits, p);
    forall i | 0 <= i < |s|
      ensures CountUpTo(s, bits, p - 1) <= i < CountUpTo(s, bits, p) <==> Prefix(s[i].hash, bits) == p
    {
      CountSplits(s, bits, p, i);
      CountSplits(s, bits, p - 1, i);
    }
  }

  function SortByHash(input: seq<Record>): seq<Record> { SortBy(input, (r: Record) => Key(r) as int) }

  lemma SortedRecords(input: seq<Record>)
    requires AllHashes(input)
    ensures var s := SortByHash(input); |s| == |input| && AllHashes(s) && InOrder(s) && multiset(s) == multiset(input)
  {
    var s, key := SortByHash(input), (r: Record) => Key(r) as int;
    SortSorts(input, key);
    SameMembers(input, key);
    assert forall i | 0 <= i < |s| :: key(s[i]) == Key(s[i]);
    forall i | 0 <= i < |s| ensures IsHash(s[i].hash) { assert s[i] in input; }
  }

  /** `binary_search_by_key` within a slice of sorted records. */
  method BinarySearch(s: seq<Record>, h: seq<Byte>, low: nat, high: nat) returns (found: Option<Record>)
    requires low <= high <= |s| && AllHashes(s) && InOrder(s) && IsHash(h)
    ensures found.Some? ==> found.value in s[low..high] && found.value.hash == h
    ensures found.None? ==> forall i | low <= i < high :: s[i].hash != h
  {
    var lo, hi := low, high;
    ghost var key := Lead(h, HASH_SIZE);
    while lo < hi
      invariant low <= lo <= hi <= high
      invariant forall i | low <= i < lo :: Key(s[i]) < key
      invariant forall i | hi <= i < high :: Key(s[i]) > key
    {
      var mid := lo + (hi - lo) / 2;
      LexIsNumeric(s[mid].hash, h, 0);
      LexIsNumeric(h, s[mid].hash, 0);
      if s[mid].hash == h {
        assert s[low..high][mid - low] == s[mid];
        return Some(s[mid]);
      } else if LexLess(s[mid].hash, h, 0) {
        lo := mid + 1;
      } else {
        SameKeySameHash(s[mid].hash, h);
        hi := mid;
      }
    }
    return None;
  }

  lemma SameKeySameHash(a: seq<Byte>, b: seq<Byte>)
    requires IsHash(a) && IsHash(b)
    ensures Lead(a, HASH_SIZE) == Lead(b, HASH_SIZE) ==> a == b
  {
    if Lead(a, HASH_SIZE) == Lead(b, HASH_SIZE) { LeadInjective(a, b, HASH_SIZE); }
    assert a == a[..HASH_SIZE] && b == b[..HASH_SIZE];
  }
}
