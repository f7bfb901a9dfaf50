/**
 MessagePack values as tox-proto reads past them (`skip_value`, `capture_value`), in the
 formats of the MessagePack specification, section "Formats".
 */
module MsgPack {
  import opened Wrappers
  import opened Bytes

  /** What the first byte of a value announces. */
  datatype Shape =
    | Data(size: nat)                       // that many bytes
    | Sized(lengthBytes: nat, extra: nat)   // a length, then that many bytes and `extra` more
    | Items(count: nat)                     // that many values
    | Counted(lengthBytes: nat, pairs: bool) // a length, then that many values or pairs of values
    | Reserved

  function ShapeOf(head: Byte): Shape {
    if head < 0x80 then Data(0)
    else if head < 0x90 then Items(2 * (head - 0x80))
    else if head < 0xa0 then Items(head - 0x90)
    else if head < 0xc0 then Data(head - 0xa0)
    else if head == 0xc0 || head == 0xc2 || head == 0xc3 || head >= 0xe0 then Data(0)
    else if head == 0xc1 then Reserved
    else if head == 0xc4 || head == 0xd9 then Sized(1, 0)
    else if head == 0xc5 || head == 0xda then Sized(2, 0)
    else if head == 0xc6 || head == 0xdb then Sized(4, 0)
    else if head == 0xc7 then Sized(1, 1)
    else if head == 0xc8 then Sized(2, 1)
    else if head == 0xc9 then Sized(4, 1)
    else if head == 0xcc || head == 0xd0 then Data(1)
    else if head == 0xcd || head == 0xd1 then Data(2)
    else if head == 0xca || head == 0xce || head == 0xd2 then Data(4)
    else if head == 0xcb || head == 0xcf || head == 0xd3 then Data(8)
    else if head == 0xd4 then Data(2)
    else if head == 0xd5 then Data(3)
    else if head == 0xd6 then Data(5)
    else if head == 0xd7 then Data(9)
    else if head == 0xd8 then Data(17)
    else if head == 0xdc then Counted(2, false)
    else if head == 0xdd then Counted(4, false)
    else if head == 0xde then Counted(2, true)
    else Counted(4, true)
  }

  /** The loop bound for children, computed in the width of the length: `len * 2` wraps. */
  function LoopBound(length: nat, lengthBytes: nat, pairs: bool): nat {
    var n, width := if pairs then 2 * length else length, Pow256(lengthBytes);
    if n >= width then n - width else n
  }

  // ------------------------------------------------------- reading past values

  function Drop(s: seq<Byte>, n: nat): (r: Option<seq<Byte>>)
    ensures r.Some? ==> |r.value| == |s| - n
  {
    if n <= |s| then Some(s[n..]) else None
  }

  /** What is left after `skip_value`, unless it fails. */
  function Skip(s: seq<Byte>): (r: Option<seq<Byte>>)
    ensures r.Some? ==> |r.value| < |s|
    decreases |s|, 0, 0
  {
    if s == [] then None
    else
      var t := s[1..];
      match ShapeOf(s[0])
      case Data(n) => Drop(t, n)
      case Sized(k, extra) => if |t| < k then None else Drop(t[k..], Lead(t, k) + extra)
      case Items(n) => SkipMany(t, n)
      case Counted(k, pairs) => if |t| < k then None else SkipMany(t[k..], LoopBound(Lead(t, k), k, pairs))
      case Reserved => None
  }

  function SkipMany(s: seq<Byte>, n: nat): (r: Option<seq<Byte>>)
    ensures r.Some? ==> |r.value| <= |s|
    decreases |s|, 1, n
  {
    if n == 0 then Some(s)
    else
      match Skip(s)
      case None => None
      case Some(t) => SkipMany(t, n - 1)
  }

  /** A reader that advances over its input. */
  class Reader {
    var rest: seq<Byte>

    constructor (input: seq<Byte>)
      ensures rest == input
    {
      rest := input;
    }

    method ReadExact(n: nat) returns (bytes: Option<seq<Byte>>)
      modifies this
      ensures bytes.Some? <==> n <= |old(rest)|
      ensures bytes.Some? ==> old(rest) == bytes.value + rest && |bytes.value| == n
      ensures bytes.None? ==> rest == old(rest)
    {
      if n > |rest| { return None; }
      bytes := Some(rest[..n]);
      rest := rest[n..];
    }

    /** `skip_value` */
    method SkipValue() returns (ok: bool)
      modifies this
      ensures ok <==> Skip(old(rest)).Some?
      ensures ok ==> rest == Skip(old(rest)).value
      ensures |rest| <= |old(rest)| && (ok ==> |rest| < |old(rest)|)
      decreases |rest|, 0
    {
      if rest == [] { return false; }
      var head := rest[0];
      rest := rest[1..];
      match ShapeOf(head)
      case Data(n) =>
        var data := ReadExact(n);
        return data.Some?;
      case Sized(k, extra) =>
        var length := ReadExact(k);
        if length.None? { return false; }
        LeadOfPrefix(length.value, rest, k);
        var data := ReadExact(Lead(length.value, k) + extra);
        return data.Some?;
      case Items(n) =>
        ok := SkipValues(n);
      case Counted(k, pairs) =>
        var length := ReadExact(k);
        if length.None? { return false; }
        LeadOfPrefix(length.value, rest, k);
        ok := SkipValues(LoopBound(Lead(length.value, k), k, pairs));
      case Reserved =>
        return false;
    }

    method SkipValues(n: nat) returns (ok: bool)
      modifies this
      ensures ok <==> SkipMany(old(rest), n).Some?
      ensures ok ==> rest == SkipMany(old(rest), n).value
      ensures |rest| <= |old(rest)|
      decreases |rest|, 1
    {
      for i := 0 to n
        invariant SkipMany(old(rest), n) == SkipMany(rest, n - i) && |rest| <= |old(rest)|
      {
        var one := SkipValue();
        if !one { return false; }
      }
      return true;
    }

    /** `capture_value`: the bytes that the skip consumed. */
    method CaptureValue() returns (captured: Option<seq<Byte>>)
      modifies this
      ensures captured.Some? <==> Skip(old(rest)).Some?
      ensures captured.Some? ==> rest == Skip(old(rest)).value && captured.value == Consumed(old(rest), rest)
    {
      var before := rest;
      var ok := SkipValue();
      return if ok then Some(before[..|before| - |rest|]) else None;
    }
  }

  function Consumed(s: seq<Byte>, rest: seq<Byte>): seq<Byte>
    requires |rest| <= |s|
  {
    s[..|s| - |rest|]
  }

  // ------------------------------------------------------- values

  /** A value in one of its formats: the first byte, then bytes or child values. */
  datatype Value = Value(head: Byte, payload: seq<Byte>, items: seq<Value>)

  /** The length announced for the children. */
  function Length(v: Value, pairs: bool): nat { if pairs then |v.items| / 2 else |v.items| }

  ghost predicate WellFormed(v: Value) {
    && AllWellFormed(v.items)
    && match ShapeOf(v.head)
       case Data(n) => |v.payload| == n && v.items == []
       case Sized(k, extra) => extra <= |v.payload| < Pow256(k) + extra && v.items == []
       case Items(n) => v.payload == [] && |v.items| == n
       case Counted(k, pairs) => v.payload == [] && (pairs ==> |v.items| % 2 == 0) && Length(v, pairs) < Pow256(k)
       case Reserved => false
  }

  ghost predicate AllWellFormed(vs: seq<Value>) { vs == [] || (WellFormed(vs[0]) && AllWellFormed(vs[1..])) }

  function LengthBytes(v: Value): seq<Byte> {
    match ShapeOf(v.head)
    case Sized(k, extra) => if extra <= |v.payload| then BigEndian(|v.payload| - extra, k) else []
    case Counted(k, pairs) => BigEndian(Length(v, pairs), k)
    case _ => []
  }

  function Encode(v: Value): seq<Byte> { [v.head] + LengthBytes(v) + v.payload + EncodeAll(v.items) }

  function EncodeAll(vs: seq<Value>): seq<Byte> { if vs == [] then [] else Encode(vs[0]) + EncodeAll(vs[1..]) }

  function Size(v: Value): nat { 1 + SizeAll(v.items) }

  function SizeAll(vs: seq<Value>): nat { if vs == [] then 0 else Size(vs[0]) + SizeAll(vs[1..]) }

  /** How many children the skip of this value passes over. */
  function Passed(v: Value): nat {
    match ShapeOf(v.head)
    case Counted(k, pairs) => LoopBound(Length(v, pairs), k, pairs)
    case _ => |v.items|
  }

  /** No map is so large that its loop bound wraps around. */
  ghost predicate Countable(v: Value) { Passed(v) == |v.items| && AllCountable(v.items) }

  ghost predicate AllCountable(vs: seq<Value>) { vs == [] || (Countable(vs[0]) && AllCountable(vs[1..])) }

  /** It holds no empty array, at any depth. */
  ghost predicate Solid(v: Value) { (ArrayHead(v.head) ==> v.items != []) && AllSolid(v.items) }

  ghost predicate AllSolid(vs: seq<Value>) { vs == [] || (Solid(vs[0]) && AllSolid(vs[1..])) }

  predicate ArrayHead(head: Byte) { 0x90 <= head < 0xa0 || head == 0xdc || head == 0xdd }

  /** The loop bound wraps exactly for 16-bit maps from 32768 entries and 32-bit maps from 2^31 entries on. */
  lemma PassedMeans(v: Value)
    requires WellFormed(v)
    ensures Passed(v) <= |v.items|
    ensures Passed(v) != |v.items| <==> || (v.head == 0xde && |v.items| / 2 >= 0x8000)
                                        || (v.head == 0xdf && |v.items| / 2 >= 0x8000_0000)
  {
    assert Pow256(1) == 256 && Pow256(2) == 0x1_0000 && Pow256(3) == 0x100_0000 && Pow256(4) == 0x1_0000_0000;
  }

  // ------------------------------------------------------- forests

  lemma Associative(a: seq<Byte>, b: seq<Byte>, c: seq<Byte>)
    ensures a + (b + c) == (a + b) + c
  {
  }

  lemma EncodeCons(a: seq<Value>, b: seq<Value>)
    requires a != []
    ensures EncodeAll(a + b) == Encode(a[0]) + EncodeAll(a[1..] + b)
  {
    assert (a + b)[1..] == a[1..] + b;
  }

  lemma {:induction false} EncodeConcat(a: seq<Value>, b: seq<Value>)
    ensures EncodeAll(a + b) == EncodeAll(a) + EncodeAll(b)
  {
    if a == [] {
      assert a + b == b;
    } else {
      EncodeConcat(a[1..], b);
      EncodeCons(a, b);
      Associative(Encode(a[0]), EncodeAll(a[1..]), EncodeAll(b));
    }
  }

  lemma {:induction false} SizeConcat(a: seq<Value>, b: seq<Value>)
    ensures SizeAll(a + b) == SizeAll(a) + SizeAll(b)
  {
    if a == [] {
      assert a + b == b;
    } else {
      SizeConcat(a[1..], b);
      assert (a + b)[1..] == a[1..] + b && (a + b)[0] == a[0];
    }
  }

  lemma {:induction false} WellFormedConcat(a: seq<Value>, b: seq<Value>)
    ensures AllWellFormed(a + b) <==> AllWellFormed(a) && AllWellFormed(b)
  {
    if a == [] {
      assert a + b == b;
    } else {
      WellFormedConcat(a[1..], b);
      assert (a + b)[1..] == a[1..] + b && (a + b)[0] == a[0];
    }
  }

  lemma {:induction false} SolidConcat(a: seq<Value>, b: seq<Value>)
    ensures AllSolid(a + b) <==> AllSolid(a) && AllSolid(b)
  {
    if a == [] {
      assert a + b == b;
    } else {
      SolidConcat(a[1..], b);
      assert (a + b)[1..] == a[1..] + b && (a + b)[0] == a[0];
    }
  }

  lemma EncodeTail(v: Value, t: seq<Byte>)
    ensures (Encode(v) + t)[0] == v.head
    ensures (Encode(v) + t)[1..] == LengthBytes(v) + (v.payload + (EncodeAll(v.items) + t))
  {
    FourParts(v.head, LengthBytes(v), v.payload, EncodeAll(v.items), t);
  }

  lemma FourParts(h: Byte, a: seq<Byte>, b: seq<Byte>, c: seq<Byte>, t: seq<Byte>)
    ensures ([h] + a + b + c + t)[0] == h && ([h] + a + b + c + t)[1..] == a + (b + (c + t))
  {
  }

  /** Skipping a value without children leaves what follows. */
  lemma SkipLeaf(v: Value, t: seq<Byte>)
    requires WellFormed(v) && (ShapeOf(v.head).Data? || ShapeOf(v.head).Sized?)
    ensures v.items == [] && Passed(v) == 0 && Skip(Encode(v) + t) == Some(t)
  {
    EncodeTail(v, t);
    assert EncodeAll([]) + t == t;
    match ShapeOf(v.head)
    case Data(n) => SkipData(Encode(v) + t, v.payload, t);
    case Sized(k, extra) => SkipSized(Encode(v) + t, k, extra, v.payload, t);
  }

  lemma SkipData(s: seq<Byte>, payload: seq<Byte>, t: seq<Byte>)
    requires s != [] && ShapeOf(s[0]) == Data(|payload|) && s[1..] == [] + (payload + t)
    ensures Skip(s) == Some(t)
  {
    assert (payload + t)[|payload|..] == t && [] + (payload + t) == payload + t;
  }

  lemma SkipSized(s: seq<Byte>, k: nat, extra: nat, payload: seq<Byte>, t: seq<Byte>)
    requires s != [] && ShapeOf(s[0]) == Sized(k, extra) && extra <= |payload| < Pow256(k) + extra
    requires s[1..] == BigEndian(|payload| - extra, k) + (payload + t)
    ensures Skip(s) == Some(t)
  {
    var length, body := BigEndian(|payload| - extra, k), payload + t;
    BigEndianRoundTrip(|payload| - extra, k, body);
    BehindPrefix(length, body);
    BehindPrefix(payload, t);
    SkipPast(s, k, extra, |payload|);
  }

  lemma BehindPrefix(a: seq<Byte>, b: seq<Byte>)
    ensures (a + b)[|a|..] == b
  {
  }

  lemma SkipPast(s: seq<Byte>, k: nat, extra: nat, n: nat)
    requires s != [] && ShapeOf(s[0]) == Sized(k, extra) && k <= |s[1..]| && Lead(s[1..], k) + extra == n
    ensures Skip(s) == Drop(s[1..][k..], n)
  {
  }

  /** Skipping a value with children skips as many of the values that follow its header as it counts. */
  lemma SkipTree(v: Value, t: seq<Byte>)
    requires WellFormed(v) && (ShapeOf(v.head).Items? || ShapeOf(v.head).Counted?)
    ensures Skip(Encode(v) + t) == SkipMany(EncodeAll(v.items) + t, Passed(v))
  {
    var body := EncodeAll(v.items) + t;
    EncodeTail(v, t);
    assert v.payload + body == body;
    match ShapeOf(v.head)
    case Items(n) =>
      assert LengthBytes(v) + body == body;
    case Counted(k, pairs) =>
      BigEndianRoundTrip(Length(v, pairs), k, body);
      assert (LengthBytes(v) + body)[k..] == body;
  }

  lemma ForestFront(f: seq<Value>, n: nat, rest: seq<Byte>)
    requires 1 <= n <= |f|
    ensures EncodeAll(f) + rest == Encode(f[0]) + (EncodeAll(f[1..]) + rest)
    ensures AllCountable(f[..n]) <==> Countable(f[0]) && AllCountable(f[1..][..n - 1])
    ensures f[1..][n - 1..] == f[n..]
  {
    assert f[..n][0] == f[0] && f[..n][1..] == f[1..][..n - 1];
    Associative(Encode(f[0]), EncodeAll(f[1..]), rest);
  }

  /**
   Skipping `n` values at the front of a row of encoded values never fails and always stops
   between two values.  It leaves the row from the `n`-th value on exactly when those
   skipped are countable, and a longer row otherwise.
   */
  lemma {:induction false} SkipForest(f: seq<Value>, n: nat, rest: seq<Byte>) returns (left: seq<Value>)
    requires AllWellFormed(f) && n <= |f|
    ensures SkipMany(EncodeAll(f) + rest, n) == Some(EncodeAll(left) + rest)
    ensures AllWellFormed(left) && SizeAll(left) <= SizeAll(f) && |left| >= |f| - n
    ensures |left| == |f| - n <==> AllCountable(f[..n])
    ensures AllCountable(f[..n]) ==> left == f[n..]
    ensures AllSolid(f) ==> AllSolid(left)
    decreases SizeAll(f), n
  {
    if n == 0 {
      left := f;
    } else {
      ForestFront(f, n, rest);
      var mid := SkipOne(f[0], f[1..], rest);
      left := SkipForest(mid, n - 1, rest);
    }
  }

  /** Past the header, the children stand in front of what follows. */
  lemma SkipIntoRow(v: Value, g: seq<Value>, rest: seq<Byte>)
    requires WellFormed(v) && AllWellFormed(g) && (ShapeOf(v.head).Items? || ShapeOf(v.head).Counted?)
    ensures Skip(Encode(v) + (EncodeAll(g) + rest)) == SkipMany(EncodeAll(v.items + g) + rest, Passed(v))
    ensures AllWellFormed(v.items + g) && SizeAll(v.items + g) == Size(v) - 1 + SizeAll(g)
  {
    SkipTree(v, EncodeAll(g) + rest);
    EncodeConcat(v.items, g);
    SizeConcat(v.items, g);
    WellFormedConcat(v.items, g);
    Associative(EncodeAll(v.items), EncodeAll(g), rest);
  }

  /** One value at the front of a row. */
  lemma {:induction false} SkipOne(v: Value, g: seq<Value>, rest: seq<Byte>) returns (left: seq<Value>)
    requires WellFormed(v) && AllWellFormed(g)
    ensures Skip(Encode(v) + (EncodeAll(g) + rest)) == Some(EncodeAll(left) + rest)
    ensures AllWellFormed(left) && SizeAll(left) < Size(v) + SizeAll(g) && |left| >= |g|
    ensures |left| == |g| <==> Countable(v)
    ensures Countable(v) ==> left == g
    ensures Solid(v) && AllSolid(g) ==> AllSolid(left)
    decreases Size(v) + SizeAll(g), 0
  {
    PassedMeans(v);
    if ShapeOf(v.head).Data? || ShapeOf(v.head).Sized? {
      SkipLeaf(v, EncodeAll(g) + rest);
      left := g;
    } else {
      SkipIntoRow(v, g, rest);
      SolidConcat(v.items, g);
      left := SkipForest(v.items + g, Passed(v), rest);
      if Passed(v) == |v.items| {
        assert (v.items + g)[..|v.items|] == v.items && (v.items + g)[|v.items|..] == g;
      }
    }
  }

  /** `skip_value` consumes exactly one encoded value, for any suffix, exactly when it has no oversize map. */
  lemma SkipConsumesOne(v: Value, rest: seq<Byte>)
    requires WellFormed(v)
    ensures Skip(Encode(v) + rest) == Some(rest) <==> Countable(v)
    ensures Skip(Encode(v) + rest).Some?
  {
    var left := SkipOne(v, [], rest);
    assert EncodeAll([]) + rest == rest;
    if left != [] { assert |Encode(left[0])| > 0; }
  }

  /** `capture_value` returns the bytes of exactly one value under the same condition. */
  lemma CaptureIsEncoding(v: Value, rest: seq<Byte>)
    requires WellFormed(v) && Countable(v)
    ensures var s := Encode(v) + rest; Skip(s).Some? && Consumed(s, Skip(s).value) == Encode(v)
  {
    SkipConsumesOne(v, rest);
  }

  /** Skipping a whole row of countable values. */
  lemma SkipAll(vs: seq<Value>, rest: seq<Byte>)
    requires AllWellFormed(vs) && AllCountable(vs)
    ensures SkipMany(EncodeAll(vs) + rest, |vs|) == Some(rest)
  {
    assert vs[..|vs|] == vs;
    var left := SkipForest(vs, |vs|, rest);
    assert EncodeAll([]) + rest == rest;
  }
}
