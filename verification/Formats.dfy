/**
 The formats of the MessagePack specification, section "Formats", written out byte by byte and
 without reference to the reader: what `MsgPack` skips is exactly one of these.
 */
module Formats {
  import opened Wrappers
  import opened Bytes
  import opened MsgPack

  /** The width of an announced length. */
  datatype Width = W8 | W16 | W32

  datatype Number = Uint8 | Uint16 | Uint32 | Uint64 | Int8 | Int16 | Int32 | Int64 | Float32 | Float64

  datatype Wire =
    | Nil
    | False
    | True
    | PositiveFix(n: nat)
    | NegativeFix(n: nat)                              // stands for -n
    | Fixed(number: Number, bytes: seq<Byte>)
    | FixStr(text: seq<Byte>)
    | Str(width: Width, text: seq<Byte>)
    | Bin(width: Width, data: seq<Byte>)
    | FixExt(kind: Byte, data: seq<Byte>)
    | Ext(width: Width, kind: Byte, data: seq<Byte>)
    | FixArray(items: seq<Wire>)
    | Array(width: Width, items: seq<Wire>)
    | FixMap(items: seq<Wire>)                         // keys and values alternately
    | Map(width: Width, items: seq<Wire>)

  function Octets(width: Width): nat { match width case W8 => 1 case W16 => 2 case W32 => 4 }

  function Limit(width: Width): nat { match width case W8 => 0x100 case W16 => 0x1_0000 case W32 => 0x1_0000_0000 }

  function NumberHead(number: Number): Byte {
    match number
    case Uint8 => 0xcc case Uint16 => 0xcd case Uint32 => 0xce case Uint64 => 0xcf
    case Int8 => 0xd0 case Int16 => 0xd1 case Int32 => 0xd2 case Int64 => 0xd3
    case Float32 => 0xca case Float64 => 0xcb
  }

  function NumberSize(number: Number): nat {
    match number
    case Uint8 => 1 case Uint16 => 2 case Uint32 => 4 case Uint64 => 8
    case Int8 => 1 case Int16 => 2 case Int32 => 4 case Int64 => 8
    case Float32 => 4 case Float64 => 8
  }

  function StrHead(width: Width): Byte { match width case W8 => 0xd9 case W16 => 0xda case W32 => 0xdb }

  function BinHead(width: Width): Byte { match width case W8 => 0xc4 case W16 => 0xc5 case W32 => 0xc6 }

  function ExtHead(width: Width): Byte { match width case W8 => 0xc7 case W16 => 0xc8 case W32 => 0xc9 }

  function FixExtHead(n: nat): Byte {
    if n == 1 then 0xd4 else if n == 2 then 0xd5 else if n == 4 then 0xd6 else if n == 8 then 0xd7 else 0xd8
  }

  function ArrayHeadOf(width: Width): Byte { if width == W16 then 0xdc else 0xdd }

  function MapHeadOf(width: Width): Byte { if width == W16 then 0xde else 0xdf }

  /** The limits of each format. */
  ghost predicate Legal(w: Wire) {
    match w
    case PositiveFix(n) => n < 128
    case NegativeFix(n) => 1 <= n <= 32
    case Fixed(number, bytes) => |bytes| == NumberSize(number)
    case FixStr(text) => |text| < 32
    case Str(width, text) => |text| < Limit(width)
    case Bin(width, data) => |data| < Limit(width)
    case FixExt(_, data) => |data| == 1 || |data| == 2 || |data| == 4 || |data| == 8 || |data| == 16
    case Ext(width, _, data) => |data| < Limit(width)
    case FixArray(items) => |items| < 16 && AllLegal(items)
    case Array(width, items) => width != W8 && |items| < Limit(width) && AllLegal(items)
    case FixMap(items) => |items| % 2 == 0 && |items| / 2 < 16 && AllLegal(items)
    case Map(width, items) => width != W8 && |items| % 2 == 0 && |items| / 2 < Limit(width) && AllLegal(items)
    case _ => true
  }

  ghost predicate AllLegal(ws: seq<Wire>) { ws == [] || (Legal(ws[0]) && AllLegal(ws[1..])) }

  /** The bytes of a value. */
  function Write(w: Wire): seq<Byte>
    requires Legal(w)
  {
    match w
    case Nil => [0xc0]
    case False => [0xc2]
    case True => [0xc3]
    case PositiveFix(n) => [n]
    case NegativeFix(n) => [0x100 - n]
    case Fixed(number, bytes) => [NumberHead(number)] + bytes
    case FixStr(text) => [0xa0 + |text|] + text
    case Str(width, text) =>
      [StrHead(width)] + BigEndian(|text|, Octets(width)) + text
    case Bin(width, data) =>
      [BinHead(width)] + BigEndian(|data|, Octets(width)) + data
    case FixExt(kind, data) =>
      [FixExtHead(|data|)] + ([kind] + data)
    case Ext(width, kind, data) =>
      [ExtHead(width)] + BigEndian(|data|, Octets(width)) + ([kind] + data)
    case FixArray(items) => [0x90 + |items|] + WriteAll(items)
    case Array(width, items) =>
      [ArrayHeadOf(width)] + BigEndian(|items|, Octets(width)) + WriteAll(items)
    case FixMap(items) => [0x80 + |items| / 2] + WriteAll(items)
    case Map(width, items) =>
      [MapHeadOf(width)] + BigEndian(|items| / 2, Octets(width)) + WriteAll(items)
  }

  function WriteAll(ws: seq<Wire>): seq<Byte>
    requires AllLegal(ws)
  {
    if ws == [] then [] else Write(ws[0]) + WriteAll(ws[1..])
  }

  /** No map has so many entries that twice their number does not fit the width of their count. */
  ghost predicate NoOversize(w: Wire) {
    match w
    case FixArray(items) => NoneOversize(items)
    case Array(_, items) => NoneOversize(items)
    case FixMap(items) => NoneOversize(items)
    case Map(width, items) => |items| < Limit(width) && NoneOversize(items)
    case _ => true
  }

  ghost predicate NoneOversize(ws: seq<Wire>) { ws == [] || (NoOversize(ws[0]) && NoneOversize(ws[1..])) }

  // ------------------------------------------------------- as values

  /** The head byte, the payload and the children that the reader sees. */
  function AsValue(w: Wire): Value
    requires Legal(w)
  {
    match w
    case Nil => Value(0xc0, [], [])
    case False => Value(0xc2, [], [])
    case True => Value(0xc3, [], [])
    case PositiveFix(n) => Value(n, [], [])
    case NegativeFix(n) => Value(0x100 - n, [], [])
    case Fixed(number, bytes) => Value(NumberHead(number), bytes, [])
    case FixStr(text) => Value(0xa0 + |text|, text, [])
    case Str(width, text) => Value(StrHead(width), text, [])
    case Bin(width, data) => Value(BinHead(width), data, [])
    case FixExt(kind, data) => Value(FixExtHead(|data|), [kind] + data, [])
    case Ext(width, kind, data) => Value(ExtHead(width), [kind] + data, [])
    case FixArray(items) => Value(0x90 + |items|, [], AsValues(items))
    case Array(width, items) => Value(ArrayHeadOf(width), [], AsValues(items))
    case FixMap(items) => Value(0x80 + |items| / 2, [], AsValues(items))
    case Map(width, items) => Value(MapHeadOf(width), [], AsValues(items))
  }

  function AsValues(ws: seq<Wire>): (vs: seq<Value>)
    requires AllLegal(ws)
    ensures |vs| == |ws|
  {
    if ws == [] then [] else [AsValue(ws[0])] + AsValues(ws[1..])
  }

  lemma Powers()
    ensures Pow256(1) == 0x100 && Pow256(2) == 0x1_0000 && Pow256(4) == 0x1_0000_0000
  {
    assert Pow256(3) == 0x100_0000;
  }

  lemma PlainSame(head: Byte, payload: seq<Byte>)
    requires ShapeOf(head) == Data(|payload|)
    ensures var v := Value(head, payload, []); WellFormed(v) && Encode(v) == [head] + payload && Countable(v)
  {
  }

  lemma SizedSame(head: Byte, k: nat, extra: nat, payload: seq<Byte>)
    requires ShapeOf(head) == Sized(k, extra) && extra <= |payload| < Pow256(k) + extra
    ensures var v := Value(head, payload, []);
            WellFormed(v) && Encode(v) == [head] + BigEndian(|payload| - extra, k) + payload && Countable(v)
  {
  }

  lemma ItemsSame(head: Byte, items: seq<Value>)
    requires ShapeOf(head) == Items(|items|) && AllWellFormed(items)
    ensures var v := Value(head, [], items);
            WellFormed(v) && Encode(v) == [head] + EncodeAll(items) && (Countable(v) <==> AllCountable(items))
  {
  }

  lemma CountedSame(head: Byte, k: nat, pairs: bool, items: seq<Value>)
    requires ShapeOf(head) == Counted(k, pairs) && AllWellFormed(items) && (pairs ==> |items| % 2 == 0)
    requires (if pairs then |items| / 2 else |items|) < Pow256(k)
    ensures var v := Value(head, [], items);
            WellFormed(v) && Encode(v) == [head] + BigEndian(Length(v, pairs), k) + EncodeAll(items)
  {
    var v := Value(head, [], items);
    EmptyBetween([head] + BigEndian(Length(v, pairs), k), EncodeAll(items));
  }

  lemma EmptyBetween(a: seq<Byte>, b: seq<Byte>)
    ensures a + [] + b == a + b
  {
  }

  lemma CountedCounts(head: Byte, k: nat, pairs: bool, items: seq<Value>)
    requires ShapeOf(head) == Counted(k, pairs) && (pairs ==> |items| % 2 == 0)
    requires (if pairs then |items| / 2 else |items|) < Pow256(k)
    ensures Countable(Value(head, [], items)) <==> (pairs ==> |items| < Pow256(k)) && AllCountable(items)
  {
    var v := Value(head, [], items);
    BoundExact(Length(v, pairs), k, pairs, |items|);
    assert Passed(v) == LoopBound(Length(v, pairs), k, pairs);
  }

  lemma BoundExact(length: nat, k: nat, pairs: bool, n: nat)
    requires n == (if pairs then 2 * length else length) && length < Pow256(k)
    ensures LoopBound(length, k, pairs) == n <==> (pairs ==> n < Pow256(k))
  {
  }

  lemma NumberShape(number: Number)
    ensures ShapeOf(NumberHead(number)) == Data(NumberSize(number))
  {
  }

  lemma WidthShapes(width: Width)
    ensures ShapeOf(StrHead(width)) == Sized(Octets(width), 0) == ShapeOf(BinHead(width))
    ensures ShapeOf(ExtHead(width)) == Sized(Octets(width), 1) && Pow256(Octets(width)) == Limit(width)
    ensures width != W8 ==>
      && ShapeOf(ArrayHeadOf(width)) == Counted(Octets(width), false)
      && ShapeOf(MapHeadOf(width)) == Counted(Octets(width), true)
  {
    Powers();
  }

  lemma FixExtShape(n: nat)
    requires n == 1 || n == 2 || n == 4 || n == 8 || n == 16
    ensures ShapeOf(FixExtHead(n)) == Data(n + 1)
  {
  }

  lemma OneByteSame(w: Wire)
    requires Legal(w) && (w.Nil? || w.False? || w.True? || w.PositiveFix? || w.NegativeFix?)
    ensures WellFormed(AsValue(w)) && Encode(AsValue(w)) == Write(w) && Countable(AsValue(w))
  {
    var head := AsValue(w).head;
    PlainSame(head, []);
    assert [head] + [] == [head];
  }

  lemma PlainPayloadSame(w: Wire)
    requires Legal(w) && (w.Fixed? || w.FixStr? || w.FixExt?)
    ensures WellFormed(AsValue(w)) && Encode(AsValue(w)) == Write(w) && Countable(AsValue(w))
  {
    if w.Fixed? { NumberShape(w.number); } else if w.FixExt? { FixExtShape(|w.data|); }
    PlainSame(AsValue(w).head, AsValue(w).payload);
  }

  lemma SizedPayloadSame(w: Wire)
    requires Legal(w) && (w.Str? || w.Bin? || w.Ext?)
    ensures WellFormed(AsValue(w)) && Encode(AsValue(w)) == Write(w) && Countable(AsValue(w))
  {
    WidthShapes(w.width);
    SizedSame(AsValue(w).head, Octets(w.width), if w.Ext? then 1 else 0, AsValue(w).payload);
  }

  /** The items of a container are written as their values are. */
  ghost predicate ItemsAgree(ws: seq<Wire>) {
    && AllLegal(ws) && AllWellFormed(AsValues(ws)) && EncodeAll(AsValues(ws)) == WriteAll(ws)
    && (AllCountable(AsValues(ws)) <==> NoneOversize(ws))
  }

  lemma FixSame(w: Wire)
    requires Legal(w) && (w.FixArray? || w.FixMap?) && ItemsAgree(w.items)
    ensures WellFormed(AsValue(w)) && Encode(AsValue(w)) == Write(w) && (Countable(AsValue(w)) <==> NoOversize(w))
  {
    ItemsSame(AsValue(w).head, AsValues(w.items));
  }

  lemma ArraySame(w: Wire)
    requires Legal(w) && w.Array? && ItemsAgree(w.items)
    ensures WellFormed(AsValue(w)) && Encode(AsValue(w)) == Write(w) && (Countable(AsValue(w)) <==> NoOversize(w))
  {
    WidthShapes(w.width);
    CountedSame(ArrayHeadOf(w.width), Octets(w.width), false, AsValues(w.items));
    CountedCounts(ArrayHeadOf(w.width), Octets(w.width), false, AsValues(w.items));
  }

  lemma MapSame(w: Wire)
    requires Legal(w) && w.Map? && ItemsAgree(w.items)
    ensures WellFormed(AsValue(w)) && Encode(AsValue(w)) == Write(w) && (Countable(AsValue(w)) <==> NoOversize(w))
  {
    WidthShapes(w.width);
    CountedSame(MapHeadOf(w.width), Octets(w.width), true, AsValues(w.items));
    CountedCounts(MapHeadOf(w.width), Octets(w.width), true, AsValues(w.items));
  }

  lemma {:induction false} Same(w: Wire)
    requires Legal(w)
    ensures WellFormed(AsValue(w)) && Encode(AsValue(w)) == Write(w)
    ensures Countable(AsValue(w)) <==> NoOversize(w)
  {
    if w.FixArray? || w.Array? || w.FixMap? || w.Map? {
      SameAll(w.items);
      if w.Array? { ArraySame(w); } else if w.Map? { MapSame(w); } else { FixSame(w); }
    } else if w.Fixed? || w.FixStr? || w.FixExt? {
      PlainPayloadSame(w);
    } else if w.Str? || w.Bin? || w.Ext? {
      SizedPayloadSame(w);
    } else {
      OneByteSame(w);
    }
  }

  lemma {:induction false} SameAll(ws: seq<Wire>)
    requires AllLegal(ws)
    ensures AllWellFormed(AsValues(ws)) && EncodeAll(AsValues(ws)) == WriteAll(ws)
    ensures AllCountable(AsValues(ws)) <==> NoneOversize(ws)
  {
    if ws != [] {
      Same(ws[0]);
      SameAll(ws[1..]);
      assert AsValues(ws)[1..] == AsValues(ws[1..]);
    }
  }

  /** `skip_value` passes exactly one value of any format, before anything, exactly when no map is oversize. */
  lemma SkipsOneValue(w: Wire, rest: seq<Byte>)
    requires Legal(w)
    ensures Skip(Write(w) + rest).Some? && (Skip(Write(w) + rest) == Some(rest) <==> NoOversize(w))
  {
    Same(w);
    SkipConsumesOne(AsValue(w), rest);
  }

  /** The byte that no format uses is refused. */
  lemma ReservedIsRefused(rest: seq<Byte>)
    ensures Skip([0xc1] + rest) == None
  {
  }

  // ------------------------------------------------------- and nothing else

  function NumberOf(head: Byte): Number {
    if head == 0xcc then Uint8 else if head == 0xcd then Uint16 else if head == 0xce then Uint32
    else if head == 0xcf then Uint64 else if head == 0xd0 then Int8 else if head == 0xd1 then Int16
    else if head == 0xd2 then Int32 else if head == 0xd3 then Int64 else if head == 0xca then Float32 else Float64
  }

  lemma OneByteOf(v: Value) returns (w: Wire)
    requires WellFormed(v) && (v.head < 0x80 || v.head == 0xc0 || v.head == 0xc2 || v.head == 0xc3 || v.head >= 0xe0)
    ensures Legal(w) && AsValue(w) == v
  {
    w := if v.head < 0x80 then PositiveFix(v.head) else if v.head >= 0xe0 then NegativeFix(0x100 - v.head)
         else if v.head == 0xc0 then Nil else if v.head == 0xc2 then False else True;
  }

  lemma PlainOf(v: Value) returns (w: Wire)
    requires WellFormed(v) && (0xa0 <= v.head < 0xc0 || v.head == 0xca || v.head == 0xcb || 0xcc <= v.head < 0xd9)
    ensures Legal(w) && AsValue(w) == v
  {
    if v.head < 0xc0 {
      w := FixStr(v.payload);
    } else if v.head < 0xd4 {
      w := Fixed(NumberOf(v.head), v.payload);
    } else {
      w := FixExt(v.payload[0], v.payload[1..]);
      assert [v.payload[0]] + v.payload[1..] == v.payload;
    }
  }

  lemma SizedOf(v: Value) returns (w: Wire)
    requires WellFormed(v) && (0xc4 <= v.head < 0xca || 0xd9 <= v.head < 0xdc)
    ensures Legal(w) && AsValue(w) == v
  {
    Powers();
    if v.head >= 0xd9 {
      w := Str(if v.head == 0xd9 then W8 else if v.head == 0xda then W16 else W32, v.payload);
    } else if v.head < 0xc7 {
      w := Bin(if v.head == 0xc4 then W8 else if v.head == 0xc5 then W16 else W32, v.payload);
    } else {
      w := Ext(if v.head == 0xc7 then W8 else if v.head == 0xc8 then W16 else W32, v.payload[0], v.payload[1..]);
      assert [v.payload[0]] + v.payload[1..] == v.payload;
    }
  }

  lemma ContainerOf(v: Value, ws: seq<Wire>) returns (w: Wire)
    requires WellFormed(v) && (0x80 <= v.head < 0xa0 || 0xdc <= v.head < 0xe0)
    requires AllLegal(ws) && AsValues(ws) == v.items
    ensures Legal(w) && AsValue(w) == v
  {
    if v.head < 0xa0 { w := FixOf(v, ws); } else { w := CountedOf(v, ws); }
  }

  lemma FixOf(v: Value, ws: seq<Wire>) returns (w: Wire)
    requires WellFormed(v) && 0x80 <= v.head < 0xa0 && AllLegal(ws) && AsValues(ws) == v.items
    ensures Legal(w) && AsValue(w) == v
  {
    var n := |ws|;
    assert |v.items| == n && v.payload == [];
    if v.head < 0x90 {
      assert n == 2 * (v.head - 0x80);
      w := FixMap(ws);
    } else {
      assert n == v.head - 0x90;
      w := FixArray(ws);
    }
  }

  lemma CountedOf(v: Value, ws: seq<Wire>) returns (w: Wire)
    requires WellFormed(v) && 0xdc <= v.head < 0xe0 && AllLegal(ws) && AsValues(ws) == v.items
    ensures Legal(w) && AsValue(w) == v
  {
    var width, n := if v.head % 2 == 0 then W16 else W32, |ws|;
    WidthShapes(width);
    assert |v.items| == n && v.payload == [];
    if v.head < 0xde {
      assert ShapeOf(v.head) == Counted(Octets(width), false);
      w := Array(width, ws);
    } else {
      assert ShapeOf(v.head) == Counted(Octets(width), true) && n % 2 == 0 && n / 2 < Limit(width);
      w := Map(width, ws);
    }
  }

  /** Every value that the reader takes for well formed is written in one of the formats. */
  lemma {:induction false} EveryValueHasFormat(v: Value) returns (w: Wire)
    requires WellFormed(v)
    ensures Legal(w) && AsValue(w) == v && Write(w) == Encode(v)
  {
    var ws := EveryRowHasFormats(v.items);
    if 0x80 <= v.head < 0xa0 || 0xdc <= v.head < 0xe0 {
      w := ContainerOf(v, ws);
    } else if 0xc4 <= v.head < 0xca || 0xd9 <= v.head < 0xdc {
      w := SizedOf(v);
    } else if v.head < 0x80 || v.head == 0xc0 || v.head == 0xc2 || v.head == 0xc3 || v.head >= 0xe0 {
      w := OneByteOf(v);
    } else {
      w := PlainOf(v);
    }
    Same(w);
  }

  lemma {:induction false} EveryRowHasFormats(vs: seq<Value>) returns (ws: seq<Wire>)
    requires AllWellFormed(vs)
    ensures AllLegal(ws) && AsValues(ws) == vs
  {
    ws := [];
    if vs != [] {
      var first := EveryValueHasFormat(vs[0]);
      var rest := EveryRowHasFormats(vs[1..]);
      ws := [first] + rest;
      assert ws[1..] == rest && vs == [vs[0]] + vs[1..];
    }
  }
}
