/**
 Reading across schema versions: an older schema reads the prefix it knows of what a newer
 schema wrote and consumes all of it, and hands on unknown enum variants byte for byte.
 */
module Evolution {
  import opened Wrappers
  import opened Bytes
  import opened MsgPack
  import opened Schema

  // ------------------------------------------------------- headers

  /** Behind the first byte of a value without length bytes comes its content. */
  lemma PlainTail(v: Value, t: seq<Byte>)
    requires LengthBytes(v) == []
    ensures (Encode(v) + t)[0] == v.head
    ensures v.items == [] ==> (Encode(v) + t)[1..] == v.payload + t
    ensures v.payload == [] ==> (Encode(v) + t)[1..] == EncodeAll(v.items) + t
  {
    EncodeTail(v, t);
    var body := EncodeAll(v.items) + t;
    assert [] + (v.payload + body) == v.payload + body;
    if v.items == [] { assert [] + t == t; }
    if v.payload == [] { assert [] + body == body; }
  }

  lemma Powers()
    ensures Pow256(1) == 0x100 && Pow256(2) == 0x1_0000 && Pow256(4) == U32 && Pow256(8) == U64
  {
    assert Pow256(3) == 0x100_0000;
    assert Pow256(5) == 0x100 * U32 && Pow256(6) == 0x1_0000 * U32 && Pow256(7) == 0x100_0000 * U32;
  }

  /** A non-negative integer is read from its first byte and payload. */
  lemma ReadNatParts(s: seq<Byte>, n: int, t: seq<Byte>)
    requires 0 <= n < U64
    requires s != [] && s[0] == IntValue(n).head && s[1..] == IntValue(n).payload + t
    ensures ReadInt(s) == Parsed(n, t)
  {
    var k := |IntValue(n).payload|;
    assert s[1..][k..] == t;
    Powers();
    if k > 0 { BigEndianRoundTrip(n, k, t); }
  }

  /** A negative integer is read from its first byte and payload. */
  lemma ReadNegParts(s: seq<Byte>, n: int, t: seq<Byte>)
    requires I64_MIN <= n < 0
    requires s != [] && s[0] == IntValue(n).head && s[1..] == IntValue(n).payload + t
    ensures ReadInt(s) == Parsed(n, t)
  {
    var k := |IntValue(n).payload|;
    assert s[1..][k..] == t;
    Powers();
    if k > 0 { BigEndianRoundTrip(n + Pow256(k), k, t); }
  }

  lemma IntIsPlain(n: int)
    ensures IntValue(n).items == [] && LengthBytes(IntValue(n)) == []
  {
  }

  lemma IntRoundTrip(n: int, t: seq<Byte>)
    requires I64_MIN <= n < U64
    ensures ReadInt(Encode(IntValue(n)) + t) == Parsed(n, t)
  {
    IntIsPlain(n);
    PlainTail(IntValue(n), t);
    if n >= 0 { ReadNatParts(Encode(IntValue(n)) + t, n, t); } else { ReadNegParts(Encode(IntValue(n)) + t, n, t); }
  }

  /** Integers are also read from wider forms than the shortest, without a sign. */
  lemma UnsignedForms(n: nat, head: Byte, k: nat, t: seq<Byte>)
    requires n < Pow256(k)
    requires (head, k) == (0xcc, 1) || (head, k) == (0xcd, 2) || (head, k) == (0xce, 4) || (head, k) == (0xcf, 8)
    ensures ReadInt([head] + (BigEndian(n, k) + t)) == Parsed(n, t)
  {
    var body := BigEndian(n, k) + t;
    BigEndianRoundTrip(n, k, t);
    assert ([head] + body)[1..] == body && body[k..] == t;
  }

  /** And with one, in two's complement. */
  lemma SignedForms(n: int, head: Byte, k: nat, t: seq<Byte>)
    requires 0 <= 2 * n + Pow256(k) && 2 * n < Pow256(k)
    requires (head, k) == (0xd0, 1) || (head, k) == (0xd1, 2) || (head, k) == (0xd2, 4) || (head, k) == (0xd3, 8)
    ensures ReadInt([head] + (BigEndian(if n < 0 then n + Pow256(k) else n, k) + t)) == Parsed(n, t)
  {
    var m := if n < 0 then n + Pow256(k) else n;
    var body := BigEndian(m, k) + t;
    BigEndianRoundTrip(m, k, t);
    Powers();
    assert ([head] + body)[1..] == body && body[k..] == t;
  }

  /** Behind the length bytes comes the content. */
  lemma LengthRoundTrip(v: Value, k: nat, n: nat, t: seq<Byte>)
    requires LengthBytes(v) == BigEndian(n, k) && n < Pow256(k)
    ensures (Encode(v) + t)[0] == v.head
    ensures v.items == [] ==> ReadLength((Encode(v) + t)[1..], k) == Parsed(n, v.payload + t)
    ensures v.payload == [] ==> ReadLength((Encode(v) + t)[1..], k) == Parsed(n, EncodeAll(v.items) + t)
  {
    EncodeTail(v, t);
    var items := EncodeAll(v.items) + t;
    var body := v.payload + items;
    BigEndianRoundTrip(n, k, body);
    assert (BigEndian(n, k) + body)[k..] == body;
    if v.items == [] { assert [] + t == t; }
    if v.payload == [] { assert [] + items == items; }
  }

  /** How many length bytes an array or map of `n` elements or entries has. */
  function Width(n: nat): nat { if n < 16 then 0 else if n < 0x1_0000 then 2 else 4 }

  lemma ArrayWidth(items: seq<Value>)
    requires |items| < U32
    ensures LengthBytes(ArrayValue(items)) == if |items| < 16 then [] else BigEndian(|items|, Width(|items|))
    ensures |items| >= 16 ==> |items| < Pow256(Width(|items|))
  {
    var n := |items|;
    Powers();
    assert ShapeOf(ArrayValue(items).head) == if n < 16 then MsgPack.Items(n) else Counted(Width(n), false);
  }

  lemma MapWidth(items: seq<Value>)
    requires |items| / 2 < U32
    ensures LengthBytes(MapValue(items)) == if |items| / 2 < 16 then [] else BigEndian(|items| / 2, Width(|items| / 2))
    ensures |items| / 2 >= 16 ==> |items| / 2 < Pow256(Width(|items| / 2))
  {
    var n := |items| / 2;
    Powers();
    assert ShapeOf(MapValue(items).head) == if n < 16 then MsgPack.Items(2 * n) else Counted(Width(n), true);
  }

  lemma ArrayParts(items: seq<Value>, t: seq<Byte>)
    requires |items| < U32
    ensures var v, n, s := ArrayValue(items), |items|, Encode(ArrayValue(items)) + t;
            && s[0] == v.head
            && if n < 16 then s[1..] == EncodeAll(items) + t
               else ReadLength(s[1..], Width(n)) == Parsed(n, EncodeAll(items) + t)
  {
    var v, n := ArrayValue(items), |items|;
    ArrayWidth(items);
    if n < 16 { PlainTail(v, t); } else { LengthRoundTrip(v, Width(n), n, t); }
  }

  lemma ArrayRoundTrip(items: seq<Value>, t: seq<Byte>)
    requires |items| < U32
    ensures ReadArrayLength(Encode(ArrayValue(items)) + t) == Parsed(|items|, EncodeAll(items) + t)
  {
    ArrayParts(items, t);
    ReadArrayParts(Encode(ArrayValue(items)) + t, items, EncodeAll(items) + t);
  }

  lemma ReadArrayParts(s: seq<Byte>, items: seq<Value>, body: seq<Byte>)
    requires s != [] && s[0] == ArrayValue(items).head && |items| < U32
    requires if |items| < 16 then s[1..] == body else ReadLength(s[1..], Width(|items|)) == Parsed(|items|, body)
    ensures ReadArrayLength(s) == Parsed(|items|, body)
  {
  }

  lemma MapParts(items: seq<Value>, t: seq<Byte>)
    requires |items| / 2 < U32
    ensures var v, n, s := MapValue(items), |items| / 2, Encode(MapValue(items)) + t;
            && s[0] == v.head
            && if n < 16 then s[1..] == EncodeAll(items) + t
               else ReadLength(s[1..], Width(n)) == Parsed(n, EncodeAll(items) + t)
  {
    var v, n := MapValue(items), |items| / 2;
    MapWidth(items);
    if n < 16 { PlainTail(v, t); } else { LengthRoundTrip(v, Width(n), n, t); }
  }

  lemma MapRoundTrip(items: seq<Value>, t: seq<Byte>)
    requires |items| / 2 < U32
    ensures ReadMapLength(Encode(MapValue(items)) + t) == Parsed(|items| / 2, EncodeAll(items) + t)
  {
    MapParts(items, t);
    ReadMapParts(Encode(MapValue(items)) + t, items, EncodeAll(items) + t);
  }

  lemma ReadMapParts(s: seq<Byte>, items: seq<Value>, body: seq<Byte>)
    requires s != [] && s[0] == MapValue(items).head && |items| / 2 < U32
    requires if |items| / 2 < 16 then s[1..] == body
             else ReadLength(s[1..], Width(|items| / 2)) == Parsed(|items| / 2, body)
    ensures ReadMapLength(s) == Parsed(|items| / 2, body)
  {
  }

  lemma BinaryRoundTrip(bytes: seq<Byte>, t: seq<Byte>)
    requires |bytes| < U32
    ensures ReadBinaryLength(Encode(BinaryValue(bytes)) + t) == Parsed(|bytes|, bytes + t)
  {
    var v, n := BinaryValue(bytes), |bytes|;
    Powers();
    LengthRoundTrip(v, if n < 0x100 then 1 else if n < 0x1_0000 then 2 else 4, n, t);
  }

  lemma EncodeOne(v: Value)
    ensures EncodeAll([v]) == Encode(v)
  {
    assert EncodeAll([v]) == Encode(v) + EncodeAll([]);
  }

  lemma UnitHeader(idx: Byte, t: seq<Byte>)
    ensures ReadEnumHeader(Encode(IntValue(idx)) + t) == Parsed(Header(idx, 1), t)
  {
    var v := IntValue(idx);
    PlainTail(v, t);
    if idx < 0x80 {
      assert [] + t == t;
    } else {
      assert BigEndian(idx, 1) == [idx] by { assert BigEndian(idx / 256, 0) == []; }
      assert (Encode(v) + t)[1..] == [idx] + t;
      assert (Encode(v) + t)[2..] == (Encode(v) + t)[1..][1..];
    }
  }

  lemma PairHeader(idx: Byte, v: Value, t: seq<Byte>)
    ensures ReadEnumHeader(Encode(ArrayValue([IntValue(idx), v])) + t) == Parsed(Header(idx, 2), Encode(v) + t)
    ensures Encode(ArrayValue([IntValue(idx), v])) == [0x92] + (Encode(IntValue(idx)) + Encode(v))
  {
    var items := [IntValue(idx), v];
    ArrayRoundTrip(items, t);
    PlainTail(ArrayValue(items), t);
    PlainTail(ArrayValue(items), []);
    EncodeCons(items, []);
    assert items + [] == items && items[1..] + [] == [v];
    EncodeOne(v);
    Associative(Encode(IntValue(idx)), Encode(v), t);
    IntRoundTrip(idx, Encode(v) + t);
    var e := Encode(ArrayValue(items));
    assert e + [] == e && e == [e[0]] + e[1..];
    assert EncodeAll(items) + [] == EncodeAll(items);
  }

  // ------------------------------------------------------- typed data spells well-formed values

  lemma IntWellFormed(n: int)
    requires I64_MIN <= n < U64
    ensures WellFormed(IntValue(n)) && Countable(IntValue(n))
  {
  }

  lemma ArrayWellFormed(items: seq<Value>)
    requires |items| < U32 && AllWellFormed(items)
    ensures WellFormed(ArrayValue(items)) && (Countable(ArrayValue(items)) <==> AllCountable(items))
  {
    var n := |items|;
    ArrayWidth(items);
    assert ShapeOf(ArrayValue(items).head) == if n < 16 then MsgPack.Items(n) else Counted(Width(n), false);
  }

  lemma MapWellFormed(items: seq<Value>)
    requires |items| / 2 < U32 && |items| % 2 == 0 && AllWellFormed(items)
    ensures WellFormed(MapValue(items))
  {
    Powers();
  }

  lemma {:induction false} TypedWellFormed(ty: Type, d: Data)
    requires HasType(ty, d)
    ensures WellFormed(ToValue(d))
    decreases d, 1
  {
    match d
    case Num(n) => IntWellFormed(n);
    case Flag(_) =>
    case Blob(_) => Powers();
    case Elements(xs) =>
      RowWellFormed(ty, false, xs);
      ArrayWellFormed(ToValues(xs));
    case Entries(xs) =>
      RowWellFormed(ty, false, xs);
      MapWellFormed(ToValues(xs));
    case Absent => ArrayWellFormed([]);
    case Present(x) =>
      TypedWellFormed(ty.some, x);
      ArrayWellFormed([ToValue(x)]);
    case Fields(xs) =>
      FieldsWellFormed(ty.fields, xs);
      ArrayWellFormed(ToValues(xs));
    case Unit(idx) => IntWellFormed(idx);
    case One(idx, x) =>
      TypedWellFormed(ty.variants[idx].field, x);
      PairWellFormed(idx, ToValue(x));
    case Many(idx, xs) =>
      FieldsWellFormed(ty.variants[idx].fields, xs);
      ArrayWellFormed(ToValues(xs));
      PairWellFormed(idx, ArrayValue(ToValues(xs)));
  }

  lemma PairWellFormed(idx: Byte, v: Value)
    requires WellFormed(v)
    ensures WellFormed(ArrayValue([IntValue(idx), v]))
  {
    IntWellFormed(idx);
    var items := [IntValue(idx), v];
    assert items[1..] == [v] && [v][1..] == [];
    ArrayWellFormed(items);
  }

  lemma {:induction false} RowWellFormed(ty: Type, odd: bool, xs: seq<Data>)
    requires (ty.ListOf? || ty.MapOf?) && RowTyped(ty, odd, xs)
    ensures AllWellFormed(ToValues(xs))
    decreases xs, 0
  {
    if xs != [] {
      TypedWellFormed(RowType(ty, odd), xs[0]);
      RowWellFormed(ty, !odd, xs[1..]);
      assert ToValues(xs)[1..] == ToValues(xs[1..]);
    }
  }

  lemma {:induction false} FieldsWellFormed(fields: seq<Type>, xs: seq<Data>)
    requires FieldsTyped(fields, xs)
    ensures |fields| == |xs| && AllWellFormed(ToValues(xs))
    decreases xs, 0
  {
    if xs != [] {
      TypedWellFormed(fields[0], xs[0]);
      FieldsWellFormed(fields[1..], xs[1..]);
      assert ToValues(xs)[1..] == ToValues(xs[1..]);
    }
  }

  // ------------------------------------------------------- what an older schema makes of newer data

  /** The bytes behind the discriminant of an enum value. */
  function Payload(d: Data): seq<Byte>
    requires d.Unit? || d.One? || d.Many?
  {
    match d
    case Unit(_) => []
    case One(_, x) => Emit(x)
    case Many(_, xs) => Encode(ArrayValue(ToValues(xs)))
  }

  /** The data as the older schema sees it: fewer fields, unknown variants as bytes. */
  function Project(old': Type, d: Data): Data
    decreases d, 1
  {
    match d
    case Elements(xs) => if old'.ListOf? then Elements(ProjectRow(old', false, xs)) else d
    case Entries(xs) => if old'.MapOf? then Entries(ProjectRow(old', false, xs)) else d
    case Present(x) => if old'.OptionOf? then Present(Project(old'.some, x)) else d
    case Fields(xs) => if old'.Struct? then Fields(ProjectFields(old'.fields, xs)) else d
    case Unit(idx) => if old'.Enum? && !Knows(old'.variants, idx) then Unknown(idx, []) else d
    case One(idx, x) =>
      if !old'.Enum? then d
      else if !Knows(old'.variants, idx) then Unknown(idx, Emit(x))
      else if old'.variants[idx].OneField? then One(idx, Project(old'.variants[idx].field, x))
      else d
    case Many(idx, xs) =>
      if !old'.Enum? then d
      else if !Knows(old'.variants, idx) then Unknown(idx, Encode(ArrayValue(ToValues(xs))))
      else if old'.variants[idx].ManyFields? then Many(idx, ProjectFields(old'.variants[idx].fields, xs))
      else d
    case _ => d
  }

  function ProjectRow(old': Type, odd: bool, xs: seq<Data>): seq<Data>
    requires old'.ListOf? || old'.MapOf?
    decreases xs, 0
  {
    if xs == [] then [] else [Project(RowType(old', odd), xs[0])] + ProjectRow(old', !odd, xs[1..])
  }

  function ProjectFields(fields: seq<Type>, xs: seq<Data>): seq<Data>
    decreases xs, 0
  {
    if fields == [] || xs == [] then []
    else [Project(fields[0], xs[0])] + ProjectFields(fields[1..], xs[1..])
  }

  /** Everything the older schema skips or captures can be skipped: it holds no oversize map. */
  ghost predicate Passable(old': Type, d: Data)
    decreases d, 1
  {
    match d
    case Elements(xs) => old'.ListOf? ==> PassableRow(old', false, xs)
    case Entries(xs) => old'.MapOf? ==> PassableRow(old', false, xs)
    case Present(x) => old'.OptionOf? ==> Passable(old'.some, x)
    case Fields(xs) => old'.Struct? ==> PassableFields(old'.fields, xs)
    case One(idx, x) =>
      old'.Enum? ==>
        if !Knows(old'.variants, idx) then Countable(ToValue(x))
        else old'.variants[idx].OneField? ==> Passable(old'.variants[idx].field, x)
    case Many(idx, xs) =>
      old'.Enum? ==>
        if !Knows(old'.variants, idx) then AllCountable(ToValues(xs))
        else old'.variants[idx].ManyFields? ==> PassableFields(old'.variants[idx].fields, xs)
    case _ => true
  }

  ghost predicate PassableRow(old': Type, odd: bool, xs: seq<Data>)
    requires old'.ListOf? || old'.MapOf?
    decreases xs, 0
  {
    xs == [] || (Passable(RowType(old', odd), xs[0]) && PassableRow(old', !odd, xs[1..]))
  }

  /** The known fields are passable and the others countable. */
  ghost predicate PassableFields(fields: seq<Type>, xs: seq<Data>)
    decreases xs, 0
  {
    if fields == [] then AllCountable(ToValues(xs))
    else xs != [] ==> Passable(fields[0], xs[0]) && PassableFields(fields[1..], xs[1..])
  }

  // ------------------------------------------------------- reading newer data

  lemma ValuesCons(xs: seq<Data>, rest: seq<Byte>)
    requires xs != []
    ensures EncodeAll(ToValues(xs)) + rest == Emit(xs[0]) + (EncodeAll(ToValues(xs[1..])) + rest)
  {
    var vs := ToValues(xs);
    assert vs[0] == ToValue(xs[0]) && vs[1..] == ToValues(xs[1..]);
    EncodeCons(vs, []);
    assert vs + [] == vs && vs[1..] + [] == vs[1..];
    Associative(Emit(xs[0]), EncodeAll(vs[1..]), rest);
  }

  /**
   An older schema reads newer data as its projection and leaves exactly what follows, as
   long as what it skips holds no oversize map.
   */
  lemma {:induction false} Evolve(old': Type, new': Type, d: Data, rest: seq<Byte>)
    requires Older(old', new') && HasType(new', d) && Passable(old', d)
    ensures Decode(old', Emit(d) + rest) == Parsed(Project(old', d), rest)
    decreases old', 2, 0
  {
    if old'.Int? || old'.Bool? || old'.Binary? {
      EvolveLeaf(old', new', d, rest);
    } else if old'.ListOf? || old'.MapOf? {
      EvolveSequence(old', new', d, rest);
    } else if old'.OptionOf? {
      EvolveOption(old', new', d, rest);
    } else if old'.Struct? {
      FieldsWellFormed(new'.fields, d.xs);
      EvolveStruct(old'.fields, new'.fields, d.xs, rest);
    } else {
      EvolveEnum(old', new', d, rest);
    }
  }

  lemma EvolveLeaf(old': Type, new': Type, d: Data, rest: seq<Byte>)
    requires (old'.Int? || old'.Bool? || old'.Binary?) && Older(old', new') && HasType(new', d)
    ensures Decode(old', Emit(d) + rest) == Parsed(d, rest)
  {
    match d
    case Num(n) => IntRoundTrip(n, rest);
    case Flag(_) =>
      PlainTail(ToValue(d), rest);
      assert [] + rest == rest;
    case Blob(bytes) =>
      BinaryRoundTrip(bytes, rest);
      assert (bytes + rest)[..|bytes|] == bytes && (bytes + rest)[|bytes|..] == rest;
  }

  lemma {:induction false} EvolveSequence(old': Type, new': Type, d: Data, rest: seq<Byte>)
    requires (old'.ListOf? || old'.MapOf?) && Older(old', new') && HasType(new', d) && Passable(old', d)
    ensures Decode(old', Emit(d) + rest) == Parsed(Project(old', d), rest)
    decreases old', 1, |d.xs| + 1
  {
    var body := EncodeAll(ToValues(d.xs)) + rest;
    if old'.ListOf? { ArrayRoundTrip(ToValues(d.xs), rest); } else { MapRoundTrip(ToValues(d.xs), rest); }
    EvolveRow(old', new', false, d.xs, rest);
    SequenceRead(old', Emit(d) + rest, |d.xs|, body, ProjectRow(old', false, d.xs), rest);
  }

  /** A sequence is its header and its elements. */
  lemma SequenceRead(ty: Type, s: seq<Byte>, n: nat, body: seq<Byte>, xs: seq<Data>, rest: seq<Byte>)
    requires (ty.ListOf? && ReadArrayLength(s) == Parsed(n, body)) ||
             (ty.MapOf? && n % 2 == 0 && ReadMapLength(s) == Parsed(n / 2, body))
    requires DecodeRow(ty, false, n, body) == Parsed(xs, rest)
    ensures Decode(ty, s) == Parsed(if ty.ListOf? then Elements(xs) else Entries(xs), rest)
  {
  }

  lemma {:induction false} EvolveOption(old': Type, new': Type, d: Data, rest: seq<Byte>)
    requires old'.OptionOf? && Older(old', new') && HasType(new', d) && Passable(old', d)
    ensures Decode(old', Emit(d) + rest) == Parsed(Project(old', d), rest)
    decreases old', 1, 0
  {
    if d.Absent? {
      ArrayRoundTrip([], rest);
      assert [] + rest == rest;
    } else {
      ArrayRoundTrip([ToValue(d.x)], rest);
      EncodeOne(ToValue(d.x));
      Evolve(old'.some, new'.some, d.x, rest);
    }
  }

  /** An optional value that turns out to be a longer array is read as absent, and the array is skipped. */
  lemma LongOption(some: Type, vs: seq<Value>, rest: seq<Byte>)
    requires 2 <= |vs| < U32 && AllWellFormed(vs) && AllCountable(vs)
    ensures Decode(OptionOf(some), Encode(ArrayValue(vs)) + rest) == Parsed(Absent, rest)
  {
    ArrayRoundTrip(vs, rest);
    SkipAll(vs, rest);
  }

  lemma {:induction false} EvolveRow(old': Type, new': Type, odd: bool, xs: seq<Data>, rest: seq<Byte>)
    requires (old'.ListOf? || old'.MapOf?) && Older(old', new')
    requires RowTyped(new', odd, xs) && PassableRow(old', odd, xs)
    ensures DecodeRow(old', odd, |xs|, EncodeAll(ToValues(xs)) + rest) == Parsed(ProjectRow(old', odd, xs), rest)
    decreases old', 1, |xs|
  {
    if xs == [] {
      assert [] + rest == rest;
    } else {
      ValuesCons(xs, rest);
      Evolve(RowType(old', odd), RowType(new', odd), xs[0], EncodeAll(ToValues(xs[1..])) + rest);
      EvolveRow(old', new', !odd, xs[1..], rest);
    }
  }

  /** The fields that the older schema does not know can be skipped. */
  lemma {:induction false} UnknownFields(olds: seq<Type>, news: seq<Type>, xs: seq<Data>)
    requires OlderFields(olds, news) && FieldsTyped(news, xs)
    ensures |olds| <= |xs| && AllWellFormed(ToValues(xs[|olds|..]))
    ensures PassableFields(olds, xs) ==> AllCountable(ToValues(xs[|olds|..]))
  {
    FieldsWellFormed(news, xs);
    if olds == [] {
      assert xs[0..] == xs;
    } else {
      UnknownFields(olds[1..], news[1..], xs[1..]);
      assert xs[1..][|olds| - 1..] == xs[|olds|..];
    }
  }

  lemma {:induction false} EvolveFields(olds: seq<Type>, news: seq<Type>, xs: seq<Data>, rest: seq<Byte>)
    requires OlderFields(olds, news) && FieldsTyped(news, xs) && PassableFields(olds, xs) && |olds| <= |xs|
    ensures DecodeFields(olds, EncodeAll(ToValues(xs)) + rest)
            == Parsed(ProjectFields(olds, xs), EncodeAll(ToValues(xs[|olds|..])) + rest)
    decreases olds, 0, 0
  {
    if olds == [] {
      assert xs[0..] == xs;
    } else {
      ValuesCons(xs, rest);
      Evolve(olds[0], news[0], xs[0], EncodeAll(ToValues(xs[1..])) + rest);
      EvolveFields(olds[1..], news[1..], xs[1..], rest);
      assert xs[1..][|olds| - 1..] == xs[|olds|..];
    }
  }

  lemma StructParts(olds: seq<Type>, s: seq<Byte>, n: nat, t: seq<Byte>, xs: seq<Data>, u: seq<Byte>, rest: seq<Byte>)
    requires ReadArrayLength(s) == Parsed(n, t) && n >= |olds|
    requires DecodeFields(olds, t) == Parsed(xs, u) && SkipMany(u, n - |olds|) == Some(rest)
    ensures DecodeStruct(olds, s) == Parsed(Fields(xs), rest)
  {
  }

  lemma {:induction false} EvolveStruct(olds: seq<Type>, news: seq<Type>, xs: seq<Data>, rest: seq<Byte>)
    requires OlderFields(olds, news) && FieldsTyped(news, xs) && PassableFields(olds, xs) && |xs| < U32
    ensures DecodeStruct(olds, Encode(ArrayValue(ToValues(xs))) + rest) == Parsed(Fields(ProjectFields(olds, xs)), rest)
    decreases olds, 1, 0
  {
    UnknownFields(olds, news, xs);
    var tail := ToValues(xs[|olds|..]);
    ArrayRoundTrip(ToValues(xs), rest);
    EvolveFields(olds, news, xs, rest);
    SkipAll(tail, rest);
    StructParts(olds, Encode(ArrayValue(ToValues(xs))) + rest, |xs|, EncodeAll(ToValues(xs)) + rest,
                ProjectFields(olds, xs), EncodeAll(tail) + rest, rest);
  }

  lemma {:induction false} EvolveEnum(old': Type, new': Type, d: Data, rest: seq<Byte>)
    requires old'.Enum? && Older(old', new') && HasType(new', d) && Passable(old', d)
    ensures Decode(old', Emit(d) + rest) == Parsed(Project(old', d), rest)
    decreases old', 1, 0
  {
    if !Knows(old'.variants, d.idx) {
      EvolveUnknown(old', new', d, rest);
    } else if d.Unit? {
      UnitHeader(d.idx, rest);
    } else if d.One? {
      PairHeader(d.idx, ToValue(d.x), rest);
      Evolve(old'.variants[d.idx].field, new'.variants[d.idx].field, d.x, rest);
    } else {
      PairHeader(d.idx, ArrayValue(ToValues(d.xs)), rest);
      FieldsWellFormed(new'.variants[d.idx].fields, d.xs);
      EvolveStruct(old'.variants[d.idx].fields, new'.variants[d.idx].fields, d.xs, rest);
    }
  }

  /**
   A variant that the older schema does not know ends up in its catch-all variant, with the
   bytes of its payload, exactly when these hold no oversize map.
   */
  lemma EvolveUnknown(old': Type, new': Type, d: Data, rest: seq<Byte>)
    requires old'.Enum? && Older(old', new') && HasType(new', d) && !Knows(old'.variants, d.idx)
    ensures Decode(old', Emit(d) + rest) == Parsed(Unknown(d.idx, Payload(d)), rest) <==> Passable(old', d)
    ensures Project(old', d) == Unknown(d.idx, Payload(d))
  {
    if d.Unit? {
      UnitHeader(d.idx, rest);
      assert Consumed(rest, rest) == [];
    } else {
      var v := if d.One? then ToValue(d.x) else ArrayValue(ToValues(d.xs));
      PairHeader(d.idx, v, rest);
      if d.One? {
        TypedWellFormed(new'.variants[d.idx].field, d.x);
      } else {
        FieldsWellFormed(new'.variants[d.idx].fields, d.xs);
        ArrayWellFormed(ToValues(d.xs));
      }
      CaptureOne(d.idx, v, rest);
    }
  }

  lemma CaptureOne(idx: Byte, v: Value, rest: seq<Byte>)
    requires WellFormed(v)
    ensures Capture(Header(idx, 2), Encode(v) + rest) == Parsed(Unknown(idx, Encode(v)), rest) <==> Countable(v)
  {
    var t := Encode(v) + rest;
    SkipConsumesOne(v, rest);
    var u := Skip(t).value;
    assert SkipMany(t, 1) == SkipMany(u, 0) == Some(u);
    if u == rest { assert Consumed(t, rest) == Encode(v); }
  }

  // ------------------------------------------------------- an oversize map

  function Zeros(n: nat): seq<Data> { seq(n, _ => Num(0)) }

  const ZERO: Type := Int(0, 0)

  lemma {:induction false} ZerosTyped(n: nat, odd: bool)
    ensures RowTyped(MapOf(ZERO, ZERO), odd, Zeros(n))
  {
    if n > 0 {
      ZerosTyped(n - 1, !odd);
      assert Zeros(n)[1..] == Zeros(n - 1);
    }
  }

  lemma WrapsAround(items: seq<Value>)
    requires |items| % 2 == 0 && 0x1_0000 <= |items| < 0x2_0000
    ensures MapValue(items).head == 0xde && Passed(MapValue(items)) == |items| - 0x1_0000
  {
    assert Pow256(1) == 256 && Pow256(2) == 0x1_0000;
  }

  /** A map of 32,768 to 65,535 entries is typed data, and a skip passes over 65,536 too few of its keys and values. */
  lemma OversizeMap(n: nat) returns (d: Data)
    requires n % 2 == 0 && 0x1_0000 <= n < 0x2_0000
    ensures HasType(MapOf(ZERO, ZERO), d) && WellFormed(ToValue(d)) && |ToValue(d).items| == n
    ensures ToValue(d).head == 0xde && Passed(ToValue(d)) == n - 0x1_0000 && !Countable(ToValue(d))
  {
    d := Entries(Zeros(n));
    ZerosTyped(n, false);
    TypedWellFormed(MapOf(ZERO, ZERO), d);
    WrapsAround(ToValues(Zeros(n)));
  }

  lemma MisreadField(ty: Type, d: Data, rest: seq<Byte>)
    requires HasType(ty, d) && !Countable(ToValue(d))
    ensures var r := Decode(Struct([]), Emit(Fields([d])) + rest); r.Parsed? && r.rest != rest
  {
    assert [ty][1..] == [] && [d][1..] == [] && [d][0..] == [d] && [d][..0] == [];
    StructConsumesAll([], [ty], [d], rest);
  }

  lemma MisreadVariant(ty: Type, d: Data, rest: seq<Byte>)
    requires HasType(ty, d) && !Countable(ToValue(d))
    ensures Decode(Enum([CatchAll]), Emit(One(0, d)) + rest) != Parsed(Unknown(0, Emit(d)), rest)
  {
    EvolveUnknown(Enum([CatchAll]), Enum([OneField(ty)]), One(0, d), rest);
  }

  /** Such a map in a field or a variant that the older schema does not know is not read past. */
  lemma OversizeIsMisread(n: nat, rest: seq<Byte>) returns (d: Data)
    requires n % 2 == 0 && 0x1_0000 <= n < 0x2_0000
    ensures HasType(MapOf(ZERO, ZERO), d) && d.Entries? && |d.xs| == n
    ensures var r := Decode(Struct([]), Emit(Fields([d])) + rest); r.Parsed? && r.rest != rest
    ensures Decode(Enum([CatchAll]), Emit(One(0, d)) + rest) != Parsed(Unknown(0, Emit(d)), rest)
  {
    d := OversizeMap(n);
    MisreadField(MapOf(ZERO, ZERO), d, rest);
    MisreadVariant(MapOf(ZERO, ZERO), d, rest);
  }

  lemma TailLeaves(tail: seq<Value>, rest: seq<Byte>) returns (left: seq<Value>)
    requires AllWellFormed(tail)
    ensures SkipMany(EncodeAll(tail) + rest, |tail|) == Some(EncodeAll(left) + rest)
    ensures left == [] <==> AllCountable(tail)
  {
    assert tail[..|tail|] == tail;
    left := SkipForest(tail, |tail|, rest);
  }

  /** What an older reader leaves of a struct: nothing exactly when the skipped fields are countable. */
  lemma StructLeaves(olds: seq<Type>, news: seq<Type>, xs: seq<Data>, rest: seq<Byte>) returns (left: seq<Value>)
    requires OlderFields(olds, news) && FieldsTyped(news, xs) && |xs| < U32 && |olds| <= |xs|
    requires PassableFields(olds, xs[..|olds|])
    ensures DecodeStruct(olds, Encode(ArrayValue(ToValues(xs))) + rest)
            == Parsed(Fields(ProjectFields(olds, xs[..|olds|])), EncodeAll(left) + rest)
    ensures left == [] <==> AllCountable(ToValues(xs[|olds|..]))
  {
    UnknownFields(olds, news, xs);
    var tail := ToValues(xs[|olds|..]);
    left := TailLeaves(tail, rest);
    ArrayRoundTrip(ToValues(xs), rest);
    KnownFields(olds, news, xs, EncodeAll(tail) + rest);
    ValuesSplit(xs, |olds|, rest);
    StructParts(olds, Encode(ArrayValue(ToValues(xs))) + rest, |xs|, EncodeAll(ToValues(xs)) + rest,
                ProjectFields(olds, xs[..|olds|]), EncodeAll(tail) + rest, EncodeAll(left) + rest);
  }

  /**
   The exact condition for a struct whose known fields are passable: the reader stops at the
   end of the struct exactly when none of the skipped fields holds an oversize map.
   */
  lemma StructConsumesAll(olds: seq<Type>, news: seq<Type>, xs: seq<Data>, rest: seq<Byte>)
    requires OlderFields(olds, news) && FieldsTyped(news, xs) && |xs| < U32 && |olds| <= |xs|
    requires PassableFields(olds, xs[..|olds|])
    ensures var r := DecodeStruct(olds, Encode(ArrayValue(ToValues(xs))) + rest);
            r.Parsed? && (r.rest == rest <==> AllCountable(ToValues(xs[|olds|..])))
  {
    var left := StructLeaves(olds, news, xs, rest);
    RowIsShort(left, rest);
  }

  lemma RowIsShort(left: seq<Value>, rest: seq<Byte>)
    ensures EncodeAll(left) + rest == rest <==> left == []
  {
    if left == [] { assert [] + rest == rest; } else { assert |Encode(left[0])| > 0; }
  }

  lemma {:induction false} ToValuesSplit(xs: seq<Data>, k: nat)
    requires k <= |xs|
    ensures ToValues(xs) == ToValues(xs[..k]) + ToValues(xs[k..])
  {
    if k == 0 {
      assert xs[0..] == xs;
    } else {
      ToValuesSplit(xs[1..], k - 1);
      assert xs[1..][..k - 1] == xs[..k][1..] && xs[1..][k - 1..] == xs[k..];
    }
  }

  lemma ValuesSplit(xs: seq<Data>, k: nat, rest: seq<Byte>)
    requires k <= |xs|
    ensures EncodeAll(ToValues(xs)) + rest == EncodeAll(ToValues(xs[..k])) + (EncodeAll(ToValues(xs[k..])) + rest)
  {
    ToValuesSplit(xs, k);
    EncodeConcat(ToValues(xs[..k]), ToValues(xs[k..]));
    Associative(EncodeAll(ToValues(xs[..k])), EncodeAll(ToValues(xs[k..])), rest);
  }

  /** The known fields alone are read whatever follows them. */
  lemma {:induction false} KnownFields(olds: seq<Type>, news: seq<Type>, xs: seq<Data>, rest: seq<Byte>)
    requires OlderFields(olds, news) && FieldsTyped(news, xs) && |olds| <= |xs| && PassableFields(olds, xs[..|olds|])
    ensures DecodeFields(olds, EncodeAll(ToValues(xs[..|olds|])) + rest)
            == Parsed(ProjectFields(olds, xs[..|olds|]), rest)
  {
    if olds == [] {
      assert [] + rest == rest;
    } else {
      var ys := xs[..|olds|];
      assert ys[1..] == xs[1..][..|olds| - 1];
      ValuesCons(ys, rest);
      Evolve(olds[0], news[0], ys[0], EncodeAll(ToValues(ys[1..])) + rest);
      KnownFields(olds[1..], news[1..], xs[1..], rest);
    }
  }
}
