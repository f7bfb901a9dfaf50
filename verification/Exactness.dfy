/**
 When an older schema stops exactly at the end of newer data.  Reading a row of encoded values,
 a schema fails or stops between two values, having passed at most one; so once it stops early
 inside some part, nothing behind that part can make up for it.  With a catch-all variant this
 takes values without empty arrays: `EmptyHeaderReadsOn`.
 */
module Exactness {
  import opened Wrappers
  import opened Bytes
  import opened MsgPack
  import opened Schema
  import opened Evolution

  /** No enum in the type has a catch-all variant. */
  ghost predicate Closed(ty: Type) {
    match ty
    case Int(_, _) => true
    case Bool => true
    case Binary => true
    case ListOf(elem) => Closed(elem)
    case MapOf(key, val) => Closed(key) && Closed(val)
    case OptionOf(some) => Closed(some)
    case Struct(fields) => AllClosed(fields)
    case Enum(variants) => forall i | 0 <= i < |variants| :: ClosedVariant(variants[i])
  }

  ghost predicate ClosedVariant(variant: Variant) {
    match variant
    case UnitVariant => true
    case OneField(field) => Closed(field)
    case ManyFields(fields) => AllClosed(fields)
    case CatchAll => false
  }

  ghost predicate AllClosed(fields: seq<Type>) { fields == [] || (Closed(fields[0]) && AllClosed(fields[1..])) }

  /** Schemas with catch-all variants are read from values without empty arrays only. */
  ghost predicate Suits(solid: bool, ty: Type) { solid || Closed(ty) }

  ghost predicate AllSuit(solid: bool, fields: seq<Type>) { solid || AllClosed(fields) }

  ghost predicate Row(solid: bool, row: seq<Value>) { AllWellFormed(row) && (solid ==> AllSolid(row)) }

  // ------------------------------------------------------- reading one value

  /** An integer takes as many bytes behind its first as its format says. */
  lemma IntParts(s: seq<Byte>, payload: seq<Byte>, t: seq<Byte>)
    requires s != [] && s[1..] == payload + t && ShapeOf(s[0]) == Data(|payload|) && ReadInt(s).Parsed?
    ensures ReadInt(s).rest == t
  {
    assert s[1..][|payload|..] == t;
  }

  lemma IntIsData(head: Byte, s: seq<Byte>)
    requires s != [] && s[0] == head && ReadInt(s).Parsed?
    ensures ShapeOf(head).Data?
  {
  }

  lemma IntPasses(v: Value, t: seq<Byte>)
    requires WellFormed(v) && ReadInt(Encode(v) + t).Parsed?
    ensures ReadInt(Encode(v) + t).rest == t
  {
    EncodeTail(v, t);
    IntIsData(v.head, Encode(v) + t);
    PlainTail(v, t);
    IntParts(Encode(v) + t, v.payload, t);
  }

  lemma BoolPasses(v: Value, t: seq<Byte>)
    requires WellFormed(v) && (v.head == 0xc2 || v.head == 0xc3)
    ensures (Encode(v) + t)[0] == v.head && (Encode(v) + t)[1..] == t
  {
    PlainTail(v, t);
    assert [] + t == t;
  }

  lemma BinaryPasses(v: Value, t: seq<Byte>)
    requires WellFormed(v) && ReadBinaryLength(Encode(v) + t).Parsed?
    ensures ReadBinaryLength(Encode(v) + t) == Parsed(|v.payload|, v.payload + t)
  {
    EncodeTail(v, t);
    LengthRoundTrip(v, if v.head == 0xc4 then 1 else if v.head == 0xc5 then 2 else 4, |v.payload|, t);
  }

  lemma ArrayShape(v: Value)
    requires WellFormed(v) && (0x90 <= v.head < 0xa0 || v.head == 0xdc || v.head == 0xdd)
    ensures v.payload == []
    ensures v.head < 0xa0 ==> LengthBytes(v) == [] && |v.items| == v.head - 0x90
    ensures v.head >= 0xa0 ==> var k := if v.head == 0xdc then 2 else 4;
                               LengthBytes(v) == BigEndian(|v.items|, k) && |v.items| < Pow256(k)
  {
  }

  lemma MapShape(v: Value)
    requires WellFormed(v) && (0x80 <= v.head < 0x90 || v.head == 0xde || v.head == 0xdf)
    ensures v.payload == [] && |v.items| % 2 == 0
    ensures v.head < 0x90 ==> LengthBytes(v) == [] && |v.items| == 2 * (v.head - 0x80)
    ensures v.head >= 0x90 ==> var k := if v.head == 0xde then 2 else 4;
                               LengthBytes(v) == BigEndian(|v.items| / 2, k) && |v.items| / 2 < Pow256(k)
  {
  }

  lemma ArrayPasses(v: Value, t: seq<Byte>)
    requires WellFormed(v) && ReadArrayLength(Encode(v) + t).Parsed?
    ensures ReadArrayLength(Encode(v) + t) == Parsed(|v.items|, EncodeAll(v.items) + t)
  {
    EncodeTail(v, t);
    ArrayShape(v);
    if v.head < 0xa0 { PlainTail(v, t); } else { LengthRoundTrip(v, if v.head == 0xdc then 2 else 4, |v.items|, t); }
  }

  lemma MapPasses(v: Value, t: seq<Byte>)
    requires WellFormed(v) && ReadMapLength(Encode(v) + t).Parsed?
    ensures |v.items| % 2 == 0 && ReadMapLength(Encode(v) + t) == Parsed(|v.items| / 2, EncodeAll(v.items) + t)
  {
    EncodeTail(v, t);
    MapShape(v);
    if v.head < 0x90 {
      PlainTail(v, t);
    } else {
      LengthRoundTrip(v, if v.head == 0xde then 2 else 4, |v.items| / 2, t);
    }
  }

  // ------------------------------------------------------- rows

  /** What was read, if anything, left a row of at least `n` values. */
  ghost predicate Leaves<T>(solid: bool, r: Parsed<T>, left: seq<Value>, rest: seq<Byte>, n: int) {
    r.Parsed? ==> r.rest == EncodeAll(left) + rest && Row(solid, left) && |left| >= n
  }

  lemma RowFront(row: seq<Value>, rest: seq<Byte>)
    requires row != []
    ensures EncodeAll(row) + rest == Encode(row[0]) + (EncodeAll(row[1..]) + rest)
  {
    EncodeCons(row, []);
    assert row + [] == row && row[1..] + [] == row[1..];
    Associative(Encode(row[0]), EncodeAll(row[1..]), rest);
  }

  lemma RowJoin(solid: bool, a: seq<Value>, b: seq<Value>, rest: seq<Byte>)
    requires Row(solid, a) && Row(solid, b)
    ensures EncodeAll(a) + (EncodeAll(b) + rest) == EncodeAll(a + b) + rest && Row(solid, a + b)
  {
    EncodeConcat(a, b);
    WellFormedConcat(a, b);
    SolidConcat(a, b);
    Associative(EncodeAll(a), EncodeAll(b), rest);
  }

  lemma SkipLeaves(solid: bool, row: seq<Value>, n: nat, rest: seq<Byte>) returns (left: seq<Value>)
    requires Row(solid, row) && n <= |row|
    ensures SkipMany(EncodeAll(row) + rest, n) == Some(EncodeAll(left) + rest)
    ensures Row(solid, left) && |left| >= |row| - n && (!AllCountable(row[..n]) ==> |left| > |row| - n)
  {
    left := SkipForest(row, n, rest);
  }

  /** Reading a type from a row passes at most one value. */
  lemma {:induction false} ReadStops(solid: bool, ty: Type, row: seq<Value>, rest: seq<Byte>) returns (left: seq<Value>)
    requires Suits(solid, ty) && row != [] && Row(solid, row)
    ensures Leaves(solid, Decode(ty, EncodeAll(row) + rest), left, rest, |row| - 1)
    decreases ty, 3, 0
  {
    var v, g := row[0], row[1..];
    RowFront(row, rest);
    match ty
    case Int(_, _) =>
      left := g;
      if ReadInt(EncodeAll(row) + rest).Parsed? { IntPasses(v, EncodeAll(g) + rest); }
    case Bool =>
      left := g;
      EncodeTail(v, EncodeAll(g) + rest);
      if v.head == 0xc2 || v.head == 0xc3 { BoolPasses(v, EncodeAll(g) + rest); }
    case Binary => left := BinaryStops(solid, row, rest);
    case ListOf(_) => left := SequenceStops(solid, ty, row, rest);
    case MapOf(_, _) => left := SequenceStops(solid, ty, row, rest);
    case OptionOf(_) => left := OptionStops(solid, ty, row, rest);
    case Struct(fields) => left := StructStops(solid, fields, row, rest);
    case Enum(_) => left := EnumStops(solid, ty, row, rest);
  }

  lemma BinaryStops(solid: bool, row: seq<Value>, rest: seq<Byte>) returns (left: seq<Value>)
    requires row != [] && Row(solid, row)
    ensures Leaves(solid, Decode(Binary, EncodeAll(row) + rest), left, rest, |row| - 1)
  {
    var v, t := row[0], EncodeAll(row[1..]) + rest;
    left := row[1..];
    RowFront(row, rest);
    if ReadBinaryLength(Encode(v) + t).Parsed? {
      BinaryPasses(v, t);
      assert (v.payload + t)[|v.payload|..] == t;
    }
  }

  lemma RowParts(solid: bool, row: seq<Value>)
    requires row != [] && Row(solid, row)
    ensures WellFormed(row[0]) && Row(solid, row[0].items) && Row(solid, row[1..])
    ensures solid && ArrayHead(row[0].head) ==> row[0].items != []
  {
    if solid { assert Solid(row[0]); }
  }

  /** Behind an array header come its items and what follows the array. */
  lemma ArrayFront(solid: bool, row: seq<Value>, rest: seq<Byte>)
    requires row != [] && Row(solid, row)
    ensures Row(solid, row[0].items + row[1..])
    ensures ReadArrayLength(EncodeAll(row) + rest).Parsed? ==>
              ReadArrayLength(EncodeAll(row) + rest)
                == Parsed(|row[0].items|, EncodeAll(row[0].items + row[1..]) + rest)
  {
    var v, t := row[0], EncodeAll(row[1..]) + rest;
    RowFront(row, rest);
    RowParts(solid, row);
    RowJoin(solid, v.items, row[1..], rest);
    if ReadArrayLength(Encode(v) + t).Parsed? { ArrayPasses(v, t); }
  }

  lemma MapFront(solid: bool, row: seq<Value>, rest: seq<Byte>)
    requires row != [] && Row(solid, row)
    ensures ReadMapLength(EncodeAll(row) + rest).Parsed? ==>
              && |row[0].items| % 2 == 0
              && ReadMapLength(EncodeAll(row) + rest)
                   == Parsed(|row[0].items| / 2, EncodeAll(row[0].items + row[1..]) + rest)
  {
    var v, t := row[0], EncodeAll(row[1..]) + rest;
    RowFront(row, rest);
    RowParts(solid, row);
    RowJoin(solid, v.items, row[1..], rest);
    if ReadMapLength(Encode(v) + t).Parsed? { MapPasses(v, t); }
  }

  lemma {:induction false} SequenceStops(solid: bool, ty: Type, row: seq<Value>, rest: seq<Byte>)
    returns (left: seq<Value>)
    requires (ty.ListOf? || ty.MapOf?) && Suits(solid, ty) && row != [] && Row(solid, row)
    ensures Leaves(solid, Decode(ty, EncodeAll(row) + rest), left, rest, |row| - 1)
    decreases ty, 2, 0
  {
    ArrayFront(solid, row, rest);
    MapFront(solid, row, rest);
    SequenceParts(ty, EncodeAll(row) + rest);
    left := RowStops(solid, ty, false, |row[0].items|, row[0].items + row[1..], rest);
  }

  /** A sequence is read as its header and then its elements. */
  lemma SequenceParts(ty: Type, s: seq<Byte>)
    requires ty.ListOf? || ty.MapOf?
    ensures Decode(ty, s).Parsed? ==>
              var h := if ty.ListOf? then ReadArrayLength(s) else ReadMapLength(s);
              && h.Parsed?
              && var r := DecodeRow(ty, false, if ty.ListOf? then h.value else 2 * h.value, h.rest);
                 r.Parsed? && Decode(ty, s).rest == r.rest
  {
  }

  lemma {:induction false} RowStops(solid: bool, ty: Type, odd: bool, n: nat, row: seq<Value>, rest: seq<Byte>)
    returns (left: seq<Value>)
    requires (ty.ListOf? || ty.MapOf?) && Suits(solid, ty) && Row(solid, row) && n <= |row|
    ensures Leaves(solid, DecodeRow(ty, odd, n, EncodeAll(row) + rest), left, rest, |row| - n)
    decreases ty, 1, n
  {
    left := row;
    if n > 0 {
      var one := ReadStops(solid, RowType(ty, odd), row, rest);
      if Decode(RowType(ty, odd), EncodeAll(row) + rest).Parsed? {
        left := RowStops(solid, ty, !odd, n - 1, one, rest);
      }
    }
  }

  lemma {:induction false} OptionStops(solid: bool, ty: Type, row: seq<Value>, rest: seq<Byte>)
    returns (left: seq<Value>)
    requires ty.OptionOf? && Suits(solid, ty) && row != [] && Row(solid, row)
    ensures Leaves(solid, Decode(ty, EncodeAll(row) + rest), left, rest, |row| - 1)
    decreases ty, 2, 0
  {
    var n, all := |row[0].items|, row[0].items + row[1..];
    ArrayFront(solid, row, rest);
    left := all;
    if n == 0 {
      assert all == row[1..];
    } else if n == 1 {
      left := ReadStops(solid, ty.some, all, rest);
    } else {
      left := SkipLeaves(solid, all, n, rest);
    }
  }

  lemma {:induction false} FieldsStop(solid: bool, fields: seq<Type>, row: seq<Value>, rest: seq<Byte>)
    returns (left: seq<Value>)
    requires AllSuit(solid, fields) && Row(solid, row) && |fields| <= |row|
    ensures Leaves(solid, DecodeFields(fields, EncodeAll(row) + rest), left, rest, |row| - |fields|)
    decreases fields, 0, 0
  {
    left := row;
    if fields != [] {
      var one := ReadStops(solid, fields[0], row, rest);
      if Decode(fields[0], EncodeAll(row) + rest).Parsed? { left := FieldsStop(solid, fields[1..], one, rest); }
    }
  }

  lemma {:induction false} StructStops(solid: bool, fields: seq<Type>, row: seq<Value>, rest: seq<Byte>)
    returns (left: seq<Value>)
    requires AllSuit(solid, fields) && row != [] && Row(solid, row)
    ensures Leaves(solid, DecodeStruct(fields, EncodeAll(row) + rest), left, rest, |row| - 1)
    decreases fields, 3, 0
  {
    ArrayFront(solid, row, rest);
    left := StructStopsAt(solid, fields, EncodeAll(row) + rest, |row[0].items|,
                          row[0].items + row[1..], rest, |row| - 1);
  }

  lemma {:induction false} StructStopsAt(solid: bool, fields: seq<Type>, s: seq<Byte>, n: nat, all: seq<Value>,
                                         rest: seq<Byte>, m: nat)
    returns (left: seq<Value>)
    requires ReadArrayLength(s).Parsed? ==> ReadArrayLength(s) == Parsed(n, EncodeAll(all) + rest)
    requires AllSuit(solid, fields) && Row(solid, all) && n + m <= |all|
    ensures Leaves(solid, DecodeStruct(fields, s), left, rest, m)
    decreases fields, 2, 0
  {
    left := all;
    StructOutcome(fields, s);
    if ReadArrayLength(s).Parsed? && |fields| <= n {
      var k := n - |fields|;
      left := OthersStop(solid, fields, all, k, rest, m);
      StructTransfer(solid, fields, s, k, EncodeAll(all) + rest, left, rest, m);
    }
  }

  /** A struct is read as its header, its fields and what is skipped. */
  lemma StructOutcome(fields: seq<Type>, s: seq<Byte>)
    ensures DecodeStruct(fields, s).Parsed? ==>
              var h := ReadArrayLength(s);
              && h.Parsed? && h.value >= |fields|
              && var r := DecodeFields(fields, h.rest);
                 && r.Parsed? && SkipMany(r.rest, h.value - |fields|) == Some(DecodeStruct(fields, s).rest)
  {
  }

  /** A wrapped discriminant is read as the array header and an integer. */
  lemma HeaderParts(s: seq<Byte>)
    requires s != [] && s[0] >= 0x80 && s[0] != 0xcc && ReadEnumHeader(s).Parsed?
    ensures var h, a := ReadEnumHeader(s), ReadArrayLength(s);
            && a.Parsed? && h.value.len == a.value && ReadInt(a.rest).Parsed? && h.rest == ReadInt(a.rest).rest
  {
  }

  lemma FrontByte(row: seq<Value>, rest: seq<Byte>)
    requires row != []
    ensures EncodeAll(row) + rest != [] && (EncodeAll(row) + rest)[0] == row[0].head
  {
    RowFront(row, rest);
    EncodeTail(row[0], EncodeAll(row[1..]) + rest);
  }

  /** A bare discriminant is one value. */
  lemma BarePasses(v: Value, t: seq<Byte>)
    requires WellFormed(v) && (v.head < 0x80 || v.head == 0xcc) && ReadEnumHeader(Encode(v) + t).Parsed?
    ensures ReadEnumHeader(Encode(v) + t).value.len == 1 && ReadEnumHeader(Encode(v) + t).rest == t
  {
    PlainTail(v, t);
    var s := Encode(v) + t;
    if v.head < 0x80 {
      assert [] + t == t;
    } else {
      assert s[2..] == s[1..][1..];
      assert (v.payload + t)[1..] == t;
    }
  }

  /** A discriminant in an array is its first item. */
  lemma WrappedPasses(solid: bool, row: seq<Value>, rest: seq<Byte>)
    requires row != [] && Row(solid, row) && row[0].head >= 0x80 && row[0].head != 0xcc
    requires ReadEnumHeader(EncodeAll(row) + rest).Parsed?
    ensures var r, items := ReadEnumHeader(EncodeAll(row) + rest), row[0].items;
            && r.value.len == |items| && ArrayHead(row[0].head)
            && (items != [] ==> && Row(solid, items[1..] + row[1..])
                                && r.rest == EncodeAll(items[1..] + row[1..]) + rest)
  {
    var all := row[0].items + row[1..];
    FrontByte(row, rest);
    HeaderParts(EncodeAll(row) + rest);
    ArrayFront(solid, row, rest);
    if row[0].items != [] {
      RowFront(all, rest);
      ItemsBehind(row[0].items, row[1..]);
      IntPasses(all[0], EncodeAll(all[1..]) + rest);
    }
  }

  lemma ItemsBehind(items: seq<Value>, g: seq<Value>)
    requires items != []
    ensures (items + g)[1..] == items[1..] + g && (items + g)[0] == items[0]
  {
  }

  /** An enum is read as its header and then its payload. */
  lemma EnumOutcome(ty: Type, s: seq<Byte>)
    requires ty.Enum?
    ensures Decode(ty, s).Parsed? ==>
              var h := ReadEnumHeader(s);
              h.Parsed? && PayloadLeft(ty, h.value, h.rest, Decode(ty, s).rest)
  {
  }

  ghost predicate PayloadLeft(ty: Type, h: Header, s: seq<Byte>, u: seq<Byte>)
    requires ty.Enum?
  {
    if !Knows(ty.variants, h.idx) then
      CatchesAll(ty.variants) && SkipMany(s, if h.len == 0 then 0 else h.len - 1) == Some(u)
    else
      match ty.variants[h.idx]
      case UnitVariant => h.len == 1 && u == s
      case OneField(field) => h.len == 2 && Decode(field, s).Parsed? && u == Decode(field, s).rest
      case ManyFields(fields) => h.len == 2 && DecodeStruct(fields, s).Parsed? && u == DecodeStruct(fields, s).rest
  }

  lemma {:induction false} EnumStops(solid: bool, ty: Type, row: seq<Value>, rest: seq<Byte>) returns (left: seq<Value>)
    requires ty.Enum? && Suits(solid, ty) && row != [] && Row(solid, row)
    ensures Leaves(solid, Decode(ty, EncodeAll(row) + rest), left, rest, |row| - 1)
    decreases ty, 2, 0
  {
    left := row[1..];
    var s := EncodeAll(row) + rest;
    var h := ReadEnumHeader(s);
    EnumOutcome(ty, s);
    NoCatchAll(solid, ty);
    if Decode(ty, s).Parsed? {
      RowParts(solid, row);
      if row[0].head < 0x80 || row[0].head == 0xcc {
        RowFront(row, rest);
        BarePasses(row[0], EncodeAll(row[1..]) + rest);
      } else {
        WrappedPasses(solid, row, rest);
        if h.value.len > 0 {
          left := PayloadStops(solid, ty, h.value, row[0].items[1..] + row[1..], rest, Decode(ty, s).rest);
        }
      }
    }
  }

  lemma {:induction false} PayloadStops(solid: bool, ty: Type, h: Header, row: seq<Value>, rest: seq<Byte>,
                                        u: seq<Byte>)
    returns (left: seq<Value>)
    requires ty.Enum? && Suits(solid, ty) && Row(solid, row) && 1 <= h.len <= |row| + 1
    requires PayloadLeft(ty, h, EncodeAll(row) + rest, u)
    ensures u == EncodeAll(left) + rest && Row(solid, left) && |left| >= |row| - (h.len - 1)
    decreases ty, 1, 0
  {
    left := row;
    if !Knows(ty.variants, h.idx) {
      left := SkipLeaves(solid, row, h.len - 1, rest);
    } else if h.len == 2 {
      var variant := ty.variants[h.idx];
      assert solid || ClosedVariant(variant);
      if variant.OneField? { left := ReadStops(solid, variant.field, row, rest); }
      if variant.ManyFields? { left := StructStops(solid, variant.fields, row, rest); }
    }
  }

  lemma NoCatchAll(solid: bool, ty: Type)
    requires ty.Enum? && Suits(solid, ty)
    ensures solid || !CatchesAll(ty.variants)
  {
    if !solid {
      assert Closed(ty);
      forall i | 0 <= i < |ty.variants| ensures !ty.variants[i].CatchAll? { assert ClosedVariant(ty.variants[i]); }
    }
  }

  // ------------------------------------------------------- stopping short

  lemma RowOutcome(ty: Type, odd: bool, n: nat, s: seq<Byte>)
    requires (ty.ListOf? || ty.MapOf?) && n > 0
    ensures DecodeRow(ty, odd, n, s).Parsed? ==>
              var one := Decode(RowType(ty, odd), s);
              && one.Parsed? && DecodeRow(ty, !odd, n - 1, one.rest).Parsed?
              && DecodeRow(ty, odd, n, s).rest == DecodeRow(ty, !odd, n - 1, one.rest).rest
  {
  }

  lemma FieldsOutcome(fields: seq<Type>, s: seq<Byte>)
    requires fields != []
    ensures DecodeFields(fields, s).Parsed? ==>
              var one := Decode(fields[0], s);
              && one.Parsed? && DecodeFields(fields[1..], one.rest).Parsed?
              && DecodeFields(fields, s).rest == DecodeFields(fields[1..], one.rest).rest
  {
  }

  /** The elements of a sequence in front of a row. */
  lemma ElementsFront(solid: bool, xs: seq<Data>, g: seq<Value>, rest: seq<Byte>)
    requires xs != [] && Row(solid, ToValues(xs[1..])) && Row(solid, g)
    ensures EncodeAll(ToValues(xs)) + (EncodeAll(g) + rest) == Emit(xs[0]) + (EncodeAll(ToValues(xs[1..]) + g) + rest)
    ensures Row(solid, ToValues(xs[1..]) + g)
  {
    ValuesCons(xs, EncodeAll(g) + rest);
    RowJoin(solid, ToValues(xs[1..]), g, rest);
  }

  /** Data that is not passable makes the reader fail or stop before the end of the data. */
  lemma {:induction false} StopsShort(solid: bool, old': Type, new': Type, d: Data, g: seq<Value>, rest: seq<Byte>)
    returns (left: seq<Value>)
    requires Older(old', new') && HasType(new', d) && Suits(solid, old') && Row(solid, g) && !Passable(old', d)
    requires solid ==> Solid(ToValue(d))
    ensures Leaves(solid, Decode(old', Emit(d) + (EncodeAll(g) + rest)), left, rest, |g| + 1)
    decreases d, 3
  {
    if d.Elements? || d.Entries? {
      left := SequenceStopsShort(solid, old', new', d, g, rest);
    } else if d.Present? {
      left := OptionStopsShort(solid, old', new', d, g, rest);
    } else if d.Fields? {
      FieldsWellFormed(new'.fields, d.xs);
      left := StructStopsShort(solid, old'.fields, new'.fields, d.xs, g, rest);
    } else {
      left := VariantStopsShort(solid, old', new', d, g, rest);
    }
  }

  lemma {:induction false} SequenceStopsShort(solid: bool, old': Type, new': Type, d: Data, g: seq<Value>,
                                              rest: seq<Byte>)
    returns (left: seq<Value>)
    requires Older(old', new') && HasType(new', d) && Suits(solid, old') && Row(solid, g) && !Passable(old', d)
    requires solid ==> Solid(ToValue(d))
    requires d.Elements? || d.Entries?
    ensures Leaves(solid, Decode(old', Emit(d) + (EncodeAll(g) + rest)), left, rest, |g| + 1)
    decreases d, 2
  {
    var t := EncodeAll(g) + rest;
    if d.Elements? { ArrayRoundTrip(ToValues(d.xs), t); } else { MapRoundTrip(ToValues(d.xs), t); }
    left := RowStopsShort(solid, old', new', false, d.xs, g, rest);
    SequenceTransfer(solid, old', Emit(d) + t, |d.xs|, EncodeAll(ToValues(d.xs)) + t, left, rest, |g| + 1);
  }

  /** What the elements leave is what the sequence leaves. */
  lemma SequenceTransfer(solid: bool, ty: Type, s: seq<Byte>, n: nat, t: seq<Byte>, left: seq<Value>, rest: seq<Byte>,
                         m: int)
    requires (ty.ListOf? && ReadArrayLength(s) == Parsed(n, t)) ||
             (ty.MapOf? && n % 2 == 0 && ReadMapLength(s) == Parsed(n / 2, t))
    requires Leaves(solid, DecodeRow(ty, false, n, t), left, rest, m)
    ensures Leaves(solid, Decode(ty, s), left, rest, m)
  {
    SequenceParts(ty, s);
  }

  lemma {:induction false} OptionStopsShort(solid: bool, old': Type, new': Type, d: Data, g: seq<Value>,
                                            rest: seq<Byte>)
    returns (left: seq<Value>)
    requires Older(old', new') && HasType(new', d) && Suits(solid, old') && Row(solid, g) && !Passable(old', d)
    requires d.Present? && (solid ==> Solid(ToValue(d)))
    ensures Leaves(solid, Decode(old', Emit(d) + (EncodeAll(g) + rest)), left, rest, |g| + 1)
    decreases d, 2
  {
    ArrayRoundTrip([ToValue(d.x)], EncodeAll(g) + rest);
    EncodeOne(ToValue(d.x));
    left := StopsShort(solid, old'.some, new'.some, d.x, g, rest);
  }

  lemma RowTransfer(solid: bool, ty: Type, odd: bool, n: nat, s: seq<Byte>, x: Data, u: seq<Byte>, left: seq<Value>,
                    rest: seq<Byte>, m: int)
    requires (ty.ListOf? || ty.MapOf?) && n > 0 && Decode(RowType(ty, odd), s) == Parsed(x, u)
    requires Leaves(solid, DecodeRow(ty, !odd, n - 1, u), left, rest, m)
    ensures Leaves(solid, DecodeRow(ty, odd, n, s), left, rest, m)
  {
    RowOutcome(ty, odd, n, s);
  }

  lemma {:induction false} ShortRow(solid: bool, ty: Type, odd: bool, n: nat, s: seq<Byte>, one: seq<Value>,
                                    rest: seq<Byte>, m: nat)
    returns (left: seq<Value>)
    requires (ty.ListOf? || ty.MapOf?) && n > 0 && Suits(solid, ty)
    requires Leaves(solid, Decode(RowType(ty, odd), s), one, rest, n - 1 + m)
    ensures Leaves(solid, DecodeRow(ty, odd, n, s), left, rest, m)
  {
    left := one;
    RowOutcome(ty, odd, n, s);
    if Decode(RowType(ty, odd), s).Parsed? { left := RowStops(solid, ty, !odd, n - 1, one, rest); }
  }

  lemma {:induction false} RowStopsShort(solid: bool, old': Type, new': Type, odd: bool, xs: seq<Data>, g: seq<Value>,
                                         rest: seq<Byte>)
    returns (left: seq<Value>)
    requires (old'.ListOf? || old'.MapOf?) && Older(old', new') && RowTyped(new', odd, xs)
    requires Suits(solid, old') && Row(solid, g) && !PassableRow(old', odd, xs) && (solid ==> AllSolid(ToValues(xs)))
    ensures Leaves(solid, DecodeRow(old', odd, |xs|, EncodeAll(ToValues(xs)) + (EncodeAll(g) + rest)),
                   left, rest, |g| + 1)
    decreases xs, 1
  {
    var o, n, t := RowType(old', odd), RowType(new', odd), EncodeAll(g) + rest;
    RowWellFormed(new', !odd, xs[1..]);
    if Passable(o, xs[0]) {
      left := RowStopsShort(solid, old', new', !odd, xs[1..], g, rest);
      FirstExact(o, n, xs, t);
      RowTransfer(solid, old', odd, |xs|, EncodeAll(ToValues(xs)) + t, Project(o, xs[0]),
                  EncodeAll(ToValues(xs[1..])) + t,
                  left, rest, |g| + 1);
    } else {
      var one := FirstShort(solid, o, n, xs, g, rest);
      left := ShortRow(solid, old', odd, |xs|, EncodeAll(ToValues(xs)) + t, one, rest, |g| + 1);
    }
  }

  /** The fields were read, and skipping `n` more values leaves at least `m`. */
  ghost predicate LeavesAfter(solid: bool, r: Parsed<seq<Data>>, n: nat, left: seq<Value>, rest: seq<Byte>, m: int) {
    r.Parsed? && SkipMany(r.rest, n).Some? ==>
      SkipMany(r.rest, n) == Some(EncodeAll(left) + rest) && Row(solid, left) && |left| >= m
  }

  /** No known field: the skip itself stops short. */
  lemma TailStopsShort(solid: bool, xs: seq<Data>, g: seq<Value>, rest: seq<Byte>) returns (left: seq<Value>)
    requires Row(solid, ToValues(xs)) && Row(solid, g) && !AllCountable(ToValues(xs))
    ensures LeavesAfter(solid, DecodeFields([], EncodeAll(ToValues(xs)) + (EncodeAll(g) + rest)),
                        |xs|, left, rest, |g| + 1)
  {
    var vs := ToValues(xs);
    RowJoin(solid, vs, g, rest);
    assert (vs + g)[..|vs|] == vs;
    left := SkipLeaves(solid, vs + g, |vs|, rest);
  }

  /** Fields and a skip pass at most one value each. */
  lemma {:induction false} OthersStop(solid: bool, olds: seq<Type>, one: seq<Value>, n: nat, rest: seq<Byte>, m: nat)
    returns (left: seq<Value>)
    requires AllSuit(solid, olds) && Row(solid, one) && |olds| + n + m <= |one|
    ensures LeavesAfter(solid, DecodeFields(olds, EncodeAll(one) + rest), n, left, rest, m)
    decreases olds, 1, 0
  {
    left := one;
    if DecodeFields(olds, EncodeAll(one) + rest).Parsed? {
      var two := FieldsStop(solid, olds, one, rest);
      left := SkipLeaves(solid, two, n, rest);
    }
  }

  /** What the fields behind the first leave is what all leave. */
  lemma FieldsTransfer(solid: bool, olds: seq<Type>, s: seq<Byte>, x: Data, u: seq<Byte>, n: nat, left: seq<Value>,
                       rest: seq<Byte>, m: int)
    requires olds != [] && Decode(olds[0], s) == Parsed(x, u)
    requires LeavesAfter(solid, DecodeFields(olds[1..], u), n, left, rest, m)
    ensures LeavesAfter(solid, DecodeFields(olds, s), n, left, rest, m)
  {
    FieldsOutcome(olds, s);
  }

  /** If the first field stops short, the others and the skip cannot make up for it. */
  lemma {:induction false} ShortTransfer(solid: bool, olds: seq<Type>, s: seq<Byte>, one: seq<Value>, n: nat,
                                         rest: seq<Byte>, m: nat)
    returns (left: seq<Value>)
    requires olds != [] && AllSuit(solid, olds[1..]) && Leaves(solid, Decode(olds[0], s), one, rest, |olds| - 1 + n + m)
    ensures LeavesAfter(solid, DecodeFields(olds, s), n, left, rest, m)
  {
    left := one;
    FieldsOutcome(olds, s);
    if Decode(olds[0], s).Parsed? { left := OthersStop(solid, olds[1..], one, n, rest, m); }
  }

  lemma FirstExact(o: Type, n: Type, xs: seq<Data>, t: seq<Byte>)
    requires xs != [] && Older(o, n) && HasType(n, xs[0]) && Passable(o, xs[0])
    ensures Decode(o, EncodeAll(ToValues(xs)) + t) == Parsed(Project(o, xs[0]), EncodeAll(ToValues(xs[1..])) + t)
  {
    ValuesCons(xs, t);
    Evolve(o, n, xs[0], EncodeAll(ToValues(xs[1..])) + t);
  }

  lemma {:induction false} FirstShort(solid: bool, o: Type, n: Type, xs: seq<Data>, g: seq<Value>, rest: seq<Byte>)
    returns (one: seq<Value>)
    requires xs != [] && Older(o, n) && HasType(n, xs[0]) && !Passable(o, xs[0]) && Suits(solid, o)
    requires Row(solid, g) && Row(solid, ToValues(xs[1..])) && (solid ==> Solid(ToValue(xs[0])))
    ensures Leaves(solid, Decode(o, EncodeAll(ToValues(xs)) + (EncodeAll(g) + rest)), one, rest, |xs| + |g|)
    decreases xs, 0
  {
    ElementsFront(solid, xs, g, rest);
    one := StopsShort(solid, o, n, xs[0], ToValues(xs[1..]) + g, rest);
  }

  /** The fields of a struct, and then the skip of those that are not known. */
  lemma {:induction false} FieldsStopShort(solid: bool, olds: seq<Type>, news: seq<Type>, xs: seq<Data>, n: nat,
                                           g: seq<Value>, rest: seq<Byte>)
    returns (left: seq<Value>)
    requires OlderFields(olds, news) && FieldsTyped(news, xs) && |olds| + n == |xs|
    requires AllSuit(solid, olds) && Row(solid, g) && !PassableFields(olds, xs) && (solid ==> AllSolid(ToValues(xs)))
    ensures LeavesAfter(solid, DecodeFields(olds, EncodeAll(ToValues(xs)) + (EncodeAll(g) + rest)),
                        n, left, rest, |g| + 1)
    decreases xs, 1
  {
    FieldsWellFormed(news, xs);
    if olds == [] {
      left := TailStopsShort(solid, xs, g, rest);
    } else {
      FieldsWellFormed(news[1..], xs[1..]);
      var t := EncodeAll(g) + rest;
      if Passable(olds[0], xs[0]) {
        left := FieldsStopShort(solid, olds[1..], news[1..], xs[1..], n, g, rest);
        FirstExact(olds[0], news[0], xs, t);
        FieldsTransfer(solid, olds, EncodeAll(ToValues(xs)) + t, Project(olds[0], xs[0]),
                       EncodeAll(ToValues(xs[1..])) + t,
                       n, left, rest, |g| + 1);
      } else {
        var one := FirstShort(solid, olds[0], news[0], xs, g, rest);
        left := ShortTransfer(solid, olds, EncodeAll(ToValues(xs)) + t, one, n, rest, |g| + 1);
      }
    }
  }

  lemma StructTransfer(solid: bool, fields: seq<Type>, s: seq<Byte>, n: nat, t: seq<Byte>, left: seq<Value>,
                       rest: seq<Byte>, m: int)
    requires ReadArrayLength(s) == Parsed(|fields| + n, t)
    requires LeavesAfter(solid, DecodeFields(fields, t), n, left, rest, m)
    ensures Leaves(solid, DecodeStruct(fields, s), left, rest, m)
  {
    StructOutcome(fields, s);
  }

  lemma {:induction false} StructStopsShort(solid: bool, olds: seq<Type>, news: seq<Type>, xs: seq<Data>,
                                            g: seq<Value>, rest: seq<Byte>)
    returns (left: seq<Value>)
    requires OlderFields(olds, news) && FieldsTyped(news, xs) && |xs| < U32
    requires AllSuit(solid, olds) && Row(solid, g) && !PassableFields(olds, xs) && (solid ==> AllSolid(ToValues(xs)))
    ensures Leaves(solid, DecodeStruct(olds, Encode(ArrayValue(ToValues(xs))) + (EncodeAll(g) + rest)),
                   left, rest, |g| + 1)
    decreases xs, 3
  {
    UnknownFields(olds, news, xs);
    var t, n := EncodeAll(g) + rest, |xs| - |olds|;
    left := FieldsStopShort(solid, olds, news, xs, n, g, rest);
    ArrayTransfer(solid, olds, ToValues(xs), n, t, left, rest, |g| + 1);
  }

  lemma ArrayTransfer(solid: bool, olds: seq<Type>, vs: seq<Value>, n: nat, t: seq<Byte>, left: seq<Value>,
                      rest: seq<Byte>, m: int)
    requires |vs| == |olds| + n < U32 && LeavesAfter(solid, DecodeFields(olds, EncodeAll(vs) + t), n, left, rest, m)
    ensures Leaves(solid, DecodeStruct(olds, Encode(ArrayValue(vs)) + t), left, rest, m)
  {
    ArrayRoundTrip(vs, t);
    StructOutcome(olds, Encode(ArrayValue(vs)) + t);
  }

  lemma {:induction false} VariantStopsShort(solid: bool, old': Type, new': Type, d: Data, g: seq<Value>,
                                             rest: seq<Byte>)
    returns (left: seq<Value>)
    requires old'.Enum? && Older(old', new') && HasType(new', d) && (d.One? || d.Many?)
    requires Suits(solid, old') && Row(solid, g) && !Passable(old', d) && (solid ==> Solid(ToValue(d)))
    ensures Leaves(solid, Decode(old', Emit(d) + (EncodeAll(g) + rest)), left, rest, |g| + 1)
    decreases d, 2
  {
    var t := EncodeAll(g) + rest;
    NoCatchAll(solid, old');
    if !Knows(old'.variants, d.idx) {
      left := UnknownStopsShort(solid, old', new', d, g, rest);
    } else {
      var o, n := old'.variants[d.idx], new'.variants[d.idx];
      assert solid || ClosedVariant(o);
      PairSolid(d);
      if d.One? {
        PairHeader(d.idx, ToValue(d.x), t);
        left := StopsShort(solid, o.field, n.field, d.x, g, rest);
      } else {
        PairHeader(d.idx, ArrayValue(ToValues(d.xs)), t);
        FieldsWellFormed(n.fields, d.xs);
        left := StructStopsShort(solid, o.fields, n.fields, d.xs, g, rest);
      }
    }
  }

  /** The parts of a variant hold no empty array if it does not. */
  lemma PairSolid(d: Data)
    requires d.One? || d.Many?
    ensures Solid(ToValue(d)) ==> Solid(PayloadValue(d))
  {
    SecondSolid(ToValue(d), IntValue(d.idx), PayloadValue(d));
  }

  lemma SecondSolid(v: Value, a: Value, b: Value)
    requires v.items == [a, b]
    ensures Solid(v) ==> Solid(b)
  {
    assert v.items[1..] == [b];
    if Solid(v) { assert AllSolid(v.items) && AllSolid(v.items[1..]) && [b][0] == b; }
  }

  function PayloadValue(d: Data): Value
    requires d.One? || d.Many?
  {
    if d.One? then ToValue(d.x) else ArrayValue(ToValues(d.xs))
  }

  /** The catch-all variant captures less than the payload. */
  lemma UnknownStopsShort(solid: bool, old': Type, new': Type, d: Data, g: seq<Value>, rest: seq<Byte>)
    returns (left: seq<Value>)
    requires old'.Enum? && Older(old', new') && HasType(new', d) && (d.One? || d.Many?) && !Knows(old'.variants, d.idx)
    requires Row(solid, g) && !Passable(old', d) && (solid ==> Solid(ToValue(d)))
    ensures Leaves(solid, Decode(old', Emit(d) + (EncodeAll(g) + rest)), left, rest, |g| + 1)
  {
    var v, t := PayloadValue(d), EncodeAll(g) + rest;
    PairHeader(d.idx, v, t);
    PairSolid(d);
    if d.One? {
      TypedWellFormed(new'.variants[d.idx].field, d.x);
    } else {
      FieldsWellFormed(new'.variants[d.idx].fields, d.xs);
      ArrayWellFormed(ToValues(d.xs));
    }
    left := CaptureStopsShort(solid, v, g, rest);
  }

  lemma CaptureStopsShort(solid: bool, v: Value, g: seq<Value>, rest: seq<Byte>) returns (left: seq<Value>)
    requires Row(solid, [v]) && Row(solid, g) && !Countable(v)
    ensures var r := SkipMany(Encode(v) + (EncodeAll(g) + rest), 1);
            r == Some(EncodeAll(left) + rest) && Row(solid, left) && |left| >= |g| + 1
  {
    RowFront([v] + g, rest);
    RowJoin(solid, [v], g, rest);
    assert ([v] + g)[..1] == [v] && ([v] + g)[1..] == g;
    left := SkipLeaves(solid, [v] + g, 1, rest);
  }

  /**
   The exact condition, at any nesting: an older schema reads newer data as its projection and
   leaves what follows exactly when nothing that it skips or captures holds an oversize map.
   A schema with catch-all variants does so for data without empty arrays.
   */
  lemma EvolveExactly(old': Type, new': Type, d: Data, rest: seq<Byte>)
    requires Older(old', new') && HasType(new', d) && (Closed(old') || Solid(ToValue(d)))
    ensures Decode(old', Emit(d) + rest) == Parsed(Project(old', d), rest) <==> Passable(old', d)
  {
    if Passable(old', d) {
      Evolve(old', new', d, rest);
    } else {
      var left := StopsShort(!Closed(old'), old', new', d, [], rest);
      assert EncodeAll([]) + rest == rest;
      RowIsShort(left, rest);
    }
  }

  /** With a catch-all variant a reader may pass two values of a row: an empty array, and the integer behind it. */
  lemma EmptyHeaderReadsOn(s: seq<Byte>)
    requires s == [0x90, 5]
    ensures s == EncodeAll([Value(0x90, [], []), Value(5, [], [])])
    ensures Decode(Enum([CatchAll]), s) == Parsed(Unknown(5, []), [])
  {
    assert s[1..] == [5] && s[1..][1..] == [];
    assert ReadEnumHeader(s) == Parsed(Header(5, 0), []);
    assert CatchAll in [CatchAll];
    var v, w := Value(0x90, [], []), Value(5, [], []);
    EncodeOne(w);
    assert [v, w][1..] == [w];
    assert Encode(v) == [0x90] && Encode(w) == [5];
  }
}
