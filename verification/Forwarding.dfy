/**
 Forwarding by an older schema: data read and written again is unchanged byte for byte,
 unknown enum variants included, exactly when no struct lost a field.
 */
module Forwarding {
  import opened Wrappers
  import opened Bytes
  import opened MsgPack
  import opened Schema
  import opened Evolution

  /** The older schema knows every field of every struct it reads. */
  ghost predicate Whole(old': Type, d: Data)
    decreases d, 1
  {
    match d
    case Elements(xs) => old'.ListOf? ==> WholeRow(old', false, xs)
    case Entries(xs) => old'.MapOf? ==> WholeRow(old', false, xs)
    case Present(x) => old'.OptionOf? ==> Whole(old'.some, x)
    case Fields(xs) => old'.Struct? ==> WholeFields(old'.fields, xs)
    case One(idx, x) =>
      old'.Enum? && Knows(old'.variants, idx) && old'.variants[idx].OneField? ==> Whole(old'.variants[idx].field, x)
    case Many(idx, xs) =>
      old'.Enum? && Knows(old'.variants, idx) && old'.variants[idx].ManyFields? ==>
        WholeFields(old'.variants[idx].fields, xs)
    case _ => true
  }

  ghost predicate WholeRow(old': Type, odd: bool, xs: seq<Data>)
    requires old'.ListOf? || old'.MapOf?
    decreases xs, 0
  {
    xs == [] || (Whole(RowType(old', odd), xs[0]) && WholeRow(old', !odd, xs[1..]))
  }

  ghost predicate WholeFields(fields: seq<Type>, xs: seq<Data>)
    decreases xs, 0
  {
    if fields == [] then xs == [] else xs != [] ==> Whole(fields[0], xs[0]) && WholeFields(fields[1..], xs[1..])
  }

  // ------------------------------------------------------- sizes of encodings

  lemma ArraySize(vs: seq<Value>)
    requires |vs| < U32
    ensures Encode(ArrayValue(vs)) == [ArrayValue(vs).head] + LengthBytes(ArrayValue(vs)) + EncodeAll(vs)
    ensures |Encode(ArrayValue(vs))| == 1 + Width(|vs|) + |EncodeAll(vs)|
  {
    ArrayWidth(vs);
  }

  lemma MapSize(vs: seq<Value>)
    requires |vs| / 2 < U32
    ensures Encode(MapValue(vs)) == [MapValue(vs).head] + LengthBytes(MapValue(vs)) + EncodeAll(vs)
    ensures |Encode(MapValue(vs))| == 1 + Width(|vs| / 2) + |EncodeAll(vs)|
  {
    MapWidth(vs);
  }

  /** `ws` is what is left of `vs`: the same bytes when it is whole, else fewer. */
  ghost predicate Shrunk(ws: seq<Byte>, vs: seq<Byte>, whole: bool) {
    if whole then ws == vs else |ws| < |vs|
  }

  lemma ArrayShrinks(ws: seq<Value>, vs: seq<Value>, whole: bool)
    requires |ws| <= |vs| < U32 && Shrunk(EncodeAll(ws), EncodeAll(vs), whole) && (whole ==> |ws| == |vs|)
    ensures Shrunk(Encode(ArrayValue(ws)), Encode(ArrayValue(vs)), whole)
  {
    ArraySize(ws);
    ArraySize(vs);
    if whole {
      ArrayWidth(ws);
      ArrayWidth(vs);
    }
  }

  lemma MapShrinks(ws: seq<Value>, vs: seq<Value>, whole: bool)
    requires |ws| == |vs| && |vs| / 2 < U32 && Shrunk(EncodeAll(ws), EncodeAll(vs), whole)
    ensures Shrunk(Encode(MapValue(ws)), Encode(MapValue(vs)), whole)
  {
    MapSize(ws);
    MapSize(vs);
    if whole {
      MapWidth(ws);
      MapWidth(vs);
    }
  }

  lemma PairShrinks(idx: Byte, w: Value, v: Value, whole: bool)
    requires Shrunk(Encode(w), Encode(v), whole)
    ensures Shrunk(Encode(ArrayValue([IntValue(idx), w])), Encode(ArrayValue([IntValue(idx), v])), whole)
  {
    PairHeader(idx, w, []);
    PairHeader(idx, v, []);
  }

  /** Putting an element in front of two rows. */
  lemma ConsShrinks(x: Data, y: Data, xs: seq<Data>, ys: seq<Data>, first: bool, others: bool)
    requires Shrunk(Emit(y), Emit(x), first) && Shrunk(EncodeAll(ToValues(ys)), EncodeAll(ToValues(xs)), others)
    ensures Shrunk(EncodeAll(ToValues([y] + ys)), EncodeAll(ToValues([x] + xs)), first && others)
  {
    EncodeFront(x, xs);
    EncodeFront(y, ys);
  }

  lemma EncodeFront(x: Data, xs: seq<Data>)
    ensures EncodeAll(ToValues([x] + xs)) == Emit(x) + EncodeAll(ToValues(xs))
  {
    var all := [x] + xs;
    assert all[1..] == xs;
    var vs := ToValues(all);
    assert vs[1..] == ToValues(xs);
  }

  /** The catch-all variant writes the bytes it captured where they stood. */
  lemma UnknownUnchanged(idx: Byte, v: Value)
    ensures Encode(UnknownValue(idx, Encode(v))) == Encode(ArrayValue([IntValue(idx), v]))
  {
    PairHeader(idx, v, []);
    var raw := Encode(v);
    assert raw != [];
    var u := Value(0x92, Encode(IntValue(idx)) + raw, []);
    assert Encode(u) == [0x92] + [] + (Encode(IntValue(idx)) + raw) + [];
  }

  // ------------------------------------------------------- forwarding

  /** Writing the projection gives the original bytes exactly when it is whole; otherwise fewer. */
  lemma {:induction false} Forward(old': Type, new': Type, d: Data)
    requires Older(old', new') && HasType(new', d)
    ensures Shrunk(Emit(Project(old', d)), Emit(d), Whole(old', d))
    decreases d, 2
  {
    match d
    case Elements(_) => ForwardSequence(old', new', d);
    case Entries(_) => ForwardSequence(old', new', d);
    case Present(_) => ForwardOption(old', new', d);
    case Fields(_) => ForwardStruct(old', new', d);
    case One(idx, _) =>
      if Knows(old'.variants, idx) { ForwardOne(old', new', d); } else { ForwardUnknown(old', d); }
    case Many(idx, _) =>
      if Knows(old'.variants, idx) { ForwardMany(old', new', d); } else { ForwardUnknown(old', d); }
    case _ =>
  }

  /** An unknown variant is handed on byte for byte. */
  lemma ForwardUnknown(old': Type, d: Data)
    requires old'.Enum? && (d.One? || d.Many?) && !Knows(old'.variants, d.idx)
    ensures Emit(Project(old', d)) == Emit(d) && Whole(old', d)
  {
    UnknownUnchanged(d.idx, if d.One? then ToValue(d.x) else ArrayValue(ToValues(d.xs)));
  }

  lemma {:induction false} ForwardSequence(old': Type, new': Type, d: Data)
    requires Older(old', new') && HasType(new', d) && (d.Elements? || d.Entries?)
    ensures Shrunk(Emit(Project(old', d)), Emit(d), Whole(old', d))
    decreases d, 1
  {
    var ws, vs := ToValues(ProjectRow(old', false, d.xs)), ToValues(d.xs);
    ForwardRow(old', new', false, d.xs);
    if d.Elements? { ArrayShrinks(ws, vs, Whole(old', d)); } else { MapShrinks(ws, vs, Whole(old', d)); }
  }

  lemma {:induction false} ForwardOption(old': Type, new': Type, d: Data)
    requires Older(old', new') && HasType(new', d) && d.Present?
    ensures Shrunk(Emit(Project(old', d)), Emit(d), Whole(old', d))
    decreases d, 1
  {
    var w, v := ToValue(Project(old'.some, d.x)), ToValue(d.x);
    Forward(old'.some, new'.some, d.x);
    EncodeOne(w);
    EncodeOne(v);
    ArrayShrinks([w], [v], Whole(old', d));
  }

  lemma {:induction false} ForwardStruct(old': Type, new': Type, d: Data)
    requires Older(old', new') && HasType(new', d) && d.Fields?
    ensures Shrunk(Emit(Project(old', d)), Emit(d), Whole(old', d))
    decreases d, 1
  {
    FieldsWellFormed(new'.fields, d.xs);
    ForwardFields(old'.fields, new'.fields, d.xs);
    ArrayShrinks(ToValues(ProjectFields(old'.fields, d.xs)), ToValues(d.xs), Whole(old', d));
  }

  lemma {:induction false} ForwardOne(old': Type, new': Type, d: Data)
    requires Older(old', new') && HasType(new', d) && d.One? && Knows(old'.variants, d.idx)
    ensures Shrunk(Emit(Project(old', d)), Emit(d), Whole(old', d))
    decreases d, 1
  {
    var field := old'.variants[d.idx].field;
    Forward(field, new'.variants[d.idx].field, d.x);
    PairShrinks(d.idx, ToValue(Project(field, d.x)), ToValue(d.x), Whole(old', d));
  }

  lemma {:induction false} ForwardMany(old': Type, new': Type, d: Data)
    requires Older(old', new') && HasType(new', d) && d.Many? && Knows(old'.variants, d.idx)
    ensures Shrunk(Emit(Project(old', d)), Emit(d), Whole(old', d))
    decreases d, 1
  {
    var fields := old'.variants[d.idx].fields;
    var ws, vs := ToValues(ProjectFields(fields, d.xs)), ToValues(d.xs);
    FieldsWellFormed(new'.variants[d.idx].fields, d.xs);
    ForwardFields(fields, new'.variants[d.idx].fields, d.xs);
    ArrayShrinks(ws, vs, Whole(old', d));
    PairShrinks(d.idx, ArrayValue(ws), ArrayValue(vs), Whole(old', d));
  }

  lemma {:induction false} ForwardRow(old': Type, new': Type, odd: bool, xs: seq<Data>)
    requires (old'.ListOf? || old'.MapOf?) && Older(old', new') && RowTyped(new', odd, xs)
    ensures var ys := ProjectRow(old', odd, xs);
            |ys| == |xs| && Shrunk(EncodeAll(ToValues(ys)), EncodeAll(ToValues(xs)), WholeRow(old', odd, xs))
    decreases xs, 0
  {
    if xs != [] {
      Forward(RowType(old', odd), RowType(new', odd), xs[0]);
      ForwardRow(old', new', !odd, xs[1..]);
      ConsShrinks(xs[0], Project(RowType(old', odd), xs[0]), xs[1..], ProjectRow(old', !odd, xs[1..]),
                  Whole(RowType(old', odd), xs[0]), WholeRow(old', !odd, xs[1..]));
      assert xs == [xs[0]] + xs[1..];
    }
  }

  lemma {:induction false} ForwardFields(olds: seq<Type>, news: seq<Type>, xs: seq<Data>)
    requires OlderFields(olds, news) && FieldsTyped(news, xs)
    ensures var ys := ProjectFields(olds, xs);
            && |ys| <= |xs| && (WholeFields(olds, xs) ==> |ys| == |xs|)
            && Shrunk(EncodeAll(ToValues(ys)), EncodeAll(ToValues(xs)), WholeFields(olds, xs))
    decreases xs, 0
  {
    if olds == [] {
      if xs != [] { EncodeFront(xs[0], xs[1..]); assert xs == [xs[0]] + xs[1..]; }
    } else {
      Forward(olds[0], news[0], xs[0]);
      ForwardFields(olds[1..], news[1..], xs[1..]);
      ConsShrinks(xs[0], Project(olds[0], xs[0]), xs[1..], ProjectFields(olds[1..], xs[1..]),
                  Whole(olds[0], xs[0]), WholeFields(olds[1..], xs[1..]));
      assert xs == [xs[0]] + xs[1..];
    }
  }

  /** The exact condition for forwarding byte for byte. */
  lemma ForwardedUnchanged(old': Type, new': Type, d: Data)
    requires Older(old', new') && HasType(new', d)
    ensures Emit(Project(old', d)) == Emit(d) <==> Whole(old', d)
  {
    Forward(old', new', d);
  }

  // ------------------------------------------------------- what the catch-all variant reproduces

  /** A discriminant in its shortest form. */
  predicate Shortest(s: seq<Byte>) {
    s != [] && (s[0] < 0x80 || (s[0] == 0xcc && |s| >= 2 && s[1] >= 0x80))
  }

  /** The headers that a schema here writes: the bare discriminant, or two values behind one byte. */
  predicate Canonical(s: seq<Byte>) {
    Shortest(s) || (s != [] && s[0] == 0x92 && Shortest(s[1..]))
  }

  /** A shortest discriminant is what is written for it; another form is not. */
  lemma DiscriminantBytes(s: seq<Byte>, idx: Byte, t: seq<Byte>)
    requires ReadInt(s) == Parsed(idx as int, t)
    ensures |t| < |s| && (Shortest(s) ==> Encode(IntValue(idx)) == Consumed(s, t))
    ensures !Shortest(s) ==> Encode(IntValue(idx))[0] != s[0]
  {
    IntBytes(idx);
    if s[0] == 0xcc { assert Lead(s[1..], 1) == s[1] by { assert Lead(s[1..], 0) == 0; } }
  }

  lemma IntBytes(idx: Byte)
    ensures Encode(IntValue(idx)) == if idx < 0x80 then [idx] else [0xcc, idx]
  {
    var v := IntValue(idx);
    if idx >= 0x80 { assert BigEndian(idx, 1) == [idx] by { assert BigEndian(idx / 256, 0) == []; } }
    assert Encode(v) == [v.head] + [] + v.payload + [];
  }

  lemma {:induction false} SkipSome(s: seq<Byte>, n: nat)
    requires n > 0 && SkipMany(s, n).Some?
    ensures |SkipMany(s, n).value| < |s|
  {
  }

  lemma UnknownBytes(idx: Byte, raw: seq<Byte>)
    ensures Emit(Unknown(idx, raw)) == if raw == [] then Encode(IntValue(idx)) else [0x92] + Encode(IntValue(idx)) + raw
  {
    if raw != [] {
      var p := Encode(IntValue(idx)) + raw;
      assert Encode(Value(0x92, p, [])) == [0x92] + [] + p + [];
    }
  }

  lemma ConsumedTwice(s: seq<Byte>, j: nat, rest: seq<Byte>)
    requires j <= |s| && |rest| <= |s| - j
    ensures Consumed(s, rest) == s[..j] + Consumed(s[j..], rest)
  {
  }

  /** The bare discriminant. */
  lemma BareUnchanged(s: seq<Byte>, h: Header, t: seq<Byte>)
    requires s != [] && (s[0] < 0x80 || s[0] == 0xcc) && ReadEnumHeader(s) == Parsed(h, t)
    ensures Capture(h, t) == Parsed(Unknown(h.idx, []), t) && |t| <= |s|
    ensures Emit(Unknown(h.idx, [])) == Consumed(s, t) <==> Shortest(s)
  {
    UnknownBytes(h.idx, []);
    IntBytes(h.idx);
    assert Consumed(t, t) == [];
    assert Consumed(s, t) == if s[0] < 0x80 then [s[0]] else [s[0], s[1]];
  }

  /** The parts of an array header. */
  lemma Unwrap(s: seq<Byte>, h: Header, t: seq<Byte>)
    requires s != [] && s[0] >= 0x80 && s[0] != 0xcc && ReadEnumHeader(s) == Parsed(h, t)
    ensures |t| + 2 <= |s| && t == s[|s| - |t|..]
    ensures s[0] == 0x92 ==> h.len == 2 && ReadInt(s[1..]) == Parsed(h.idx as int, t)
  {
    var u := ReadArrayLength(s).rest;
    ArraySuffix(s);
    IntSuffix(u);
    SuffixOfSuffix(s, u, t);
  }

  lemma ArraySuffix(s: seq<Byte>)
    requires ReadArrayLength(s).Parsed?
    ensures var u := ReadArrayLength(s).rest; |u| < |s| && u == s[|s| - |u|..]
  {
  }

  lemma IntSuffix(s: seq<Byte>)
    requires ReadInt(s).Parsed?
    ensures var u := ReadInt(s).rest; |u| < |s| && u == s[|s| - |u|..]
  {
  }

  lemma SuffixOfSuffix(s: seq<Byte>, u: seq<Byte>, t: seq<Byte>)
    requires |t| <= |u| <= |s| && u == s[|s| - |u|..] && t == u[|u| - |t|..]
    ensures t == s[|s| - |t|..]
  {
  }

  lemma WrittenHead(idx: Byte, raw: seq<Byte>)
    ensures var e := Emit(Unknown(idx, raw)); e != [] && (e[0] == 0x92 || e[0] < 0x80 || e[0] == 0xcc)
  {
    UnknownBytes(idx, raw);
    IntBytes(idx);
  }

  /** An array in front of the discriminant. */
  lemma WrappedUnchanged(s: seq<Byte>, h: Header, t: seq<Byte>, d: Data, rest: seq<Byte>)
    requires s != [] && s[0] >= 0x80 && s[0] != 0xcc
    requires ReadEnumHeader(s) == Parsed(h, t) && Capture(h, t) == Parsed(d, rest)
    ensures |rest| <= |s| && (Emit(d) == Consumed(s, rest) <==> s[0] == 0x92 && Shortest(s[1..]))
  {
    Unwrap(s, h, t);
    if s[0] == 0x92 {
      SkipSome(t, 1);
      PairUnchanged(s, h.idx, t, rest);
    } else {
      WrittenHead(h.idx, Consumed(t, rest));
      assert Consumed(s, rest)[0] == s[0];
    }
  }

  lemma PairUnchanged(s: seq<Byte>, idx: Byte, t: seq<Byte>, rest: seq<Byte>)
    requires s != [] && s[0] == 0x92 && ReadInt(s[1..]) == Parsed(idx as int, t) && |rest| < |t| < |s|
    requires t == s[|s| - |t|..]
    ensures Emit(Unknown(idx, Consumed(t, rest))) == Consumed(s, rest) <==> Shortest(s[1..])
  {
    var u, raw, e := s[1..], Consumed(t, rest), Encode(IntValue(idx));
    UnknownBytes(idx, raw);
    DiscriminantBytes(u, idx, t);
    IntBytes(idx);
    ConsumedTwice(s, |s| - |t|, rest);
    FrontAndBytes(s, u, t);
    if Shortest(u) {
      assert Consumed(s, rest) == [0x92] + e + raw;
    } else {
      SecondByte(e, raw);
      assert Consumed(s, rest)[1] == u[0];
    }
  }

  lemma FrontAndBytes(s: seq<Byte>, u: seq<Byte>, t: seq<Byte>)
    requires s != [] && s[0] == 0x92 && u == s[1..] && |t| <= |u|
    ensures s[..|s| - |t|] == [0x92] + Consumed(u, t)
  {
  }

  lemma SecondByte(e: seq<Byte>, raw: seq<Byte>)
    requires e != []
    ensures ([0x92] + e + raw)[1] == e[0]
  {
  }

  /**
   The exact condition for reproducing a variant that is not known, over all inputs: the header is one that
   the schemas here write.
   */
  lemma CapturedUnchanged(s: seq<Byte>, h: Header, t: seq<Byte>, d: Data, rest: seq<Byte>)
    requires ReadEnumHeader(s) == Parsed(h, t) && Capture(h, t) == Parsed(d, rest)
    ensures |rest| <= |s| && (Emit(d) == Consumed(s, rest) <==> Canonical(s))
  {
    if s[0] < 0x80 || s[0] == 0xcc { BareUnchanged(s, h, t); } else { WrappedUnchanged(s, h, t, d, rest); }
  }

  /** An input that is not reproduced: the discriminant alone, in an array. */
  lemma ArrayOfOneChanges(s: seq<Byte>)
    requires s == [0x91, 5]
    ensures Decode(Enum([CatchAll]), s) == Parsed(Unknown(5, []), []) && Emit(Unknown(5, [])) == [5]
  {
    assert s[1..] == [5] && s[1..][1..] == [];
    assert ReadEnumHeader(s) == Parsed(Header(5, 1), []);
    assert CatchAll in [CatchAll];
    UnknownBytes(5, []);
    IntBytes(5);
  }

  // ------------------------------------------------------- round trips

  lemma {:induction false} OlderReflexive(ty: Type)
    ensures Older(ty, ty)
    decreases ty, 1
  {
    match ty
    case ListOf(elem) => OlderReflexive(elem);
    case MapOf(key, val) =>
      OlderReflexive(key);
      OlderReflexive(val);
    case OptionOf(some) => OlderReflexive(some);
    case Struct(fields) => OlderFieldsReflexive(fields);
    case Enum(variants) =>
      forall i | 0 <= i < |variants| && !variants[i].CatchAll?
        ensures variants[i].OneField? ==> Older(variants[i].field, variants[i].field)
        ensures variants[i].ManyFields? ==> OlderFields(variants[i].fields, variants[i].fields)
      {
        if variants[i].OneField? { OlderReflexive(variants[i].field); }
        if variants[i].ManyFields? { OlderFieldsReflexive(variants[i].fields); }
      }
    case _ =>
  }

  lemma {:induction false} OlderFieldsReflexive(fields: seq<Type>)
    ensures OlderFields(fields, fields)
    decreases fields, 0
  {
    if fields != [] {
      OlderReflexive(fields[0]);
      OlderFieldsReflexive(fields[1..]);
    }
  }

  /** To its own schema, data is neither projected nor skipped. */
  lemma {:induction false} OwnSchema(ty: Type, d: Data)
    requires HasType(ty, d)
    ensures Project(ty, d) == d && Passable(ty, d)
    decreases d, 1
  {
    match d
    case Elements(xs) => OwnRow(ty, false, xs);
    case Entries(xs) => OwnRow(ty, false, xs);
    case Present(x) => OwnSchema(ty.some, x);
    case Fields(xs) => OwnFields(ty.fields, xs);
    case One(idx, x) => OwnSchema(ty.variants[idx].field, x);
    case Many(idx, xs) => OwnFields(ty.variants[idx].fields, xs);
    case _ =>
  }

  lemma {:induction false} OwnRow(ty: Type, odd: bool, xs: seq<Data>)
    requires (ty.ListOf? || ty.MapOf?) && RowTyped(ty, odd, xs)
    ensures ProjectRow(ty, odd, xs) == xs && PassableRow(ty, odd, xs)
    decreases xs, 0
  {
    if xs != [] {
      OwnSchema(RowType(ty, odd), xs[0]);
      OwnRow(ty, !odd, xs[1..]);
    }
  }

  lemma {:induction false} OwnFields(fields: seq<Type>, xs: seq<Data>)
    requires FieldsTyped(fields, xs)
    ensures ProjectFields(fields, xs) == xs && PassableFields(fields, xs)
    decreases xs, 0
  {
    if xs != [] {
      OwnSchema(fields[0], xs[0]);
      OwnFields(fields[1..], xs[1..]);
    }
  }

  /** What is written is read back, and nothing more is consumed. */
  lemma RoundTrip(ty: Type, d: Data, rest: seq<Byte>)
    requires HasType(ty, d)
    ensures Decode(ty, Emit(d) + rest) == Parsed(d, rest)
  {
    OlderReflexive(ty);
    OwnSchema(ty, d);
    Evolve(ty, ty, d, rest);
  }

  /** A node on an older schema relays whole data so that a newer reader gets all of it. */
  lemma Relay(old': Type, new': Type, d: Data, rest: seq<Byte>)
    requires Older(old', new') && HasType(new', d) && Passable(old', d) && Whole(old', d)
    ensures Decode(old', Emit(d) + rest) == Parsed(Project(old', d), rest)
    ensures Decode(new', Emit(Project(old', d)) + rest) == Parsed(d, rest)
  {
    Evolve(old', new', d, rest);
    ForwardedUnchanged(old', new', d);
    RoundTrip(new', d, rest);
  }
}
