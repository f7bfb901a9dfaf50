/**
 The positional codec of tox-proto and its derive macros: how typed data is written, how
 an older schema reads what a newer one wrote, and how it forwards enum variants that it
 does not know.
 */
module Schema {
  import opened Wrappers
  import opened Bytes
  import opened MsgPack

  const U32: nat := 0x1_0000_0000
  const U64: nat := 0x1_0000_0000_0000_0000
  const I64_MIN: int := -0x8000_0000_0000_0000

  // ------------------------------------------------------- types and data

  /**
   Struct fields and enum variants are positional; a variant's index is its discriminant.
   `Binary` is every `Vec` and array of a one-byte type (`u8`, `i8`, `bool`), as its bytes;
   `ListOf` is a `Vec` or array of a wider type, or a `VecDeque` or `SmallVec` of any type.
   `MapOf` is an ordered map: a `HashMap` is read alike but written back in its own iteration order.
   */
  datatype Type =
    | Int(lo: int, hi: int)
    | Bool
    | Binary
    | ListOf(elem: Type)
    | MapOf(key: Type, val: Type)
    | OptionOf(some: Type)
    | Struct(fields: seq<Type>)
    | Enum(variants: seq<Variant>)

  datatype Variant = UnitVariant | OneField(field: Type) | ManyFields(fields: seq<Type>) | CatchAll

  /** `Entries` lists keys and values alternately; `Unknown` is what the catch-all variant holds. */
  datatype Data =
    | Num(n: int)
    | Flag(b: bool)
    | Blob(bytes: seq<Byte>)
    | Elements(xs: seq<Data>)
    | Entries(xs: seq<Data>)
    | Absent
    | Present(x: Data)
    | Fields(xs: seq<Data>)
    | Unit(idx: Byte)
    | One(idx: Byte, x: Data)
    | Many(idx: Byte, xs: seq<Data>)
    | Unknown(idx: Byte, raw: seq<Byte>)

  /** The type at the next position of a list, or of a map's alternating keys and values. */
  function RowType(ty: Type, odd: bool): Type
    requires ty.ListOf? || ty.MapOf?
  {
    if ty.ListOf? then ty.elem else if odd then ty.val else ty.key
  }

  ghost predicate HasType(ty: Type, d: Data)
    decreases d, 1
  {
    match ty
    case Int(lo, hi) => d.Num? && lo <= d.n <= hi && I64_MIN <= d.n < U64
    case Bool => d.Flag?
    case Binary => d.Blob? && |d.bytes| < U32
    case ListOf(_) => d.Elements? && |d.xs| < U32 && RowTyped(ty, false, d.xs)
    case MapOf(_, _) => d.Entries? && |d.xs| % 2 == 0 && |d.xs| / 2 < U32 && RowTyped(ty, false, d.xs)
    case OptionOf(some) => d.Absent? || (d.Present? && HasType(some, d.x))
    case Struct(fields) => d.Fields? && |fields| < U32 && FieldsTyped(fields, d.xs)
    case Enum(variants) =>
      && (d.Unit? || d.One? || d.Many?) && d.idx < |variants|
      && match variants[d.idx]
         case UnitVariant => d.Unit?
         case OneField(field) => d.One? && HasType(field, d.x)
         case ManyFields(fields) => d.Many? && |fields| < U32 && FieldsTyped(fields, d.xs)
         case CatchAll => false
  }

  ghost predicate RowTyped(ty: Type, odd: bool, xs: seq<Data>)
    requires ty.ListOf? || ty.MapOf?
    decreases xs, 0
  {
    xs == [] || (HasType(RowType(ty, odd), xs[0]) && RowTyped(ty, !odd, xs[1..]))
  }

  ghost predicate FieldsTyped(fields: seq<Type>, xs: seq<Data>)
    decreases xs, 0
  {
    if fields == [] || xs == [] then fields == [] && xs == []
    else HasType(fields[0], xs[0]) && FieldsTyped(fields[1..], xs[1..])
  }

  // ------------------------------------------------------- writing

  function IntValue(n: int): Value {
    if 0 <= n < 0x80 then Value(n, [], [])
    else if 0 <= n < 0x100 then Value(0xcc, BigEndian(n, 1), [])
    else if 0 <= n < 0x1_0000 then Value(0xcd, BigEndian(n, 2), [])
    else if 0 <= n < U32 then Value(0xce, BigEndian(n, 4), [])
    else if 0 <= n then Value(0xcf, BigEndian(n, 8), [])
    else if -0x20 <= n then Value(0x100 + n, [], [])
    else if -0x80 <= n then Value(0xd0, BigEndian(n + 0x100, 1), [])
    else if -0x8000 <= n then Value(0xd1, BigEndian(n + 0x1_0000, 2), [])
    else if -0x8000_0000 <= n then Value(0xd2, BigEndian(n + U32, 4), [])
    else Value(0xd3, BigEndian(if n + U64 >= 0 then n + U64 else 0, 8), [])
  }

  function BinaryValue(bytes: seq<Byte>): Value {
    Value(if |bytes| < 0x100 then 0xc4 else if |bytes| < 0x1_0000 then 0xc5 else 0xc6, bytes, [])
  }

  function ArrayValue(items: seq<Value>): Value {
    var n := |items|;
    Value(if n < 16 then 0x90 + n else if n < 0x1_0000 then 0xdc else 0xdd, [], items)
  }

  function MapValue(items: seq<Value>): Value {
    var n := |items| / 2;
    Value(if n < 16 then 0x80 + n else if n < 0x1_0000 then 0xde else 0xdf, [], items)
  }

  /** A catch-all variant writes its stored bytes behind a header for two values, or the bare discriminant. */
  function UnknownValue(idx: Byte, raw: seq<Byte>): Value {
    if raw == [] then IntValue(idx) else Value(0x92, Encode(IntValue(idx)) + raw, [])
  }

  function ToValue(d: Data): Value {
    match d
    case Num(n) => IntValue(n)
    case Flag(b) => Value(if b then 0xc3 else 0xc2, [], [])
    case Blob(bytes) => BinaryValue(bytes)
    case Elements(xs) => ArrayValue(ToValues(xs))
    case Entries(xs) => MapValue(ToValues(xs))
    case Absent => ArrayValue([])
    case Present(x) => ArrayValue([ToValue(x)])
    case Fields(xs) => ArrayValue(ToValues(xs))
    case Unit(idx) => IntValue(idx)
    case One(idx, x) => ArrayValue([IntValue(idx), ToValue(x)])
    case Many(idx, xs) => ArrayValue([IntValue(idx), ArrayValue(ToValues(xs))])
    case Unknown(idx, raw) => UnknownValue(idx, raw)
  }

  function ToValues(xs: seq<Data>): (vs: seq<Value>)
    ensures |vs| == |xs|
  {
    if xs == [] then [] else [ToValue(xs[0])] + ToValues(xs[1..])
  }

  /** `serialize` */
  function Emit(d: Data): seq<Byte> { Encode(ToValue(d)) }

  // ------------------------------------------------------- reading

  datatype Parsed<T> = Parsed(value: T, rest: seq<Byte>) | Failed

  /** `read_int`, before the conversion to the target type. */
  function ReadInt(s: seq<Byte>): (r: Parsed<int>)
    ensures r.Parsed? ==> |r.rest| < |s|
  {
    if s == [] then Failed
    else
      var head, t := s[0], s[1..];
      if head < 0x80 then Parsed(head, t)
      else if head >= 0xe0 then Parsed(head as int - 0x100, t)
      else if head == 0xcc && |t| >= 1 then Parsed(Lead(t, 1), t[1..])
      else if head == 0xcd && |t| >= 2 then Parsed(Lead(t, 2), t[2..])
      else if head == 0xce && |t| >= 4 then Parsed(Lead(t, 4), t[4..])
      else if head == 0xcf && |t| >= 8 then Parsed(Lead(t, 8), t[8..])
      else if head == 0xd0 && |t| >= 1 then Parsed(Signed(Lead(t, 1), 0x100), t[1..])
      else if head == 0xd1 && |t| >= 2 then Parsed(Signed(Lead(t, 2), 0x1_0000), t[2..])
      else if head == 0xd2 && |t| >= 4 then Parsed(Signed(Lead(t, 4), U32), t[4..])
      else if head == 0xd3 && |t| >= 8 then Parsed(Signed(Lead(t, 8), U64), t[8..])
      else Failed
  }

  function Signed(n: nat, width: nat): int { if 2 * n >= width then n - width else n }

  /** `read_array_len`, `read_map_len` and `read_bin_len`: a short form below `short`, else 16 or 32 bits. */
  function ReadArrayLength(s: seq<Byte>): Parsed<nat> {
    if s == [] then Failed
    else if 0x90 <= s[0] < 0xa0 then Parsed(s[0] - 0x90, s[1..])
    else if s[0] == 0xdc then ReadLength(s[1..], 2)
    else if s[0] == 0xdd then ReadLength(s[1..], 4)
    else Failed
  }

  function ReadMapLength(s: seq<Byte>): Parsed<nat> {
    if s == [] then Failed
    else if 0x80 <= s[0] < 0x90 then Parsed(s[0] - 0x80, s[1..])
    else if s[0] == 0xde then ReadLength(s[1..], 2)
    else if s[0] == 0xdf then ReadLength(s[1..], 4)
    else Failed
  }

  function ReadBinaryLength(s: seq<Byte>): Parsed<nat> {
    if s == [] then Failed
    else if s[0] == 0xc4 then ReadLength(s[1..], 1)
    else if s[0] == 0xc5 then ReadLength(s[1..], 2)
    else if s[0] == 0xc6 then ReadLength(s[1..], 4)
    else Failed
  }

  function ReadLength(t: seq<Byte>, k: nat): Parsed<nat> {
    if |t| < k then Failed else Parsed(Lead(t, k), t[k..])
  }

  datatype Header = Header(idx: Byte, len: nat)

  /** `read_enum_header` */
  function ReadEnumHeader(s: seq<Byte>): Parsed<Header> {
    if s == [] then Failed
    else if s[0] < 0x80 then Parsed(Header(s[0], 1), s[1..])
    else if s[0] == 0xcc then
      if |s| < 2 then Failed else Parsed(Header(s[1], 1), s[2..])
    else
      match ReadArrayLength(s)
      case Failed => Failed
      case Parsed(len, t) =>
        match ReadInt(t)
        case Failed => Failed
        case Parsed(idx, u) => if 0 <= idx < 256 then Parsed(Header(idx, len), u) else Failed
  }

  predicate Knows(variants: seq<Variant>, idx: nat) { idx < |variants| && !variants[idx].CatchAll? }

  predicate CatchesAll(variants: seq<Variant>) { CatchAll in variants }

  /** `deserialize`, by type. */
  function Decode(ty: Type, s: seq<Byte>): Parsed<Data>
    decreases ty, 1, 0
  {
    match ty
    case Int(lo, hi) =>
      (match ReadInt(s)
       case Failed => Failed
       case Parsed(n, t) => if lo <= n <= hi then Parsed(Num(n), t) else Failed)
    case Bool =>
      if s != [] && s[0] == 0xc3 then Parsed(Flag(true), s[1..])
      else if s != [] && s[0] == 0xc2 then Parsed(Flag(false), s[1..])
      else Failed
    case Binary =>
      (match ReadBinaryLength(s)
       case Failed => Failed
       case Parsed(n, t) => if n <= |t| then Parsed(Blob(t[..n]), t[n..]) else Failed)
    case ListOf(_) =>
      (match ReadArrayLength(s)
       case Failed => Failed
       case Parsed(n, t) =>
         match DecodeRow(ty, false, n, t)
         case Failed => Failed
         case Parsed(xs, u) => Parsed(Elements(xs), u))
    case MapOf(_, _) =>
      (match ReadMapLength(s)
       case Failed => Failed
       case Parsed(n, t) =>
         match DecodeRow(ty, false, 2 * n, t)
         case Failed => Failed
         case Parsed(xs, u) => Parsed(Entries(xs), u))
    case OptionOf(some) =>
      (match ReadArrayLength(s)
       case Failed => Failed
       case Parsed(n, t) =>
         if n == 0 then Parsed(Absent, t)
         else if n == 1 then
           match Decode(some, t)
           case Failed => Failed
           case Parsed(x, u) => Parsed(Present(x), u)
         else SkipRest(Absent, t, n))
    case Struct(fields) => DecodeStruct(fields, s)
    case Enum(variants) =>
      match ReadEnumHeader(s)
      case Failed => Failed
      case Parsed(h, t) =>
        if !Knows(variants, h.idx) then (if CatchesAll(variants) then Capture(h, t) else Failed)
        else
          match variants[h.idx]
          case UnitVariant => if h.len == 1 then Parsed(Unit(h.idx), t) else Failed
          case OneField(field) =>
            if h.len != 2 then Failed
            else (match Decode(field, t)
                  case Failed => Failed
                  case Parsed(x, u) => Parsed(One(h.idx, x), u))
          case ManyFields(fields) =>
            if h.len != 2 then Failed
            else (match DecodeStruct(fields, t)
                  case Failed => Failed
                  case Parsed(d, u) => Parsed(Many(h.idx, if d.Fields? then d.xs else []), u))
  }

  /** The extra values that a reader passes over. */
  function SkipRest(d: Data, t: seq<Byte>, n: nat): Parsed<Data> {
    match SkipMany(t, n)
    case None => Failed
    case Some(u) => Parsed(d, u)
  }

  /** The catch-all arm: the values after the discriminant, as bytes. */
  function Capture(h: Header, t: seq<Byte>): Parsed<Data> {
    match SkipMany(t, if h.len == 0 then 0 else h.len - 1)
    case None => Failed
    case Some(u) => Parsed(Unknown(h.idx, Consumed(t, u)), u)
  }

  function DecodeRow(ty: Type, odd: bool, n: nat, s: seq<Byte>): Parsed<seq<Data>>
    requires ty.ListOf? || ty.MapOf?
    decreases ty, 0, n
  {
    if n == 0 then Parsed([], s)
    else
      match Decode(RowType(ty, odd), s)
      case Failed => Failed
      case Parsed(x, t) =>
        match DecodeRow(ty, !odd, n - 1, t)
        case Failed => Failed
        case Parsed(xs, u) => Parsed([x] + xs, u)
  }

  /** Reads the fields it knows, and skips the rest of the array. */
  function DecodeStruct(fields: seq<Type>, s: seq<Byte>): Parsed<Data>
    decreases fields, 1, 0
  {
    match ReadArrayLength(s)
    case Failed => Failed
    case Parsed(n, t) =>
      if n < |fields| then Failed
      else
        match DecodeFields(fields, t)
        case Failed => Failed
        case Parsed(xs, u) => SkipRest(Fields(xs), u, n - |fields|)
  }

  function DecodeFields(fields: seq<Type>, s: seq<Byte>): Parsed<seq<Data>>
    decreases fields, 0, 0
  {
    if fields == [] then Parsed([], s)
    else
      match Decode(fields[0], s)
      case Failed => Failed
      case Parsed(x, t) =>
        match DecodeFields(fields[1..], t)
        case Failed => Failed
        case Parsed(xs, u) => Parsed([x] + xs, u)
  }

  // ------------------------------------------------------- schema evolution

  /** A schema and a later version of it: structs gain fields at the end, enums gain variants. */
  ghost predicate Older(old': Type, new': Type)
    decreases old', 1
  {
    match old'
    case Int(_, _) => old' == new'
    case Bool => new'.Bool?
    case Binary => new'.Binary?
    case ListOf(elem) => new'.ListOf? && Older(elem, new'.elem)
    case MapOf(key, val) => new'.MapOf? && Older(key, new'.key) && Older(val, new'.val)
    case OptionOf(some) => new'.OptionOf? && Older(some, new'.some)
    case Struct(fields) => new'.Struct? && OlderFields(fields, new'.fields)
    case Enum(variants) =>
      && new'.Enum?
      && forall i | 0 <= i < |new'.variants| && !new'.variants[i].CatchAll? ::
           if Knows(variants, i) then
             match variants[i]
             case UnitVariant => new'.variants[i].UnitVariant?
             case OneField(field) => new'.variants[i].OneField? && Older(field, new'.variants[i].field)
             case ManyFields(fields) => new'.variants[i].ManyFields? && OlderFields(fields, new'.variants[i].fields)
           else CatchesAll(variants)
  }

  ghost predicate OlderFields(old': seq<Type>, new': seq<Type>)
    decreases old', 0
  {
    old' == [] || (new' != [] && Older(old'[0], new'[0]) && OlderFields(old'[1..], new'[1..]))
  }
}
