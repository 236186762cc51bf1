/** Tile_Value and Tile_Feature of mbtiles/src/vector_tile.pb.cc as mutable objects: presence bits next to plain
    fields, parse loops over a pointer, and the two-pass encoder with its cached sizes. */
module TileObjects {
  import opened Options
  import opened TileWire
  import opened TileMessages

  /** How `_InternalParse` comes back: a pointer at the end, a pointer behind a stop tag, or null. */
  datatype ParseEnd = AtLimit | AtStopTag | Null

  /** What the result of a parse says about the message afterwards, which a failure leaves half filled. */
  predicate Agrees<M(==)>(spec: Outcome<M>, end: ParseEnd, m: M) {
    match spec
    case Done(x) => end == AtLimit && m == x
    case Stopped(x) => end == AtStopTag && m == x
    case Failed => end == Null
  }

  /** `UnknownFieldParse`: the record's bytes in their shortest form, and how many bytes it took. */
  function ReadUnknown(tag: nat, s: Bytes): Option<(Bytes, nat)> {
    if tag / 8 == 0 then None
    else
      match ReadPayload(tag, s)
      case Next(r, n) => Some((Encode(r), n))
      case _ => None
  }

  predicate EndsMessage(tag: nat) {
    tag == 0 || tag % 8 == 4
  }

  /** The record behind a tag, applied: the new message and the bytes taken, None if it is malformed. */
  function Step<M>(apply: (M, Rec) -> Option<M>, m: M, tag: nat, s: Bytes): Option<(M, nat)> {
    if tag / 8 == 0 then None
    else
      match ReadPayload(tag, s)
      case Next(r, k) => (match apply(m, r) case None => None case Some(x) => Some((x, k)))
      case _ => None
  }

  /** Parsing when the next tag has been read. */
  lemma AfterTag<M>(apply: (M, Rec) -> Option<M>, m: M, s: Bytes, tag: nat, n: nat)
    requires ReadTag(s) == Read(tag, n)
    ensures Parse(apply, m, s) ==
            if EndsMessage(tag) then Stopped(m)
            else match Step(apply, m, tag, s[n..])
                 case None => Failed
                 case Some(p) => if p.1 <= |s| - n then Parse(apply, p.0, s[n + p.1..]) else Failed
    ensures var p := Step(apply, m, tag, s[n..]); p.Some? ==> p.value.1 <= |s| - n
  {
    hide ReadPayload, Parse, ReadTag;
    ParseStep(apply, m, s);
    if tag / 8 != 0 && ReadPayload(tag, s[n..]).Next? {
      var k := ReadPayload(tag, s[n..]).n;
      assert s[n..][k..] == s[n + k..];
    }
  }

  lemma NoTag<M>(apply: (M, Rec) -> Option<M>, m: M, s: Bytes)
    ensures s != [] && ReadTag(s) == Short ==> Parse(apply, m, s) == Failed
    ensures s == [] ==> Parse(apply, m, s) == Done(m)
  {
    ParseStep(apply, m, s);
  }

  // ---------------------------------------------------------------- what each known field does to a value

  lemma TextStep(m: Value, s: Bytes)
    ensures Step(ApplyValue, m, 10, s) ==
            match ReadLength(s) case Short => None case Read(v, n) => Some((m.(text := Some(s[n..n + v])), n + v))
  {
    hide ReadLength;
  }

  lemma Float32Step(m: Value, s: Bytes)
    ensures Step(ApplyValue, m, 21, s) == if |s| < 4 then None else Some((m.(float32 := Some(ReadFixed32(s[..4]))), 4))
  {
    hide ReadFixed32;
  }

  lemma Float64Step(m: Value, s: Bytes)
    ensures Step(ApplyValue, m, 25, s) == if |s| < 8 then None else Some((m.(float64 := Some(ReadFixed64(s[..8]))), 8))
  {
    hide ReadFixed64;
  }

  lemma IntSteps(m: Value, s: Bytes)
    ensures Step(ApplyValue, m, 32, s) ==
            match ReadVarint64(s) case Short => None case Read(v, n) => Some((m.(int64 := Some(ToInt64(v))), n))
    ensures Step(ApplyValue, m, 40, s) ==
            match ReadVarint64(s) case Short => None case Read(v, n) => Some((m.(uint64 := Some(v)), n))
    ensures Step(ApplyValue, m, 48, s) ==
            match ReadVarint64(s) case Short => None case Read(v, n) => Some((m.(sint64 := Some(UnZigZag(v))), n))
    ensures Step(ApplyValue, m, 56, s) ==
            match ReadVarint64(s) case Short => None case Read(v, n) => Some((m.(flag := Some(v != 0)), n))
  {
    hide ReadVarint64, ToInt64, UnZigZag;
  }

  lemma UnknownValueStep(m: Value, tag: nat, s: Bytes)
    requires tag !in {10, 21, 25, 32, 40, 48, 56}
    ensures Step(ApplyValue, m, tag, s) ==
            match ReadUnknown(tag, s) case None => None case Some(u) => Some((m.(unknown := m.unknown + u.0), u.1))
  {
    hide ReadVarint64, ReadLength, ReadFixed32, ReadFixed64, Encode;
    if tag / 8 != 0 && ReadPayload(tag, s).Next? {
      var r := ReadPayload(tag, s).r;
      hide ReadPayload;
      assert r.num * 8 + WireType(r) == tag;
    }
  }

  // ---------------------------------------------------------------- Tile_Value

  /** The presence bits of a value. */
  datatype ValueBits = ValueBits(
    text: bool, float64: bool, int64: bool, float32: bool, flag: bool, uint64: bool, sint64: bool) {
    function Or(b: ValueBits): ValueBits {
      ValueBits(text || b.text, float64 || b.float64, int64 || b.int64, float32 || b.float32, flag || b.flag,
                uint64 || b.uint64, sint64 || b.sint64)
    }
  }

  /** The plain fields of a value. */
  datatype ValueFields = ValueFields(
    text: Bytes, float64: UInt64, int64: Int64, float32: UInt32, flag: bool, uint64: UInt64, sint64: Int64)

  const NO_VALUE_BITS := ValueBits(false, false, false, false, false, false, false)
  const VALUE_DEFAULTS := ValueFields([], 0, 0, 0, false, 0, 0)

  /** A field that is not present has its default value. */
  predicate ValueDefaults(b: ValueBits, f: ValueFields) {
    && (b.text || f.text == []) && (b.float64 || f.float64 == 0) && (b.int64 || f.int64 == 0)
    && (b.float32 || f.float32 == 0) && (b.flag || !f.flag) && (b.uint64 || f.uint64 == 0) &&
       (b.sint64 || f.sint64 == 0)
  }

  /** The message that bits and fields stand for. */
  function PresentValue(b: ValueBits, f: ValueFields, unknown: Bytes): Value {
    Value(if b.text then Some(f.text) else None, if b.float32 then Some(f.float32) else None,
          if b.float64 then Some(f.float64) else None, if b.int64 then Some(f.int64) else None,
          if b.uint64 then Some(f.uint64) else None, if b.sint64 then Some(f.sint64) else None,
          if b.flag then Some(f.flag) else None, unknown)
  }

  lemma SetText(b: ValueBits, h: ValueBits, f: ValueFields, u: Bytes, v: Bytes)
    ensures PresentValue(b.(text := true).Or(h), f.(text := v), u) == PresentValue(b.Or(h), f, u).(text := Some(v))
    ensures ValueDefaults(b.Or(h), f) ==> ValueDefaults(b.(text := true).Or(h), f.(text := v))
  {}

  lemma SetFloat32(b: ValueBits, h: ValueBits, f: ValueFields, u: Bytes, v: UInt32)
    ensures PresentValue(b.Or(h.(float32 := true)), f.(float32 := v), u) ==
            PresentValue(b.Or(h), f, u).(float32 := Some(v))
    ensures ValueDefaults(b.Or(h), f) ==> ValueDefaults(b.Or(h.(float32 := true)), f.(float32 := v))
  {}

  lemma SetFloat64(b: ValueBits, h: ValueBits, f: ValueFields, u: Bytes, v: UInt64)
    ensures PresentValue(b.Or(h.(float64 := true)), f.(float64 := v), u) ==
            PresentValue(b.Or(h), f, u).(float64 := Some(v))
    ensures ValueDefaults(b.Or(h), f) ==> ValueDefaults(b.Or(h.(float64 := true)), f.(float64 := v))
  {}

  lemma SetInt64(b: ValueBits, h: ValueBits, f: ValueFields, u: Bytes, v: Int64)
    ensures PresentValue(b.Or(h.(int64 := true)), f.(int64 := v), u) == PresentValue(b.Or(h), f, u).(int64 := Some(v))
    ensures ValueDefaults(b.Or(h), f) ==> ValueDefaults(b.Or(h.(int64 := true)), f.(int64 := v))
  {}

  lemma SetUint64(b: ValueBits, h: ValueBits, f: ValueFields, u: Bytes, v: UInt64)
    ensures PresentValue(b.Or(h.(uint64 := true)), f.(uint64 := v), u) ==
            PresentValue(b.Or(h), f, u).(uint64 := Some(v))
    ensures ValueDefaults(b.Or(h), f) ==> ValueDefaults(b.Or(h.(uint64 := true)), f.(uint64 := v))
  {}

  lemma SetSint64(b: ValueBits, h: ValueBits, f: ValueFields, u: Bytes, v: Int64)
    ensures PresentValue(b.Or(h.(sint64 := true)), f.(sint64 := v), u) ==
            PresentValue(b.Or(h), f, u).(sint64 := Some(v))
    ensures ValueDefaults(b.Or(h), f) ==> ValueDefaults(b.Or(h.(sint64 := true)), f.(sint64 := v))
  {}

  lemma SetFlag(b: ValueBits, h: ValueBits, f: ValueFields, u: Bytes, v: bool)
    ensures PresentValue(b.Or(h.(flag := true)), f.(flag := v), u) == PresentValue(b.Or(h), f, u).(flag := Some(v))
    ensures ValueDefaults(b.Or(h), f) ==> ValueDefaults(b.Or(h.(flag := true)), f.(flag := v))
  {}

  lemma AddUnknown(b: ValueBits, f: ValueFields, u: Bytes, v: Bytes)
    ensures PresentValue(b, f, u + v) == PresentValue(b, f, u).(unknown := PresentValue(b, f, u).unknown + v)
  {}

  lemma MergedValue(b: ValueBits, f: ValueFields, c: ValueBits, g: ValueFields, h: ValueFields, u: Bytes, v: Bytes)
    requires h.text == (if c.text then g.text else f.text) && h.float64 == (if c.float64 then g.float64 else f.float64)
    requires h.int64 == (if c.int64 then g.int64 else f.int64) &&
             h.float32 == (if c.float32 then g.float32 else f.float32)
    requires h.flag == (if c.flag then g.flag else f.flag) && h.uint64 == (if c.uint64 then g.uint64 else f.uint64)
    requires h.sint64 == (if c.sint64 then g.sint64 else f.sint64)
    ensures ValueDefaults(b, f) ==> ValueDefaults(b.Or(c), h)
    ensures PresentValue(b.Or(c), h, u + v) == MergeValue(PresentValue(b, f, u), PresentValue(c, g, v))
  {}

  class ValueObject {
    var hasBits: ValueBits
    var fields: ValueFields
    var unknown: Bytes
    var cachedSize: nat

    predicate Valid()
      reads `hasBits, `fields
    {
      ValueDefaults(hasBits, fields)
    }

    function Contents(): Value
      reads `hasBits, `fields, `unknown
    {
      PresentValue(hasBits, fields, unknown)
    }

    constructor ()
      ensures Valid() && Contents() == NO_VALUE
    {
      hasBits, fields, unknown, cachedSize := NO_VALUE_BITS, VALUE_DEFAULTS, [], 0;
    }

    /** `Clear` resets only what the presence bits say is set, and still leaves an empty message. */
    method Clear()
      requires Valid()
      modifies this
      ensures Valid() && Contents() == NO_VALUE && fields == VALUE_DEFAULTS
    {
      if hasBits.text {
        fields := fields.(text := []);
      }
      if hasBits.float64 || hasBits.int64 || hasBits.float32 || hasBits.flag || hasBits.uint64 || hasBits.sint64 {
        fields := VALUE_DEFAULTS.(text := fields.text);
      }
      hasBits, unknown := NO_VALUE_BITS, [];
    }

    /** `_InternalParse`: bits met on the way are collected and set at the end, also after a failure. */
    method InternalParse(data: Bytes) returns (end: ParseEnd)
      requires Valid()
      modifies this
      ensures Valid() && Agrees(Parse(ApplyValue, old(Contents()), data), end, Contents())
    {
      hide Parse, ReadTag, Step, PresentValue, ApplyValue, ValueDefaults;
      var ptr := 0;
      var bits := NO_VALUE_BITS;
      end := AtLimit;
      assert data[0..] == data;
      while ptr < |data|
        invariant ptr <= |data| && end == AtLimit && ValueDefaults(hasBits.Or(bits), fields)
        invariant Parse(ApplyValue, old(Contents()), data) ==
                  Parse(ApplyValue, PresentValue(hasBits.Or(bits), fields, unknown), data[ptr..])
        decreases |data| - ptr
      {
        ghost var s, m := data[ptr..], PresentValue(hasBits.Or(bits), fields, unknown);
        NoTag(ApplyValue, m, s);
        var t := ReadTag(data[ptr..]);
        if t == Short {
          end := Null;
          break;
        }
        var tag := t.value;
        AfterTag(ApplyValue, m, s, tag, t.n);
        ptr := ptr + t.n;
        assert s[t.n..] == data[ptr..];
        if EndsMessage(tag) {
          end := AtStopTag;
          break;
        }
        var taken;
        taken, bits := ParseField(tag, data[ptr..], bits);
        if taken == None {
          end := Null;
          break;
        }
        assert s[t.n + taken.value..] == data[ptr + taken.value..];
        ptr := ptr + taken.value;
      }
      NoTag(ApplyValue, PresentValue(hasBits.Or(bits), fields, unknown), data[ptr..]);
      hasBits := hasBits.Or(bits);
    }

    /** The `switch` of the parse loop, in which a field of an unexpected wire type goes to `handle_unusual`.
        It takes some bytes, or none when the field is malformed, and extends the presence bits. */
    method ParseField(tag: nat, s: Bytes, bits: ValueBits) returns (taken: Option<nat>, has: ValueBits)
      requires ValueDefaults(hasBits.Or(bits), fields) && !EndsMessage(tag)
      modifies this
      ensures ValueDefaults(hasBits.Or(has), fields)
      ensures var was := old(PresentValue(hasBits.Or(bits), fields, unknown));
              match taken
              case None => Step(ApplyValue, was, tag, s) == None
              case Some(n) => Step(ApplyValue, was, tag, s) == Some((PresentValue(hasBits.Or(has), fields, unknown), n))
    {
      hide Step, ReadVarint64, ReadLength, ReadFixed32, ReadFixed64, ReadUnknown, UnZigZag, ToInt64;
      hide ApplyValue, PresentValue, ValueDefaults;
      hide ValueBits.Or;
      ghost var m := PresentValue(hasBits.Or(bits), fields, unknown);
      taken, has := None, bits;
      var num, low := tag / 8, tag % 256;
      if num == 1 && low == 10 {
        TextStep(m, s);
        var r := ReadLength(s);
        if r.Read? {
          SetText(hasBits, has, fields, unknown, s[r.n..r.n + r.value]);
          hasBits, fields := hasBits.(text := true), fields.(text := s[r.n..r.n + r.value]);
          taken := Some(r.n + r.value);
        }
      } else if num == 2 && low == 21 {
        Float32Step(m, s);
        if |s| >= 4 {
          SetFloat32(hasBits, has, fields, unknown, ReadFixed32(s[..4]));
          has, fields := has.(float32 := true), fields.(float32 := ReadFixed32(s[..4]));
          taken := Some(4);
        }
      } else if num == 3 && low == 25 {
        Float64Step(m, s);
        if |s| >= 8 {
          SetFloat64(hasBits, has, fields, unknown, ReadFixed64(s[..8]));
          has, fields := has.(float64 := true), fields.(float64 := ReadFixed64(s[..8]));
          taken := Some(8);
        }
      } else if 4 <= num <= 7 && low == num * 8 {
        taken, has := ParseIntField(num, s, bits);
      } else {
        UnknownValueStep(m, tag, s);
        var u := ReadUnknown(tag, s);
        if u.Some? {
          AddUnknown(hasBits.Or(has), fields, unknown, u.value.0);
          unknown := unknown + u.value.0;
          taken := Some(u.value.1);
        }
      }
    }

    /** The four cases that read a varint. */
    method ParseIntField(num: nat, s: Bytes, bits: ValueBits) returns (taken: Option<nat>, has: ValueBits)
      requires ValueDefaults(hasBits.Or(bits), fields) && 4 <= num <= 7
      modifies this
      ensures ValueDefaults(hasBits.Or(has), fields)
      ensures var was := old(PresentValue(hasBits.Or(bits), fields, unknown));
              match taken
              case None => Step(ApplyValue, was, num * 8, s) == None
              case Some(n) => Step(ApplyValue, was, num * 8, s) ==
                              Some((PresentValue(hasBits.Or(has), fields, unknown), n))
    {
      hide Step, ReadVarint64, UnZigZag, ToInt64, ApplyValue, PresentValue, ValueDefaults;
      hide ValueBits.Or;
      IntSteps(PresentValue(hasBits.Or(bits), fields, unknown), s);
      taken, has := None, bits;
      var r := ReadVarint64(s);
      if r == Short {
        return;
      }
      taken := Some(r.n);
      if num == 4 {
        SetInt64(hasBits, has, fields, unknown, ToInt64(r.value));
        has, fields := has.(int64 := true), fields.(int64 := ToInt64(r.value));
      } else if num == 5 {
        SetUint64(hasBits, has, fields, unknown, r.value);
        has, fields := has.(uint64 := true), fields.(uint64 := r.value);
      } else if num == 6 {
        SetSint64(hasBits, has, fields, unknown, UnZigZag(r.value));
        has, fields := has.(sint64 := true), fields.(sint64 := UnZigZag(r.value));
      } else {
        SetFlag(hasBits, has, fields, unknown, r.value != 0);
        has, fields := has.(flag := true), fields.(flag := r.value != 0);
      }
    }

    method MergeFrom(from: ValueObject)
      requires from != this && Valid() && from.Valid()
      modifies this
      ensures Valid() && Contents() == MergeValue(old(Contents()), from.Contents())
    {
      hide PresentValue, ValueDefaults, MergeValue;
      unknown := unknown + from.unknown;
      var bits, f, g := from.hasBits, fields, from.fields;
      fields := ValueFields(
        if bits.text then g.text else f.text,
        if bits.float64 then g.float64 else f.float64,
        if bits.int64 then g.int64 else f.int64,
        if bits.float32 then g.float32 else f.float32,
        if bits.flag then g.flag else f.flag,
        if bits.uint64 then g.uint64 else f.uint64,
        if bits.sint64 then g.sint64 else f.sint64);
      MergedValue(hasBits, f, bits, g, fields, old(unknown), from.unknown);
      hasBits := hasBits.Or(bits);
    }

    /** The cached size is that of the present contents. */
    ghost predicate Measured()
      reads this
    {
      cachedSize == |WriteValue(Contents())|
    }

    method ByteSizeLong() returns (totalSize: nat)
      modifies this`cachedSize
      ensures Measured() && totalSize == |WriteValue(Contents())| && Contents() == old(Contents())
    {
      totalSize := ValueSizeOf(hasBits, fields) + |unknown|;
      ValueSizeIs(hasBits, fields, unknown);
      cachedSize := totalSize;
    }

    method InternalSerialize(target: Bytes) returns (out: Bytes)
      ensures out == target + WriteValue(Contents())
    {
      hide WriteValue, Encode, FromInt64, ZigZag, PresentValue;
      var b, f := hasBits, fields;
      out := target;
      out := out + if b.text then Encode(LenRec(1, f.text)) else [];
      out := out + if b.float32 then Encode(Fixed32Rec(2, f.float32)) else [];
      out := out + if b.float64 then Encode(Fixed64Rec(3, f.float64)) else [];
      out := out + if b.int64 then Encode(VarintRec(4, FromInt64(f.int64))) else [];
      out := out + if b.uint64 then Encode(VarintRec(5, f.uint64)) else [];
      out := out + if b.sint64 then Encode(VarintRec(6, ZigZag(f.sint64))) else [];
      out := out + if b.flag then Encode(VarintRec(7, if f.flag then 1 else 0)) else [];
      out := out + unknown;
      PresentValueBytes(target, b, f, unknown);
    }
  }

  lemma PresentValueBytes(target: Bytes, b: ValueBits, f: ValueFields, unknown: Bytes)
    ensures target + WriteValue(PresentValue(b, f, unknown)) ==
            target + (if b.text then Encode(LenRec(1, f.text)) else []) +
            (if b.float32 then Encode(Fixed32Rec(2, f.float32)) else []) +
            (if b.float64 then Encode(Fixed64Rec(3, f.float64)) else []) +
            (if b.int64 then Encode(VarintRec(4, FromInt64(f.int64))) else []) +
            (if b.uint64 then Encode(VarintRec(5, f.uint64)) else []) +
            (if b.sint64 then Encode(VarintRec(6, ZigZag(f.sint64))) else []) +
            (if b.flag then Encode(VarintRec(7, if f.flag then 1 else 0)) else []) + unknown
  {
    hide WriteValue, Encode, FromInt64, ZigZag;
    ValueBytes(target, PresentValue(b, f, unknown));
  }

  /** The sum of `Tile_Value::ByteSizeLong`, in its order. */
  function ValueSizeOf(b: ValueBits, f: ValueFields): nat {
    (if b.text then 1 + VarintSize(|f.text|) + |f.text| else 0) +
    (if b.float64 then 1 + 8 else 0) +
    (if b.int64 then 1 + VarintSize(FromInt64(f.int64)) else 0) +
    (if b.float32 then 1 + 4 else 0) +
    (if b.flag then 1 + 1 else 0) +
    (if b.uint64 then 1 + VarintSize(f.uint64) else 0) +
    (if b.sint64 then 1 + VarintSize(ZigZag(f.sint64)) else 0)
  }

  lemma ValueSizeIs(b: ValueBits, f: ValueFields, unknown: Bytes)
    ensures |WriteValue(PresentValue(b, f, unknown))| == ValueSizeOf(b, f) + |unknown|
  {
    hide WriteValue, PresentValue, VarintSize, Varint, FromInt64, ZigZag, Encode;
    var w := WriteValue(PresentValue(b, f, unknown));
    PresentValueBytes([], b, f, unknown);
    assert [] + w == w;
    PresentPartSizes(f);
    EightSizes(if b.text then Encode(LenRec(1, f.text)) else [],
               if b.float32 then Encode(Fixed32Rec(2, f.float32)) else [],
               if b.float64 then Encode(Fixed64Rec(3, f.float64)) else [],
               if b.int64 then Encode(VarintRec(4, FromInt64(f.int64))) else [],
               if b.uint64 then Encode(VarintRec(5, f.uint64)) else [],
               if b.sint64 then Encode(VarintRec(6, ZigZag(f.sint64))) else [],
               if b.flag then Encode(VarintRec(7, if f.flag then 1 else 0)) else [], unknown);
  }

  lemma PresentPartSizes(f: ValueFields)
    ensures |Encode(LenRec(1, f.text))| == 1 + VarintSize(|f.text|) + |f.text|
    ensures |Encode(Fixed32Rec(2, f.float32))| == 5 && |Encode(Fixed64Rec(3, f.float64))| == 9
    ensures |Encode(VarintRec(4, FromInt64(f.int64)))| == 1 + VarintSize(FromInt64(f.int64))
    ensures |Encode(VarintRec(5, f.uint64))| == 1 + VarintSize(f.uint64)
    ensures |Encode(VarintRec(6, ZigZag(f.sint64)))| == 1 + VarintSize(ZigZag(f.sint64))
    ensures |Encode(VarintRec(7, if f.flag then 1 else 0))| == 2
  {
    hide Encode, Varint, VarintSize, LittleEndian, ZigZag, FromInt64;
    RecordSize(LenRec(1, f.text));
    RecordSize(Fixed32Rec(2, f.float32));
    RecordSize(Fixed64Rec(3, f.float64));
    RecordSize(VarintRec(4, FromInt64(f.int64)));
    RecordSize(VarintRec(5, f.uint64));
    RecordSize(VarintRec(6, ZigZag(f.sint64)));
    RecordSize(VarintRec(7, if f.flag then 1 else 0));
    OneByte();
  }

  lemma EightSizes(a: Bytes, b: Bytes, c: Bytes, d: Bytes, e: Bytes, f: Bytes, g: Bytes, h: Bytes)
    ensures |[] + a + b + c + d + e + f + g + h| == |a| + |b| + |c| + |d| + |e| + |f| + |g| + |h|
  {}

  // ---------------------------------------------------------------- what is written, field by field

  /** The bytes of an optional field. */
  function IfBytes<T>(o: Option<T>, rec: T -> Rec): Bytes {
    if o.Some? then Encode(rec(o.value)) else []
  }

  /** Appending the records of a field to what was written so far. */
  lemma WriteNext(target: Bytes, rs: seq<Rec>, qs: seq<Rec>)
    ensures target + EncodeAll(rs + qs) == target + EncodeAll(rs) + EncodeAll(qs)
  {
    hide EncodeAll;
    EncodeAllConcat(rs, qs);
  }

  lemma OptionBytes<T>(o: Option<T>, rec: T -> Rec)
    ensures EncodeAll(IfSome(o, rec)) == IfBytes(o, rec)
  {
    hide Encode;
    if o.Some? {
      assert [rec(o.value)][1..] == [] && Encode(rec(o.value)) + [] == Encode(rec(o.value));
    }
  }

  /** A value is written field after field. */
  lemma ValueBytes(target: Bytes, m: Value)
    ensures target + WriteValue(m) ==
            target + IfBytes(m.text, d => LenRec(1, d)) + IfBytes(m.float32, b => Fixed32Rec(2, b)) +
            IfBytes(m.float64, b => Fixed64Rec(3, b)) + IfBytes(m.int64, i => VarintRec(4, FromInt64(i))) +
            IfBytes(m.uint64, v => VarintRec(5, v)) + IfBytes(m.sint64, i => VarintRec(6, ZigZag(i))) +
            IfBytes(m.flag, f => VarintRec(7, if f then 1 else 0)) + m.unknown
  {
    hide EncodeAll, IfSome, IfBytes, ZigZag, FromInt64;
    var r1 := IfSome(m.text, d => LenRec(1, d));
    var r2 := IfSome(m.float32, b => Fixed32Rec(2, b));
    var r3 := IfSome(m.float64, b => Fixed64Rec(3, b));
    var r4 := IfSome(m.int64, i => VarintRec(4, FromInt64(i)));
    var r5 := IfSome(m.uint64, v => VarintRec(5, v));
    var r6 := IfSome(m.sint64, i => VarintRec(6, ZigZag(i)));
    var r7 := IfSome(m.flag, f => VarintRec(7, if f then 1 else 0));
    OptionBytes(m.text, d => LenRec(1, d));
    OptionBytes(m.float32, b => Fixed32Rec(2, b));
    OptionBytes(m.float64, b => Fixed64Rec(3, b));
    OptionBytes(m.int64, i => VarintRec(4, FromInt64(i)));
    OptionBytes(m.uint64, v => VarintRec(5, v));
    OptionBytes(m.sint64, i => VarintRec(6, ZigZag(i)));
    OptionBytes(m.flag, f => VarintRec(7, if f then 1 else 0));
    WriteNext(target, r1, r2);
    WriteNext(target, r1 + r2, r3);
    WriteNext(target, r1 + r2 + r3, r4);
    WriteNext(target, r1 + r2 + r3 + r4, r5);
    WriteNext(target, r1 + r2 + r3 + r4 + r5, r6);
    WriteNext(target, r1 + r2 + r3 + r4 + r5 + r6, r7);
    assert WriteValue(m) == EncodeAll(r1 + r2 + r3 + r4 + r5 + r6 + r7) + m.unknown;
    assert target + (EncodeAll(r1 + r2 + r3 + r4 + r5 + r6 + r7) + m.unknown)
        == target + EncodeAll(r1 + r2 + r3 + r4 + r5 + r6 + r7) + m.unknown;
  }

  lemma RecordSize(r: Rec)
    requires r.num < 16
    ensures |Encode(r)| == 1 + |Payload(r)|
  {
    assert VarintSize(r.num * 8 + WireType(r)) == 1;
  }

  lemma IfSize<T>(o: Option<T>, rec: T -> Rec)
    requires o.Some? ==> rec(o.value).num < 16
    ensures |IfBytes(o, rec)| == if o.Some? then 1 + |Payload(rec(o.value))| else 0
  {
    hide Encode, Payload;
    if o.Some? {
      RecordSize(rec(o.value));
    }
  }

  lemma OneByte()
    ensures VarintSize(0) == 1 && VarintSize(1) == 1
  {}

  // ---------------------------------------------------------------- Tile_Feature

  datatype FeatureBits = FeatureBits(id: bool, kind: bool, raster: bool) {
    function Or(b: FeatureBits): FeatureBits {
      FeatureBits(id || b.id, kind || b.kind, raster || b.raster)
    }
  }

  /** The fields of a feature; the two lists have no presence bit. */
  datatype FeatureFields = FeatureFields(id: UInt64, kind: nat, raster: Bytes, tags: seq<UInt32>, geometry: seq<UInt32>)

  const NO_FEATURE_BITS := FeatureBits(false, false, false)
  const FEATURE_DEFAULTS := FeatureFields(0, 0, [], [], [])

  predicate FeatureDefaults(b: FeatureBits, f: FeatureFields) {
    (b.id || f.id == 0) && (b.kind || f.kind == 0) && (b.raster || f.raster == []) && f.kind <= 3
  }

  function PresentFeature(b: FeatureBits, f: FeatureFields, unknown: Bytes): Feature {
    Feature(if b.id then Some(f.id) else None, f.tags, if b.kind then Some(f.kind) else None, f.geometry,
            if b.raster then Some(f.raster) else None, unknown)
  }

  /** What each known field does to a feature. */
  lemma FeatureIntSteps(m: Feature, s: Bytes)
    ensures Step(ApplyFeature, m, 8, s) ==
            match ReadVarint64(s) case Short => None case Read(v, n) => Some((m.(id := Some(v)), n))
    ensures Step(ApplyFeature, m, 16, s) ==
            match ReadVarint64(s) case Short => None case Read(v, n) => Some((m.(tags := m.tags + [v % TWO32]), n))
    ensures Step(ApplyFeature, m, 24, s) ==
            match ReadVarint64(s)
            case Short => None
            case Read(v, n) =>
              if IsKind(v) then Some((m.(kind := Some(v % TWO32)), n))
              else Some((m.(unknown := m.unknown + Encode(VarintRec(3, v))), n))
    ensures Step(ApplyFeature, m, 32, s) ==
            match ReadVarint64(s)
            case Short => None
            case Read(v, n) => Some((m.(geometry := m.geometry + [v % TWO32]), n))
  {
    hide ReadVarint64, Encode;
  }

  lemma FeatureBytesSteps(m: Feature, s: Bytes)
    ensures Step(ApplyFeature, m, 18, s) ==
            match ReadLength(s)
            case Short => None
            case Read(v, n) =>
              match ReadPacked(s[n..n + v])
              case None => None
              case Some(vs) => Some((m.(tags := m.tags + vs), n + v))
    ensures Step(ApplyFeature, m, 34, s) ==
            match ReadLength(s)
            case Short => None
            case Read(v, n) =>
              match ReadPacked(s[n..n + v])
              case None => None
              case Some(vs) => Some((m.(geometry := m.geometry + vs), n + v))
    ensures Step(ApplyFeature, m, 42, s) ==
            match ReadLength(s) case Short => None case Read(v, n) => Some((m.(raster := Some(s[n..n + v])), n + v))
  {
    hide ReadLength, ReadPacked;
  }

  lemma UnknownFeatureStep(m: Feature, tag: nat, s: Bytes)
    requires tag !in {8, 16, 18, 24, 32, 34, 42}
    ensures Step(ApplyFeature, m, tag, s) ==
            match ReadUnknown(tag, s) case None => None case Some(u) => Some((m.(unknown := m.unknown + u.0), u.1))
  {
    hide ReadVarint64, ReadLength, ReadFixed32, ReadFixed64, Encode, ReadPacked;
    if tag / 8 != 0 && ReadPayload(tag, s).Next? {
      var r := ReadPayload(tag, s).r;
      hide ReadPayload;
      assert r.num * 8 + WireType(r) == tag;
    }
  }

  class FeatureObject {
    var hasBits: FeatureBits
    var fields: FeatureFields
    var unknown: Bytes
    var cachedSize: nat
    var tagsCachedByteSize: nat
    var geometryCachedByteSize: nat

    predicate Valid()
      reads `hasBits, `fields
    {
      FeatureDefaults(hasBits, fields)
    }

    function Contents(): (m: Feature)
      reads `hasBits, `fields, `unknown
      ensures Valid() ==> ValidKind(m)
    {
      PresentFeature(hasBits, fields, unknown)
    }

    constructor ()
      ensures Valid() && Contents() == NO_FEATURE
    {
      hasBits, fields, unknown := NO_FEATURE_BITS, FEATURE_DEFAULTS, [];
      cachedSize, tagsCachedByteSize, geometryCachedByteSize := 0, 0, 0;
    }

    method Clear()
      requires Valid()
      modifies this
      ensures Valid() && Contents() == NO_FEATURE && fields == FEATURE_DEFAULTS
    {
      fields := fields.(tags := [], geometry := []);
      if hasBits.raster {
        fields := fields.(raster := []);
      }
      if hasBits.id || hasBits.kind {
        fields := fields.(id := 0, kind := 0);
      }
      hasBits, unknown := NO_FEATURE_BITS, [];
    }

    method InternalParse(data: Bytes) returns (end: ParseEnd)
      requires Valid()
      modifies this
      ensures Valid() && Agrees(Parse(ApplyFeature, old(Contents()), data), end, Contents())
    {
      hide Parse, ReadTag, Step, PresentFeature, ApplyFeature, FeatureDefaults;
      var ptr := 0;
      var bits := NO_FEATURE_BITS;
      end := AtLimit;
      assert data[0..] == data;
      while ptr < |data|
        invariant ptr <= |data| && end == AtLimit && FeatureDefaults(hasBits.Or(bits), fields)
        invariant Parse(ApplyFeature, old(Contents()), data) ==
                  Parse(ApplyFeature, PresentFeature(hasBits.Or(bits), fields, unknown), data[ptr..])
        decreases |data| - ptr
      {
        ghost var s, m := data[ptr..], PresentFeature(hasBits.Or(bits), fields, unknown);
        NoTag(ApplyFeature, m, s);
        var t := ReadTag(data[ptr..]);
        if t == Short {
          end := Null;
          break;
        }
        var tag := t.value;
        AfterTag(ApplyFeature, m, s, tag, t.n);
        ptr := ptr + t.n;
        assert s[t.n..] == data[ptr..];
        if EndsMessage(tag) {
          end := AtStopTag;
          break;
        }
        var taken;
        taken, bits := ParseField(tag, data[ptr..], bits);
        if taken == None {
          end := Null;
          break;
        }
        assert s[t.n + taken.value..] == data[ptr + taken.value..];
        ptr := ptr + taken.value;
      }
      NoTag(ApplyFeature, PresentFeature(hasBits.Or(bits), fields, unknown), data[ptr..]);
      hasBits := hasBits.Or(bits);
    }

    /** The `switch` of the parse loop: lists are taken packed or one number at a time. */
    method ParseField(tag: nat, s: Bytes, bits: FeatureBits) returns (taken: Option<nat>, has: FeatureBits)
      requires FeatureDefaults(hasBits.Or(bits), fields) && !EndsMessage(tag)
      modifies this
      ensures FeatureDefaults(hasBits.Or(has), fields)
      ensures var was := old(PresentFeature(hasBits.Or(bits), fields, unknown));
              match taken
              case None => Step(ApplyFeature, was, tag, s) == None
              case Some(n) => Step(ApplyFeature, was, tag, s) ==
                              Some((PresentFeature(hasBits.Or(has), fields, unknown), n))
    {
      hide Step, ReadUnknown, ApplyFeature, Encode;
      var num, low := tag / 8, tag % 256;
      if (num == 1 && low == 8) || (num == 2 && low == 16) || (num == 3 && low == 24) || (num == 4 && low == 32) {
        taken, has := ParseIntField(tag, s, bits);
      } else if (num == 2 && low == 18) || (num == 4 && low == 34) || (num == 5 && low == 42) {
        taken := ParseBytesField(tag, s, bits);
        has := bits;
      } else {
        taken, has := None, bits;
        UnknownFeatureStep(PresentFeature(hasBits.Or(bits), fields, unknown), tag, s);
        var u := ReadUnknown(tag, s);
        if u.Some? {
          unknown := unknown + u.value.0;
          taken := Some(u.value.1);
        }
      }
    }

    /** The cases that read one varint. */
    method ParseIntField(tag: nat, s: Bytes, bits: FeatureBits) returns (taken: Option<nat>, has: FeatureBits)
      requires FeatureDefaults(hasBits.Or(bits), fields) && tag in {8, 16, 24, 32}
      modifies this
      ensures FeatureDefaults(hasBits.Or(has), fields)
      ensures var was := old(PresentFeature(hasBits.Or(bits), fields, unknown));
              match taken
              case None => Step(ApplyFeature, was, tag, s) == None
              case Some(n) => Step(ApplyFeature, was, tag, s) ==
                              Some((PresentFeature(hasBits.Or(has), fields, unknown), n))
    {
      hide Step, ReadVarint64, ApplyFeature, Encode;
      FeatureIntSteps(PresentFeature(hasBits.Or(bits), fields, unknown), s);
      taken, has := None, bits;
      var r := ReadVarint64(s);
      if r == Short {
        return;
      }
      taken := Some(r.n);
      if tag == 8 {
        has, fields := has.(id := true), fields.(id := r.value);
      } else if tag == 16 {
        fields := fields.(tags := fields.tags + [r.value % TWO32]);
      } else if tag == 32 {
        fields := fields.(geometry := fields.geometry + [r.value % TWO32]);
      } else if IsKind(r.value) {
        hasBits, fields := hasBits.(kind := true), fields.(kind := r.value % TWO32);
      } else {
        unknown := unknown + Encode(VarintRec(3, r.value));
      }
    }

    /** The cases that read a length prefix. */
    method ParseBytesField(tag: nat, s: Bytes, bits: FeatureBits) returns (taken: Option<nat>)
      requires FeatureDefaults(hasBits.Or(bits), fields) && tag in {18, 34, 42}
      modifies this
      ensures FeatureDefaults(hasBits.Or(bits), fields)
      ensures var was := old(PresentFeature(hasBits.Or(bits), fields, unknown));
              match taken
              case None => Step(ApplyFeature, was, tag, s) == None
              case Some(n) => Step(ApplyFeature, was, tag, s) ==
                              Some((PresentFeature(hasBits.Or(bits), fields, unknown), n))
    {
      hide Step, ReadLength, ReadPacked, ApplyFeature;
      FeatureBytesSteps(PresentFeature(hasBits.Or(bits), fields, unknown), s);
      taken := None;
      var r := ReadLength(s);
      if r == Short {
        return;
      }
      var d := s[r.n..r.n + r.value];
      if tag == 42 {
        hasBits, fields := hasBits.(raster := true), fields.(raster := d);
      } else {
        var vs := ReadPacked(d);
        if vs == None {
          return;
        }
        if tag == 18 {
          fields := fields.(tags := fields.tags + vs.value);
        } else {
          fields := fields.(geometry := fields.geometry + vs.value);
        }
      }
      taken := Some(r.n + r.value);
    }

    method MergeFrom(from: FeatureObject)
      requires from != this && Valid() && from.Valid()
      modifies this
      ensures Valid() && Contents() == MergeFeature(old(Contents()), from.Contents())
    {
      unknown := unknown + from.unknown;
      var bits, f, g := from.hasBits, fields, from.fields;
      fields := FeatureFields(
        if bits.id then g.id else f.id,
        if bits.kind then g.kind else f.kind,
        if bits.raster then g.raster else f.raster,
        f.tags + g.tags,
        f.geometry + g.geometry);
      hasBits := hasBits.Or(bits);
    }

    /** All three cached sizes are those of the present contents. */
    ghost predicate Measured()
      reads this
      requires Valid()
    {
      && cachedSize == |WriteFeature(Contents())|
      && tagsCachedByteSize == |Packed(fields.tags)| && geometryCachedByteSize == |Packed(fields.geometry)|
    }

    method ByteSizeLong() returns (totalSize: nat)
      requires Valid()
      modifies this`cachedSize, this`tagsCachedByteSize, this`geometryCachedByteSize
      ensures Measured() && totalSize == |WriteFeature(Contents())|
    {
      hide WriteFeature, Packed, PresentFeature;
      totalSize := 0;
      var dataSize := PackedSize(fields.tags);
      if dataSize > 0 {
        totalSize := totalSize + 1 + VarintSize(dataSize);
      }
      tagsCachedByteSize := dataSize;
      totalSize := totalSize + dataSize;
      dataSize := PackedSize(fields.geometry);
      if dataSize > 0 {
        totalSize := totalSize + 1 + VarintSize(dataSize);
      }
      geometryCachedByteSize := dataSize;
      totalSize := totalSize + dataSize;
      FeatureSizeIs(hasBits, fields, unknown);
      totalSize := totalSize + OptionalSizes(hasBits, fields) + |unknown|;
      cachedSize := totalSize;
    }

    /** The lists are written with the lengths that `ByteSizeLong` has cached. */
    method InternalSerialize(target: Bytes) returns (out: Bytes)
      requires Valid() && Measured()
      ensures out == target + WriteFeature(Contents())
    {
      hide WriteFeature, Encode, Packed;
      var b, f := hasBits, fields;
      out := target;
      out := out + if b.id then Encode(VarintRec(1, f.id)) else [];
      out := out + if tagsCachedByteSize > 0 then WritePacked(2, f.tags, tagsCachedByteSize) else [];
      out := out + if b.kind then Encode(VarintRec(3, f.kind)) else [];
      out := out + if geometryCachedByteSize > 0 then WritePacked(4, f.geometry, geometryCachedByteSize) else [];
      out := out + if b.raster then Encode(LenRec(5, f.raster)) else [];
      out := out + unknown;
      PackedWritten(2, f.tags);
      PackedWritten(4, f.geometry);
      FeatureBytes(target, Contents());
    }
  }

  /** `WriteUInt32Packed`: the length is the caller's. */
  function WritePacked(num: nat, vs: seq<UInt32>, byteSize: nat): Bytes {
    Varint(num * 8 + 2) + Varint(byteSize) + Packed(vs)
  }

  function PackedBytes(num: nat, vs: seq<UInt32>): Bytes {
    if |Packed(vs)| > 0 then WritePacked(num, vs, |Packed(vs)|) else []
  }

  lemma PackedWritten(num: nat, vs: seq<UInt32>)
    ensures EncodeAll(PackedRecs(num, vs)) == PackedBytes(num, vs)
    ensures |Packed(vs)| == 0 <==> vs == []
  {
    hide Varint;
    if vs != [] {
      var r := LenRec(num, Packed(vs));
      assert [r][1..] == [] && Encode(r) + [] == Encode(r);
      assert Varint(num * 8 + 2) + (Varint(|Packed(vs)|) + Packed(vs)) == WritePacked(num, vs, |Packed(vs)|);
    }
  }

  lemma PackedPartSize(num: nat, vs: seq<UInt32>)
    requires num < 16
    ensures |PackedBytes(num, vs)| == if |Packed(vs)| > 0 then 1 + VarintSize(|Packed(vs)|) + |Packed(vs)| else 0
  {
    assert VarintSize(num * 8 + 2) == 1;
  }

  /** The bytes of the type field. */
  function KindBytes(m: Feature): Bytes
    requires ValidKind(m)
  {
    if m.kind.Some? then Encode(VarintRec(3, m.kind.value)) else []
  }

  /** A feature is written field after field. */
  lemma FeatureBytes(target: Bytes, m: Feature)
    requires ValidKind(m)
    ensures target + WriteFeature(m) ==
            target + IfBytes(m.id, v => VarintRec(1, v)) + PackedBytes(2, m.tags) + KindBytes(m) +
            PackedBytes(4, m.geometry) + IfBytes(m.raster, d => LenRec(5, d)) + m.unknown
  {
    hide EncodeAll, IfSome, IfBytes, PackedRecs, PackedBytes, Encode;
    var r1 := IfSome(m.id, v => VarintRec(1, v));
    var r2 := PackedRecs(2, m.tags);
    var r3 := if m.kind.Some? then [VarintRec(3, m.kind.value)] else [];
    var r4 := PackedRecs(4, m.geometry);
    var r5 := IfSome(m.raster, d => LenRec(5, d));
    OptionBytes(m.id, v => VarintRec(1, v));
    OptionBytes(m.raster, d => LenRec(5, d));
    PackedWritten(2, m.tags);
    PackedWritten(4, m.geometry);
    OneRecordBytes(r3);
    WriteNext(target, r1, r2);
    WriteNext(target, r1 + r2, r3);
    WriteNext(target, r1 + r2 + r3, r4);
    WriteNext(target, r1 + r2 + r3 + r4, r5);
    assert WriteFeature(m) == EncodeAll(r1 + r2 + r3 + r4 + r5) + m.unknown;
    assert target + (EncodeAll(r1 + r2 + r3 + r4 + r5) + m.unknown) ==
           target + EncodeAll(r1 + r2 + r3 + r4 + r5) + m.unknown;
  }

  lemma OneRecordBytes(rs: seq<Rec>)
    requires |rs| <= 1
    ensures EncodeAll(rs) == if rs == [] then [] else Encode(rs[0])
  {
    hide Encode;
    if rs != [] {
      assert rs[1..] == [] && Encode(rs[0]) + [] == Encode(rs[0]);
    }
  }

  /** The part of `Tile_Feature::ByteSizeLong` for fields with a presence bit. */
  function OptionalSizes(b: FeatureBits, f: FeatureFields): nat {
    (if b.raster then 1 + VarintSize(|f.raster|) + |f.raster| else 0) +
    (if b.id then 1 + VarintSize(f.id) else 0) +
    (if b.kind then 1 + VarintSize(f.kind) else 0)
  }

  lemma FeatureSizeIs(b: FeatureBits, f: FeatureFields, unknown: Bytes)
    requires FeatureDefaults(b, f)
    ensures |WriteFeature(PresentFeature(b, f, unknown))| ==
            |PackedBytes(2, f.tags)| + |PackedBytes(4, f.geometry)| + OptionalSizes(b, f) + |unknown|
    ensures forall num, vs | num < 16 && (vs == f.tags || vs == f.geometry) ::
            |PackedBytes(num, vs)| == if |Packed(vs)| > 0 then 1 + VarintSize(|Packed(vs)|) + |Packed(vs)| else 0
  {
    hide WriteFeature, IfBytes, VarintSize, Varint, PackedBytes, Packed, Encode;
    var m := PresentFeature(b, f, unknown);
    IfSize(m.id, v => VarintRec(1, v));
    IfSize(m.raster, d => LenRec(5, d));
    if b.kind {
      RecordSize(VarintRec(3, f.kind));
    }
    forall num: nat, vs | num < 16 && (vs == f.tags || vs == f.geometry)
      ensures |PackedBytes(num, vs)| == if |Packed(vs)| > 0 then 1 + VarintSize(|Packed(vs)|) + |Packed(vs)| else 0
    {
      PackedPartSize(num, vs);
    }
    FeatureBytes([], m);
    assert [] + WriteFeature(m) == WriteFeature(m);
  }
}
