/** The wire format under mbtiles/src/vector_tile.pb.cc: varints, zigzag, fixed-width numbers and
    length-delimited records, as the Protocol Buffers encoding guide describes them. */
module TileWire {
  import opened Options

  type Byte = b: int | 0 <= b < 256
  type Bytes = seq<Byte>

  const TWO32 := 0x1_0000_0000
  const TWO64 := 0x1_0000_0000_0000_0000
  const MAX_LENGTH := 0x7FFF_FFFF - 16  // the runtime's limit for one length prefix

  type UInt32 = n: nat | n < 0x1_0000_0000
  type UInt64 = n: nat | n < 0x1_0000_0000_0000_0000
  type Int64 = i: int | -0x8000_0000_0000_0000 <= i < 0x8000_0000_0000_0000

  // ---------------------------------------------------------------- numbers

  function Varint(n: nat): (s: Bytes)
    ensures |s| == VarintSize(n)
  {
    if n < 128 then [n] else [n % 128 + 128] + Varint(n / 128)
  }

  function VarintSize(n: nat): (k: nat)
    ensures k > 0
  {
    if n < 128 then 1 else 1 + VarintSize(n / 128)
  }

  datatype Read = Short | Read(value: nat, n: nat)

  /** A varint of at most `max` bytes at the start of `s`, and its length. */
  function ReadVarint(s: Bytes, max: nat): (r: Read)
    ensures r.Read? ==> 0 < r.n <= |s|
  {
    if max == 0 || s == [] then Short
    else if s[0] < 128 then Read(s[0], 1)
    else
      match ReadVarint(s[1..], max - 1)
      case Short => Short
      case Read(v, n) => Read(s[0] - 128 + 128 * v, n + 1)
  }

  function Pow128(k: nat): (r: nat)
    ensures r > 0
  {
    if k == 0 then 1 else 128 * Pow128(k - 1)
  }

  lemma VarintParts(n: nat, t: Bytes)
    requires n >= 128
    ensures (Varint(n) + t)[0] == n % 128 + 128 && (Varint(n) + t)[1..] == Varint(n / 128) + t
    ensures n % 128 + 128 * (n / 128) == n
  {}

  lemma {:induction false} ReadVarintBack(n: nat, t: Bytes, max: nat)
    requires max > 0 && n < Pow128(max)
    ensures ReadVarint(Varint(n) + t, max) == Read(n, VarintSize(n))
  {
    if n < 128 {
      assert (Varint(n) + t)[0] == n;
    } else {
      VarintParts(n, t);
      ReadVarintBack(n / 128, t, max - 1);
      hide Varint;
    }
  }

  lemma {:induction false} ReadVarintStable(s: Bytes, t: Bytes, max: nat)
    ensures ReadVarint(s, max).Read? ==> ReadVarint(s + t, max) == ReadVarint(s, max)
  {
    if max > 0 && s != [] && s[0] >= 128 {
      assert (s + t)[1..] == s[1..] + t;
      ReadVarintStable(s[1..], t, max - 1);
    }
  }

  /** The two's complement image of a signed 64-bit number, and back. */
  function FromInt64(i: Int64): UInt64 {
    if i < 0 then i + TWO64 else i
  }

  function ToInt64(n: UInt64): Int64 {
    if n < TWO64 / 2 then n else n - TWO64
  }

  function ZigZag(i: Int64): UInt64 {
    if i < 0 then -2 * i - 1 else 2 * i
  }

  function UnZigZag(n: UInt64): Int64 {
    if n % 2 == 0 then n / 2 else -(n / 2) - 1
  }

  /** `k` bytes, least significant first. */
  function LittleEndian(n: nat, k: nat): (s: Bytes)
    ensures |s| == k
  {
    if k == 0 then [] else [n % 256] + LittleEndian(n / 256, k - 1)
  }

  function ReadLittleEndian(s: Bytes): nat {
    if s == [] then 0 else s[0] + 256 * ReadLittleEndian(s[1..])
  }

  function Pow256(k: nat): nat {
    if k == 0 then 1 else 256 * Pow256(k - 1)
  }

  lemma {:induction false} LittleEndianBack(n: nat, k: nat)
    requires n < Pow256(k)
    ensures ReadLittleEndian(LittleEndian(n, k)) == n
  {
    if k > 0 {
      LittleEndianBack(n / 256, k - 1);
    }
  }

  lemma {:induction false} LittleEndianBound(s: Bytes)
    ensures ReadLittleEndian(s) < Pow256(|s|)
  {
    if s != [] {
      LittleEndianBound(s[1..]);
    }
  }

  function ReadFixed32(s: Bytes): UInt32
    requires |s| == 4
  {
    LittleEndianBound(s);
    assert Pow256(4) == TWO32;
    ReadLittleEndian(s)
  }

  function ReadFixed64(s: Bytes): UInt64
    requires |s| == 8
  {
    LittleEndianBound(s);
    assert Pow256(8) == TWO64;
    ReadLittleEndian(s)
  }

  // ---------------------------------------------------------------- records

  /** One field on the wire: its number and payload. Float and double payloads are their bit patterns. */
  datatype Rec =
    | VarintRec(num: nat, v: UInt64)
    | Fixed64Rec(num: nat, bits64: UInt64)
    | LenRec(num: nat, data: Bytes)
    | Fixed32Rec(num: nat, bits32: UInt32)

  predicate ValidRec(r: Rec) {
    1 <= r.num < 0x2000_0000 && (r.LenRec? ==> |r.data| <= MAX_LENGTH)
  }

  function WireType(r: Rec): nat {
    match r
    case VarintRec(_, _) => 0
    case Fixed64Rec(_, _) => 1
    case LenRec(_, _) => 2
    case Fixed32Rec(_, _) => 5
  }

  function Payload(r: Rec): Bytes {
    match r
    case VarintRec(_, v) => Varint(v)
    case Fixed64Rec(_, v) => LittleEndian(v, 8)
    case LenRec(_, d) => Varint(|d|) + d
    case Fixed32Rec(_, v) => LittleEndian(v, 4)
  }

  function Encode(r: Rec): (s: Bytes)
    ensures s != []
  {
    Varint(r.num * 8 + WireType(r)) + Payload(r)
  }

  function EncodeAll(rs: seq<Rec>): Bytes {
    if rs == [] then [] else Encode(rs[0]) + EncodeAll(rs[1..])
  }

  /** A record of `n` bytes, a zero or end-group tag, or bytes that are no record. */
  datatype Next = Next(r: Rec, n: nat) | Stop | Bad

  /** A tag: at most five bytes, truncated to 32 bits. */
  function ReadTag(s: Bytes): (r: Read)
    ensures r.Read? ==> r.value < TWO32 && 0 < r.n <= |s|
  {
    match ReadVarint(s, 5)
    case Short => Short
    case Read(v, n) => Read(v % TWO32, n)
  }

  function ReadVarint64(s: Bytes): (r: Read)
    ensures r.Read? ==> r.value < TWO64 && 0 < r.n <= |s|
  {
    match ReadVarint(s, 10)
    case Short => Short
    case Read(v, n) => Read(v % TWO64, n)
  }

  /** A length prefix, and how many bytes it and its payload take together. */
  function ReadLength(s: Bytes): (r: Read)
    ensures r.Read? ==> r.value <= MAX_LENGTH && r.n + r.value <= |s|
  {
    match ReadVarint(s, 5)
    case Short => Short
    case Read(v, n) => if v <= MAX_LENGTH && n + v <= |s| then Read(v, n) else Short
  }

  /** The payload of a record with this tag; start-group tags count as bad. */
  function ReadPayload(tag: nat, s: Bytes): (r: Next)
    ensures r.Next? ==> r.n <= |s| && r.r.num == tag / 8 && WireType(r.r) == tag % 8
    ensures r != Stop
  {
    var num := tag / 8;
    match tag % 8
    case 0 => (match ReadVarint64(s) case Short => Bad case Read(v, n) => Next(VarintRec(num, v), n))
    case 1 => if |s| < 8 then Bad else Next(Fixed64Rec(num, ReadFixed64(s[..8])), 8)
    case 2 => (match ReadLength(s) case Short => Bad case Read(v, n) => Next(LenRec(num, s[n..n + v]), n + v))
    case 5 => if |s| < 4 then Bad else Next(Fixed32Rec(num, ReadFixed32(s[..4])), 4)
    case _ => Bad
  }

  function ReadRec(s: Bytes): (r: Next)
    ensures r.Next? ==> 0 < r.n <= |s|
  {
    match ReadTag(s)
    case Short => Bad
    case Read(tag, n) =>
      if tag == 0 || tag % 8 == 4 then Stop
      else if tag / 8 == 0 then Bad
      else
        match ReadPayload(tag, s[n..])
        case Next(r, k) => Next(r, n + k)
        case _ => Bad
  }

  lemma ReadPayloadStable(tag: nat, s: Bytes, t: Bytes)
    ensures ReadPayload(tag, s).Next? ==> ReadPayload(tag, s + t) == ReadPayload(tag, s)
  {
    ReadVarintStable(s, t, 10);
    ReadVarintStable(s, t, 5);
    if |s| >= 8 {
      assert (s + t)[..8] == s[..8];
    }
    if |s| >= 4 {
      assert (s + t)[..4] == s[..4];
    }
    match ReadLength(s)
    case Short =>
    case Read(v, n) => assert (s + t)[n..n + v] == s[n..n + v];
  }

  /** A complete record, or a stop, does not depend on what follows. */
  lemma ReadRecStable(s: Bytes, t: Bytes)
    ensures ReadRec(s) != Bad ==> ReadRec(s + t) == ReadRec(s)
  {
    hide ReadPayload;
    ReadVarintStable(s, t, 5);
    match ReadTag(s)
    case Short =>
    case Read(tag, n) =>
      assert (s + t)[n..] == s[n..] + t;
      ReadPayloadStable(tag, s[n..], t);
  }

  lemma ReadVarint64Back(v: UInt64, t: Bytes)
    ensures ReadVarint64(Varint(v) + t) == Read(v, VarintSize(v))
  {
    assert Pow128(10) > TWO64;
    ReadVarintBack(v, t, 10);
  }

  lemma ReadLengthBack(d: Bytes, t: Bytes)
    requires |d| <= MAX_LENGTH
    ensures var k := VarintSize(|d|); var s := Varint(|d|) + d + t;
            ReadLength(s) == Read(|d|, k) && s[k..k + |d|] == d
  {
    hide Varint, ReadVarint, VarintSize;
    LengthFits(|d|);
    ReadVarintBack(|d|, d + t, 5);
    assert Varint(|d|) + d + t == Varint(|d|) + (d + t);
  }

  lemma LengthFits(n: nat)
    requires n <= MAX_LENGTH
    ensures n < Pow128(5)
  {}

  lemma ReadFixedBack(v: UInt64, k: nat, t: Bytes)
    requires v < Pow256(k)
    ensures (LittleEndian(v, k) + t)[..k] == LittleEndian(v, k) && ReadLittleEndian(LittleEndian(v, k)) == v
  {
    LittleEndianBack(v, k);
  }

  lemma ReadPayloadBack(r: Rec, t: Bytes)
    requires ValidRec(r)
    ensures ReadPayload(r.num * 8 + WireType(r), Payload(r) + t) == Next(r, |Payload(r)|)
  {
    hide ReadVarint64, ReadLength, Varint, LittleEndian, ReadLittleEndian;
    match r
    case VarintRec(_, v) => ReadVarint64Back(v, t);
    case Fixed64Rec(_, v) =>
      assert Pow256(8) == TWO64;
      ReadFixedBack(v, 8, t);
    case LenRec(_, d) => ReadLengthBack(d, t);
    case Fixed32Rec(_, v) =>
      assert Pow256(4) == TWO32;
      ReadFixedBack(v, 4, t);
  }

  /** Reading gives back what was written. */
  lemma ReadRecBack(r: Rec, t: Bytes)
    requires ValidRec(r)
    ensures ReadRec(Encode(r) + t) == Next(r, |Encode(r)|)
  {
    hide ReadPayload, Payload, Varint, ReadVarint, VarintSize, Pow128;
    var tag, tail := r.num * 8 + WireType(r), Payload(r) + t;
    TagFits(tag);
    ReadVarintBack(tag, tail, 5);
    assert Encode(r) + t == Varint(tag) + tail;
    assert (Varint(tag) + tail)[VarintSize(tag)..] == tail;
    ReadPayloadBack(r, t);
  }

  lemma TagFits(tag: nat)
    requires tag < TWO32
    ensures tag < Pow128(5)
  {}

  // ---------------------------------------------------------------- a whole input

  /** How the reading of an input ends. */
  datatype End = AtEnd | AtStop | Broken

  datatype Lexed = Lexed(recs: seq<Rec>, end: End)

  /** The records of an input up to its end, a stop tag, or bytes that are no record. */
  function ReadAll(s: Bytes): Lexed
    decreases |s|
  {
    if s == [] then Lexed([], AtEnd)
    else
      match ReadRec(s)
      case Stop => Lexed([], AtStop)
      case Bad => Lexed([], Broken)
      case Next(r, n) => var l := ReadAll(s[n..]); Lexed([r] + l.recs, l.end)
  }

  predicate ValidRecs(rs: seq<Rec>) {
    forall i | 0 <= i < |rs| :: ValidRec(rs[i])
  }

  lemma {:induction false} ReadAllBack(rs: seq<Rec>, t: Bytes)
    requires ValidRecs(rs)
    ensures ReadAll(EncodeAll(rs) + t) == Lexed(rs + ReadAll(t).recs, ReadAll(t).end)
    decreases rs
  {
    hide ReadRec, Encode, ValidRec;
    if rs == [] {
      assert EncodeAll(rs) + t == t;
      assert rs + ReadAll(t).recs == ReadAll(t).recs;
    } else {
      var tail := EncodeAll(rs[1..]) + t;
      var s := EncodeAll(rs) + t;
      assert s == Encode(rs[0]) + tail;
      ReadRecBack(rs[0], tail);
      assert s[|Encode(rs[0])|..] == tail;
      ReadAllBack(rs[1..], t);
      assert rs + ReadAll(t).recs == [rs[0]] + (rs[1..] + ReadAll(t).recs);
    }
  }

  lemma {:induction false} ReadAllConcat(a: Bytes, b: Bytes)
    requires ReadAll(a).end == AtEnd
    ensures ReadAll(a + b) == Lexed(ReadAll(a).recs + ReadAll(b).recs, ReadAll(b).end)
    decreases |a|
  {
    hide ReadRec, Encode;
    if a == [] {
      assert a + b == b;
      assert [] + ReadAll(b).recs == ReadAll(b).recs;
    } else {
      var r, n := ReadRec(a).r, ReadRec(a).n;
      ReadAllConcat(a[n..], b);
      ReadAllFirst(a, b);
      var rs := ReadAll(a[n..]).recs;
      assert ReadAll(a).recs == [r] + rs;
      assert ([r] + rs) + ReadAll(b).recs == [r] + (rs + ReadAll(b).recs);
    }
  }

  lemma ReadAllFirst(a: Bytes, b: Bytes)
    requires a != [] && ReadRec(a).Next?
    ensures var l := ReadAll(a[ReadRec(a).n..] + b); ReadAll(a + b) == Lexed([ReadRec(a).r] + l.recs, l.end)
  {
    hide ReadRec;
    ReadRecStable(a, b);
    assert (a + b)[ReadRec(a).n..] == a[ReadRec(a).n..] + b;
  }

  lemma {:induction false} EncodeAllConcat(rs: seq<Rec>, qs: seq<Rec>)
    ensures EncodeAll(rs + qs) == EncodeAll(rs) + EncodeAll(qs)
  {
    hide Encode;
    if rs == [] {
      assert rs + qs == qs;
    } else {
      assert (rs + qs)[1..] == rs[1..] + qs;
      EncodeAllConcat(rs[1..], qs);
      assert Encode(rs[0]) + (EncodeAll(rs[1..]) + EncodeAll(qs)) == Encode(rs[0]) + EncodeAll(rs[1..]) + EncodeAll(qs);
    }
  }

  /** What is read is valid. */
  lemma ReadRecValid(s: Bytes)
    ensures ReadRec(s).Next? ==> ValidRec(ReadRec(s).r)
  {}

  lemma {:induction false} ReadAllValid(s: Bytes)
    ensures ValidRecs(ReadAll(s).recs)
    decreases |s|
  {
    hide ReadRec, ValidRec;
    if s != [] && ReadRec(s).Next? {
      ReadRecValid(s);
      ReadAllValid(s[ReadRec(s).n..]);
    }
  }

  // ---------------------------------------------------------------- packed numbers

  function Packed(vs: seq<UInt32>): Bytes {
    if vs == [] then [] else Varint(vs[0]) + Packed(vs[1..])
  }

  function PackedSize(vs: seq<UInt32>): (n: nat)
    ensures n == |Packed(vs)|
  {
    if vs == [] then 0 else VarintSize(vs[0]) + PackedSize(vs[1..])
  }

  /** The numbers of a packed field, None when its last one is cut off. */
  function ReadPacked(s: Bytes): Option<seq<UInt32>>
    decreases |s|
  {
    if s == [] then Some([])
    else
      match ReadVarint64(s)
      case Short => None
      case Read(v, n) =>
        match ReadPacked(s[n..])
        case None => None
        case Some(vs) => Some([v % TWO32] + vs)
  }

  lemma {:induction false} ReadPackedBack(vs: seq<UInt32>)
    ensures ReadPacked(Packed(vs)) == Some(vs)
  {
    if vs != [] {
      hide ReadVarint64, Varint;
      var t := Packed(vs[1..]);
      ReadVarint64Back(vs[0], t);
      assert (Varint(vs[0]) + t)[VarintSize(vs[0])..] == t;
      ReadPackedBack(vs[1..]);
      assert [vs[0]] + vs[1..] == vs;
    }
  }
}
