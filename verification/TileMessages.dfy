/** The four messages of mbtiles/src/vector_tile.pb.cc: how they are parsed, merged, measured and serialised.
    A message is described by the effect of one wire record on it; parsing is the fold of that effect. */
module TileMessages {
  import opened Options
  import opened TileWire

  // ---------------------------------------------------------------- values

  /** Presence (the has-bits) is the `Some` of an optional field. */
  datatype Value = Value(
    text: Option<Bytes>, float32: Option<UInt32>, float64: Option<UInt64>, int64: Option<Int64>,
    uint64: Option<UInt64>, sint64: Option<Int64>, flag: Option<bool>, unknown: Bytes)

  datatype Feature = Feature(
    id: Option<UInt64>, tags: seq<UInt32>, kind: Option<nat>, geometry: seq<UInt32>, raster: Option<Bytes>,
    unknown: Bytes)

  datatype Layer = Layer(
    name: Option<Bytes>, features: seq<Feature>, keys: seq<Bytes>, values: seq<Value>,
    extent: Option<UInt32>, version: Option<UInt32>, unknown: Bytes)

  datatype Tile = Tile(layers: seq<Layer>, unknown: Bytes)

  const NO_VALUE := Value(None, None, None, None, None, None, None, [])
  const NO_FEATURE := Feature(None, [], None, [], None, [])
  const NO_LAYER := Layer(None, [], [], [], None, None, [])
  const NO_TILE := Tile([], [])

  // ---------------------------------------------------------------- parsing

  /** `_InternalParse` reaches the end of its input, stops at a zero or end-group tag, or fails. */
  datatype Outcome<M> = Done(m: M) | Stopped(m: M) | Failed

  /** The effect of a series of records. */
  function Fold<M>(apply: (M, Rec) -> Option<M>, m: M, rs: seq<Rec>): Option<M>
    decreases rs
  {
    if rs == [] then Some(m)
    else
      match apply(m, rs[0])
      case None => None
      case Some(n) => Fold(apply, n, rs[1..])
  }

  function Parse<M>(apply: (M, Rec) -> Option<M>, m: M, s: Bytes): Outcome<M> {
    var l := ReadAll(s);
    match Fold(apply, m, l.recs)
    case None => Failed
    case Some(n) =>
      match l.end
      case AtEnd => Done(n)
      case AtStop => Stopped(n)
      case Broken => Failed
  }

  /** What a parse function does with a record it has no case for: the lite runtime keeps its bytes. */
  function Kept(unknown: Bytes, r: Rec): Bytes {
    unknown + Encode(r)
  }

  function ApplyValue(m: Value, r: Rec): Option<Value> {
    match r
    case LenRec(1, d) => Some(m.(text := Some(d)))
    case Fixed32Rec(2, b) => Some(m.(float32 := Some(b)))
    case Fixed64Rec(3, b) => Some(m.(float64 := Some(b)))
    case VarintRec(4, v) => Some(m.(int64 := Some(ToInt64(v))))
    case VarintRec(5, v) => Some(m.(uint64 := Some(v)))
    case VarintRec(6, v) => Some(m.(sint64 := Some(UnZigZag(v))))
    case VarintRec(7, v) => Some(m.(flag := Some(v != 0)))
    case _ => Some(m.(unknown := Kept(m.unknown, r)))
  }

  /** `Tile_GeomType_IsValid` gets the 64-bit number as an int: only its low 32 bits count. */
  predicate IsKind(v: UInt64) {
    v % TWO32 <= 3
  }

  function ApplyFeature(m: Feature, r: Rec): Option<Feature> {
    match r
    case VarintRec(1, v) => Some(m.(id := Some(v)))
    case LenRec(2, d) =>
      (match ReadPacked(d) case None => None case Some(vs) => Some(m.(tags := m.tags + vs)))
    case VarintRec(2, v) => Some(m.(tags := m.tags + [v % TWO32]))
    case VarintRec(3, v) =>
      if IsKind(v) then Some(m.(kind := Some(v % TWO32))) else Some(m.(unknown := Kept(m.unknown, r)))
    case LenRec(4, d) =>
      (match ReadPacked(d) case None => None case Some(vs) => Some(m.(geometry := m.geometry + vs)))
    case VarintRec(4, v) => Some(m.(geometry := m.geometry + [v % TWO32]))
    case LenRec(5, d) => Some(m.(raster := Some(d)))
    case _ => Some(m.(unknown := Kept(m.unknown, r)))
  }

  function ApplyLayer(m: Layer, r: Rec): Option<Layer> {
    match r
    case LenRec(1, d) => Some(m.(name := Some(d)))
    case LenRec(2, d) =>
      (match Parse(ApplyFeature, NO_FEATURE, d) case Done(f) => Some(m.(features := m.features + [f])) case _ => None)
    case LenRec(3, d) => Some(m.(keys := m.keys + [d]))
    case LenRec(4, d) =>
      (match Parse(ApplyValue, NO_VALUE, d) case Done(v) => Some(m.(values := m.values + [v])) case _ => None)
    case VarintRec(5, v) => Some(m.(extent := Some(v % TWO32)))
    case VarintRec(15, v) => Some(m.(version := Some(v % TWO32)))
    case _ => Some(m.(unknown := Kept(m.unknown, r)))
  }

  function ApplyTile(m: Tile, r: Rec): Option<Tile> {
    match r
    case LenRec(3, d) =>
      (match Parse(ApplyLayer, NO_LAYER, d) case Done(l) => Some(m.(layers := m.layers + [l])) case _ => None)
    case _ => Some(m.(unknown := Kept(m.unknown, r)))
  }

  // ---------------------------------------------------------------- merging

  function Newer<T>(a: Option<T>, b: Option<T>): Option<T> {
    if b.Some? then b else a
  }

  function MergeValue(a: Value, b: Value): Value {
    Value(Newer(a.text, b.text), Newer(a.float32, b.float32), Newer(a.float64, b.float64), Newer(a.int64, b.int64),
          Newer(a.uint64, b.uint64), Newer(a.sint64, b.sint64), Newer(a.flag, b.flag), a.unknown + b.unknown)
  }

  function MergeFeature(a: Feature, b: Feature): Feature {
    Feature(Newer(a.id, b.id), a.tags + b.tags, Newer(a.kind, b.kind), a.geometry + b.geometry,
            Newer(a.raster, b.raster), a.unknown + b.unknown)
  }

  function MergeLayer(a: Layer, b: Layer): Layer {
    Layer(Newer(a.name, b.name), a.features + b.features, a.keys + b.keys, a.values + b.values,
          Newer(a.extent, b.extent), Newer(a.version, b.version), a.unknown + b.unknown)
  }

  function MergeTile(a: Tile, b: Tile): Tile {
    Tile(a.layers + b.layers, a.unknown + b.unknown)
  }

  // ---------------------------------------------------------------- serialising

  /** The records of an optional field. */
  function IfSome<T>(o: Option<T>, rec: T -> Rec): seq<Rec> {
    match o
    case None => []
    case Some(v) => [rec(v)]
  }

  function PackedRecs(num: nat, vs: seq<UInt32>): seq<Rec> {
    if vs == [] then [] else [LenRec(num, Packed(vs))]
  }

  function ValueRecs(m: Value): seq<Rec> {
    IfSome(m.text, d => LenRec(1, d)) +
    IfSome(m.float32, b => Fixed32Rec(2, b)) +
    IfSome(m.float64, b => Fixed64Rec(3, b)) +
    IfSome(m.int64, i => VarintRec(4, FromInt64(i))) +
    IfSome(m.uint64, v => VarintRec(5, v)) +
    IfSome(m.sint64, i => VarintRec(6, ZigZag(i))) +
    IfSome(m.flag, f => VarintRec(7, if f then 1 else 0))
  }

  function WriteValue(m: Value): Bytes {
    EncodeAll(ValueRecs(m)) + m.unknown
  }

  /** The C++ setter takes enumerators only. */
  predicate ValidKind(m: Feature) {
    m.kind.Some? ==> m.kind.value <= 3
  }

  function FeatureRecs(m: Feature): seq<Rec>
    requires ValidKind(m)
  {
    IfSome(m.id, v => VarintRec(1, v)) +
    PackedRecs(2, m.tags) +
    (if m.kind.Some? then [VarintRec(3, m.kind.value)] else []) +
    PackedRecs(4, m.geometry) +
    IfSome(m.raster, d => LenRec(5, d))
  }

  function WriteFeature(m: Feature): Bytes
    requires ValidKind(m)
  {
    EncodeAll(FeatureRecs(m)) + m.unknown
  }

  predicate ValidKinds(m: Layer) {
    forall i | 0 <= i < |m.features| :: ValidKind(m.features[i])
  }

  function FeatureSeqRecs(fs: seq<Feature>): seq<Rec>
    requires forall i | 0 <= i < |fs| :: ValidKind(fs[i])
  {
    seq(|fs|, i requires 0 <= i < |fs| => LenRec(2, WriteFeature(fs[i])))
  }

  function KeyRecs(ks: seq<Bytes>): seq<Rec> {
    seq(|ks|, i requires 0 <= i < |ks| => LenRec(3, ks[i]))
  }

  function ValueSeqRecs(vs: seq<Value>): seq<Rec> {
    seq(|vs|, i requires 0 <= i < |vs| => LenRec(4, WriteValue(vs[i])))
  }

  function LayerRecs(m: Layer): seq<Rec>
    requires ValidKinds(m)
  {
    IfSome(m.name, d => LenRec(1, d)) + FeatureSeqRecs(m.features) + KeyRecs(m.keys) + ValueSeqRecs(m.values) +
    IfSome(m.extent, v => VarintRec(5, v)) + IfSome(m.version, v => VarintRec(15, v))
  }

  function WriteLayer(m: Layer): Bytes
    requires ValidKinds(m)
  {
    EncodeAll(LayerRecs(m)) + m.unknown
  }

  predicate ValidTileKinds(m: Tile) {
    forall i | 0 <= i < |m.layers| :: ValidKinds(m.layers[i])
  }

  function LayerSeqRecs(ls: seq<Layer>): seq<Rec>
    requires forall i | 0 <= i < |ls| :: ValidKinds(ls[i])
  {
    seq(|ls|, i requires 0 <= i < |ls| => LenRec(3, WriteLayer(ls[i])))
  }

  function WriteTile(m: Tile): Bytes
    requires ValidTileKinds(m)
  {
    EncodeAll(LayerSeqRecs(m.layers)) + m.unknown
  }

  // ---------------------------------------------------------------- parsing, record by record

  /** Parsing reads one record and goes on behind it. */
  lemma ParseStep<M>(apply: (M, Rec) -> Option<M>, m: M, s: Bytes)
    ensures Parse(apply, m, s) ==
            if s == [] then Done(m)
            else match ReadRec(s)
                 case Stop => Stopped(m)
                 case Bad => Failed
                 case Next(r, n) =>
                   match apply(m, r)
                   case None => Failed
                   case Some(x) => Parse(apply, x, s[n..])
  {
    hide ReadRec;
    if s != [] && ReadRec(s).Next? {
      var r, n := ReadRec(s).r, ReadRec(s).n;
      var l := ReadAll(s[n..]);
      assert ([r] + l.recs)[0] == r && ([r] + l.recs)[1..] == l.recs;
    }
  }

  lemma {:induction false} FoldConcat<M>(apply: (M, Rec) -> Option<M>, m: M, rs: seq<Rec>, qs: seq<Rec>)
    ensures Fold(apply, m, rs + qs) ==
            match Fold(apply, m, rs) case None => None case Some(n) => Fold(apply, n, qs)
    decreases rs
  {
    if rs == [] {
      assert rs + qs == qs;
    } else {
      assert (rs + qs)[1..] == rs[1..] + qs;
      if apply(m, rs[0]).Some? {
        FoldConcat(apply, apply(m, rs[0]).value, rs[1..], qs);
      }
    }
  }

  /** Parsing `a + b` is parsing `a` and then `b` into the same message. */
  lemma ParseConcat<M>(apply: (M, Rec) -> Option<M>, m: M, a: Bytes, b: Bytes)
    requires Parse(apply, m, a).Done?
    ensures Parse(apply, m, a + b) == Parse(apply, Parse(apply, m, a).m, b)
  {
    hide ReadAll;
    ReadAllConcat(a, b);
    FoldConcat(apply, m, ReadAll(a).recs, ReadAll(b).recs);
  }

  // ---------------------------------------------------------------- parsing is merging

  /** Applying a record after a merge is the same as applying it before. */
  ghost predicate Commutes<M>(apply: (M, Rec) -> Option<M>, merge: (M, M) -> M, a: M, b: M, r: Rec) {
    match apply(b, r)
    case None => apply(merge(a, b), r) == None
    case Some(c) => apply(merge(a, b), r) == Some(merge(a, c))
  }

  lemma {:induction false} FoldMerge<M(!new)>(
    apply: (M, Rec) -> Option<M>, merge: (M, M) -> M, a: M, b: M, rs: seq<Rec>)
    requires forall x, y, r :: Commutes(apply, merge, x, y, r)
    ensures match Fold(apply, b, rs)
            case None => Fold(apply, merge(a, b), rs) == None
            case Some(c) => Fold(apply, merge(a, b), rs) == Some(merge(a, c))
    decreases rs
  {
    if rs != [] {
      assert Commutes(apply, merge, a, b, rs[0]);
      if apply(b, rs[0]).Some? {
        FoldMerge(apply, merge, a, apply(b, rs[0]).value, rs[1..]);
      }
    }
  }

  /** Parsing into `m` is parsing into an empty message and merging the result into `m`. */
  ghost predicate ParsesByMerging<M>(apply: (M, Rec) -> Option<M>, merge: (M, M) -> M, empty: M, m: M, s: Bytes) {
    Parse(apply, m, s) ==
    match Parse(apply, empty, s)
    case Failed => Failed
    case Done(x) => Done(merge(m, x))
    case Stopped(x) => Stopped(merge(m, x))
  }

  lemma ParseIsMerge<M(!new)>(apply: (M, Rec) -> Option<M>, merge: (M, M) -> M, empty: M, m: M, s: Bytes)
    requires (forall x, y, r :: Commutes(apply, merge, x, y, r)) && merge(m, empty) == m
    ensures ParsesByMerging(apply, merge, empty, m, s)
  {
    hide ReadAll;
    FoldMerge(apply, merge, m, empty, ReadAll(s).recs);
  }

  lemma ValueCommutes(a: Value, b: Value, r: Rec)
    ensures Commutes(ApplyValue, MergeValue, a, b, r)
  {
    hide Encode, UnZigZag, ToInt64;
    assert a.unknown + (b.unknown + Encode(r)) == (a.unknown + b.unknown) + Encode(r);
    match r
    case VarintRec(n, _) =>
      if n == 4 || n == 5 {
      } else if n == 6 || n == 7 {
      } else {
      }
    case _ =>
  }

  lemma FeatureCommutes(a: Feature, b: Feature, r: Rec)
    ensures Commutes(ApplyFeature, MergeFeature, a, b, r)
  {
    hide Encode, ReadPacked;
    assert a.unknown + (b.unknown + Encode(r)) == (a.unknown + b.unknown) + Encode(r);
    match r
    case VarintRec(_, v) => ListsAssociate(a, b, [v % TWO32]);
    case LenRec(_, d) =>
      if ReadPacked(d).Some? {
        ListsAssociate(a, b, ReadPacked(d).value);
      }
    case _ =>
  }

  lemma ListsAssociate(a: Feature, b: Feature, vs: seq<UInt32>)
    ensures a.tags + (b.tags + vs) == (a.tags + b.tags) + vs
    ensures a.geometry + (b.geometry + vs) == (a.geometry + b.geometry) + vs
  {}

  lemma LayerCommutes(a: Layer, b: Layer, r: Rec)
    ensures Commutes(ApplyLayer, MergeLayer, a, b, r)
  {
    hide Encode, Parse;
    assert a.unknown + (b.unknown + Encode(r)) == (a.unknown + b.unknown) + Encode(r);
    match r
    case LenRec(num, d) =>
      if num == 2 {
        FeatureInLayerCommutes(a, b, d);
      } else if num == 4 {
        ValueInLayerCommutes(a, b, d);
      } else {
        assert a.keys + (b.keys + [d]) == (a.keys + b.keys) + [d];
      }
    case _ =>
  }

  lemma FeatureInLayerCommutes(a: Layer, b: Layer, d: Bytes)
    ensures Commutes(ApplyLayer, MergeLayer, a, b, LenRec(2, d))
  {
    hide Encode, Parse;
    match Parse(ApplyFeature, NO_FEATURE, d) {
      case Done(f) => assert a.features + (b.features + [f]) == (a.features + b.features) + [f];
      case _ =>
    }
  }

  lemma ValueInLayerCommutes(a: Layer, b: Layer, d: Bytes)
    ensures Commutes(ApplyLayer, MergeLayer, a, b, LenRec(4, d))
  {
    hide Encode, Parse;
    match Parse(ApplyValue, NO_VALUE, d) {
      case Done(v) => assert a.values + (b.values + [v]) == (a.values + b.values) + [v];
      case _ =>
    }
  }

  lemma TileCommutes(a: Tile, b: Tile, r: Rec)
    ensures Commutes(ApplyTile, MergeTile, a, b, r)
  {
    hide Encode, Parse;
    assert a.unknown + (b.unknown + Encode(r)) == (a.unknown + b.unknown) + Encode(r);
    if r.LenRec? {
      match Parse(ApplyLayer, NO_LAYER, r.data) {
        case Done(l) => assert a.layers + (b.layers + [l]) == (a.layers + b.layers) + [l];
        case _ =>
      }
    }
  }

  /** For every message and every input: parsing into the message is merging into it. */
  lemma ValueParsingIsMerging(m: Value, s: Bytes)
    ensures ParsesByMerging(ApplyValue, MergeValue, NO_VALUE, m, s)
  {
    hide Commutes, ParsesByMerging;
    forall x, y, r ensures Commutes(ApplyValue, MergeValue, x, y, r) { ValueCommutes(x, y, r); }
    assert m.unknown + [] == m.unknown;
    ParseIsMerge(ApplyValue, MergeValue, NO_VALUE, m, s);
  }

  lemma FeatureParsingIsMerging(m: Feature, s: Bytes)
    ensures ParsesByMerging(ApplyFeature, MergeFeature, NO_FEATURE, m, s)
  {
    hide Commutes, ParsesByMerging;
    forall x, y, r ensures Commutes(ApplyFeature, MergeFeature, x, y, r) { FeatureCommutes(x, y, r); }
    assert m.unknown + [] == m.unknown && m.tags + [] == m.tags && m.geometry + [] == m.geometry;
    ParseIsMerge(ApplyFeature, MergeFeature, NO_FEATURE, m, s);
  }

  lemma LayerParsingIsMerging(m: Layer, s: Bytes)
    ensures ParsesByMerging(ApplyLayer, MergeLayer, NO_LAYER, m, s)
  {
    hide Commutes, ParsesByMerging;
    forall x, y, r ensures Commutes(ApplyLayer, MergeLayer, x, y, r) { LayerCommutes(x, y, r); }
    assert m.unknown + [] == m.unknown && m.features + [] == m.features && m.keys + [] == m.keys &&
           m.values + [] == m.values;
    ParseIsMerge(ApplyLayer, MergeLayer, NO_LAYER, m, s);
  }

  lemma TileParsingIsMerging(m: Tile, s: Bytes)
    ensures ParsesByMerging(ApplyTile, MergeTile, NO_TILE, m, s)
  {
    hide Commutes, ParsesByMerging;
    forall x, y, r ensures Commutes(ApplyTile, MergeTile, x, y, r) { TileCommutes(x, y, r); }
    assert m.unknown + [] == m.unknown && m.layers + [] == m.layers;
    ParseIsMerge(ApplyTile, MergeTile, NO_TILE, m, s);
  }

  /** Concatenating two encodings is merging the messages they encode; the same holds for the other three types. */
  lemma ConcatenationIsMerge(a: Bytes, b: Bytes, x: Tile, y: Tile)
    requires Parse(ApplyTile, NO_TILE, a) == Done(x) && Parse(ApplyTile, NO_TILE, b) == Done(y)
    ensures Parse(ApplyTile, NO_TILE, a + b) == Done(MergeTile(x, y))
  {
    hide Parse;
    ParseConcat(ApplyTile, NO_TILE, a, b);
    TileParsingIsMerging(x, b);
  }

  lemma ConcatenationIsMergeOfParts(a: Bytes, b: Bytes)
    ensures var p, q := Parse(ApplyValue, NO_VALUE, a), Parse(ApplyValue, NO_VALUE, b);
            p.Done? && q.Done? ==> Parse(ApplyValue, NO_VALUE, a + b) == Done(MergeValue(p.m, q.m))
    ensures var p, q := Parse(ApplyFeature, NO_FEATURE, a), Parse(ApplyFeature, NO_FEATURE, b);
            p.Done? && q.Done? ==> Parse(ApplyFeature, NO_FEATURE, a + b) == Done(MergeFeature(p.m, q.m))
    ensures var p, q := Parse(ApplyLayer, NO_LAYER, a), Parse(ApplyLayer, NO_LAYER, b);
            p.Done? && q.Done? ==> Parse(ApplyLayer, NO_LAYER, a + b) == Done(MergeLayer(p.m, q.m))
  {
    hide Parse;
    var v, f, l := Parse(ApplyValue, NO_VALUE, a), Parse(ApplyFeature, NO_FEATURE, a), Parse(ApplyLayer, NO_LAYER, a);
    if v.Done? {
      ParseConcat(ApplyValue, NO_VALUE, a, b);
      ValueParsingIsMerging(v.m, b);
    }
    if f.Done? {
      ParseConcat(ApplyFeature, NO_FEATURE, a, b);
      FeatureParsingIsMerging(f.m, b);
    }
    if l.Done? {
      ParseConcat(ApplyLayer, NO_LAYER, a, b);
      LayerParsingIsMerging(l.m, b);
    }
  }
}
