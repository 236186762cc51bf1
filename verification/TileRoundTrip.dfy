/** Parsing gives back what was serialised, for the messages of mbtiles/src/vector_tile.pb.cc. */
module TileRoundTrip {
  import opened Options
  import opened TileWire
  import opened TileMessages

  // ---------------------------------------------------------------- what can be serialised

  /** Bytes that are a plain series of records in their shortest form. */
  predicate Canonical(s: Bytes) {
    ReadAll(s).end == AtEnd && EncodeAll(ReadAll(s).recs) == s
  }

  /** A record whose bytes a message keeps as an unknown field, among them a geometry type out of range. */
  predicate ValueKeeps(r: Rec) { ApplyValue(NO_VALUE, r) == Some(NO_VALUE.(unknown := Kept([], r))) }
  predicate FeatureKeeps(r: Rec) { ApplyFeature(NO_FEATURE, r) == Some(NO_FEATURE.(unknown := Kept([], r))) }
  predicate LayerKeeps(r: Rec) { ApplyLayer(NO_LAYER, r) == Some(NO_LAYER.(unknown := Kept([], r))) }
  predicate TileKeeps(r: Rec) { ApplyTile(NO_TILE, r) == Some(NO_TILE.(unknown := Kept([], r))) }

  predicate AllKept(keeps: Rec -> bool, s: Bytes) {
    Canonical(s) && forall i | 0 <= i < |ReadAll(s).recs| :: keeps(ReadAll(s).recs[i])
  }

  /** Well-formed messages hold enumerators and unknown fields that are unknown to them. */
  predicate WellFormedValue(m: Value) { AllKept(ValueKeeps, m.unknown) }

  predicate WellFormedFeature(m: Feature) { ValidKind(m) && AllKept(FeatureKeeps, m.unknown) }

  predicate WellFormedLayer(m: Layer) {
    && (forall i | 0 <= i < |m.features| :: WellFormedFeature(m.features[i]))
    && (forall i | 0 <= i < |m.values| :: WellFormedValue(m.values[i]))
    && AllKept(LayerKeeps, m.unknown)
  }

  predicate WellFormedTile(m: Tile) {
    (forall i | 0 <= i < |m.layers| :: WellFormedLayer(m.layers[i])) && AllKept(TileKeeps, m.unknown)
  }

  lemma KindsOfLayer(m: Layer)
    requires WellFormedLayer(m)
    ensures ValidKinds(m)
  {
    assert forall i | 0 <= i < |m.features| :: WellFormedFeature(m.features[i]) ==> ValidKind(m.features[i]);
  }

  lemma KindsOfTile(m: Tile)
    requires WellFormedTile(m)
    ensures ValidTileKinds(m)
  {
    forall i | 0 <= i < |m.layers| ensures ValidKinds(m.layers[i]) {
      KindsOfLayer(m.layers[i]);
    }
  }

  predicate WithinLimit(o: Option<Bytes>) {
    o.Some? ==> |o.value| <= MAX_LENGTH
  }

  /** The runtime's limit holds for every length-delimited field. */
  predicate FitsValue(m: Value) { WithinLimit(m.text) }

  predicate FitsFeature(m: Feature) {
    |Packed(m.tags)| <= MAX_LENGTH && |Packed(m.geometry)| <= MAX_LENGTH && WithinLimit(m.raster)
  }

  predicate FitsLayer(m: Layer)
    requires ValidKinds(m)
  {
    && WithinLimit(m.name)
    && (forall i | 0 <= i < |m.features| :: FitsFeature(m.features[i]) && |WriteFeature(m.features[i])| <= MAX_LENGTH)
    && (forall i | 0 <= i < |m.keys| :: |m.keys[i]| <= MAX_LENGTH)
    && (forall i | 0 <= i < |m.values| :: FitsValue(m.values[i]) && |WriteValue(m.values[i])| <= MAX_LENGTH)
  }

  predicate FitsTile(m: Tile)
    requires ValidTileKinds(m)
  {
    forall i | 0 <= i < |m.layers| :: FitsLayer(m.layers[i]) && |WriteLayer(m.layers[i])| <= MAX_LENGTH
  }

  // ---------------------------------------------------------------- folding records

  lemma FoldNone<M>(apply: (M, Rec) -> Option<M>, m: M)
    ensures Fold(apply, m, []) == Some(m)
  {}

  lemma FoldSingle<M>(apply: (M, Rec) -> Option<M>, m: M, r: Rec)
    ensures Fold(apply, m, [r]) == apply(m, r)
  {
    assert [r][1..] == [];
  }

  /** If `rs` turns `a` into `b` and `qs` turns `b` into `c`, then `rs + qs` turns `a` into `c`. */
  lemma FoldChain<M>(apply: (M, Rec) -> Option<M>, a: M, b: M, c: M, rs: seq<Rec>, qs: seq<Rec>)
    requires Fold(apply, a, rs) == Some(b) && Fold(apply, b, qs) == Some(c)
    ensures Fold(apply, a, rs + qs) == Some(c)
  {
    FoldConcat(apply, a, rs, qs);
  }

  /** A message written as records and unknown bytes is read back by folding both. */
  lemma ParseWritten<M>(apply: (M, Rec) -> Option<M>, empty: M, bare: M, m: M, rs: seq<Rec>, unknown: Bytes)
    requires ValidRecs(rs) && Fold(apply, empty, rs) == Some(bare)
    requires Canonical(unknown) && Fold(apply, bare, ReadAll(unknown).recs) == Some(m)
    ensures Parse(apply, empty, EncodeAll(rs) + unknown) == Done(m)
  {
    hide ReadAll, Fold, EncodeAll;
    ReadAllBack(rs, unknown);
    FoldChain(apply, empty, bare, m, rs, ReadAll(unknown).recs);
  }

  lemma ValidConcat(rs: seq<Rec>, qs: seq<Rec>)
    requires ValidRecs(rs) && ValidRecs(qs)
    ensures ValidRecs(rs + qs)
  {
    hide ValidRec;
  }

  // ---------------------------------------------------------------- unknown fields

  lemma {:induction false} ValueUnknown(m: Value, us: seq<Rec>)
    requires forall i | 0 <= i < |us| :: ValueKeeps(us[i])
    ensures Fold(ApplyValue, m, us) == Some(m.(unknown := m.unknown + EncodeAll(us)))
    decreases us
  {
    hide Encode, ApplyValue, ValueKeeps;
    if us == [] {
      assert m.unknown + EncodeAll(us) == m.unknown;
    } else {
      KeptByValue(m, us[0]);
      ValueUnknown(m.(unknown := Kept(m.unknown, us[0])), us[1..]);
      assert (m.unknown + Encode(us[0])) + EncodeAll(us[1..]) == m.unknown + (Encode(us[0]) + EncodeAll(us[1..]));
    }
  }

  lemma {:induction false} FeatureUnknown(m: Feature, us: seq<Rec>)
    requires forall i | 0 <= i < |us| :: FeatureKeeps(us[i])
    ensures Fold(ApplyFeature, m, us) == Some(m.(unknown := m.unknown + EncodeAll(us)))
    decreases us
  {
    hide Encode, ApplyFeature, FeatureKeeps;
    if us == [] {
      assert m.unknown + EncodeAll(us) == m.unknown;
    } else {
      KeptByFeature(m, us[0]);
      FeatureUnknown(m.(unknown := Kept(m.unknown, us[0])), us[1..]);
      assert (m.unknown + Encode(us[0])) + EncodeAll(us[1..]) == m.unknown + (Encode(us[0]) + EncodeAll(us[1..]));
    }
  }

  lemma KeptByValue(m: Value, r: Rec)
    requires ValueKeeps(r)
    ensures ApplyValue(m, r) == Some(m.(unknown := Kept(m.unknown, r)))
  {
    hide ApplyValue, Encode;
    ValueCommutes(m, NO_VALUE, r);
    assert m.unknown + [] == m.unknown;
    assert m.unknown + ([] + Encode(r)) == m.unknown + Encode(r);
  }

  /** A record kept by the empty feature is kept by every feature. */
  lemma KeptByFeature(m: Feature, r: Rec)
    requires FeatureKeeps(r)
    ensures ApplyFeature(m, r) == Some(m.(unknown := Kept(m.unknown, r)))
  {
    hide ApplyFeature, Encode;
    FeatureCommutes(m, NO_FEATURE, r);
    assert m.tags + [] == m.tags && m.geometry + [] == m.geometry && m.unknown + [] == m.unknown;
    assert m.unknown + ([] + Encode(r)) == m.unknown + Encode(r);
  }

  lemma KeptByLayer(m: Layer, r: Rec)
    requires LayerKeeps(r)
    ensures ApplyLayer(m, r) == Some(m.(unknown := Kept(m.unknown, r)))
  {
    hide ApplyLayer, Encode;
    LayerCommutes(m, NO_LAYER, r);
    assert m.features + [] == m.features && m.keys + [] == m.keys && m.values + [] == m.values &&
           m.unknown + [] == m.unknown;
    assert m.unknown + ([] + Encode(r)) == m.unknown + Encode(r);
  }

  lemma KeptByTile(m: Tile, r: Rec)
    requires TileKeeps(r)
    ensures ApplyTile(m, r) == Some(m.(unknown := Kept(m.unknown, r)))
  {
    hide ApplyTile, Encode;
    TileCommutes(m, NO_TILE, r);
    assert m.layers + [] == m.layers && m.unknown + [] == m.unknown;
    assert m.unknown + ([] + Encode(r)) == m.unknown + Encode(r);
  }

  lemma {:induction false} LayerUnknown(m: Layer, us: seq<Rec>)
    requires forall i | 0 <= i < |us| :: LayerKeeps(us[i])
    ensures Fold(ApplyLayer, m, us) == Some(m.(unknown := m.unknown + EncodeAll(us)))
    decreases us
  {
    hide Encode, ApplyLayer, LayerKeeps;
    if us == [] {
      assert m.unknown + EncodeAll(us) == m.unknown;
    } else {
      KeptByLayer(m, us[0]);
      LayerUnknown(m.(unknown := Kept(m.unknown, us[0])), us[1..]);
      assert (m.unknown + Encode(us[0])) + EncodeAll(us[1..]) == m.unknown + (Encode(us[0]) + EncodeAll(us[1..]));
    }
  }

  lemma {:induction false} TileUnknown(m: Tile, us: seq<Rec>)
    requires forall i | 0 <= i < |us| :: TileKeeps(us[i])
    ensures Fold(ApplyTile, m, us) == Some(m.(unknown := m.unknown + EncodeAll(us)))
    decreases us
  {
    hide Encode, ApplyTile, TileKeeps;
    if us == [] {
      assert m.unknown + EncodeAll(us) == m.unknown;
    } else {
      KeptByTile(m, us[0]);
      TileUnknown(m.(unknown := Kept(m.unknown, us[0])), us[1..]);
      assert (m.unknown + Encode(us[0])) + EncodeAll(us[1..]) == m.unknown + (Encode(us[0]) + EncodeAll(us[1..]));
    }
  }

  // ---------------------------------------------------------------- values

  lemma ValueTextAndReals(m: Value) returns (rs: seq<Rec>, n: Value)
    requires FitsValue(m)
    ensures n == NO_VALUE.(text := m.text, float32 := m.float32, float64 := m.float64)
    ensures rs == IfSome(m.text, d => LenRec(1, d)) + IfSome(m.float32, b => Fixed32Rec(2, b)) +
                  IfSome(m.float64, b => Fixed64Rec(3, b))
    ensures ValidRecs(rs) && Fold(ApplyValue, NO_VALUE, rs) == Some(n)
  {
    hide Fold;
    var m1 := NO_VALUE.(text := m.text);
    var m2 := m1.(float32 := m.float32);
    n := m2.(float64 := m.float64);
    var r1 := IfSome(m.text, d => LenRec(1, d));
    var r2 := IfSome(m.float32, b => Fixed32Rec(2, b));
    var r3 := IfSome(m.float64, b => Fixed64Rec(3, b));
    FoldOption(ApplyValue, NO_VALUE, m1, r1);
    FoldOption(ApplyValue, m1, m2, r2);
    FoldOption(ApplyValue, m2, n, r3);
    rs := r1 + r2 + r3;
    hide ApplyValue;
    FoldChain(ApplyValue, NO_VALUE, m1, m2, r1, r2);
    FoldChain(ApplyValue, NO_VALUE, m2, n, r1 + r2, r3);
  }

  lemma ValueInts(m: Value, n: Value) returns (rs: seq<Rec>)
    requires n == NO_VALUE.(text := m.text, float32 := m.float32, float64 := m.float64)
    ensures rs == IfSome(m.int64, i => VarintRec(4, FromInt64(i))) + IfSome(m.uint64, v => VarintRec(5, v)) +
                  IfSome(m.sint64, i => VarintRec(6, ZigZag(i))) + IfSome(m.flag, f => VarintRec(7, if f then 1 else 0))
    ensures ValidRecs(rs) && Fold(ApplyValue, n, rs) == Some(m.(unknown := []))
  {
    hide Fold;
    var m4 := n.(int64 := m.int64);
    var m5 := m4.(uint64 := m.uint64);
    var m6 := m5.(sint64 := m.sint64);
    var m7 := m6.(flag := m.flag);
    var r4 := IfSome(m.int64, i => VarintRec(4, FromInt64(i)));
    var r5 := IfSome(m.uint64, v => VarintRec(5, v));
    var r6 := IfSome(m.sint64, i => VarintRec(6, ZigZag(i)));
    var r7 := IfSome(m.flag, f => VarintRec(7, if f then 1 else 0));
    FoldOption(ApplyValue, n, m4, r4);
    FoldOption(ApplyValue, m4, m5, r5);
    FoldOption(ApplyValue, m5, m6, r6);
    FoldOption(ApplyValue, m6, m7, r7);
    rs := r4 + r5 + r6 + r7;
    hide ApplyValue;
    FoldChain(ApplyValue, n, m4, m5, r4, r5);
    FoldChain(ApplyValue, n, m5, m6, r4 + r5, r6);
    FoldChain(ApplyValue, n, m6, m7, r4 + r5 + r6, r7);
  }

  lemma ValueRecsFold(m: Value)
    requires FitsValue(m)
    ensures ValidRecs(ValueRecs(m)) && Fold(ApplyValue, NO_VALUE, ValueRecs(m)) == Some(m.(unknown := []))
  {
    hide Fold, ApplyValue, IfSome, ValidRec;
    var rs, n := ValueTextAndReals(m);
    var qs := ValueInts(m, n);
    FoldChain(ApplyValue, NO_VALUE, n, m.(unknown := []), rs, qs);
    ValidConcat(rs, qs);
    assert ValueRecs(m) == rs + qs;
  }

  /** At most one record, which turns `a` into `b`; none leaves `a`. */
  lemma FoldOption<M>(apply: (M, Rec) -> Option<M>, a: M, b: M, rs: seq<Rec>)
    requires |rs| <= 1 && (if rs == [] then a == b else apply(a, rs[0]) == Some(b))
    ensures Fold(apply, a, rs) == Some(b)
  {
    if rs != [] {
      assert rs == [rs[0]];
      FoldSingle(apply, a, rs[0]);
    }
  }

  lemma ValueRoundTrip(m: Value)
    requires WellFormedValue(m) && FitsValue(m)
    ensures Parse(ApplyValue, NO_VALUE, WriteValue(m)) == Done(m)
  {
    hide Parse, ReadAll, Fold, EncodeAll, ValueRecs, ApplyValue, ValueKeeps;
    ValueRecsFold(m);
    ValueUnknown(m.(unknown := []), ReadAll(m.unknown).recs);
    assert [] + m.unknown == m.unknown;
    ParseWritten(ApplyValue, NO_VALUE, m.(unknown := []), m, ValueRecs(m), m.unknown);
  }

  // ---------------------------------------------------------------- features

  lemma FeatureHead(m: Feature, m2: Feature, rs: seq<Rec>)
    requires FitsFeature(m) && m2 == NO_FEATURE.(id := m.id, tags := m.tags)
    requires rs == IfSome(m.id, v => VarintRec(1, v)) + PackedRecs(2, m.tags)
    ensures ValidRecs(rs) && Fold(ApplyFeature, NO_FEATURE, rs) == Some(m2)
  {
    hide Fold, Packed, ReadPacked;
    var m1 := NO_FEATURE.(id := m.id);
    var r1 := IfSome(m.id, v => VarintRec(1, v));
    ReadPackedBack(m.tags);
    assert [] + m.tags == m.tags;
    FoldOption(ApplyFeature, NO_FEATURE, m1, r1);
    FoldOption(ApplyFeature, m1, m2, PackedRecs(2, m.tags));
    hide ApplyFeature;
    FoldChain(ApplyFeature, NO_FEATURE, m1, m2, r1, PackedRecs(2, m.tags));
  }

  lemma FeatureRecsFold(m: Feature)
    requires ValidKind(m) && FitsFeature(m)
    ensures ValidRecs(FeatureRecs(m)) && Fold(ApplyFeature, NO_FEATURE, FeatureRecs(m)) == Some(m.(unknown := []))
  {
    hide Fold, Packed, ReadPacked;
    var m2 := NO_FEATURE.(id := m.id, tags := m.tags);
    var m3 := m2.(kind := m.kind);
    var m4 := m3.(geometry := m.geometry);
    var m5 := m4.(raster := m.raster);
    var r2 := IfSome(m.id, v => VarintRec(1, v)) + PackedRecs(2, m.tags);
    var r3 := if m.kind.Some? then [VarintRec(3, m.kind.value)] else [];
    var r4 := PackedRecs(4, m.geometry);
    var r5 := IfSome(m.raster, d => LenRec(5, d));
    FeatureHead(m, m2, r2);
    ReadPackedBack(m.geometry);
    assert [] + m.geometry == m.geometry;
    FoldOption(ApplyFeature, m2, m3, r3);
    FoldOption(ApplyFeature, m3, m4, r4);
    FoldOption(ApplyFeature, m4, m5, r5);
    hide ApplyFeature;
    FoldChain(ApplyFeature, NO_FEATURE, m2, m3, r2, r3);
    FoldChain(ApplyFeature, NO_FEATURE, m3, m4, r2 + r3, r4);
    FoldChain(ApplyFeature, NO_FEATURE, m4, m5, r2 + r3 + r4, r5);
  }

  lemma FeatureRoundTrip(m: Feature)
    requires WellFormedFeature(m) && FitsFeature(m)
    ensures Parse(ApplyFeature, NO_FEATURE, WriteFeature(m)) == Done(m)
  {
    hide Parse, ReadAll, Fold, EncodeAll, FeatureRecs, ApplyFeature, FeatureKeeps, Packed;
    FeatureRecsFold(m);
    FeatureUnknown(m.(unknown := []), ReadAll(m.unknown).recs);
    assert [] + m.unknown == m.unknown;
    ParseWritten(ApplyFeature, NO_FEATURE, m.(unknown := []), m, FeatureRecs(m), m.unknown);
  }

  // ---------------------------------------------------------------- layers

  lemma {:induction false} FeaturesFold(m: Layer, fs: seq<Feature>)
    requires forall i | 0 <= i < |fs| :: ValidKind(fs[i])
    requires forall i | 0 <= i < |fs| ::
               WellFormedFeature(fs[i]) && FitsFeature(fs[i]) && |WriteFeature(fs[i])| <= MAX_LENGTH
    ensures ValidRecs(FeatureSeqRecs(fs))
    ensures Fold(ApplyLayer, m, FeatureSeqRecs(fs)) == Some(m.(features := m.features + fs))
    decreases fs
  {
    hide Parse, WriteFeature, WellFormedFeature, FitsFeature;
    if fs == [] {
      assert m.features + fs == m.features;
    } else {
      FeatureRoundTrip(fs[0]);
      var n := m.(features := m.features + [fs[0]]);
      var rs := FeatureSeqRecs(fs);
      assert ApplyLayer(m, rs[0]) == Some(n);
      hide ApplyLayer;
      assert rs[1..] == FeatureSeqRecs(fs[1..]);
      FeaturesFold(n, fs[1..]);
      assert m.features + [fs[0]] + fs[1..] == m.features + fs;
      assert rs == [rs[0]] + rs[1..];
      ValidConcat([rs[0]], rs[1..]);
    }
  }

  lemma {:induction false} KeysFold(m: Layer, ks: seq<Bytes>)
    requires forall i | 0 <= i < |ks| :: |ks[i]| <= MAX_LENGTH
    ensures ValidRecs(KeyRecs(ks))
    ensures Fold(ApplyLayer, m, KeyRecs(ks)) == Some(m.(keys := m.keys + ks))
    decreases ks
  {
    if ks == [] {
      assert m.keys + ks == m.keys;
    } else {
      var n := m.(keys := m.keys + [ks[0]]);
      assert ApplyLayer(m, KeyRecs(ks)[0]) == Some(n);
      hide ApplyLayer;
      assert KeyRecs(ks)[1..] == KeyRecs(ks[1..]);
      KeysFold(n, ks[1..]);
      assert m.keys + [ks[0]] + ks[1..] == m.keys + ks;
    }
  }

  lemma {:induction false} ValuesFold(m: Layer, vs: seq<Value>)
    requires forall i | 0 <= i < |vs| :: WellFormedValue(vs[i]) && FitsValue(vs[i]) && |WriteValue(vs[i])| <= MAX_LENGTH
    ensures ValidRecs(ValueSeqRecs(vs))
    ensures Fold(ApplyLayer, m, ValueSeqRecs(vs)) == Some(m.(values := m.values + vs))
    decreases vs
  {
    hide Parse, WriteValue, WellFormedValue, FitsValue;
    if vs == [] {
      assert m.values + vs == m.values;
    } else {
      ValueRoundTrip(vs[0]);
      var n := m.(values := m.values + [vs[0]]);
      var rs := ValueSeqRecs(vs);
      assert ApplyLayer(m, rs[0]) == Some(n);
      hide ApplyLayer;
      assert rs[1..] == ValueSeqRecs(vs[1..]);
      ValuesFold(n, vs[1..]);
      assert m.values + [vs[0]] + vs[1..] == m.values + vs;
      assert rs == [rs[0]] + rs[1..];
      ValidConcat([rs[0]], rs[1..]);
    }
  }

  lemma LayerRecsFold(m: Layer)
    requires WellFormedLayer(m) && ValidKinds(m) && FitsLayer(m)
    ensures ValidRecs(LayerRecs(m)) && Fold(ApplyLayer, NO_LAYER, LayerRecs(m)) == Some(m.(unknown := []))
  {
    hide Fold, Parse, WellFormedFeature, WellFormedValue, FitsFeature, FitsValue, WriteFeature, WriteValue,
      FeatureSeqRecs, ValueSeqRecs, KeyRecs, AllKept;
    var m1 := NO_LAYER.(name := m.name);
    var m2 := m1.(features := m.features);
    var m3 := m2.(keys := m.keys);
    var m4 := m3.(values := m.values);
    var m5 := m4.(extent := m.extent);
    var m6 := m5.(version := m.version);
    var r1 := IfSome(m.name, d => LenRec(1, d));
    var r2, r3, r4 := FeatureSeqRecs(m.features), KeyRecs(m.keys), ValueSeqRecs(m.values);
    var r5 := IfSome(m.extent, v => VarintRec(5, v));
    var r6 := IfSome(m.version, v => VarintRec(15, v));
    FoldOption(ApplyLayer, NO_LAYER, m1, r1);
    assert [] + m.features == m.features && [] + m.keys == m.keys && [] + m.values == m.values;
    FeaturesFold(m1, m.features);
    KeysFold(m2, m.keys);
    ValuesFold(m3, m.values);
    FoldOption(ApplyLayer, m4, m5, r5);
    FoldOption(ApplyLayer, m5, m6, r6);
    assert ValidRecs(r1) && ValidRecs(r5) && ValidRecs(r6);
    hide ApplyLayer, IfSome, ValidRec, ValidRecs;
    FoldChain(ApplyLayer, NO_LAYER, m1, m2, r1, r2);
    FoldChain(ApplyLayer, NO_LAYER, m2, m3, r1 + r2, r3);
    FoldChain(ApplyLayer, NO_LAYER, m3, m4, r1 + r2 + r3, r4);
    FoldChain(ApplyLayer, NO_LAYER, m4, m5, r1 + r2 + r3 + r4, r5);
    FoldChain(ApplyLayer, NO_LAYER, m5, m6, r1 + r2 + r3 + r4 + r5, r6);
    ValidConcat(r1, r2);
    ValidConcat(r1 + r2, r3);
    ValidConcat(r1 + r2 + r3, r4);
    ValidConcat(r1 + r2 + r3 + r4, r5);
    ValidConcat(r1 + r2 + r3 + r4 + r5, r6);
  }

  lemma LayerRoundTrip(m: Layer)
    requires WellFormedLayer(m) && ValidKinds(m) && FitsLayer(m)
    ensures Parse(ApplyLayer, NO_LAYER, WriteLayer(m)) == Done(m)
  {
    hide Parse, ReadAll, Fold, EncodeAll, LayerRecs, ApplyLayer, LayerKeeps, FitsLayer, WellFormedFeature;
    hide WellFormedValue;
    LayerRecsFold(m);
    LayerUnknown(m.(unknown := []), ReadAll(m.unknown).recs);
    assert [] + m.unknown == m.unknown;
    ParseWritten(ApplyLayer, NO_LAYER, m.(unknown := []), m, LayerRecs(m), m.unknown);
  }

  // ---------------------------------------------------------------- tiles

  lemma {:induction false} LayersFold(m: Tile, ls: seq<Layer>)
    requires forall i | 0 <= i < |ls| ::
        WellFormedLayer(ls[i]) && ValidKinds(ls[i]) && FitsLayer(ls[i]) && |WriteLayer(ls[i])| <= MAX_LENGTH
    ensures ValidRecs(LayerSeqRecs(ls))
    ensures Fold(ApplyTile, m, LayerSeqRecs(ls)) == Some(m.(layers := m.layers + ls))
    decreases ls
  {
    hide Parse, WriteLayer, WellFormedLayer, FitsLayer, ValidKinds;
    if ls == [] {
      assert m.layers + ls == m.layers;
    } else {
      LayerRoundTrip(ls[0]);
      var n := m.(layers := m.layers + [ls[0]]);
      var rs := LayerSeqRecs(ls);
      assert ApplyTile(m, rs[0]) == Some(n);
      hide ApplyTile;
      assert rs[1..] == LayerSeqRecs(ls[1..]);
      LayersFold(n, ls[1..]);
      assert m.layers + [ls[0]] + ls[1..] == m.layers + ls;
      assert rs == [rs[0]] + rs[1..];
      ValidConcat([rs[0]], rs[1..]);
    }
  }

  /** Parsing the serialisation of any tile gives back an equal tile. */
  lemma TileRoundTrip(m: Tile)
    requires WellFormedTile(m) && ValidTileKinds(m) && FitsTile(m)
    ensures Parse(ApplyTile, NO_TILE, WriteTile(m)) == Done(m)
  {
    hide Parse, ReadAll, Fold, EncodeAll, ApplyTile, TileKeeps, WellFormedLayer, FitsLayer, ValidKinds;
    assert [] + m.layers == m.layers && [] + m.unknown == m.unknown;
    LayersFold(NO_TILE, m.layers);
    TileUnknown(m.(unknown := []), ReadAll(m.unknown).recs);
    ParseWritten(ApplyTile, NO_TILE, m.(unknown := []), m, LayerSeqRecs(m.layers), m.unknown);
  }

  // ---------------------------------------------------------------- whatever was parsed can be written and read again

  lemma CanonicalAppend(s: Bytes, r: Rec)
    requires Canonical(s) && ValidRec(r)
    ensures Canonical(s + Encode(r)) && ReadAll(s + Encode(r)).recs == ReadAll(s).recs + [r]
  {
    hide Encode, ReadRec, ValidRec;
    var e := Encode(r);
    assert EncodeAll([r]) == e by { assert [r][1..] == [] && e + [] == e; }
    assert e + [] == e;
    ReadAllBack([r], []);
    assert [r] + ReadAll([]).recs == [r];
    ReadAllConcat(s, e);
    EncodeAllConcat(ReadAll(s).recs, [r]);
  }

  lemma KeptAppend(keeps: Rec -> bool, s: Bytes, r: Rec)
    requires AllKept(keeps, s) && ValidRec(r) && keeps(r)
    ensures AllKept(keeps, Kept(s, r))
  {
    hide Canonical, Encode, ReadAll;
    CanonicalAppend(s, r);
  }

  /** An invariant of every record step is an invariant of parsing. */
  lemma {:induction false} FoldInvariant<M(!new)>(apply: (M, Rec) -> Option<M>, inv: M -> bool, m: M, rs: seq<Rec>)
    requires ValidRecs(rs) && inv(m)
    requires forall x, r :: inv(x) && ValidRec(r) && apply(x, r).Some? ==> inv(apply(x, r).value)
    ensures Fold(apply, m, rs).Some? ==> inv(Fold(apply, m, rs).value)
    decreases rs
  {
    hide ValidRec;
    if rs != [] && apply(m, rs[0]).Some? {
      FoldInvariant(apply, inv, apply(m, rs[0]).value, rs[1..]);
    }
  }

  lemma ParseInvariant<M(!new)>(apply: (M, Rec) -> Option<M>, inv: M -> bool, m: M, s: Bytes)
    requires inv(m) && forall x, r :: inv(x) && ValidRec(r) && apply(x, r).Some? ==> inv(apply(x, r).value)
    ensures Parse(apply, m, s).Done? ==> inv(Parse(apply, m, s).m)
  {
    hide ReadAll, ValidRec;
    ReadAllValid(s);
    FoldInvariant(apply, inv, m, ReadAll(s).recs);
  }

  lemma NothingKept(keeps: Rec -> bool)
    ensures AllKept(keeps, [])
  {}

  lemma ValueStepWellFormed(m: Value, r: Rec)
    requires WellFormedValue(m) && ValidRec(r)
    ensures ApplyValue(m, r).Some? && WellFormedValue(ApplyValue(m, r).value)
  {
    hide AllKept, Encode, ValidRec, ToInt64, UnZigZag;
    if ValueKeeps(r) {
      KeptAppend(ValueKeeps, m.unknown, r);
      KeptByValue(m, r);
    }
  }

  lemma ParsedValueIsWellFormed(s: Bytes)
    ensures var p := Parse(ApplyValue, NO_VALUE, s); p.Done? ==> WellFormedValue(p.m)
  {
    hide Parse, ApplyValue, ValidRec, AllKept;
    forall x, r | WellFormedValue(x) && ValidRec(r)
      ensures ApplyValue(x, r).Some? ==> WellFormedValue(ApplyValue(x, r).value)
    {
      ValueStepWellFormed(x, r);
    }
    NothingKept(ValueKeeps);
    ParseInvariant(ApplyValue, WellFormedValue, NO_VALUE, s);
  }

  lemma FeatureStepWellFormed(m: Feature, r: Rec)
    requires WellFormedFeature(m) && ValidRec(r) && ApplyFeature(m, r).Some?
    ensures WellFormedFeature(ApplyFeature(m, r).value)
  {
    hide AllKept, Encode, ValidRec, ReadPacked;
    if FeatureKeeps(r) {
      KeptAppend(FeatureKeeps, m.unknown, r);
      KeptByFeature(m, r);
    }
  }

  lemma ParsedFeatureIsWellFormed(s: Bytes)
    ensures var p := Parse(ApplyFeature, NO_FEATURE, s); p.Done? ==> WellFormedFeature(p.m)
  {
    hide Parse, ApplyFeature, ValidRec, AllKept;
    forall x, r | WellFormedFeature(x) && ValidRec(r) && ApplyFeature(x, r).Some?
      ensures WellFormedFeature(ApplyFeature(x, r).value)
    {
      FeatureStepWellFormed(x, r);
    }
    NothingKept(FeatureKeeps);
    ParseInvariant(ApplyFeature, WellFormedFeature, NO_FEATURE, s);
  }

  lemma LayerStepWellFormed(m: Layer, r: Rec)
    requires WellFormedLayer(m) && ValidRec(r) && ApplyLayer(m, r).Some?
    ensures WellFormedLayer(ApplyLayer(m, r).value)
  {
    hide AllKept, Encode, ValidRec, Parse, WellFormedFeature, WellFormedValue;
    if LayerKeeps(r) {
      KeptAppend(LayerKeeps, m.unknown, r);
      KeptByLayer(m, r);
    } else if r.LenRec? {
      ParsedFeatureIsWellFormed(r.data);
      ParsedValueIsWellFormed(r.data);
    }
  }

  lemma ParsedLayerIsWellFormed(s: Bytes)
    ensures var p := Parse(ApplyLayer, NO_LAYER, s); p.Done? ==> WellFormedLayer(p.m)
  {
    hide Parse, ApplyLayer, ValidRec, AllKept, WellFormedFeature, WellFormedValue;
    forall x, r | WellFormedLayer(x) && ValidRec(r) && ApplyLayer(x, r).Some?
      ensures WellFormedLayer(ApplyLayer(x, r).value)
    {
      LayerStepWellFormed(x, r);
    }
    NothingKept(LayerKeeps);
    ParseInvariant(ApplyLayer, WellFormedLayer, NO_LAYER, s);
  }

  lemma TileStepWellFormed(m: Tile, r: Rec)
    requires WellFormedTile(m) && ValidRec(r) && ApplyTile(m, r).Some?
    ensures WellFormedTile(ApplyTile(m, r).value)
  {
    hide AllKept, Encode, ValidRec, Parse, WellFormedLayer;
    if TileKeeps(r) {
      KeptAppend(TileKeeps, m.unknown, r);
      KeptByTile(m, r);
    } else if r.LenRec? {
      ParsedLayerIsWellFormed(r.data);
    }
  }

  /** Whatever bytes a tile was parsed from, it is well-formed. */
  lemma ParsedTileIsWellFormed(s: Bytes)
    ensures var p := Parse(ApplyTile, NO_TILE, s); p.Done? ==> WellFormedTile(p.m)
  {
    hide Parse, ApplyTile, ValidRec, AllKept, WellFormedLayer;
    forall x, r | WellFormedTile(x) && ValidRec(r) && ApplyTile(x, r).Some?
      ensures WellFormedTile(ApplyTile(x, r).value)
    {
      TileStepWellFormed(x, r);
    }
    NothingKept(TileKeeps);
    ParseInvariant(ApplyTile, WellFormedTile, NO_TILE, s);
  }

  /** Any input that parses, in whatever encoding, is read again unchanged after it has been written out,
      unknown fields and out-of-range geometry types included. */
  lemma ReencodingIsFaithful(s: Bytes, m: Tile)
    requires Parse(ApplyTile, NO_TILE, s) == Done(m)
    ensures ValidTileKinds(m) && (FitsTile(m) ==> Parse(ApplyTile, NO_TILE, WriteTile(m)) == Done(m))
  {
    hide Parse, FitsTile;
    ParsedTileIsWellFormed(s);
    KindsOfTile(m);
    if FitsTile(m) {
      TileRoundTrip(m);
    }
  }

  // ---------------------------------------------------------------- alternative encodings

  /** Ways to put tags or geometry commands on the wire. */
  datatype Chunk =
    | PackedTags(vs: seq<UInt32>)
    | OneTag(v: UInt32)
    | PackedCommands(vs: seq<UInt32>)
    | OneCommand(v: UInt32)

  function ChunkRec(c: Chunk): Rec {
    match c
    case PackedTags(vs) => LenRec(2, Packed(vs))
    case OneTag(v) => VarintRec(2, v)
    case PackedCommands(vs) => LenRec(4, Packed(vs))
    case OneCommand(v) => VarintRec(4, v)
  }

  function ChunkRecs(cs: seq<Chunk>): seq<Rec> {
    seq(|cs|, i requires 0 <= i < |cs| => ChunkRec(cs[i]))
  }

  function ChunkTags(c: Chunk): seq<UInt32> {
    match c case PackedTags(vs) => vs case OneTag(v) => [v] case _ => []
  }

  function ChunkCommands(c: Chunk): seq<UInt32> {
    match c case PackedCommands(vs) => vs case OneCommand(v) => [v] case _ => []
  }

  function TagsOf(cs: seq<Chunk>): seq<UInt32> {
    if cs == [] then [] else ChunkTags(cs[0]) + TagsOf(cs[1..])
  }

  function CommandsOf(cs: seq<Chunk>): seq<UInt32> {
    if cs == [] then [] else ChunkCommands(cs[0]) + CommandsOf(cs[1..])
  }

  lemma ChunkIsApplied(m: Feature, c: Chunk)
    ensures ApplyFeature(m, ChunkRec(c)) ==
            Some(m.(tags := m.tags + ChunkTags(c), geometry := m.geometry + ChunkCommands(c)))
  {
    hide Packed, ReadPacked;
    var none: seq<UInt32> := [];
    assert m.tags + none == m.tags && m.geometry + none == m.geometry;
    match c
    case PackedTags(vs) => ReadPackedBack(vs);
    case PackedCommands(vs) => ReadPackedBack(vs);
    case OneTag(v) => assert v % TWO32 == v;
    case OneCommand(v) => assert v % TWO32 == v;
  }

  lemma {:induction false} ChunksFold(m: Feature, cs: seq<Chunk>)
    ensures Fold(ApplyFeature, m, ChunkRecs(cs)) ==
            Some(m.(tags := m.tags + TagsOf(cs), geometry := m.geometry + CommandsOf(cs)))
    decreases cs
  {
    hide ApplyFeature, ChunkRec, ChunkTags, ChunkCommands;
    if cs == [] {
      assert m.tags + [] == m.tags && m.geometry + [] == m.geometry;
    } else {
      var t, g := ChunkTags(cs[0]), ChunkCommands(cs[0]);
      var n := m.(tags := m.tags + t, geometry := m.geometry + g);
      ChunkIsApplied(m, cs[0]);
      assert ChunkRecs(cs)[0] == ChunkRec(cs[0]) && ChunkRecs(cs)[1..] == ChunkRecs(cs[1..]);
      ChunksFold(n, cs[1..]);
      assert m.tags + t + TagsOf(cs[1..]) == m.tags + (t + TagsOf(cs[1..]));
      assert m.geometry + g + CommandsOf(cs[1..]) == m.geometry + (g + CommandsOf(cs[1..]));
    }
  }

  /** Packed, unpacked and mixed encodings, however interleaved, parse to the same feature as the two packed fields. */
  lemma AlternativeEncodings(cs: seq<Chunk>)
    requires forall i | 0 <= i < |cs| :: ValidRec(ChunkRec(cs[i]))
    ensures Parse(ApplyFeature, NO_FEATURE, EncodeAll(ChunkRecs(cs))) ==
            Done(NO_FEATURE.(tags := TagsOf(cs), geometry := CommandsOf(cs)))
  {
    hide Parse, Fold, EncodeAll, ReadAll, ChunkRec, TagsOf, CommandsOf;
    ChunksFold(NO_FEATURE, cs);
    assert [] + TagsOf(cs) == TagsOf(cs) && [] + CommandsOf(cs) == CommandsOf(cs);
    var m := NO_FEATURE.(tags := TagsOf(cs), geometry := CommandsOf(cs));
    EmptyInput();
    FoldNone(ApplyFeature, m);
    ParseWritten(ApplyFeature, NO_FEATURE, m, m, ChunkRecs(cs), []);
    assert EncodeAll(ChunkRecs(cs)) + [] == EncodeAll(ChunkRecs(cs));
  }

  lemma EmptyInput()
    ensures Canonical([]) && ReadAll([]).recs == []
  {}

  /** A geometry type out of range does not touch the type; its record is kept and comes back when the feature is
      written. */
  lemma OutOfRangeKind(m: Feature, v: UInt64)
    requires WellFormedFeature(m) && !IsKind(v)
    ensures ApplyFeature(m, VarintRec(3, v)) == Some(m.(unknown := m.unknown + Encode(VarintRec(3, v))))
    ensures var n := m.(unknown := m.unknown + Encode(VarintRec(3, v)));
            FitsFeature(m) ==> Parse(ApplyFeature, NO_FEATURE, WriteFeature(n)) == Done(n)
  {
    hide Parse, WriteFeature, Encode, AllKept, FitsFeature;
    KeptAppend(FeatureKeeps, m.unknown, VarintRec(3, v));
    var n := m.(unknown := m.unknown + Encode(VarintRec(3, v)));
    if FitsFeature(m) {
      assert FitsFeature(n) by { FitsIgnoresUnknown(m, n); }
      FeatureRoundTrip(n);
    }
  }

  lemma FitsIgnoresUnknown(m: Feature, n: Feature)
    requires n == m.(unknown := n.unknown)
    ensures FitsFeature(n) == FitsFeature(m)
  {}
}
