/** The length limit of the runtime is exactly what keeps a message of mbtiles/src/vector_tile.pb.cc from being read
    back. */
module TileLimits {
  import opened Options
  import opened TileWire
  import opened TileMessages
  import opened TileRoundTrip

  predicate TooLong(r: Rec) {
    r.LenRec? && |r.data| > MAX_LENGTH
  }

  predicate GoodNumbers(rs: seq<Rec>) {
    forall i | 0 <= i < |rs| :: 1 <= rs[i].num < 16
  }

  lemma {:induction false} LongVarintIsNotRead(n: nat, t: Bytes, max: nat)
    requires n >= Pow128(max)
    ensures ReadVarint(Varint(n) + t, max) == Short
  {
    if max > 0 && n >= 128 {
      assert (Varint(n) + t)[1..] == Varint(n / 128) + t;
      LongVarintIsNotRead(n / 128, t, max - 1);
    }
  }

  lemma LongLengthIsNotRead(d: Bytes, t: Bytes)
    requires |d| > MAX_LENGTH
    ensures ReadLength(Varint(|d|) + (d + t)) == Short
  {
    if |d| < Pow128(5) {
      ReadVarintBack(|d|, d + t, 5);
    } else {
      LongVarintIsNotRead(|d|, d + t, 5);
    }
  }

  /** A record that is too long is not read, whatever follows. */
  lemma LongRecordIsBad(r: Rec, t: Bytes)
    requires TooLong(r) && 1 <= r.num < 16
    ensures ReadRec(Encode(r) + t) == Bad
  {
    hide Varint, ReadVarint;
    var tag := r.num * 8 + 2;
    var s := Encode(r) + t;
    TagIsRead(tag, Varint(|r.data|) + (r.data + t));
    assert s == Varint(tag) + (Varint(|r.data|) + (r.data + t));
    assert s[VarintSize(tag)..] == Varint(|r.data|) + (r.data + t);
    LongLengthIsNotRead(r.data, t);
    hide ReadLength, ReadTag;
  }

  lemma TagIsRead(tag: nat, t: Bytes)
    requires tag < 128
    ensures ReadTag(Varint(tag) + t) == TileWire.Read(tag, VarintSize(tag))
  {
    assert Pow128(5) > 128;
    ReadVarintBack(tag, t, 5);
  }

  /** A record that no message takes. */
  ghost predicate Refused<M(!new)>(apply: (M, Rec) -> Option<M>, r: Rec) {
    forall m :: apply(m, r) == None
  }

  /** One record that is too long or refused makes parsing fail. */
  lemma {:induction false} OneBadRecordFails<M(!new)>(
    apply: (M, Rec) -> Option<M>, m: M, rs: seq<Rec>, t: Bytes, r: Rec)
    requires GoodNumbers(rs) && r in rs && (TooLong(r) || Refused(apply, r))
    ensures Parse(apply, m, EncodeAll(rs) + t) == Failed
    decreases rs
  {
    hide Parse, ReadRec, Encode, Refused;
    var first, rest := rs[0], EncodeAll(rs[1..]) + t;
    assert EncodeAll(rs) + t == Encode(first) + rest;
    assert GoodNumbers(rs[1..]) by {
      assert forall i | 0 <= i < |rs| - 1 :: rs[1..][i] == rs[i + 1];
    }
    ParseStep(apply, m, Encode(first) + rest);
    if TooLong(first) {
      LongRecordIsBad(first, rest);
    } else {
      ReadRecBack(first, rest);
      assert (Encode(first) + rest)[|Encode(first)|..] == rest;
      if first == r {
        RefusedOnce(apply, m, r);
      } else if apply(m, first).Some? {
        assert rs == [first] + rs[1..];
        OneBadRecordFails(apply, apply(m, first).value, rs[1..], t, r);
      }
    }
  }

  lemma RefusedOnce<M(!new)>(apply: (M, Rec) -> Option<M>, m: M, r: Rec)
    requires Refused(apply, r)
    ensures apply(m, r) == None
  {}

  lemma NumbersConcat(rs: seq<Rec>, qs: seq<Rec>)
    requires GoodNumbers(rs) && GoodNumbers(qs)
    ensures GoodNumbers(rs + qs)
  {}

  lemma ValueNumbers(m: Value)
    ensures GoodNumbers(ValueRecs(m))
  {
    hide ZigZag, FromInt64;
    var r1, r2 := IfSome(m.text, d => LenRec(1, d)), IfSome(m.float32, b => Fixed32Rec(2, b));
    var r3, r4 := IfSome(m.float64, b => Fixed64Rec(3, b)), IfSome(m.int64, i => VarintRec(4, FromInt64(i)));
    var r5, r6 := IfSome(m.uint64, v => VarintRec(5, v)), IfSome(m.sint64, i => VarintRec(6, ZigZag(i)));
    var r7 := IfSome(m.flag, f => VarintRec(7, if f then 1 else 0));
    assert GoodNumbers(r1) && GoodNumbers(r2) && GoodNumbers(r3) && GoodNumbers(r4);
    assert GoodNumbers(r5) && GoodNumbers(r6) && GoodNumbers(r7);
    hide IfSome, GoodNumbers;
    NumbersConcat(r1, r2);
    NumbersConcat(r1 + r2, r3);
    NumbersConcat(r1 + r2 + r3, r4);
    NumbersConcat(r1 + r2 + r3 + r4, r5);
    NumbersConcat(r1 + r2 + r3 + r4 + r5, r6);
    NumbersConcat(r1 + r2 + r3 + r4 + r5 + r6, r7);
  }

  lemma FeatureNumbers(m: Feature)
    requires ValidKind(m)
    ensures GoodNumbers(FeatureRecs(m))
  {
    hide Packed;
  }

  lemma LayerNumbers(m: Layer)
    requires ValidKinds(m)
    ensures GoodNumbers(LayerRecs(m))
  {
    hide WriteFeature, WriteValue;
    var r1 := IfSome(m.name, d => LenRec(1, d));
    var r2, r3, r4 := FeatureSeqRecs(m.features), KeyRecs(m.keys), ValueSeqRecs(m.values);
    var r5 := IfSome(m.extent, v => VarintRec(5, v));
    var r6 := IfSome(m.version, v => VarintRec(15, v));
    hide FeatureSeqRecs, KeyRecs, ValueSeqRecs, IfSome;
    NumbersConcat(r1, r2);
    NumbersConcat(r1 + r2, r3);
    NumbersConcat(r1 + r2 + r3, r4);
    NumbersConcat(r1 + r2 + r3 + r4, r5);
    NumbersConcat(r1 + r2 + r3 + r4 + r5, r6);
  }

  /** A value that does not fit is not read back. */
  lemma ValueMustFit(m: Value)
    requires !FitsValue(m)
    ensures Parse(ApplyValue, NO_VALUE, WriteValue(m)) == Failed
  {
    hide Parse, ApplyValue, EncodeAll;
    ValueNumbers(m);
    var r := LenRec(1, m.text.value);
    assert IfSome(m.text, d => LenRec(1, d)) == [r];
    hide IfSome;
    assert r in ValueRecs(m);
    OneBadRecordFails(ApplyValue, NO_VALUE, ValueRecs(m), m.unknown, r);
  }

  lemma FeatureMustFit(m: Feature)
    requires ValidKind(m) && !FitsFeature(m)
    ensures Parse(ApplyFeature, NO_FEATURE, WriteFeature(m)) == Failed
  {
    hide Parse, ApplyFeature, EncodeAll, Packed;
    FeatureNumbers(m);
    NothingPacked();
    var r := if |Packed(m.tags)| > MAX_LENGTH then LenRec(2, Packed(m.tags))
             else if |Packed(m.geometry)| > MAX_LENGTH then LenRec(4, Packed(m.geometry))
             else LenRec(5, m.raster.value);
    assert TooLong(r);
    assert m.raster.Some? ==> LenRec(5, m.raster.value) in IfSome(m.raster, d => LenRec(5, d));
    assert r in FeatureRecs(m);
    OneBadRecordFails(ApplyFeature, NO_FEATURE, FeatureRecs(m), m.unknown, r);
  }

  lemma NothingPacked()
    ensures |Packed([])| == 0
  {}

  lemma LayerMustFit(m: Layer)
    requires ValidKinds(m) && !FitsLayer(m)
    ensures Parse(ApplyLayer, NO_LAYER, WriteLayer(m)) == Failed
  {
    LayerNumbers(m);
    var r := UnfitRecord(m);
    hide Parse, ApplyLayer, EncodeAll, FitsLayer, ValidKinds, LayerRecs, Refused;
    OneBadRecordFails(ApplyLayer, NO_LAYER, LayerRecs(m), m.unknown, r);
  }

  /** The record of a layer that is too long or that holds a message which does not fit. */
  lemma UnfitRecord(m: Layer) returns (r: Rec)
    requires ValidKinds(m) && !FitsLayer(m)
    ensures r in LayerRecs(m) && (TooLong(r) || Refused(ApplyLayer, r))
  {
    hide Parse, FitsFeature, FitsValue, WriteFeature, WriteValue, ValidKind;
    if !WithinLimit(m.name) {
      r := LenRec(1, m.name.value);
      assert IfSome(m.name, d => LenRec(1, d)) == [r];
    } else if i :| 0 <= i < |m.features| &&
                  !(FitsFeature(m.features[i]) && |WriteFeature(m.features[i])| <= MAX_LENGTH) {
      r := LenRec(2, WriteFeature(m.features[i]));
      assert FeatureSeqRecs(m.features)[i] == r;
      if |r.data| <= MAX_LENGTH {
        assert ValidKind(m.features[i]);
        FeatureMustFit(m.features[i]);
      }
    } else if i :| 0 <= i < |m.keys| && |m.keys[i]| > MAX_LENGTH {
      r := LenRec(3, m.keys[i]);
      assert KeyRecs(m.keys)[i] == r;
    } else {
      var i :| 0 <= i < |m.values| && !(FitsValue(m.values[i]) && |WriteValue(m.values[i])| <= MAX_LENGTH);
      r := LenRec(4, WriteValue(m.values[i]));
      assert ValueSeqRecs(m.values)[i] == r;
      if |r.data| <= MAX_LENGTH {
        ValueMustFit(m.values[i]);
      }
    }
  }

  /** A tile is read back exactly if all its length-delimited fields are within the limit. */
  lemma TileRoundTripExactly(m: Tile)
    requires WellFormedTile(m) && ValidTileKinds(m)
    ensures Parse(ApplyTile, NO_TILE, WriteTile(m)) == Done(m) <==> FitsTile(m)
  {
    if FitsTile(m) {
      hide Parse, WellFormedTile, FitsTile, ValidTileKinds, WriteTile;
      TileRoundTrip.TileRoundTrip(m);
    } else {
      TileMustFit(m);
    }
  }

  lemma TileMustFit(m: Tile)
    requires ValidTileKinds(m) && !FitsTile(m)
    ensures Parse(ApplyTile, NO_TILE, WriteTile(m)) == Failed
  {
    hide Parse, FitsLayer, WriteLayer, ValidKinds, EncodeAll;
    var i :| 0 <= i < |m.layers| && !(FitsLayer(m.layers[i]) && |WriteLayer(m.layers[i])| <= MAX_LENGTH);
    var r := LenRec(3, WriteLayer(m.layers[i]));
    assert LayerSeqRecs(m.layers)[i] == r;
    if |r.data| <= MAX_LENGTH {
      assert ValidKinds(m.layers[i]);
      LayerMustFit(m.layers[i]);
      assert Refused(ApplyTile, r);
    }
    hide ApplyTile, Refused;
    OneBadRecordFails(ApplyTile, NO_TILE, LayerSeqRecs(m.layers), m.unknown, r);
  }
}
