/** Tile of mbtiles/src/vector_tile.pb.cc as a mutable object that owns its layers, and what passing it over the wire
    does. */
module TileWhole {
  import opened Options
  import opened TileWire
  import opened TileMessages
  import opened TileRoundTrip
  import opened TileObjects
  import opened TileLayers

  lemma LayerStep(m: Tile, s: Bytes)
    ensures Step(ApplyTile, m, 26, s) ==
            match ReadLength(s)
            case Short => None
            case Read(v, n) =>
              match Parse(ApplyLayer, NO_LAYER, s[n..n + v])
              case Done(l) => Some((m.(layers := m.layers + [l]), n + v))
              case _ => None
  {
    hide ReadLength, Parse;
  }

  lemma UnknownTileStep(m: Tile, tag: nat, s: Bytes)
    requires tag != 26
    ensures Step(ApplyTile, m, tag, s) ==
            match ReadUnknown(tag, s) case None => None case Some(u) => Some((m.(unknown := m.unknown + u.0), u.1))
  {
    hide ReadVarint64, ReadLength, ReadFixed32, ReadFixed64, Encode, Parse;
    if tag / 8 != 0 && ReadPayload(tag, s).Next? {
      var r := ReadPayload(tag, s).r;
      hide ReadPayload;
      assert r.num * 8 + WireType(r) == tag;
    }
  }

  predicate LayerIsComplete(l: Layer) {
    l.name.Some? && l.version.Some?
  }

  class TileObject {
    var layers: seq<LayerObject>
    var unknown: Bytes
    var cachedSize: nat
    ghost var Repr: set<object>

    /** The tile owns its layers, and no two layers share anything. */
    ghost predicate Valid()
      reads this, Repr
      ensures Valid() ==> this in Repr
    {
      && this in Repr
      && (forall i | 0 <= i < |layers| :: layers[i] in Repr && layers[i].Repr <= Repr && this !in layers[i].Repr)
      && (forall i | 0 <= i < |layers| :: layers[i].Valid() && layers[i].Consistent(NO_LAYER_BITS))
      && (forall i, j | 0 <= i < j < |layers| :: layers[i].Repr !! layers[j].Repr)
    }

    ghost function LayersOf(): (r: seq<Layer>)
      requires Valid()
      reads this, Repr
      ensures |r| == |layers| && forall i | 0 <= i < |r| :: r[i] == layers[i].Contents() && ValidKinds(r[i])
    {
      seq(|layers|, i requires 0 <= i < |layers| && Valid() reads this, Repr => layers[i].Contents())
    }

    ghost function Contents(): (m: Tile)
      requires Valid()
      reads this, Repr
      ensures ValidTileKinds(m)
    {
      Tile(LayersOf(), unknown)
    }

    constructor ()
      ensures Valid() && fresh(Repr) && Contents() == NO_TILE
    {
      layers, unknown, cachedSize := [], [], 0;
      Repr := {this};
    }

    method Clear()
      requires Valid()
      modifies this
      ensures Valid() && Repr == old(Repr) && Contents() == NO_TILE
    {
      layers, unknown := [], [];
    }

    /** A new layer takes its place at the end. */
    method AppendLayer(l: LayerObject, ghost c: Layer)
      requires Valid() && l.Valid() && l.Consistent(NO_LAYER_BITS) && l.Repr !! Repr && l.Contents() == c
      modifies `layers, `Repr
      ensures Valid() && Repr == old(Repr) + l.Repr
      ensures LayersOf() == old(LayersOf()) + [c] && unknown == old(unknown)
    {
      hide LayerObject.Valid, LayerObject.Consistent, LayerObject.Contents;
      ghost var was := LayersOf();
      layers := layers + [l];
      Repr := Repr + l.Repr;
      assert LayersOf() == was + [c];
    }

    method AddLayer(payload: Bytes) returns (ok: bool)
      requires Valid()
      modifies this
      ensures Valid() && fresh(Repr - old(Repr))
      ensures match Parse(ApplyLayer, NO_LAYER, payload)
              case Done(l) => ok && Contents() == old(Contents()).(layers := old(Contents()).layers + [l])
              case _ => !ok
    {
      hide Parse, LayerObject.Valid, LayerObject.Consistent, LayerObject.Contents;
      var l := new LayerObject();
      var end := l.InternalParse(payload);
      AppendLayer(l, l.Contents());
      ok := end == AtLimit;
    }

    /** The inner loop over consecutive layers. */
    method ParseLayers(s: Bytes) returns (taken: Option<nat>)
      requires Valid()
      modifies this
      ensures Valid() && fresh(Repr - old(Repr))
      ensures match taken
              case None => Behind(ApplyTile, old(Contents()), 26, s) == Failed
              case Some(n) => n <= |s| && Behind(ApplyTile, old(Contents()), 26, s) ==
                              Parse(ApplyTile, Contents(), s[n..])
    {
      hide Parse, Step, ReadLength, ApplyTile, Valid, Contents;
      taken := None;
      var ptr := 0;
      assert s[0..] == s;
      while true
        invariant Valid() && fresh(Repr - old(Repr))
        invariant ptr <= |s| && Behind(ApplyTile, old(Contents()), 26, s) == Behind(ApplyTile, Contents(), 26, s[ptr..])
        decreases |s| - ptr
      {
        ghost var rest := s[ptr..];
        LayerStep(Contents(), rest);
        var r := ReadLength(s[ptr..]);
        if r == Short {
          return;
        }
        var ok := AddLayer(s[ptr..][r.n..r.n + r.value]);
        if !ok {
          return;
        }
        assert rest[r.n + r.value..] == s[ptr + r.n + r.value..];
        ptr := ptr + r.n + r.value;
        if ptr == |s| || s[ptr] != 26 {
          break;
        }
        SameTagAgain(ApplyTile, Contents(), 26, s[ptr..]);
        assert s[ptr..][1..] == s[ptr + 1..];
        ptr := ptr + 1;
      }
      taken := Some(ptr);
    }

    /** A field that is not a layer. */
    method KeepUnknown(tag: nat, s: Bytes) returns (taken: Option<nat>)
      requires Valid() && tag != 26
      modifies `unknown
      ensures Valid()
      ensures match taken
              case None => Behind(ApplyTile, old(Contents()), tag, s) == Failed
              case Some(n) => n <= |s| && Behind(ApplyTile, old(Contents()), tag, s) ==
                              Parse(ApplyTile, Contents(), s[n..])
    {
      hide Parse, Step, ReadUnknown, ApplyTile, LayerObject.Valid, LayerObject.Consistent, LayerObject.Contents;
      taken := None;
      UnknownTileStep(Contents(), tag, s);
      UnknownFits(tag, s);
      var u := ReadUnknown(tag, s);
      if u.Some? {
        MergeUnknown(u.value.0);
        taken := Some(u.value.1);
      }
    }

    method InternalParse(data: Bytes) returns (end: ParseEnd)
      requires Valid()
      modifies this
      ensures Valid() && fresh(Repr - old(Repr))
      ensures Agrees(Parse(ApplyTile, old(Contents()), data), end, Contents())
    {
      hide Parse, ReadTag, Behind, ApplyTile, Valid, Contents;
      var ptr := 0;
      end := AtLimit;
      assert data[0..] == data;
      while ptr < |data|
        invariant Valid() && fresh(Repr - old(Repr))
        invariant ptr <= |data| && end == AtLimit
        invariant Parse(ApplyTile, old(Contents()), data) == Parse(ApplyTile, Contents(), data[ptr..])
        decreases |data| - ptr
      {
        ghost var s, m := data[ptr..], Contents();
        NoTag(ApplyTile, m, s);
        var t := ReadTag(data[ptr..]);
        if t == Short {
          end := Null;
          break;
        }
        BehindTag(ApplyTile, m, s, t.value, t.n);
        ptr := ptr + t.n;
        assert s[t.n..] == data[ptr..];
        var taken;
        if t.value / 8 == 3 && t.value % 256 == 26 {
          taken := ParseLayers(data[ptr..]);
        } else if EndsMessage(t.value) {
          end := AtStopTag;
          break;
        } else {
          taken := KeepUnknown(t.value, data[ptr..]);
        }
        if taken == None {
          end := Null;
          break;
        }
        assert data[ptr..][taken.value..] == data[ptr + taken.value..];
        ptr := ptr + taken.value;
      }
      NoTag(ApplyTile, Contents(), data[ptr..]);
    }

    /** `layers_.MergeFrom`: the other tile's layers are copied. */
    method MergeLayers(from: TileObject)
      requires Valid() && from.Valid() && this !in from.Repr
      modifies `layers, `Repr
      ensures Valid() && fresh(Repr - old(Repr)) && unknown == old(unknown)
      ensures LayersOf() == old(LayersOf()) + from.LayersOf() && from.Valid() && from.LayersOf() == old(from.LayersOf())
    {
      hide LayerObject.Valid, LayerObject.Consistent, LayerObject.Contents, MergeLayer, Valid, LayersOf;
      ghost var ls := from.LayersOf();
      for i := 0 to |from.layers|
        invariant Valid() && fresh(Repr - old(Repr)) && unknown == old(unknown)
        invariant LayersOf() == old(LayersOf()) + ls[..i]
      {
        var l := new LayerObject();
        from.LayerIsValid(i);
        l.MergeFrom(from.layers[i]);
        MergeLayerIntoNothing(ls[i]);
        AppendLayer(l, ls[i]);
      }
    }

    lemma LayerIsValid(i: nat)
      requires Valid() && i < |layers|
      ensures layers[i].Valid() && layers[i].Consistent(NO_LAYER_BITS) && layers[i].Repr <= Repr
      ensures layers[i].Contents() == LayersOf()[i]
    {}

    method MergeFrom(from: TileObject)
      requires Valid() && from.Valid() && this !in from.Repr
      modifies this
      ensures Valid() && fresh(Repr - old(Repr))
      ensures Contents() == MergeTile(old(Contents()), from.Contents())
    {
      hide LayerObject.Valid, LayerObject.Consistent, LayerObject.Contents, LayersOf;
      MergeLayers(from);
      MergeUnknown(from.unknown);
    }

    method MergeUnknown(bytes: Bytes)
      requires Valid()
      modifies `unknown
      ensures Valid() && LayersOf() == old(LayersOf()) && unknown == old(unknown) + bytes
    {
      hide LayerObject.Valid, LayerObject.Consistent, LayerObject.Contents;
      ghost var was := LayersOf();
      unknown := unknown + bytes;
      assert LayersOf() == was;
    }

    /** A tile is complete if its layers are. */
    method IsInitialized() returns (ok: bool)
      requires Valid()
      ensures ok == forall i | 0 <= i < |Contents().layers| :: LayerIsComplete(Contents().layers[i])
    {
      hide LayerObject.Valid, LayerObject.Contents;
      for i := 0 to |layers|
        invariant forall j | 0 <= j < i :: LayerIsComplete(LayersOf()[j])
      {
        var complete := layers[i].IsInitialized();
        if !complete {
          assert !LayerIsComplete(Contents().layers[i]);
          return false;
        }
      }
      ok := true;
    }

    ghost predicate Measured()
      requires Valid()
      reads this, Repr
    {
      cachedSize == |WriteTile(Contents())| && forall i | 0 <= i < |layers| :: layers[i].Measured()
    }

    /** The first pass over a whole tile. */
    method ByteSizeLong() returns (totalSize: nat)
      requires Valid()
      modifies this`cachedSize, Repr - {this}
      ensures Valid() && Contents() == old(Contents())
      ensures Measured() && totalSize == |WriteTile(Contents())|
    {
      hide LayerObject.Valid, LayerObject.Consistent, LayerObject.Contents, LayerObject.Measured, ValidKinds;
      hide EncodeAll, LayerSeqRecs;
      totalSize := MeasureLayers();
      totalSize := totalSize + |unknown|;
      cachedSize := totalSize;
    }

    method MeasureLayers() returns (total: nat)
      requires Valid()
      modifies Repr - {this}
      ensures Valid() && LayersOf() == old(LayersOf())
      ensures forall i | 0 <= i < |layers| :: layers[i].Measured()
      ensures total == |EncodeAll(LayerSeqRecs(LayersOf()))|
    {
      hide LayerObject.Valid, LayerObject.Consistent, LayerObject.Contents, LayerObject.Measured, ValidKinds;
      hide EncodeAll, Encode, WriteLayer, VarintSize;
      ghost var ls := LayersOf();
      ghost var rs := LayerSeqRecs(ls);
      total := |layers|;
      NothingWritten();
      for i := 0 to |layers|
        invariant Valid() && forall j | 0 <= j < |layers| :: layers[j].Contents() == ls[j]
        invariant forall j | 0 <= j < i :: layers[j].Measured()
        invariant total == |EncodeAll(rs[..i])| + |layers| - i
      {
        var size := layers[i].ByteSizeLong();
        total := total + VarintSize(size) + size;
        OneMore(rs, i);
        NestedSize(3, WriteLayer(ls[i]));
      }
      assert rs[..|layers|] == rs;
      assert LayersOf() == ls;
    }

    /** The second pass: one-pass encoding and cached sizes agree for the whole tree of messages. */
    method InternalSerialize(target: Bytes) returns (out: Bytes)
      requires Valid() && Measured()
      ensures out == target + WriteTile(Contents())
    {
      hide LayerObject.Valid, LayerObject.Consistent, LayerObject.Contents, ValidKinds, EncodeAll, Encode, WriteLayer;
      ghost var rs := LayerSeqRecs(LayersOf());
      NothingWritten();
      out := target;
      for i := 0 to |layers|
        invariant out == target + EncodeAll(rs[..i])
      {
        out := out + Varint(3 * 8 + 2) + Varint(layers[i].cachedSize);
        Nested(out, target, rs, i, 3, WriteLayer(layers[i].Contents()));
        out := layers[i].InternalSerialize(out);
      }
      assert rs[..|layers|] == rs;
      out := out + unknown;
      assert target + EncodeAll(rs) + unknown == target + (EncodeAll(rs) + unknown);
    }

    /** Both passes, as `SerializeToString` makes them. */
    method Serialize() returns (bytes: Bytes, size: nat)
      requires Valid()
      modifies this`cachedSize, Repr - {this}
      ensures Valid() && Contents() == old(Contents())
      ensures bytes == WriteTile(Contents()) && size == |bytes|
    {
      hide WriteTile;
      size := ByteSizeLong();
      bytes := InternalSerialize([]);
      assert [] + WriteTile(Contents()) == WriteTile(Contents());
    }
  }

  lemma MergeLayerIntoNothing(l: Layer)
    ensures MergeLayer(NO_LAYER, l) == l
  {}

  /** A tile sent as bytes arrives as an equal tile: the two-pass writer and the parser are inverse on objects. */
  method Transmit(sent: TileObject) returns (received: TileObject, end: ParseEnd)
    requires sent.Valid() && WellFormedTile(sent.Contents()) && FitsTile(sent.Contents())
    modifies sent.Repr
    ensures sent.Valid() && sent.Contents() == old(sent.Contents())
    ensures received.Valid() && fresh(received.Repr) && end == AtLimit && received.Contents() == sent.Contents()
  {
    hide Parse, WriteTile, TileObject.Valid, TileObject.Contents, WellFormedTile, FitsTile;
    ghost var m := sent.Contents();
    var bytes, _ := sent.Serialize();
    TileRoundTrip.TileRoundTrip(m);
    received := new TileObject();
    end := received.InternalParse(bytes);
  }

  /** Two encodings one after the other are the merge of the two tiles. */
  method ReceiveBoth(a: TileObject, b: TileObject) returns (both: TileObject, end: ParseEnd)
    requires a.Valid() && WellFormedTile(a.Contents()) && FitsTile(a.Contents())
    requires b.Valid() && WellFormedTile(b.Contents()) && FitsTile(b.Contents())
    requires a.Repr !! b.Repr
    modifies a.Repr, b.Repr
    ensures both.Valid() && end == AtLimit && both.Contents() == MergeTile(old(a.Contents()), old(b.Contents()))
  {
    hide Parse, WriteTile, TileObject.Valid, TileObject.Contents, WellFormedTile, FitsTile, MergeTile;
    ghost var m, n := a.Contents(), b.Contents();
    var first, _ := a.Serialize();
    var second, _ := b.Serialize();
    TileRoundTrip.TileRoundTrip(m);
    TileRoundTrip.TileRoundTrip(n);
    ConcatenationIsMerge(first, second, m, n);
    both := new TileObject();
    end := both.InternalParse(first + second);
  }
}
