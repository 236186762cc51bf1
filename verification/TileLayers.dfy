/** Tile_Layer of mbtiles/src/vector_tile.pb.cc as a mutable object that owns the features and values nested in it. */
module TileLayers {
  import opened Options
  import opened TileWire
  import opened TileMessages
  import opened TileObjects

  // ---------------------------------------------------------------- Tile_Layer on values

  datatype LayerBits = LayerBits(name: bool, extent: bool, version: bool) {
    function Or(b: LayerBits): LayerBits {
      LayerBits(name || b.name, extent || b.extent, version || b.version)
    }
  }

  lemma OrNothing(b: LayerBits)
    ensures b.Or(NO_LAYER_BITS) == b
  {}

  datatype LayerFields = LayerFields(name: Bytes, extent: UInt32, version: UInt32, keys: seq<Bytes>)

  const NO_LAYER_BITS := LayerBits(false, false, false)
  const LAYER_DEFAULTS := LayerFields([], 4096, 1, [])

  predicate LayerDefaults(b: LayerBits, f: LayerFields) {
    (b.name || f.name == []) && (b.extent || f.extent == 4096) && (b.version || f.version == 1)
  }

  function PresentLayer(b: LayerBits, f: LayerFields, fs: seq<Feature>, vs: seq<Value>, unknown: Bytes): Layer {
    Layer(if b.name then Some(f.name) else None, fs, f.keys, vs, if b.extent then Some(f.extent) else None,
          if b.version then Some(f.version) else None, unknown)
  }

  /** Parsing when the tag of the next record has been read. */
  function Behind<M>(apply: (M, Rec) -> Option<M>, m: M, tag: nat, s: Bytes): Outcome<M> {
    match Step(apply, m, tag, s)
    case None => Failed
    case Some(p) => if p.1 <= |s| then Parse(apply, p.0, s[p.1..]) else Failed
  }

  lemma BehindTag<M>(apply: (M, Rec) -> Option<M>, m: M, s: Bytes, tag: nat, n: nat)
    requires ReadTag(s) == Read(tag, n)
    ensures Parse(apply, m, s) == if EndsMessage(tag) then Stopped(m) else Behind(apply, m, tag, s[n..])
  {
    hide ReadTag, Parse, Step;
    AfterTag(apply, m, s, tag, n);
    var p := Step(apply, m, tag, s[n..]);
    if p.Some? {
      assert s[n..][p.value.1..] == s[n + p.value.1..];
    }
  }

  /** `ExpectTag`: the same one-byte tag once more. */
  lemma SameTagAgain<M>(apply: (M, Rec) -> Option<M>, m: M, tag: nat, s: Bytes)
    requires s != [] && s[0] == tag && 8 <= tag < 128 && tag % 8 != 4
    ensures Parse(apply, m, s) == Behind(apply, m, tag, s[1..])
  {
    hide Parse, Behind;
    assert ReadTag(s) == Read(tag, 1);
    BehindTag(apply, m, s, tag, 1);
  }

  lemma LayerBytesSteps(m: Layer, s: Bytes)
    ensures Step(ApplyLayer, m, 10, s) ==
            match ReadLength(s) case Short => None case Read(v, n) => Some((m.(name := Some(s[n..n + v])), n + v))
    ensures Step(ApplyLayer, m, 18, s) ==
            match ReadLength(s)
            case Short => None
            case Read(v, n) =>
              match Parse(ApplyFeature, NO_FEATURE, s[n..n + v])
              case Done(f) => Some((m.(features := m.features + [f]), n + v))
              case _ => None
    ensures Step(ApplyLayer, m, 26, s) ==
            match ReadLength(s) case Short => None case Read(v, n) => Some((m.(keys := m.keys + [s[n..n + v]]), n + v))
    ensures Step(ApplyLayer, m, 34, s) ==
            match ReadLength(s)
            case Short => None
            case Read(v, n) =>
              match Parse(ApplyValue, NO_VALUE, s[n..n + v])
              case Done(f) => Some((m.(values := m.values + [f]), n + v))
              case _ => None
  {
    hide ReadLength, Parse;
  }

  lemma LayerIntSteps(m: Layer, s: Bytes)
    ensures Step(ApplyLayer, m, 40, s) ==
            match ReadVarint64(s) case Short => None case Read(v, n) => Some((m.(extent := Some(v % TWO32)), n))
    ensures Step(ApplyLayer, m, 120, s) ==
            match ReadVarint64(s) case Short => None case Read(v, n) => Some((m.(version := Some(v % TWO32)), n))
  {
    hide ReadVarint64, Parse;
  }

  lemma UnknownLayerStep(m: Layer, tag: nat, s: Bytes)
    requires tag !in {10, 18, 26, 34, 40, 120}
    ensures Step(ApplyLayer, m, tag, s) ==
            match ReadUnknown(tag, s) case None => None case Some(u) => Some((m.(unknown := m.unknown + u.0), u.1))
  {
    hide ReadVarint64, ReadLength, ReadFixed32, ReadFixed64, Encode, Parse;
    if tag / 8 != 0 && ReadPayload(tag, s).Next? {
      var r := ReadPayload(tag, s).r;
      hide ReadPayload;
      assert r.num * 8 + WireType(r) == tag;
    }
  }

  lemma SetExtent(b: LayerBits, h: LayerBits, f: LayerFields, fs: seq<Feature>, vs: seq<Value>, u: Bytes, v: UInt32)
    ensures PresentLayer(b.Or(h.(extent := true)), f.(extent := v), fs, vs, u) ==
            PresentLayer(b.Or(h), f, fs, vs, u).(extent := Some(v))
    ensures LayerDefaults(b.Or(h), f) ==> LayerDefaults(b.Or(h.(extent := true)), f.(extent := v))
  {}

  lemma SetVersion(b: LayerBits, h: LayerBits, f: LayerFields, fs: seq<Feature>, vs: seq<Value>, u: Bytes, v: UInt32)
    ensures PresentLayer(b.Or(h.(version := true)), f.(version := v), fs, vs, u) ==
            PresentLayer(b.Or(h), f, fs, vs, u).(version := Some(v))
    ensures LayerDefaults(b.Or(h), f) ==> LayerDefaults(b.Or(h.(version := true)), f.(version := v))
  {}

  lemma SetName(b: LayerBits, h: LayerBits, f: LayerFields, fs: seq<Feature>, vs: seq<Value>, u: Bytes, v: Bytes)
    ensures PresentLayer(b.(name := true).Or(h), f.(name := v), fs, vs, u) ==
            PresentLayer(b.Or(h), f, fs, vs, u).(name := Some(v))
    ensures LayerDefaults(b.Or(h), f) ==> LayerDefaults(b.(name := true).Or(h), f.(name := v))
  {}

  lemma KeepUnknown(b: LayerBits, f: LayerFields, fs: seq<Feature>, vs: seq<Value>, u: Bytes, v: Bytes)
    ensures var m := PresentLayer(b, f, fs, vs, u); PresentLayer(b, f, fs, vs, u + v) == m.(unknown := m.unknown + v)
  {}

  function MergedFields(f: LayerFields, c: LayerBits, g: LayerFields): LayerFields {
    LayerFields(if c.name then g.name else f.name, if c.extent then g.extent else f.extent,
                if c.version then g.version else f.version, f.keys + g.keys)
  }

  lemma MergedLayer(b: LayerBits, f: LayerFields, c: LayerBits, g: LayerFields, fs: seq<Feature>, vs: seq<Value>,
                    gs: seq<Feature>, ws: seq<Value>, u: Bytes, v: Bytes)
    ensures PresentLayer(b.Or(c), MergedFields(f, c, g), fs + gs, vs + ws, u + v) ==
            MergeLayer(PresentLayer(b, f, fs, vs, u), PresentLayer(c, g, gs, ws, v))
    ensures LayerDefaults(b.Or(NO_LAYER_BITS), f) && LayerDefaults(c.Or(NO_LAYER_BITS), g) ==>
            LayerDefaults(b.Or(c).Or(NO_LAYER_BITS), MergedFields(f, c, g))
  {}

  // ---------------------------------------------------------------- Tile_Layer

  class LayerObject {
    var hasBits: LayerBits
    var fields: LayerFields
    var features: seq<FeatureObject>
    var values: seq<ValueObject>
    var unknown: Bytes
    var cachedSize: nat
    ghost var Repr: set<object>

    /** The layer owns its features and values, each of them once. */
    ghost predicate Valid()
      reads this, Repr
      ensures Valid() ==> this in Repr
    {
      && this in Repr
      && (forall i | 0 <= i < |features| :: features[i] in Repr && features[i].Valid())
      && (forall i | 0 <= i < |values| :: values[i] in Repr && values[i].Valid())
      && (forall i, j | 0 <= i < j < |features| :: features[i] != features[j])
      && (forall i, j | 0 <= i < j < |values| :: values[i] != values[j])
    }

    static ghost function FeaturesOf(fs: seq<FeatureObject>): (r: seq<Feature>)
      reads fs
      ensures |r| == |fs|
    {
      seq(|fs|, i requires 0 <= i < |fs| reads fs => fs[i].Contents())
    }

    static ghost function ValuesOf(vs: seq<ValueObject>): (r: seq<Value>)
      reads vs
      ensures |r| == |vs|
    {
      seq(|vs|, i requires 0 <= i < |vs| reads vs => vs[i].Contents())
    }

    /** The message with these presence bits. */
    ghost function With(bits: LayerBits): (m: Layer)
      requires Valid()
      reads this, Repr
      ensures ValidKinds(m)
    {
      PresentLayer(bits, fields, FeaturesOf(features), ValuesOf(values), unknown)
    }

    ghost function Contents(): (m: Layer)
      requires Valid()
      reads this, Repr
      ensures ValidKinds(m)
    {
      With(hasBits)
    }

    predicate Consistent(bits: LayerBits)
      reads `hasBits, `fields
    {
      LayerDefaults(hasBits.Or(bits), fields)
    }

    constructor ()
      ensures Valid() && fresh(Repr) && Contents() == NO_LAYER && Consistent(NO_LAYER_BITS)
    {
      hasBits, fields, features, values, unknown, cachedSize := NO_LAYER_BITS, LAYER_DEFAULTS, [], [], [], 0;
      Repr := {this};
    }

    method Clear()
      requires Valid() && Consistent(NO_LAYER_BITS)
      modifies this
      ensures Valid() && Consistent(NO_LAYER_BITS) && Repr == old(Repr)
      ensures Contents() == NO_LAYER && fields == LAYER_DEFAULTS
    {
      features, values := [], [];
      fields := fields.(keys := []);
      if hasBits.name || hasBits.extent || hasBits.version {
        if hasBits.name {
          fields := fields.(name := []);
        }
        fields := fields.(extent := 4096, version := 1);
      }
      hasBits, unknown := NO_LAYER_BITS, [];
    }

    /** `ParseMessage` into a feature that is added first. */
    method AddFeature(payload: Bytes, ghost bits: LayerBits) returns (ok: bool)
      requires Valid()
      modifies this
      ensures Valid() && fresh(Repr - old(Repr)) && hasBits == old(hasBits) && fields == old(fields)
      ensures match Parse(ApplyFeature, NO_FEATURE, payload)
              case Done(f) => ok && With(bits) == old(With(bits)).(features := old(With(bits)).features + [f])
              case _ => !ok
    {
      hide Parse;
      var f := new FeatureObject();
      var end := f.InternalParse(payload);
      AppendFeature(f, f.Contents());
      ok := end == AtLimit;
    }

    method AddValue(payload: Bytes, ghost bits: LayerBits) returns (ok: bool)
      requires Valid()
      modifies this
      ensures Valid() && fresh(Repr - old(Repr)) && hasBits == old(hasBits) && fields == old(fields)
      ensures match Parse(ApplyValue, NO_VALUE, payload)
              case Done(v) => ok && With(bits) == old(With(bits)).(values := old(With(bits)).values + [v])
              case _ => !ok
    {
      hide Parse;
      var v := new ValueObject();
      var end := v.InternalParse(payload);
      AppendValue(v, v.Contents());
      ok := end == AtLimit;
    }

    method AddKey(payload: Bytes, ghost bits: LayerBits)
      requires Valid()
      modifies this
      ensures Valid() && Repr == old(Repr) && hasBits == old(hasBits)
      ensures fields == old(fields).(keys := old(fields).keys + [payload])
      ensures With(bits) == old(With(bits)).(keys := old(With(bits)).keys + [payload])
    {
      fields := fields.(keys := fields.keys + [payload]);
    }

    /** One element of a repeated field. */
    method ParseElement(tag: nat, s: Bytes, ghost bits: LayerBits) returns (taken: Option<nat>)
      requires Valid() && tag in {18, 26, 34}
      modifies this
      ensures Valid() && fresh(Repr - old(Repr)) && hasBits == old(hasBits)
      ensures fields == old(fields).(keys := fields.keys)
      ensures match taken
              case None => Step(ApplyLayer, old(With(bits)), tag, s) == None
              case Some(n) => n <= |s| && Step(ApplyLayer, old(With(bits)), tag, s) == Some((With(bits), n))
    {
      hide Parse, Step, ReadLength, ApplyLayer, PresentLayer, FeaturesOf, ValuesOf;
      LayerBytesSteps(With(bits), s);
      taken := None;
      var r := ReadLength(s);
      if r == Short {
        return;
      }
      var payload := s[r.n..r.n + r.value];
      var ok := true;
      if tag == 18 {
        ok := AddFeature(payload, bits);
      } else if tag == 26 {
        AddKey(payload, bits);
      } else {
        ok := AddValue(payload, bits);
      }
      if ok {
        taken := Some(r.n + r.value);
      }
    }

    /** The inner loops for features, keys and values: as long as the same tag follows, its field is taken at once. */
    method ParseRepeated(tag: nat, s: Bytes, bits: LayerBits) returns (taken: Option<nat>)
      requires Valid() && Consistent(bits) && tag in {18, 26, 34}
      modifies this
      ensures Valid() && fresh(Repr - old(Repr)) && Consistent(bits) && hasBits == old(hasBits)
      ensures var was := old(With(hasBits.Or(bits)));
              match taken
              case None => Behind(ApplyLayer, was, tag, s) == Failed
              case Some(n) => n <= |s| && Behind(ApplyLayer, was, tag, s) ==
                              Parse(ApplyLayer, With(hasBits.Or(bits)), s[n..])
    {
      hide Parse, Step, ApplyLayer, PresentLayer, FeaturesOf, ValuesOf, LayerBits.Or, Valid, With;
      taken := None;
      var ptr := 0;
      ghost var all := hasBits.Or(bits);
      ghost var was := With(all);
      assert s[0..] == s;
      while true
        invariant Valid() && fresh(Repr - old(Repr)) && Consistent(bits) && hasBits == old(hasBits)
        invariant ptr <= |s| && Behind(ApplyLayer, was, tag, s) == Behind(ApplyLayer, With(all), tag, s[ptr..])
        decreases |s| - ptr
      {
        ghost var rest := s[ptr..];
        var n := ParseElement(tag, s[ptr..], all);
        if n == None {
          return;
        }
        assert rest[n.value..] == s[ptr + n.value..];
        ptr := ptr + n.value;
        if ptr == |s| || s[ptr] != tag {
          break;
        }
        SameTagAgain(ApplyLayer, With(all), tag, s[ptr..]);
        assert s[ptr..][1..] == s[ptr + 1..];
        ptr := ptr + 1;
      }
      taken := Some(ptr);
    }

    /** The `switch` of the parse loop. */
    method ParseField(tag: nat, s: Bytes, bits: LayerBits) returns (taken: Option<nat>, has: LayerBits)
      requires Valid() && Consistent(bits) && !EndsMessage(tag)
      modifies this
      ensures Valid() && fresh(Repr - old(Repr)) && Consistent(has)
      ensures var was := old(With(hasBits.Or(bits)));
              match taken
              case None => Behind(ApplyLayer, was, tag, s) == Failed
              case Some(n) => n <= |s| && Behind(ApplyLayer, was, tag, s) ==
                              Parse(ApplyLayer, With(hasBits.Or(has)), s[n..])
    {
      hide *;
      has := bits;
      var num, low := tag / 8, tag % 256;
      if 2 <= num <= 4 && low == num * 8 + 2 {
        taken := ParseRepeated(tag, s, bits);
      } else {
        taken, has := ParseOne(tag, s, bits);
      }
    }

    /** The cases that are not repeated. */
    method ParseOne(tag: nat, s: Bytes, bits: LayerBits) returns (taken: Option<nat>, has: LayerBits)
      requires Valid() && Consistent(bits) && tag !in {18, 26, 34}
      modifies this`hasBits, this`fields, this`unknown
      ensures Valid() && Consistent(has)
      ensures var was := old(With(hasBits.Or(bits)));
              match taken
              case None => Behind(ApplyLayer, was, tag, s) == Failed
              case Some(n) => n <= |s| && Behind(ApplyLayer, was, tag, s) ==
                              Parse(ApplyLayer, With(hasBits.Or(has)), s[n..])
    {
      hide *;
      has := bits;
      var num, low := tag / 8, tag % 256;
      if num == 1 && low == 10 {
        taken := ParseName(s, bits);
      } else if (num == 5 && low == 40) || (num == 15 && low == 120) {
        taken, has := ParseInt(tag, s, bits);
      } else {
        taken := KeepField(tag, s, bits);
      }
    }

    method ParseName(s: Bytes, bits: LayerBits) returns (taken: Option<nat>)
      requires Valid() && Consistent(bits)
      modifies this`hasBits, this`fields
      ensures Valid() && Consistent(bits)
      ensures var was := old(With(hasBits.Or(bits)));
              match taken
              case None => Behind(ApplyLayer, was, 10, s) == Failed
              case Some(n) => n <= |s| && Behind(ApplyLayer, was, 10, s) ==
                              Parse(ApplyLayer, With(hasBits.Or(bits)), s[n..])
    {
      hide Parse, Step, ReadLength, ApplyLayer, PresentLayer, LayerDefaults, FeaturesOf, ValuesOf, LayerBits.Or;
      taken := None;
      LayerBytesSteps(With(hasBits.Or(bits)), s);
      var r := ReadLength(s);
      if r.Read? {
        SetName(hasBits, bits, fields, FeaturesOf(features), ValuesOf(values), unknown, s[r.n..r.n + r.value]);
        hasBits, fields := hasBits.(name := true), fields.(name := s[r.n..r.n + r.value]);
        taken := Some(r.n + r.value);
      }
    }

    /** Extent and version. */
    method ParseInt(tag: nat, s: Bytes, bits: LayerBits) returns (taken: Option<nat>, has: LayerBits)
      requires Valid() && Consistent(bits) && tag in {40, 120}
      modifies this`fields
      ensures Valid() && Consistent(has)
      ensures var was := old(With(hasBits.Or(bits)));
              match taken
              case None => Behind(ApplyLayer, was, tag, s) == Failed
              case Some(n) => n <= |s| && Behind(ApplyLayer, was, tag, s) ==
                              Parse(ApplyLayer, With(hasBits.Or(has)), s[n..])
    {
      hide Parse, Step, ReadVarint64, ApplyLayer, PresentLayer, LayerDefaults, FeaturesOf, ValuesOf, LayerBits.Or;
      taken, has := None, bits;
      ghost var fs, vs := FeaturesOf(features), ValuesOf(values);
      LayerIntSteps(With(hasBits.Or(bits)), s);
      var r := ReadVarint64(s);
      if r.Read? {
        var v := r.value % TWO32;
        if tag == 40 {
          SetExtent(hasBits, bits, fields, fs, vs, unknown, v);
          has, fields := has.(extent := true), fields.(extent := v);
        } else {
          SetVersion(hasBits, bits, fields, fs, vs, unknown, v);
          has, fields := has.(version := true), fields.(version := v);
        }
        taken := Some(r.n);
      }
    }

    method KeepField(tag: nat, s: Bytes, bits: LayerBits) returns (taken: Option<nat>)
      requires Valid() && Consistent(bits) && tag !in {10, 18, 26, 34, 40, 120}
      modifies this`unknown
      ensures Valid() && Consistent(bits)
      ensures var was := old(With(hasBits.Or(bits)));
              match taken
              case None => Behind(ApplyLayer, was, tag, s) == Failed
              case Some(n) => n <= |s| && Behind(ApplyLayer, was, tag, s) ==
                              Parse(ApplyLayer, With(hasBits.Or(bits)), s[n..])
    {
      hide Parse, Step, ReadUnknown, ApplyLayer, PresentLayer, LayerDefaults, FeaturesOf, ValuesOf, LayerBits.Or;
      taken := None;
      UnknownLayerStep(With(hasBits.Or(bits)), tag, s);
      UnknownFits(tag, s);
      var u := ReadUnknown(tag, s);
      if u.Some? {
        KeepUnknown(hasBits.Or(bits), fields, FeaturesOf(features), ValuesOf(values), unknown, u.value.0);
        unknown := unknown + u.value.0;
        taken := Some(u.value.1);
      }
    }

    method InternalParse(data: Bytes) returns (end: ParseEnd)
      requires Valid() && Consistent(NO_LAYER_BITS)
      modifies this
      ensures Valid() && Consistent(NO_LAYER_BITS) && fresh(Repr - old(Repr))
      ensures Agrees(Parse(ApplyLayer, old(Contents()), data), end, Contents())
    {
      hide Parse, ReadTag, Behind, PresentLayer, ApplyLayer, LayerDefaults, Valid, With, LayerBits.Or;
      OrNothing(hasBits);
      var ptr := 0;
      var bits := NO_LAYER_BITS;
      end := AtLimit;
      assert data[0..] == data;
      while ptr < |data|
        invariant Valid() && fresh(Repr - old(Repr)) && Consistent(bits)
        invariant ptr <= |data| && end == AtLimit
        invariant Parse(ApplyLayer, old(Contents()), data) == Parse(ApplyLayer, With(hasBits.Or(bits)), data[ptr..])
        decreases |data| - ptr
      {
        ghost var s, m := data[ptr..], With(hasBits.Or(bits));
        NoTag(ApplyLayer, m, s);
        var t := ReadTag(data[ptr..]);
        if t == Short {
          end := Null;
          break;
        }
        BehindTag(ApplyLayer, m, s, t.value, t.n);
        ptr := ptr + t.n;
        assert s[t.n..] == data[ptr..];
        if EndsMessage(t.value) {
          end := AtStopTag;
          break;
        }
        var taken;
        taken, bits := ParseField(t.value, data[ptr..], bits);
        if taken == None {
          end := Null;
          break;
        }
        assert data[ptr..][taken.value..] == data[ptr + taken.value..];
        ptr := ptr + taken.value;
      }
      NoTag(ApplyLayer, With(hasBits.Or(bits)), data[ptr..]);
      SetBits(bits);
    }

    /** The bits met while parsing are set at the end, also after a failure. */
    method SetBits(bits: LayerBits)
      requires Valid() && Consistent(bits)
      modifies `hasBits
      ensures Valid() && Consistent(NO_LAYER_BITS)
      ensures hasBits == old(hasBits.Or(bits)) && Contents() == old(With(hasBits.Or(bits)))
    {
      hide PresentLayer;
      hasBits := hasBits.Or(bits);
    }

    /** `features_.MergeFrom`: the messages of the other layer are copied, not shared. */
    method MergeFeatures(from: LayerObject)
      requires Valid() && from.Valid() && this !in from.Repr
      modifies this`features, this`Repr
      ensures Valid() && fresh(Repr - old(Repr))
      ensures FeaturesOf(features) == old(FeaturesOf(features)) + FeaturesOf(from.features)
      ensures ValuesOf(values) == old(ValuesOf(values))
    {
      hide PresentFeature, FeatureDefaults, MergeFeature, FeatureObject.Valid, ValueObject.Valid;
      ghost var fs := FeaturesOf(from.features);
      for i := 0 to |from.features|
        invariant Valid() && fresh(Repr - old(Repr))
        invariant FeaturesOf(features) == old(FeaturesOf(features)) + fs[..i]
      {
        var f := new FeatureObject();
        f.MergeFrom(from.features[i]);
        MergeIntoNothing(fs[i], NO_VALUE);
        AppendFeature(f, fs[i]);
      }
    }

    method MergeValues(from: LayerObject)
      requires Valid() && from.Valid() && this !in from.Repr
      modifies this`values, this`Repr
      ensures Valid() && fresh(Repr - old(Repr))
      ensures FeaturesOf(features) == old(FeaturesOf(features))
      ensures ValuesOf(values) == old(ValuesOf(values)) + ValuesOf(from.values)
    {
      hide PresentValue, ValueDefaults, MergeValue, FeatureObject.Valid, ValueObject.Valid;
      ghost var vs := ValuesOf(from.values);
      for i := 0 to |from.values|
        invariant Valid() && fresh(Repr - old(Repr))
        invariant ValuesOf(values) == old(ValuesOf(values)) + vs[..i]
      {
        var v := new ValueObject();
        v.MergeFrom(from.values[i]);
        MergeIntoNothing(NO_FEATURE, vs[i]);
        AppendValue(v, vs[i]);
      }
    }

    /** A new message takes its place at the end of the list that owns it. */
    method AppendFeature(f: FeatureObject, ghost c: Feature)
      requires Valid() && f !in Repr && f.Valid() && f.Contents() == c
      modifies `features, `Repr
      ensures Valid() && Repr == old(Repr) + {f} && FeaturesOf(features) == old(FeaturesOf(features)) + [c]
    {
      hide PresentFeature, FeatureDefaults, FeatureObject.Valid, ValueObject.Valid;
      features := features + [f];
      Repr := Repr + {f};
    }

    method AppendValue(v: ValueObject, ghost c: Value)
      requires Valid() && v !in Repr && v.Valid() && v.Contents() == c
      modifies `values, `Repr
      ensures Valid() && Repr == old(Repr) + {v} && ValuesOf(values) == old(ValuesOf(values)) + [c]
    {
      hide PresentValue, ValueDefaults, FeatureObject.Valid, ValueObject.Valid;
      values := values + [v];
      Repr := Repr + {v};
    }

    method MergeFrom(from: LayerObject)
      requires Valid() && Consistent(NO_LAYER_BITS)
      requires from.Valid() && from.Consistent(NO_LAYER_BITS) && this !in from.Repr
      modifies this
      ensures Valid() && Consistent(NO_LAYER_BITS) && fresh(Repr - old(Repr))
      ensures Contents() == MergeLayer(old(Contents()), from.Contents())
    {
      hide PresentLayer, LayerDefaults, LayerBits.Or;
      hide FeatureObject.Contents, ValueObject.Contents, FeatureObject.Valid, ValueObject.Valid;
      MergedLayer(hasBits, fields, from.hasBits, from.fields, FeaturesOf(features), ValuesOf(values),
                  FeaturesOf(from.features), ValuesOf(from.values), unknown, from.unknown);
      MergeFeatures(from);
      MergeValues(from);
      MergePlain(from);
    }

    /** Everything but the nested messages. */
    method MergePlain(from: LayerObject)
      modifies `unknown, `fields, `hasBits
      ensures unknown == old(unknown) + old(from.unknown) && hasBits == old(hasBits).Or(old(from.hasBits))
      ensures fields == MergedFields(old(fields), old(from.hasBits), old(from.fields))
    {
      unknown := unknown + from.unknown;
      var bits, f := from.hasBits, from.fields;
      fields := fields.(keys := fields.keys + f.keys);
      if bits.name || bits.extent || bits.version {
        if bits.name {
          fields := fields.(name := f.name);
        }
        if bits.extent {
          fields := fields.(extent := f.extent);
        }
        if bits.version {
          fields := fields.(version := f.version);
        }
        hasBits := hasBits.Or(bits);
      }
    }

    /** The required fields are there. */
    method IsInitialized() returns (ok: bool)
      requires Valid()
      ensures ok == (Contents().name.Some? && Contents().version.Some?)
    {
      ok := hasBits.name && hasBits.version;
    }

    /** The cached sizes of this layer and of everything in it are those of the present contents. */
    ghost predicate Measured()
      requires Valid()
      reads this, Repr
    {
      && cachedSize == |WriteLayer(Contents())|
      && (forall i | 0 <= i < |features| :: features[i].Measured())
      && (forall i | 0 <= i < |values| :: values[i].Measured())
    }

    /** The sizes of the nested features with their tags and lengths; each feature caches its own. */
    method MeasureFeatures() returns (total: nat)
      requires Valid()
      modifies features
      ensures Valid() && FeaturesOf(features) == old(FeaturesOf(features)) && ValuesOf(values) == old(ValuesOf(values))
      ensures forall i | 0 <= i < |features| :: features[i].Measured()
      ensures total == |EncodeAll(FeatureSeqRecs(FeaturesOf(features)))|
    {
      hide WriteFeature, EncodeAll, Encode, VarintSize, PresentFeature, FeatureDefaults, FeatureObject.Measured;
      ghost var fs := FeaturesOf(features);
      ghost var rs := FeatureSeqRecs(fs);
      total := |features|;
      NothingWritten();
      for i := 0 to |features|
        invariant Valid() && forall j | 0 <= j < |features| :: features[j].Contents() == fs[j]
        invariant forall j | 0 <= j < i :: features[j].Measured()
        invariant total == |EncodeAll(rs[..i])| + |features| - i
      {
        var size := features[i].ByteSizeLong();
        total := total + VarintSize(size) + size;
        OneMore(rs, i);
        NestedSize(2, WriteFeature(fs[i]));
      }
      assert rs[..|features|] == rs;
      assert FeaturesOf(features) == fs;
    }

    method MeasureValues() returns (total: nat)
      requires Valid()
      modifies values
      ensures Valid() && FeaturesOf(features) == old(FeaturesOf(features)) && ValuesOf(values) == old(ValuesOf(values))
      ensures forall i | 0 <= i < |values| :: values[i].Measured()
      ensures total == |EncodeAll(ValueSeqRecs(ValuesOf(values)))|
    {
      hide WriteValue, EncodeAll, Encode, VarintSize, PresentValue, ValueDefaults, ValueObject.Measured;
      ghost var vs := ValuesOf(values);
      ghost var rs := ValueSeqRecs(vs);
      total := |values|;
      NothingWritten();
      for i := 0 to |values|
        invariant Valid() && forall j | 0 <= j < |values| :: values[j].Contents() == vs[j]
        invariant forall j | 0 <= j < i :: values[j].Measured()
        invariant total == |EncodeAll(rs[..i])| + |values| - i
      {
        var size := values[i].ByteSizeLong();
        total := total + VarintSize(size) + size;
        OneMore(rs, i);
        NestedSize(4, WriteValue(vs[i]));
      }
      assert rs[..|values|] == rs;
      assert ValuesOf(values) == vs;
    }

    method MeasureKeys() returns (total: nat)
      ensures total == |EncodeAll(KeyRecs(fields.keys))|
    {
      hide EncodeAll, Encode, VarintSize;
      ghost var rs := KeyRecs(fields.keys);
      total := |fields.keys|;
      NothingWritten();
      for i := 0 to |fields.keys|
        invariant total == |EncodeAll(rs[..i])| + |fields.keys| - i
      {
        total := total + VarintSize(|fields.keys[i]|) + |fields.keys[i]|;
        OneMore(rs, i);
        NestedSize(3, fields.keys[i]);
      }
      assert rs[..|fields.keys|] == rs;
    }

    /** The first pass: the sizes of everything below are cached on the way. */
    method ByteSizeLong() returns (totalSize: nat)
      requires Valid()
      modifies this`cachedSize, Repr - {this}
      ensures Valid() && Contents() == old(Contents())
      ensures Measured() && totalSize == |WriteLayer(Contents())|
    {
      hide EncodeAll, FeatureSeqRecs, ValueSeqRecs, KeyRecs, WriteLayer, PresentLayer, FeaturesOf, ValuesOf, VarintSize;
      hide FeatureObject.Contents, FeatureObject.Valid, FeatureObject.Measured;
      hide ValueObject.Contents, ValueObject.Valid, ValueObject.Measured;
      totalSize := RequiredSizes(hasBits, fields);
      var size := MeasureFeatures();
      totalSize := totalSize + size;
      size := MeasureKeys();
      totalSize := totalSize + size;
      size := MeasureValues();
      totalSize := totalSize + size;
      if hasBits.extent {
        totalSize := totalSize + 1 + VarintSize(fields.extent);
      }
      totalSize := totalSize + |unknown|;
      assert ValidKinds(Contents());
      LayerSizeIs(hasBits, fields, FeaturesOf(features), ValuesOf(values), unknown);
      cachedSize := totalSize;
    }

    /** `InternalWriteMessage` over the features: every length is the one the feature has cached. */
    method WriteFeatures(target: Bytes) returns (out: Bytes)
      requires Valid() && Measured()
      ensures out == target + EncodeAll(FeatureSeqRecs(FeaturesOf(features)))
    {
      hide WriteFeature, WriteLayer, EncodeAll, PresentFeature, FeatureDefaults;
      ghost var rs := FeatureSeqRecs(FeaturesOf(features));
      NothingWritten();
      out := target;
      for i := 0 to |features|
        invariant out == target + EncodeAll(rs[..i])
      {
        out := out + Varint(2 * 8 + 2) + Varint(features[i].cachedSize);
        Nested(out, target, rs, i, 2, WriteFeature(features[i].Contents()));
        out := features[i].InternalSerialize(out);
      }
      assert rs[..|features|] == rs;
    }

    method WriteValues(target: Bytes) returns (out: Bytes)
      requires Valid() && Measured()
      ensures out == target + EncodeAll(ValueSeqRecs(ValuesOf(values)))
    {
      hide WriteValue, WriteLayer, EncodeAll, PresentValue, ValueDefaults;
      ghost var rs := ValueSeqRecs(ValuesOf(values));
      NothingWritten();
      out := target;
      for i := 0 to |values|
        invariant out == target + EncodeAll(rs[..i])
      {
        out := out + Varint(4 * 8 + 2) + Varint(values[i].cachedSize);
        Nested(out, target, rs, i, 4, WriteValue(values[i].Contents()));
        out := values[i].InternalSerialize(out);
      }
      assert rs[..|values|] == rs;
    }

    method WriteKeys(target: Bytes) returns (out: Bytes)
      ensures out == target + EncodeAll(KeyRecs(fields.keys))
    {
      hide EncodeAll, Encode;
      ghost var rs := KeyRecs(fields.keys);
      NothingWritten();
      out := target;
      for i := 0 to |fields.keys|
        invariant out == target + EncodeAll(rs[..i])
      {
        OneMore(rs, i);
        assert target + EncodeAll(rs[..i]) + Encode(rs[i]) == target + (EncodeAll(rs[..i]) + Encode(rs[i]));
        out := out + Encode(LenRec(3, fields.keys[i]));
      }
      assert rs[..|fields.keys|] == rs;
    }

    /** The second pass writes exactly the one-pass encoding of the layer, with nothing but cached lengths. */
    method InternalSerialize(target: Bytes) returns (out: Bytes)
      requires Valid() && Measured()
      ensures out == target + WriteLayer(Contents())
    {
      hide EncodeAll, FeatureSeqRecs, ValueSeqRecs, KeyRecs, WriteLayer, PresentLayer, FeaturesOf, ValuesOf, Encode;
      assert ValidKinds(Contents());
      hide ValidKinds;
      hide FeatureObject.Contents, FeatureObject.Valid, FeatureObject.Measured;
      hide ValueObject.Contents, ValueObject.Valid, ValueObject.Measured;
      out := target + if hasBits.name then Encode(LenRec(1, fields.name)) else [];
      out := WriteFeatures(out);
      out := WriteKeys(out);
      out := WriteValues(out);
      out := out + if hasBits.extent then Encode(VarintRec(5, fields.extent)) else [];
      out := out + if hasBits.version then Encode(VarintRec(15, fields.version)) else [];
      out := out + unknown;
      PresentLayerBytes(target, hasBits, fields, FeaturesOf(features), ValuesOf(values), unknown);
    }
  }

  /** Writing one more of a list of records. */
  lemma OneMore(rs: seq<Rec>, i: nat)
    requires i < |rs|
    ensures EncodeAll(rs[..i + 1]) == EncodeAll(rs[..i]) + Encode(rs[i])
  {
    hide Encode;
    assert rs[..i + 1] == rs[..i] + [rs[i]];
    EncodeAllConcat(rs[..i], [rs[i]]);
    OneRecordBytes([rs[i]]);
  }

  lemma NothingWritten()
    ensures forall rs: seq<Rec> :: EncodeAll(rs[..0]) == []
  {}

  /** `MessageSize` and the tag in front. */
  lemma NestedSize(num: nat, d: Bytes)
    requires num < 16
    ensures |Encode(LenRec(num, d))| == 1 + VarintSize(|d|) + |d|
  {
    hide Encode;
    RecordSize(LenRec(num, d));
  }

  /** Tag, length and content of one nested message are its record. */
  lemma Nested(out: Bytes, target: Bytes, rs: seq<Rec>, i: nat, num: nat, d: Bytes)
    requires i < |rs| && rs[i] == LenRec(num, d)
    requires out == target + EncodeAll(rs[..i]) + Varint(num * 8 + 2) + Varint(|d|)
    ensures out + d == target + EncodeAll(rs[..i + 1])
  {
    hide EncodeAll, Varint;
    OneMore(rs, i);
    var e, t, l := EncodeAll(rs[..i]), Varint(num * 8 + 2), Varint(|d|);
    assert target + e + t + l + d == target + (e + (t + (l + d)));
  }

  /** A layer is written field after field. */
  lemma LayerBytes(target: Bytes, m: Layer)
    requires ValidKinds(m)
    ensures target + WriteLayer(m) ==
            target + IfBytes(m.name, d => LenRec(1, d)) + EncodeAll(FeatureSeqRecs(m.features)) +
            EncodeAll(KeyRecs(m.keys)) + EncodeAll(ValueSeqRecs(m.values)) + IfBytes(m.extent, v => VarintRec(5, v)) +
            IfBytes(m.version, v => VarintRec(15, v)) + m.unknown
  {
    hide EncodeAll, IfSome, IfBytes, FeatureSeqRecs, ValueSeqRecs, KeyRecs, ValidKind, WriteFeature, WriteValue;
    var r1 := IfSome(m.name, d => LenRec(1, d));
    var r2, r3, r4 := FeatureSeqRecs(m.features), KeyRecs(m.keys), ValueSeqRecs(m.values);
    var r5 := IfSome(m.extent, v => VarintRec(5, v));
    var r6 := IfSome(m.version, v => VarintRec(15, v));
    OptionBytes(m.name, d => LenRec(1, d));
    OptionBytes(m.extent, v => VarintRec(5, v));
    OptionBytes(m.version, v => VarintRec(15, v));
    WriteNext(target, r1, r2);
    WriteNext(target, r1 + r2, r3);
    WriteNext(target, r1 + r2 + r3, r4);
    WriteNext(target, r1 + r2 + r3 + r4, r5);
    WriteNext(target, r1 + r2 + r3 + r4 + r5, r6);
    assert WriteLayer(m) == EncodeAll(r1 + r2 + r3 + r4 + r5 + r6) + m.unknown;
    assert target + (EncodeAll(r1 + r2 + r3 + r4 + r5 + r6) + m.unknown)
        == target + EncodeAll(r1 + r2 + r3 + r4 + r5 + r6) + m.unknown;
  }

  lemma PresentLayerBytes(target: Bytes, b: LayerBits, f: LayerFields, fs: seq<Feature>, vs: seq<Value>, unknown: Bytes)
    requires ValidKinds(PresentLayer(b, f, fs, vs, unknown))
    ensures target + WriteLayer(PresentLayer(b, f, fs, vs, unknown)) ==
            target + (if b.name then Encode(LenRec(1, f.name)) else []) + EncodeAll(FeatureSeqRecs(fs)) +
            EncodeAll(KeyRecs(f.keys)) + EncodeAll(ValueSeqRecs(vs)) +
            (if b.extent then Encode(VarintRec(5, f.extent)) else []) +
            (if b.version then Encode(VarintRec(15, f.version)) else []) + unknown
  {
    hide WriteLayer, Encode, EncodeAll, FeatureSeqRecs, ValueSeqRecs, KeyRecs;
    LayerBytes(target, PresentLayer(b, f, fs, vs, unknown));
  }

  /** Both branches of `ByteSizeLong` for the required fields. */
  function RequiredSizes(b: LayerBits, f: LayerFields): nat {
    if b.name && b.version then 1 + VarintSize(|f.name|) + |f.name| + 1 + VarintSize(f.version)
    else (if b.name then 1 + VarintSize(|f.name|) + |f.name| else 0) +
         (if b.version then 1 + VarintSize(f.version) else 0)
  }

  lemma LayerSizeIs(b: LayerBits, f: LayerFields, fs: seq<Feature>, vs: seq<Value>, unknown: Bytes)
    requires ValidKinds(PresentLayer(b, f, fs, vs, unknown))
    ensures |WriteLayer(PresentLayer(b, f, fs, vs, unknown))| ==
            RequiredSizes(b, f) + |EncodeAll(FeatureSeqRecs(fs))| + |EncodeAll(KeyRecs(f.keys))| +
            |EncodeAll(ValueSeqRecs(vs))| + (if b.extent then 1 + VarintSize(f.extent) else 0) + |unknown|
  {
    hide WriteLayer, IfBytes, VarintSize, Varint, EncodeAll, FeatureSeqRecs, ValueSeqRecs, KeyRecs, ValidKind;
    var m := PresentLayer(b, f, fs, vs, unknown);
    IfSize(m.name, d => LenRec(1, d));
    IfSize(m.extent, v => VarintRec(5, v));
    IfSize(m.version, v => VarintRec(15, v));
    LayerBytes([], m);
    assert [] + WriteLayer(m) == WriteLayer(m);
  }

  lemma MergeIntoNothing(f: Feature, v: Value)
    ensures MergeFeature(NO_FEATURE, f) == f && MergeValue(NO_VALUE, v) == v
  {}

  lemma UnknownFits(tag: nat, s: Bytes)
    ensures var u := ReadUnknown(tag, s); u.Some? ==> u.value.1 <= |s|
  {}
}
