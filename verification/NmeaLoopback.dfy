/** The generator and the parser together: what nmea/src/generate.c sends, nmea/src/parser.c and
    nmea/src/parse.c read back. */
module NmeaLoopback {
  import opened Options
  import opened Machine
  import opened NmeaScanf
  import opened NmeaFraming
  import opened NmeaPackets
  import opened NmeaParser
  import opened NmeaPrintf
  import opened NmeaGenerate
  import opened NmeaOutput
  import opened NmeaRoundTrip

  // ---------------------------------------------------------------- folding a cycle

  predicate InRange(info: Info) {
    ValidInfo(info) && 0 <= info.inview <= MAXSAT
  }

  function CycleLength(info: Info): (n: nat)
    requires InRange(info)
    ensures 1 <= n <= 3 && (n - 1) * SATINPACK <= info.inview <= n * SATINPACK
  {
    GsvPackCount(info.inview)
  }

  /** Packet number `k` of a cycle as it arrives. */
  function CyclePack(info: Info, k: nat): (p: Pack)
    requires InRange(info)
    ensures ValidPack(p)
  {
    EveryPackIsThere(info, k);
    GSV(Sent(InfoToGSV(info, k)))
  }

  function CyclePacks(info: Info, ks: seq<nat>): (ps: seq<Pack>)
    requires InRange(info)
    ensures |ps| == |ks| && ValidPacks(ps)
  {
    seq(|ks|, i requires 0 <= i < |ks| => CyclePack(info, ks[i]))
  }

  /** The table of `i` after the packets `ks` of the cycle of `info`. */
  function Updated(i: Info, info: Info, ks: set<nat>): (r: Info)
    requires ValidInfo(i) && InRange(info)
    ensures ValidInfo(r)
  {
    if ks == {} then i
    else i.(inview := info.inview, smask := i.smask + {GPGSV},
            sats := seq(MAXSAT, j requires 0 <= j < MAXSAT =>
                          if j < info.inview && j / SATINPACK in ks then Observed(i.sats[j], info.sats[j])
                            else i.sats[j]))
  }

  /** A packet of a cycle passes the guard and stays within the table. */
  lemma CyclePackFits(info: Info, k: nat)
    requires InRange(info) && k < CycleLength(info)
    ensures HasPack(info, k)
    ensures var p := Sent(InfoToGSV(info, k));
            && p.packIndex == k + 1 && p.packCount == CycleLength(info) && p.satCount == info.inview
            && !Ignored(p) && StaysInTable(p) && FirstSlot(p.packIndex) == k * SATINPACK
            && SatsInPack(p.packIndex, p.satCount) ==
               if (k + 1) * SATINPACK > info.inview then info.inview - k * SATINPACK else SATINPACK
  {
    EveryPackIsThere(info, k);
  }

  lemma FoldOne(i: Info, info: Info, k: nat)
    requires ValidInfo(i) && InRange(info) && k < CycleLength(info)
    ensures Fold(i, CyclePack(info, k)) == Some(Updated(i, info, {k}))
  {
    CyclePackFits(info, k);
    var q, u := Sent(InfoToGSV(info, k)), Updated(i, info, {k});
    hide InfoToGSV, GsvPackCount, CycleLength, StaysInTable, SatsInPack, FirstSlot, Ignored, Sent, HasPack;
    var r := FoldGSV(i, q).value;
    forall j | 0 <= j < MAXSAT ensures r.sats[j] == u.sats[j] {
      FoldedSlot(i, info, k, j);
    }
    assert r.sats == u.sats;
  }

  lemma FoldedSlot(i: Info, info: Info, k: nat, j: nat)
    requires ValidInfo(i) && InRange(info) && k < CycleLength(info) && j < MAXSAT
    requires HasPack(info, k) && FoldGSV(i, Sent(InfoToGSV(info, k))).Some?
    ensures FoldGSV(i, Sent(InfoToGSV(info, k))).value.sats[j] == Updated(i, info, {k}).sats[j]
  {
    CyclePackFits(info, k);
    hide InfoToGSV, GsvPackCount, CycleLength, StaysInTable, SatsInPack, FirstSlot, Ignored, Sent, HasPack;
    PackOfSlot(j, k);
    if k * SATINPACK <= j < (k + 1) * SATINPACK {
      SatOfCyclePack(info, k, j);
    }
  }

  lemma PackOfSlot(j: nat, k: nat)
    ensures j / SATINPACK == k <==> k * SATINPACK <= j < (k + 1) * SATINPACK
  {}

  lemma SatOfCyclePack(info: Info, k: nat, j: nat)
    requires InRange(info) && k < CycleLength(info) && k * SATINPACK <= j < (k + 1) * SATINPACK
    ensures HasPack(info, k) && j < MAXSAT
    ensures Sent(InfoToGSV(info, k)).sats[j - k * SATINPACK] == info.sats[j].(inUse := 0)
  {
    EveryPackIsThere(info, k);
  }

  lemma UpdatedTwice(i: Info, info: Info, k: nat, ks: set<nat>)
    requires ValidInfo(i) && InRange(info)
    ensures Updated(Updated(i, info, {k}), info, ks) == Updated(i, info, {k} + ks)
  {
    var a, b := Updated(Updated(i, info, {k}), info, ks), Updated(i, info, {k} + ks);
    assert a.sats == b.sats;
  }

  function Members(ks: seq<nat>): set<nat> {
    set k | k in ks
  }

  /** Folding packets of one cycle, in any order and with any repetitions, updates exactly the slots of the packets
      folded. */
  lemma {:induction false} CycleUpdates(i: Info, info: Info, ks: seq<nat>)
    requires ValidInfo(i) && InRange(info) && forall x | 0 <= x < |ks| :: ks[x] < CycleLength(info)
    ensures FoldAll(i, CyclePacks(info, ks)) == Some(Updated(i, info, Members(ks)))
    decreases ks
  {
    hide CyclePack, Updated, InfoToGSV, CycleLength;
    if ks == [] {
      assert Members(ks) == {};
      UpdatedNone(i, info);
    } else {
      var k, ps := ks[0], CyclePacks(info, ks);
      FoldOne(i, info, k);
      assert ps[1..] == CyclePacks(info, ks[1..]);
      CycleUpdates(Updated(i, info, {k}), info, ks[1..]);
      UpdatedTwice(i, info, k, Members(ks[1..]));
      assert Members(ks) == {k} + Members(ks[1..]);
    }
  }

  lemma UpdatedNone(i: Info, info: Info)
    requires ValidInfo(i) && InRange(info)
    ensures Updated(i, info, {}) == i
  {}

  /** The order and the repetitions of the packets of a cycle make no difference. */
  lemma FoldingIsOrderIndependent(i: Info, info: Info, ks: seq<nat>, ls: seq<nat>)
    requires ValidInfo(i) && InRange(info) && Members(ks) == Members(ls)
    requires forall x | 0 <= x < |ks| :: ks[x] < CycleLength(info)
    ensures FoldAll(i, CyclePacks(info, ks)) == FoldAll(i, CyclePacks(info, ls))
  {
    forall x | 0 <= x < |ls| ensures ls[x] < CycleLength(info) {
      assert ls[x] in Members(ks);
    }
    CycleUpdates(i, info, ks);
    CycleUpdates(i, info, ls);
  }

  /** What a complete cycle leaves in the table. */
  ghost predicate Restored(was: Info, info: Info, r: Info)
    requires ValidInfo(was) && InRange(info) && ValidInfo(r)
  {
    && r.inview == info.inview
    && forall j | 0 <= j < MAXSAT ::
         if j < info.inview then
           && r.sats[j].id == info.sats[j].id && r.sats[j].elv == info.sats[j].elv
           && r.sats[j].azimuth == info.sats[j].azimuth && r.sats[j].sig == info.sats[j].sig
           && r.sats[j].inUse == was.sats[j].inUse
         else r.sats[j] == was.sats[j]
  }

  function AllIndices(info: Info): set<nat>
    requires InRange(info)
  {
    if CycleLength(info) == 1 then {0} else if CycleLength(info) == 2 then {0, 1} else {0, 1, 2}
  }

  lemma CompleteCycleRestores(i: Info, info: Info)
    requires ValidInfo(i) && InRange(info)
    ensures Restored(i, info, Updated(i, info, AllIndices(info)))
  {
    assert 0 in AllIndices(info);
    forall j | 0 <= j < info.inview ensures j / SATINPACK in AllIndices(info) {
      assert j / SATINPACK < CycleLength(info);
    }
  }

  function UpTo(from: nat, to: nat): (ks: seq<nat>)
    requires from <= to
    ensures |ks| == to - from && forall i | 0 <= i < |ks| :: ks[i] == from + i
  {
    seq(to - from, i requires 0 <= i < to - from => from + i)
  }

  /** All packets of a cycle, as the generator sends them. */
  function Cycle(info: Info): (ps: seq<Pack>)
    requires InRange(info)
    ensures ValidPacks(ps) && |ps| == CycleLength(info)
  {
    CyclePacks(info, UpTo(0, CycleLength(info)))
  }

  lemma CompleteMembers(info: Info)
    requires InRange(info)
    ensures Members(UpTo(0, CycleLength(info))) == AllIndices(info)
  {
    var ks := UpTo(0, CycleLength(info));
    forall k | k in AllIndices(info) ensures k in Members(ks) {
      assert ks[k] == k;
    }
  }

  /** The whole cycle in the generator's order. */
  lemma CycleIsFolded(i: Info, info: Info)
    requires ValidInfo(i) && InRange(info)
    ensures FoldAll(i, Cycle(info)) == Some(Updated(i, info, AllIndices(info)))
    ensures Restored(i, info, Updated(i, info, AllIndices(info)))
  {
    hide CyclePacks, Updated, AllIndices, Restored;
    CycleUpdates(i, info, UpTo(0, CycleLength(info)));
    CompleteMembers(info);
    CompleteCycleRestores(i, info);
  }

  // ---------------------------------------------------------------- what arrives of an output

  /** The times come back where a sentence carries them. */
  predicate HasClock(info: Info, mask: set<PackType>) {
    (GPGGA in mask ==> ValidTime(info.utc)) && (GPRMC in mask ==> ValidTime(info.utc) && ValidDate(info.utc))
  }

  /** An information that can be sent, for a mask of types. */
  predicate Sendable(info: Info, mask: set<PackType>, n: Numerals) {
    Printable(info) && InRange(info) && ValidNumerals(n) && HasClock(info, mask)
  }

  /** The packets of one type as they arrive. */
  function ReceivedPart(info: Info, p: PackType, n: Numerals): (ps: seq<Pack>)
    requires InRange(info)
    ensures ValidPacks(ps)
  {
    match p
    case GPGGA => [GGA(InfoToGGA(info, n).(utc := TimeOnly(info.utc)))]
    case GPGSA => [GSA(InfoToGSA(info))]
    case GPGSV => Cycle(info)
    case GPRMC => [RMC(InfoToRMC(info, n))]
    case GPVTG => [VTG(InfoToVTG(info, n))]
    case GPNON => []
  }

  function ReceivedIf(info: Info, mask: set<PackType>, p: PackType, n: Numerals): (ps: seq<Pack>)
    requires InRange(info)
    ensures ValidPacks(ps)
  {
    if p in mask then ReceivedPart(info, p, n) else []
  }

  /** The packets of a whole output as they arrive. */
  function Received(info: Info, mask: set<PackType>, n: Numerals): (ps: seq<Pack>)
    requires InRange(info)
    ensures ValidPacks(ps)
  {
    ReceivedIf(info, mask, GPGGA, n) + ReceivedIf(info, mask, GPGSA, n) + ReceivedIf(info, mask, GPGSV, n) +
    ReceivedIf(info, mask, GPRMC, n) + ReceivedIf(info, mask, GPVTG, n)
  }

  lemma GsvArrives(info: Info, k: nat)
    requires Printable(info) && InRange(info) && k < CycleLength(info)
    ensures HasPack(info, k) && ValidBody(GsvBody(InfoToGSV(info, k))) && Sentence(GsvBody(InfoToGSV(info, k))) != ""
    ensures Decode(Sentence(GsvBody(InfoToGSV(info, k)))) == [CyclePack(info, k)]
  {
    CyclePackFits(info, k);
    PackIsValid(info, k);
    var p := InfoToGSV(info, k);
    SentKeepsCounts(p);
    hide GsvBody, Sentence, Decode, ValidBody, InfoToGSV, Sent, GsvPackCount, Printable, ValidGsv;
    GsvRoundTrip(p);
    FieldsNeededInRange(p.packIndex, p.satCount);
  }

  lemma NextOfCycle(info: Info, it: nat)
    requires InRange(info) && it < CycleLength(info)
    ensures CyclePacks(info, UpTo(it, CycleLength(info))) ==
            [CyclePack(info, it)] + CyclePacks(info, UpTo(it + 1, CycleLength(info)))
  {
    hide CyclePack, CycleLength;
  }

  lemma CycleBodiesStep(info: Info, it: nat)
    requires Printable(info) && InRange(info) && it < CycleLength(info)
    requires ValidBodies(GsvBodies(info, it)) && ValidBodies(GsvBodies(info, it + 1))
    requires DecodeBodies(GsvBodies(info, it + 1)) == CyclePacks(info, UpTo(it + 1, CycleLength(info)))
    ensures DecodeBodies(GsvBodies(info, it)) == CyclePacks(info, UpTo(it, CycleLength(info)))
  {
    GsvArrives(info, it);
    GsvBodiesNext(info, it);
    NextOfCycle(info, it);
    hide GsvBody, GsvBodies, Sentence, Decode, ValidBody, ValidBodies, InfoToGSV, CyclePack, CyclePacks;
    hide Printable, InRange;
    hide HasPack, UpTo;
  }

  lemma CycleBodiesEnd(info: Info, it: nat)
    requires InRange(info) && it == CycleLength(info)
    ensures GsvBodies(info, it) == [] && DecodeBodies([]) == [] && CyclePacks(info, UpTo(it, it)) == []
  {
    hide CyclePack;
  }

  lemma {:induction false} CycleBodies(info: Info, it: nat)
    requires Printable(info) && InRange(info) && it <= CycleLength(info)
    ensures ValidBodies(GsvBodies(info, it))
    ensures DecodeBodies(GsvBodies(info, it)) == CyclePacks(info, UpTo(it, CycleLength(info)))
    decreases CycleLength(info) - it
  {
    hide GsvBodies, ValidBodies, DecodeBodies, CyclePacks, CyclePack, CycleLength, Printable, ValidInfo, UpTo;
    GsvBodiesAreValid(info, it);
    if it < CycleLength(info) {
      CycleBodies(info, it + 1);
      CycleBodiesStep(info, it);
    } else {
      CycleBodiesEnd(info, it);
    }
  }

  lemma GgaArrives(info: Info, n: Numerals)
    requires Printable(info) && ValidNumerals(n) && ValidTime(info.utc)
    ensures ValidBodies([GgaBody(InfoToGGA(info, n))])
    ensures DecodeBodies([GgaBody(InfoToGGA(info, n))]) == [GGA(InfoToGGA(info, n).(utc := TimeOnly(info.utc)))]
  {
    GgaIsValid(info, n);
    var p := InfoToGGA(info, n);
    assert p.utc == info.utc;
    hide Sentence, Decode, GgaBody, GgaFields, ValidFields, InfoToGGA, ValidBody, ValidTime, Printable;
    GgaRoundTrip(p);
    DecodeOne(GgaBody(p));
  }

  lemma RmcArrives(info: Info, n: Numerals)
    requires Printable(info) && ValidNumerals(n) && ValidTime(info.utc) && ValidDate(info.utc)
    ensures ValidBodies([RmcBody(InfoToRMC(info, n))])
    ensures DecodeBodies([RmcBody(InfoToRMC(info, n))]) == [RMC(InfoToRMC(info, n))]
  {
    RmcIsValid(info, n);
    TimeIsPlain(info.utc);
    var p := InfoToRMC(info, n);
    assert p.utc == info.utc;
    hide Sentence, Decode, RmcBody, RmcHead, RmcRest, ValidFields, InfoToRMC, ValidBody, ValidTime, ValidDate;
    hide Printable, DateText;
    RmcRoundTrip(p);
    DecodeOne(RmcBody(p));
  }

  lemma VtgArrives(info: Info, n: Numerals)
    requires Printable(info) && ValidNumerals(n)
    ensures ValidBodies([VtgBody(InfoToVTG(info, n))])
    ensures DecodeBodies([VtgBody(InfoToVTG(info, n))]) == [VTG(InfoToVTG(info, n))]
  {
    VtgIsValid(info, n);
    var p := InfoToVTG(info, n);
    assert RightUnits(p);
    hide Sentence, Decode, VtgBody, VtgFields, ValidFields, InfoToVTG, ValidBody, Printable;
    VtgRoundTrip(p);
    DecodeOne(VtgBody(p));
  }

  lemma GsaArrives(info: Info)
    requires Printable(info)
    ensures ValidBodies([GsaBody(InfoToGSA(info))])
    ensures DecodeBodies([GsaBody(InfoToGSA(info))]) == [GSA(InfoToGSA(info))]
  {
    GsaIsValid(info);
    var p := InfoToGSA(info);
    hide Sentence, Decode, GsaBody, GsaFields, ValidFields, InfoToGSA, ValidBody, Printable;
    GsaRoundTrip(p);
    DecodeOne(GsaBody(p));
  }

  lemma PartArrives(info: Info, mask: set<PackType>, p: PackType, n: Numerals)
    requires Sendable(info, mask, n)
    ensures ValidBodies(PartIf(info, mask, p, n))
    ensures DecodeBodies(PartIf(info, mask, p, n)) == ReceivedIf(info, mask, p, n)
  {
    assert ValidInfo(info);
    PartIsValid(info, p, n);
    if p in mask {
      match p {
        case GPGGA => GgaArrives(info, n);
        case GPGSA => GsaArrives(info);
        case GPGSV => CycleBodies(info, 0);
        case GPRMC => RmcArrives(info, n);
        case GPVTG => VtgArrives(info, n);
        case GPNON =>
      }
      hide GgaBody, GsaBody, RmcBody, VtgBody, InfoToGGA, InfoToGSA, InfoToRMC, InfoToVTG, Printable;
      hide ValidBodies, ValidTime, ValidDate;
      hide CyclePacks, GsvBodies, Sentence, Decode;
    }
  }

  /** For every mask: the sentences of an output decode to exactly the packets they were made of, in their order. */
  lemma EverySentenceArrives(info: Info, mask: set<PackType>, n: Numerals)
    requires Sendable(info, mask, n)
    ensures ValidBodies(Bodies(info, mask, n))
    ensures DecodeBodies(Bodies(info, mask, n)) == Received(info, mask, n)
  {
    assert InRange(info);
    PartArrives(info, mask, GPGGA, n);
    PartArrives(info, mask, GPGSA, n);
    PartArrives(info, mask, GPGSV, n);
    PartArrives(info, mask, GPRMC, n);
    PartArrives(info, mask, GPVTG, n);
    hide PartIf, ReceivedIf, DecodeBodies, ValidBodies, Sendable;
    var a, b, c, d, e := PartIf(info, mask, GPGGA, n), PartIf(info, mask, GPGSA, n), PartIf(info, mask, GPGSV, n),
      PartIf(info, mask, GPRMC, n), PartIf(info, mask, GPVTG, n);
    DecodeBodiesConcat(a, b);
    DecodeBodiesConcat(a + b, c);
    DecodeBodiesConcat(a + b + c, d);
    DecodeBodiesConcat(a + b + c + d, e);
  }

  // ---------------------------------------------------------------- end to end

  /** What `nmea_generate` leaves of an information in a buffer of `room` bytes. */
  function Output(room: int, info: Info, mask: set<PackType>, n: Numerals): (s: string)
    requires Sendable(info, mask, n)
  {
    EverySentenceArrives(info, mask, n);
    Emit(room, Bodies(info, mask, n))
  }

  function OutputLength(info: Info, mask: set<PackType>, n: Numerals): nat
    requires Sendable(info, mask, n)
  {
    EverySentenceArrives(info, mask, n);
    |Sentences(Bodies(info, mask, n))|
  }

  /** Output that fits is read back completely: for every mask, whatever the table held and whatever bytes without a
      star the parser still had, `nmea_parse` folds exactly the packets the output was made of, and keeps no bytes. */
  lemma OutputIsReadBack(info: Info, mask: set<PackType>, n: Numerals, room: int, size: nat, noise: string, table: Info)
    requires Sendable(info, mask, n) && ValidInfo(table) && '*' !in noise && NextType(mask) != GPNON
    requires OutputLength(info, mask, n) < room && |noise| + OutputLength(info, mask, n) < size
    ensures var ps := Received(info, mask, n);
            Parse(size, Stream(noise, []), table, Output(room, info, mask, n)) ==
            match FoldAll(table, ps)
            case None => None
            case Some(r) => Some(Parsed(Stream("", []), r, |ps|))
  {
    EverySentenceArrives(info, mask, n);
    SomeBody(info, mask, n);
    hide Emit, Sentences, FoldAll, Bodies, DecodeBodies, Received, ValidBodies, Sendable, Parse;
    var bodies := Bodies(info, mask, n);
    WholeExactlyWhenItFits(room, bodies);
    SentencesAreParsed(size, noise, table, bodies);
  }

  lemma SentencesAreParsed(size: nat, noise: string, table: Info, bodies: seq<string>)
    requires ValidBodies(bodies) && bodies != [] && '*' !in noise && ValidInfo(table)
    requires |noise| + |Sentences(bodies)| < size
    ensures var ps := DecodeBodies(bodies);
            Parse(size, Stream(noise, []), table, Sentences(bodies)) ==
            match FoldAll(table, ps)
            case None => None
            case Some(r) => Some(Parsed(Stream("", []), r, |ps|))
  {
    hide Sentences, Packets, Reframe, FoldAll, DecodeBodies, ValidBodies;
    SentencesAreCut(noise, bodies);
    var out, ps := Sentences(bodies), DecodeBodies(bodies);
    assert out[..|out|] == out && [] + ps == ps;
    assert Push(size, Stream(noise, []), out) == Stream("", ps);
    hide Push;
  }

  lemma SomeBody(info: Info, mask: set<PackType>, n: Numerals)
    requires InRange(info) && NextType(mask) != GPNON
    ensures Bodies(info, mask, n) != []
  {
    BodiesSplit(info, mask, n);
    EveryPackIsThere(info, 0);
    hide Bodies, GgaBody, GsaBody, GsvBody, RmcBody, VtgBody, InfoToGGA, InfoToGSA, InfoToGSV, InfoToRMC, InfoToVTG;
    assert PartOf(info, NextType(mask), n) != [];
  }

  /** The same satellites, up to their in-use flags. */
  ghost predicate SameSatellites(a: Info, b: Info)
    requires ValidInfo(a) && ValidInfo(b)
  {
    a.inview == b.inview && forall j | 0 <= j < MAXSAT :: a.sats[j].(inUse := 0) == b.sats[j].(inUse := 0)
  }

  /** No packet but GSV touches them. */
  lemma {:induction false} OthersKeepSatellites(i: Info, ps: seq<Pack>)
    requires ValidInfo(i) && ValidPacks(ps) && forall k | 0 <= k < |ps| :: !ps[k].GSV?
    ensures FoldAll(i, ps).Some? ==> SameSatellites(i, FoldAll(i, ps).value)
    decreases ps
  {
    if ps != [] && Fold(i, ps[0]).Some? {
      assert !ps[0].GSV?;
      OneKeepsSatellites(i, ps[0]);
      hide Fold, ValidPack;
      OthersKeepSatellites(Fold(i, ps[0]).value, ps[1..]);
    }
  }

  lemma OneKeepsSatellites(i: Info, p: Pack)
    requires ValidInfo(i) && ValidPack(p) && !p.GSV? && Fold(i, p).Some?
    ensures SameSatellites(i, Fold(i, p).value)
  {}

  /** All that GSV carries: the satellites in view are those of the sender, the others those of the table. */
  ghost predicate SatellitesArrived(table: Info, info: Info, r: Info)
    requires ValidInfo(table) && InRange(info) && ValidInfo(r)
  {
    && r.inview == info.inview
    && forall j | 0 <= j < MAXSAT ::
         r.sats[j].(inUse := 0) == if j < info.inview then info.sats[j].(inUse := 0) else table.sats[j].(inUse := 0)
  }

  lemma ArrivedWhenRestored(table: Info, a: Info, info: Info, b: Info, r: Info)
    requires ValidInfo(table) && ValidInfo(a) && InRange(info) && ValidInfo(b) && ValidInfo(r)
    requires SameSatellites(table, a) && Restored(a, info, b) && SameSatellites(b, r)
    ensures SatellitesArrived(table, info, r)
  {}

  /** End to end, for every mask with GSV: the satellites of the sender arrive in any table, unless a GSA sentence makes
      the fold look past a table that already claims more satellites than it has. */
  lemma EndToEnd(info: Info, mask: set<PackType>, n: Numerals, room: int, size: nat, noise: string, table: Info)
    requires Sendable(info, mask, n) && GPGSV in mask && ValidInfo(table) && '*' !in noise
    requires OutputLength(info, mask, n) < room && |noise| + OutputLength(info, mask, n) < size
    ensures var p := Parse(size, Stream(noise, []), table, Output(room, info, mask, n));
            && (p.Some? <==> (GPGSA in mask ==> LooksInTable(table, InfoToGSA(info))))
            && (p.Some? ==> p.value.st == Stream("", []) && SatellitesArrived(table, info, p.value.info))
            && (p.Some? && mask == {GPGSV} ==> Restored(table, info, p.value.info))
  {
    NextIsFirst(mask);
    OutputIsReadBack(info, mask, n, room, size, noise, table);
    ReceivedIsFolded(info, mask, n, table);
  }

  /** The packets in front of the cycle, and those behind it. */
  lemma ReceivedIsFolded(info: Info, mask: set<PackType>, n: Numerals, table: Info)
    requires InRange(info) && GPGSV in mask && ValidInfo(table)
    ensures var r := FoldAll(table, Received(info, mask, n));
            && (r.Some? <==> (GPGSA in mask ==> LooksInTable(table, InfoToGSA(info))))
            && (r.Some? ==> SatellitesArrived(table, info, r.value))
            && (r.Some? && mask == {GPGSV} ==> Restored(table, info, r.value))
  {
    var before := ReceivedIf(info, mask, GPGGA, n) + ReceivedIf(info, mask, GPGSA, n);
    var after := ReceivedIf(info, mask, GPRMC, n) + ReceivedIf(info, mask, GPVTG, n);
    BeforeCycle(info, mask, n, table);
    InThreeParts(info, mask, n);
    hide Received, ReceivedIf, Cycle, Restored, LooksInTable, SatellitesArrived, SameSatellites, InfoToGSA, Updated;
    FoldAllConcat(table, before, Cycle(info));
    FoldAllConcat(table, before + Cycle(info), after);
    hide FoldAll;
    if FoldAll(table, before).Some? {
      var a := FoldAll(table, before).value;
      CycleIsFolded(a, info);
      var b := Updated(a, info, AllIndices(info));
      AfterCycle(info, mask, n, b);
      ArrivedWhenRestored(table, a, info, b, FoldAll(b, after).value);
    }
  }

  lemma InThreeParts(info: Info, mask: set<PackType>, n: Numerals)
    requires InRange(info) && GPGSV in mask
    ensures Received(info, mask, n) ==
            ReceivedIf(info, mask, GPGGA, n) + ReceivedIf(info, mask, GPGSA, n) + Cycle(info) +
            (ReceivedIf(info, mask, GPRMC, n) + ReceivedIf(info, mask, GPVTG, n))
  {
    assert ReceivedIf(info, mask, GPGSV, n) == Cycle(info);
    hide ReceivedIf, Cycle;
  }

  lemma BeforeCycle(info: Info, mask: set<PackType>, n: Numerals, table: Info)
    requires InRange(info) && ValidInfo(table)
    ensures var ps := ReceivedIf(info, mask, GPGGA, n) + ReceivedIf(info, mask, GPGSA, n);
            && ValidPacks(ps)
            && (FoldAll(table, ps).Some? <==> (GPGSA in mask ==> LooksInTable(table, InfoToGSA(info))))
            && (FoldAll(table, ps).Some? ==> SameSatellites(table, FoldAll(table, ps).value))
            && (mask == {GPGSV} ==> FoldAll(table, ps) == Some(table))
  {
    var a, b := ReceivedIf(info, mask, GPGGA, n), ReceivedIf(info, mask, GPGSA, n);
    var both: seq<Pack> := a + b;
    assert forall k | 0 <= k < |both| :: !both[k].GSV?;
    hide InfoToGGA, InfoToGSA, FoldGGA;
    FoldAllConcat(table, a, b);
    OthersKeepSatellites(table, a + b);
    FoldAtMostOne(table, a);
    var t := FoldAll(table, a).value;
    FoldAtMostOne(t, b);
    if GPGSA in mask {
      LookingIgnoresGga(table, t, InfoToGSA(info));
    }
  }

  lemma FoldAtMostOne(i: Info, ps: seq<Pack>)
    requires ValidInfo(i) && ValidPacks(ps) && |ps| <= 1
    ensures FoldAll(i, ps) == if ps == [] then Some(i) else Fold(i, ps[0])
  {
    hide Fold, ValidPack;
    if ps != [] {
      assert ps[1..] == [];
      if Fold(i, ps[0]).Some? {
        assert FoldAll(Fold(i, ps[0]).value, []) == Fold(i, ps[0]);
      }
    }
  }

  lemma LookingIgnoresGga(i: Info, j: Info, p: Gsa)
    requires i.inview == j.inview
    ensures LooksInTable(i, p) <==> LooksInTable(j, p)
  {}

  lemma AfterCycle(info: Info, mask: set<PackType>, n: Numerals, i: Info)
    requires InRange(info) && ValidInfo(i)
    ensures var ps := ReceivedIf(info, mask, GPRMC, n) + ReceivedIf(info, mask, GPVTG, n);
            && ValidPacks(ps) && FoldAll(i, ps).Some? && SameSatellites(i, FoldAll(i, ps).value)
            && (mask == {GPGSV} ==> FoldAll(i, ps) == Some(i))
  {
    var a, b := ReceivedIf(info, mask, GPRMC, n), ReceivedIf(info, mask, GPVTG, n);
    var both: seq<Pack> := a + b;
    assert forall k | 0 <= k < |both| :: !both[k].GSV?;
    hide InfoToRMC, InfoToVTG, FoldRMC, FoldVTG;
    FoldAllConcat(i, a, b);
    OthersKeepSatellites(i, a + b);
    FoldAtMostOne(i, a);
    FoldAtMostOne(FoldAll(i, a).value, b);
  }

  /** A buffer of a byte more than the output needs, filled by the generator. */
  method GenerateWhole(info: Info, mask: set<PackType>, n: Numerals) returns (buff: array<char>, count: nat)
    requires Sendable(info, mask, n) && OutputLength(info, mask, n) < INT_MAX
    ensures fresh(buff) && buff.Length == OutputLength(info, mask, n) + 1
    ensures count <= buff.Length && buff[..count] == Output(buff.Length, info, mask, n)
  {
    EverySentenceArrives(info, mask, n);
    hide Emit, Sentences, Bodies, Sendable, ValidBodies, Fill, FillReaches, FillOverruns, DecodeBodies, Received;
    ghost var bodies := Bodies(info, mask, n);
    var room := 1 + OutputLength(info, mask, n);
    FittingOutputReaches(room, bodies);
    buff := new char[room];
    ghost var blank := Filled(buff[..], 0);
    count := Generate(buff, room, info, mask, n);
    FilledIsEmitted(blank, room, bodies);
    assert blank.mem[..0] + Emit(room, bodies) == Emit(room, bodies);
  }

  /** The same with the objects themselves: a buffer, a fresh parser and a table. */
  method Loopback(info: Info, mask: set<PackType>, n: Numerals, table: InfoTable) returns (nread: nat, ok: bool)
    requires Sendable(info, mask, n) && GPGSV in mask && table.Valid() && OutputLength(info, mask, n) < INT_MAX
    modifies table, table.sat
    ensures ok <==> (GPGSA in mask ==> LooksInTable(old(table.Value()), InfoToGSA(info)))
    ensures ok ==> nread == |Received(info, mask, n)| && SatellitesArrived(old(table.Value()), info, table.Value())
  {
    NextIsFirst(mask);
    hide Parse, SatellitesArrived, LooksInTable, InfoToGSA, Received, Sendable, Output, OutputLength, NextType, FoldAll;
    var buff, count := GenerateWhole(info, mask, n);
    var room := buff.Length;
    EndToEnd(info, mask, n, room, room, "", table.Value());
    OutputIsReadBack(info, mask, n, room, room, "", table.Value());
    var parser := new Parser(room);
    nread, ok := parser.ParseBytes(buff[..count], table);
  }

  /** An output that fits touches nothing but its room. */
  lemma {:induction false} FittingReaches(at: nat, size: int, bodies: seq<string>)
    requires ValidBodies(bodies) && at + |Sentences(bodies)| < size
    ensures FillReaches(size, at, size, bodies) && !FillOverruns(at, size, bodies)
    decreases bodies
  {
    hide ValidBody, IsBody;
    if bodies != [] {
      BodyIsBody(bodies);
      SentenceEnds(bodies[0]);
      WrittenIs(size - at, bodies[0]);
      LongerThanBody(bodies[0]);
      hide Sentence, Written;
      FittingReaches(at + |Sentence(bodies[0])|, size, bodies[1..]);
    }
  }

  lemma LongerThanBody(body: string)
    requires IsBody(body)
    ensures |Sentence(body)| == |body| + TAIL_SIZE
  {}

  lemma FittingOutputReaches(room: int, bodies: seq<string>)
    requires ValidBodies(bodies) && |Sentences(bodies)| < room
    ensures FillReaches(room, 0, room, bodies)
  {
    hide FillReaches, Sentences, ValidBodies;
    FittingReaches(0, room, bodies);
  }
}
