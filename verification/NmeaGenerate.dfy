/** The sentence generator nmea/src/generate.c. */
module NmeaGenerate {
  import opened Decimals
  import opened Machine
  import opened NmeaText
  import opened NmeaScanf
  import opened NmeaPackets
  import opened NmeaPrintf

  // ---------------------------------------------------------------- packets from the information

  /** What the C library prints for the doubles that the generator computes: the position without sign and the speed.
      The other doubles are printed as the numerals they are kept as. */
  datatype Numerals = Numerals(lat: string, north: bool, lon: string, east: bool, knots: string, speed: string)

  predicate ValidNumerals(n: Numerals) {
    IsPlainText(n.lat) && IsPlainText(n.lon) && IsPlainText(n.knots) && IsPlainText(n.speed)
  }

  /** `nmea_info2GPGGA` */
  function InfoToGGA(info: Info, n: Numerals): Gga {
    Gga(info.utc, n.lat, if n.north then 'N' else 'S', n.lon, if n.east then 'E' else 'W', info.sig, info.inuse,
        info.dop.hdop, info.motion.elv, 'M', ZERO_REAL, 'M', ZERO_REAL, 0)
  }

  /** `nmea_info2GPRMC` */
  function InfoToRMC(info: Info, n: Numerals): Rmc {
    Rmc(info.utc, if info.sig > 0 then 'A' else 'V', n.lat, if n.north then 'N' else 'S',
        n.lon, if n.east then 'E' else 'W',
        n.knots, info.motion.direction, info.motion.declination, 'E', if info.sig > 0 then 'A' else 'N')
  }

  /** `nmea_info2GPVTG` */
  function InfoToVTG(info: Info, n: Numerals): Vtg {
    Vtg(info.motion.direction, 'T', info.motion.declination, 'M', n.knots, 'N', n.speed, 'K')
  }

  /** `nmea_info2GPGSA`: the numbers of the satellites in use, 0 for the others. */
  function InfoToGSA(info: Info): (p: Gsa)
    requires ValidInfo(info)
    ensures |p.prn| == MAXSAT
  {
    Gsa('A', info.fix,
        seq(MAXSAT, i requires 0 <= i < MAXSAT => if info.sats[i].inUse != 0 then info.sats[i].id else 0),
        info.dop.pdop, info.dop.hdop, info.dop.vdop)
  }

  method FillGSA(info: Info) returns (p: Gsa)
    requires ValidInfo(info)
    ensures p == InfoToGSA(info)
  {
    p := Gsa('A', FIX_BAD, seq(MAXSAT, _ => 0), ZERO_REAL, ZERO_REAL, ZERO_REAL);
    p := p.(fixType := info.fix, pdop := info.dop.pdop, hdop := info.dop.hdop, vdop := info.dop.vdop);
    ghost var q := p;
    for it := 0 to MAXSAT
      invariant p == q.(prn := p.prn) && |p.prn| == MAXSAT
      invariant forall i | 0 <= i < it :: p.prn[i] == InfoToGSA(info).prn[i]
    {
      p := p.(prn := p.prn[it := if info.sats[it].inUse != 0 then info.sats[it].id else 0]);
    }
    assert p.prn == InfoToGSA(info).prn;
  }

  /** `nmea_gsv_npack`: the ceiling of a quarter, at least one for an empty table. */
  function GsvPackCount(satCount: int): (n: int)
    ensures n != 0
    ensures satCount > 0 ==> (n - 1) * SATINPACK < satCount <= n * SATINPACK
    ensures -SATINPACK < satCount <= 0 ==> n == 1
    ensures satCount <= -SATINPACK ==> n < 0 && n * SATINPACK - SATINPACK < satCount <= n * SATINPACK
  {
    var n := (satCount + SATINPACK - 1) / SATINPACK;
    if n == 0 then 1 else n
  }

  function Clip(inview: int): int {
    if inview <= MAXSAT then inview else MAXSAT
  }

  /** The index of packet number `packIdx`, which wraps around the number of packets. */
  function GsvIndex(info: Info, packIdx: nat): nat {
    var packCount := GsvPackCount(Clip(info.inview));
    if packIdx >= packCount then packIdx % packCount else packIdx
  }

  /** The four satellites of that index are in the table. */
  predicate HasPack(info: Info, packIdx: nat) {
    GsvIndex(info, packIdx) < MAXSAT / SATINPACK
  }

  lemma EveryPackIsThere(info: Info, packIdx: nat)
    requires info.inview > -SATINPACK
    ensures HasPack(info, packIdx) && GsvIndex(info, packIdx) < GsvPackCount(Clip(info.inview))
  {}

  lemma IndexIsThere(info: Info, packIdx: nat)
    requires HasPack(info, packIdx)
    ensures GsvIndex(info, packIdx) * SATINPACK + SATINPACK <= MAXSAT
  {}

  /** `nmea_info2GPGSV` */
  function InfoToGSV(info: Info, packIdx: nat): (p: Gsv)
    requires ValidInfo(info) && HasPack(info, packIdx)
    ensures |p.sats| == SATINPACK && 0 <= p.packIndex < MAXSAT / SATINPACK
    ensures p.sats == info.sats[p.packIndex * SATINPACK..(p.packIndex + 1) * SATINPACK]
  {
    var satCount := Clip(info.inview);
    var index := GsvIndex(info, packIdx);
    Gsv(GsvPackCount(satCount), index, satCount, info.sats[index * SATINPACK..(index + 1) * SATINPACK])
  }

  method FillGSV(info: Info, packIdx: nat) returns (p: Gsv)
    requires ValidInfo(info) && HasPack(info, packIdx)
    ensures p == InfoToGSV(info, packIdx)
  {
    hide GsvPackCount, HasPack;
    IndexIsThere(info, packIdx);
    p := Gsv(0, 0, 0, seq(SATINPACK, _ => NO_SATELLITE));
    p := p.(satCount := if info.inview <= MAXSAT then info.inview else MAXSAT);
    p := p.(packCount := GsvPackCount(p.satCount));
    if packIdx >= p.packCount {
      p := p.(packIndex := packIdx % p.packCount);
    } else {
      p := p.(packIndex := packIdx);
    }
    ghost var q := p;
    ghost var first: nat := p.packIndex * SATINPACK;
    assert first + SATINPACK <= MAXSAT;
    hide *;
    var sit := p.packIndex * SATINPACK;
    for pit := 0 to SATINPACK
      invariant sit == first + pit && |info.sats| == MAXSAT
      invariant p == q.(sats := p.sats) && |p.sats| == SATINPACK
      invariant forall k | 0 <= k < pit :: p.sats[k] == info.sats[first + k]
    {
      p := p.(sats := p.sats[pit := info.sats[sit]]);
      sit := sit + 1;
    }
    assert p.sats == info.sats[first..first + SATINPACK];
  }

  // ---------------------------------------------------------------- bodies

  /** `%02d%02d%02d.%02d` */
  function TimeText(t: Utc): string {
    PrintInt(t.hour, 2) + PrintInt(t.min, 2) + PrintInt(t.sec, 2) + "." + PrintInt(t.hsec, 2)
  }

  /** `%02d%02d%02d` */
  function DateText(t: Utc): string {
    PrintInt(t.day, 2) + PrintInt(t.mon + 1, 2) + PrintInt(t.year - 100, 2)
  }

  /** The arguments and widths of `nmea_gen_GPGGA`. */
  function GgaFields(p: Gga): (fs: seq<Field>)
    ensures |fs| == 14
  {
    [TextField(TimeText(p.utc)), RealField(p.lat), CharField(p.ns), RealField(p.lon), CharField(p.ew),
     IntField(p.sig, 1), IntField(p.satInUse, 2), RealField(p.hdop), RealField(p.elv), CharField(p.elvUnits),
     RealField(p.diff), CharField(p.diffUnits), RealField(p.dgpsAge), IntField(p.dgpsSid, 4)]
  }

  function GgaBody(p: Gga): string {
    "$GPGGA," + Join(GgaFields(p))
  }

  function NumberFields(prn: seq<int>): (fs: seq<Field>)
    ensures |fs| == |prn|
  {
    seq(|prn|, i requires 0 <= i < |prn| => IntField(prn[i], 2))
  }

  /** The arguments and widths of `nmea_gen_GPGSA`. */
  function GsaFields(p: Gsa): (fs: seq<Field>)
    ensures |fs| == |p.prn| + 5
  {
    [CharField(p.fixMode), IntField(p.fixType, 1)] + NumberFields(p.prn) +
    [RealField(p.pdop), RealField(p.hdop), RealField(p.vdop)]
  }

  function GsaBody(p: Gsa): string {
    "$GPGSA," + Join(GsaFields(p))
  }

  function SatelliteFields(s: Satellite): (fs: seq<Field>)
    ensures |fs| == 4
  {
    [IntField(s.id, 2), IntField(s.elv, 2), IntField(s.azimuth, 3), IntField(s.sig, 2)]
  }

  /** The arguments and widths of `nmea_gen_GPGSV`. */
  function GsvFields(p: Gsv): (fs: seq<Field>)
    requires |p.sats| == SATINPACK
    ensures |fs| == 19
  {
    [IntField(p.packCount, 1), IntField(p.packIndex + 1, 1), IntField(p.satCount, 2)]
    + SatelliteFields(p.sats[0]) + SatelliteFields(p.sats[1]) + SatelliteFields(p.sats[2]) + SatelliteFields(p.sats[3])
  }

  function GsvBody(p: Gsv): string
    requires |p.sats| == SATINPACK
  {
    "$GPGSV," + Join(GsvFields(p))
  }

  /** The arguments of `nmea_gen_GPRMC` in front of the date and behind it. */
  function RmcHead(p: Rmc): (fs: seq<Field>)
    ensures |fs| == 8
  {
    [TextField(TimeText(p.utc)), CharField(p.status), RealField(p.lat), CharField(p.ns), RealField(p.lon),
     CharField(p.ew), RealField(p.speed), RealField(p.direction)]
  }

  function RmcRest(p: Rmc): (fs: seq<Field>)
    ensures |fs| == 3
  {
    [RealField(p.declination), CharField(p.declinEw), CharField(p.mode)]
  }

  function RmcBody(p: Rmc): string {
    "$GPRMC," + (JoinMore(RmcHead(p)) + (DateText(p.utc) + "," + Join(RmcRest(p))))
  }

  /** The arguments of `nmea_gen_GPVTG`. */
  function VtgFields(p: Vtg): (fs: seq<Field>)
    ensures |fs| == 8
  {
    [RealField(p.dir), CharField(p.dirT), RealField(p.dec), CharField(p.decM), RealField(p.spn), CharField(p.spnN),
     RealField(p.spk), CharField(p.spkK)]
  }

  function VtgBody(p: Vtg): string {
    "$GPVTG," + Join(VtgFields(p))
  }

  predicate ValidSatellite(s: Satellite) {
    IsInt(s.id) && IsInt(s.elv) && IsInt(s.azimuth) && IsInt(s.sig)
  }

  predicate ValidUtc(t: Utc) {
    && IsInt(t.year) && IsInt(t.mon) && IsInt(t.day) && IsInt(t.hour) && IsInt(t.min) && IsInt(t.sec) && IsInt(t.hsec)
    && IsInt(t.mon + 1) && IsInt(t.year - 100)
  }

  /** The numbers are C ints and the doubles print as numerals. */
  predicate Printable(info: Info) {
    && ValidInfo(info) && IsInt(info.inview) && IsInt(info.inuse) && IsInt(info.fix) && IsInt(info.sig) &&
       ValidUtc(info.utc)
    && (forall j | 0 <= j < MAXSAT :: ValidSatellite(info.sats[j]))
    && IsPlainText(info.dop.pdop) && IsPlainText(info.dop.hdop) && IsPlainText(info.dop.vdop)
    && IsPlainText(info.motion.elv) && IsPlainText(info.motion.direction) && IsPlainText(info.motion.declination)
  }

  // ---------------------------------------------------------------- bodies are plain

  lemma HeaderIsPlain(header: string, rest: string)
    requires IsHeader(header)
    requires '*' !in rest && '$' !in rest && Ascii(rest)
    ensures PlainBody(header + rest) && (header + rest)[0] == '$'
  {
    assert (header + rest)[1..] == header[1..] + rest;
  }

  lemma IntIsPlain(v: int, w: nat)
    requires IsInt(v) && w < 200
    ensures IsPlainText(PrintInt(v, w))
  {
    AtoiPrintInt(v, w);
  }

  lemma PlainConcat(a: string, b: string)
    requires IsPlainText(a) && IsPlainText(b)
    ensures IsPlainText(a + b)
  {
    hide IsPlain;
    assert forall i | 0 <= i < |a + b| :: (a + b)[i] == if i < |a| then a[i] else b[i - |a|];
  }

  lemma TimeIsPlain(t: Utc)
    requires ValidUtc(t)
    ensures IsPlainText(TimeText(t)) && IsPlainText(DateText(t))
  {
    hide PrintInt;
    IntIsPlain(t.hour, 2);
    IntIsPlain(t.min, 2);
    IntIsPlain(t.sec, 2);
    IntIsPlain(t.hsec, 2);
    IntIsPlain(t.day, 2);
    IntIsPlain(t.mon + 1, 2);
    IntIsPlain(t.year - 100, 2);
    assert IsPlainText(".");
    hide IsPlainText;
    var h, m, s := PrintInt(t.hour, 2), PrintInt(t.min, 2), PrintInt(t.sec, 2);
    PlainConcat(h, m);
    PlainConcat(h + m, s);
    PlainConcat(h + m + s, ".");
    PlainConcat(h + m + s + ".", PrintInt(t.hsec, 2));
    PlainConcat(PrintInt(t.day, 2), PrintInt(t.mon + 1, 2));
    PlainConcat(PrintInt(t.day, 2) + PrintInt(t.mon + 1, 2), PrintInt(t.year - 100, 2));
  }

  lemma ZeroIsPlain()
    ensures IsPlainText(ZERO_REAL)
  {}

  lemma GgaIsValid(info: Info, n: Numerals)
    requires Printable(info) && ValidNumerals(n)
    ensures ValidFields(GgaFields(InfoToGGA(info, n)))
  {
    TimeIsPlain(info.utc);
    ZeroIsPlain();
    hide IsPlainText, TimeText;
  }

  lemma RmcIsValid(info: Info, n: Numerals)
    requires Printable(info) && ValidNumerals(n)
    ensures ValidFields(RmcHead(InfoToRMC(info, n))) && ValidFields(RmcRest(InfoToRMC(info, n)))
  {
    TimeIsPlain(info.utc);
    hide TimeText, IsPlainText;
    RmcHeadIsValid(InfoToRMC(info, n));
    RmcRestIsValid(InfoToRMC(info, n));
    hide RmcHead, RmcRest;
  }

  lemma RmcHeadIsValid(p: Rmc)
    requires IsPlainText(TimeText(p.utc)) && IsPlainText(p.lat) && IsPlainText(p.lon)
    requires IsPlainText(p.speed) && IsPlainText(p.direction)
    requires IsPlain(p.status) && IsPlain(p.ns) && IsPlain(p.ew)
    ensures ValidFields(RmcHead(p))
  {
    hide IsPlain, IsPlainText, TimeText;
  }

  lemma RmcRestIsValid(p: Rmc)
    requires IsPlainText(p.declination) && IsPlain(p.declinEw) && IsPlain(p.mode)
    ensures ValidFields(RmcRest(p))
  {
    hide IsPlain, IsPlainText;
  }

  lemma VtgIsValid(info: Info, n: Numerals)
    requires Printable(info) && ValidNumerals(n)
    ensures ValidFields(VtgFields(InfoToVTG(info, n)))
  {
    hide IsPlainText;
  }

  lemma NumbersAreValid(prn: seq<int>)
    requires forall i | 0 <= i < |prn| :: IsInt(prn[i])
    ensures ValidFields(NumberFields(prn))
  {}

  lemma GsaIsValid(info: Info)
    requires Printable(info)
    ensures ValidFields(GsaFields(InfoToGSA(info)))
  {
    var p := InfoToGSA(info);
    forall i | 0 <= i < MAXSAT ensures IsInt(p.prn[i]) {
      assert ValidSatellite(info.sats[i]);
    }
    NumbersAreValid(p.prn);
    hide IsPlainText, NumberFields;
  }

  lemma SatelliteIsValid(s: Satellite)
    requires ValidSatellite(s)
    ensures ValidFields(SatelliteFields(s))
  {}

  /** A GSV packet of C ints, whose index is printed one higher. */
  predicate ValidGsv(p: Gsv) {
    && |p.sats| == SATINPACK && IsInt(p.packCount) && IsInt(p.packIndex + 1) && IsInt(p.satCount)
    && forall k | 0 <= k < SATINPACK :: ValidSatellite(p.sats[k])
  }

  lemma GsvIsValid(p: Gsv)
    requires ValidGsv(p)
    ensures ValidFields(GsvFields(p))
  {
    SatelliteIsValid(p.sats[0]);
    SatelliteIsValid(p.sats[1]);
    SatelliteIsValid(p.sats[2]);
    SatelliteIsValid(p.sats[3]);
    hide SatelliteFields;
  }

  lemma PackIsValid(info: Info, packIdx: nat)
    requires Printable(info) && HasPack(info, packIdx)
    ensures ValidGsv(InfoToGSV(info, packIdx))
  {
    hide IsPlainText;
    var p := InfoToGSV(info, packIdx);
    forall k | 0 <= k < SATINPACK ensures ValidSatellite(p.sats[k]) {
      assert p.sats[k] == info.sats[p.packIndex * SATINPACK + k];
    }
  }

  predicate IsHeader(header: string) {
    |header| == 7 && header[0] == '$' && '$' !in header[1..] && '*' !in header && Ascii(header)
  }

  /** A body of joined fields. */
  lemma JoinedBody(header: string, fs: seq<Field>)
    requires IsHeader(header)
    requires fs != [] && ValidFields(fs)
    ensures PlainBody(header + Join(fs)) && (header + Join(fs))[0] == '$'
  {
    hide Join, PlainBody;
    JoinIsPlain(fs);
    HeaderIsPlain(header, Join(fs));
  }

  lemma RmcBodyIsPlain(p: Rmc)
    requires ValidFields(RmcHead(p)) && ValidFields(RmcRest(p)) && IsPlainText(DateText(p.utc))
    ensures PlainBody(RmcBody(p)) && RmcBody(p)[0] == '$'
  {
    hide Join, JoinMore, PlainBody, DateText, ValidFields, RmcHead, RmcRest, IsPlainText;
    var head, date, rest := JoinMore(RmcHead(p)), DateText(p.utc), Join(RmcRest(p));
    JoinMoreIsPlain(RmcHead(p));
    JoinIsPlain(RmcRest(p));
    PlainTextIsPlain(date);
    PlainParts(date, ",");
    PlainParts(date + ",", rest);
    PlainParts(head, date + "," + rest);
    HeaderIsPlain("$GPRMC,", head + (date + "," + rest));
  }

  lemma PlainParts(s: string, t: string)
    requires '*' !in s && '$' !in s && Ascii(s) && '*' !in t && '$' !in t && Ascii(t)
    ensures '*' !in s + t && '$' !in s + t && Ascii(s + t)
  {}

  // ---------------------------------------------------------------- the whole output

  /** The GSV bodies from number `it` on. */
  function GsvBodies(info: Info, it: nat): seq<string>
    requires ValidInfo(info) && info.inview > -SATINPACK
    decreases GsvPackCount(info.inview) - it
  {
    EveryPackIsThere(info, it);
    if it >= GsvPackCount(info.inview) then []
    else [GsvBody(InfoToGSV(info, it))] + GsvBodies(info, it + 1)
  }

  /** A satellite count below -3 makes a negative packet count, and no packet. */
  function GsvPart(info: Info): seq<string>
    requires ValidInfo(info)
  {
    if info.inview > -SATINPACK then GsvBodies(info, 0) else []
  }

  /** The sentences of one type. */
  function PartOf(info: Info, p: PackType, n: Numerals): seq<string>
    requires ValidInfo(info)
  {
    match p
    case GPGGA => [GgaBody(InfoToGGA(info, n))]
    case GPGSA => [GsaBody(InfoToGSA(info))]
    case GPGSV => GsvPart(info)
    case GPRMC => [RmcBody(InfoToRMC(info, n))]
    case GPVTG => [VtgBody(InfoToVTG(info, n))]
    case GPNON => []
  }

  function PartIf(info: Info, mask: set<PackType>, p: PackType, n: Numerals): seq<string>
    requires ValidInfo(info)
  {
    if p in mask then PartOf(info, p, n) else []
  }

  /** The bodies a mask asks for, in the fixed order of the types. */
  function Bodies(info: Info, mask: set<PackType>, n: Numerals): seq<string>
    requires ValidInfo(info)
  {
    PartIf(info, mask, GPGGA, n) + PartIf(info, mask, GPGSA, n) + PartIf(info, mask, GPGSV, n) +
    PartIf(info, mask, GPRMC, n) + PartIf(info, mask, GPVTG, n)
  }

  /** Plain bodies that open with a dollar. */
  predicate ValidBody(body: string) {
    PlainBody(body) && body[0] == '$'
  }

  predicate ValidBodies(bodies: seq<string>) {
    forall i | 0 <= i < |bodies| :: ValidBody(bodies[i])
  }

  lemma {:induction false} GsvBodiesAreValid(info: Info, it: nat)
    requires Printable(info) && info.inview > -SATINPACK
    ensures ValidBodies(GsvBodies(info, it))
    decreases GsvPackCount(info.inview) - it
  {
    hide GsvBody, GsvBodies, InfoToGSV, GsvPackCount, HasPack, Printable, ValidBody, ValidBodies, ValidInfo;
    PrintableIsValid(info);
    ValidBodiesNext(GsvBodies(info, it));
    if it < GsvPackCount(info.inview) {
      GsvBodyIsValid(info, it);
      GsvBodiesAreValid(info, it + 1);
      GsvBodiesNext(info, it);
    } else {
      NoBodiesLeft(info, it);
    }
  }

  lemma PrintableIsValid(info: Info)
    requires Printable(info)
    ensures ValidInfo(info)
  {}

  lemma NoBodiesLeft(info: Info, it: nat)
    requires ValidInfo(info) && info.inview > -SATINPACK && it >= GsvPackCount(info.inview)
    ensures GsvBodies(info, it) == []
  {}

  lemma ValidBodiesNext(bodies: seq<string>)
    ensures ValidBodies(bodies) <==> bodies == [] || (ValidBody(bodies[0]) && ValidBodies(bodies[1..]))
  {
    hide ValidBody;
    if bodies != [] && ValidBody(bodies[0]) && ValidBodies(bodies[1..]) {
      assert bodies == [bodies[0]] + bodies[1..];
    }
  }

  lemma GsvBodyIsValid(info: Info, it: nat)
    requires Printable(info) && info.inview > -SATINPACK && it < GsvPackCount(info.inview)
    ensures HasPack(info, it) && ValidBody(GsvBody(InfoToGSV(info, it)))
  {
    EveryPackIsThere(info, it);
    PackIsValid(info, it);
    var p := InfoToGSV(info, it);
    hide InfoToGSV, GsvFields, Join, Printable, PlainBody, HasPack;
    GsvIsValid(p);
    JoinedBody("$GPGSV,", GsvFields(p));
  }

  lemma PartIsValid(info: Info, p: PackType, n: Numerals)
    requires Printable(info) && ValidNumerals(n)
    ensures ValidBodies(PartOf(info, p, n))
  {
    assert ValidInfo(info);
    hide Printable, ValidNumerals, InfoToGGA, InfoToRMC, InfoToVTG, InfoToGSA, ValidBody;
    hide GgaBody, GsaBody, RmcBody, VtgBody;
    match p {
      case GPGGA => GgaPartIsValid(info, n);
      case GPGSA => GsaPartIsValid(info);
      case GPGSV =>
        if info.inview > -SATINPACK {
          GsvBodiesAreValid(info, 0);
        }
      case GPRMC => RmcPartIsValid(info, n);
      case GPVTG => VtgPartIsValid(info, n);
      case GPNON =>
    }
  }

  lemma GgaPartIsValid(info: Info, n: Numerals)
    requires Printable(info) && ValidNumerals(n)
    ensures ValidBody(GgaBody(InfoToGGA(info, n)))
  {
    GgaIsValid(info, n);
    hide ValidFields, PlainBody, Join, GgaFields;
    JoinedBody("$GPGGA,", GgaFields(InfoToGGA(info, n)));
  }

  lemma GsaPartIsValid(info: Info)
    requires Printable(info)
    ensures ValidBody(GsaBody(InfoToGSA(info)))
  {
    GsaIsValid(info);
    hide ValidFields, PlainBody, Join, GsaFields;
    JoinedBody("$GPGSA,", GsaFields(InfoToGSA(info)));
  }

  lemma VtgPartIsValid(info: Info, n: Numerals)
    requires Printable(info) && ValidNumerals(n)
    ensures ValidBody(VtgBody(InfoToVTG(info, n)))
  {
    VtgIsValid(info, n);
    hide ValidFields, PlainBody, Join, VtgFields;
    JoinedBody("$GPVTG,", VtgFields(InfoToVTG(info, n)));
  }

  lemma RmcPartIsValid(info: Info, n: Numerals)
    requires Printable(info) && ValidNumerals(n)
    ensures ValidBody(RmcBody(InfoToRMC(info, n)))
  {
    hide ValidFields, PlainBody, RmcBody;
    RmcIsValid(info, n);
    TimeIsPlain(info.utc);
    RmcBodyIsPlain(InfoToRMC(info, n));
  }

  /** No sentence of the generator holds a framing character in its body, whatever the mask. */
  lemma BodiesAreValid(info: Info, mask: set<PackType>, n: Numerals)
    requires Printable(info) && ValidNumerals(n)
    ensures ValidBodies(Bodies(info, mask, n))
  {
    hide PartOf, ValidBody;
    PartIsValid(info, GPGGA, n);
    PartIsValid(info, GPGSA, n);
    PartIsValid(info, GPGSV, n);
    PartIsValid(info, GPRMC, n);
    PartIsValid(info, GPVTG, n);
  }

  // ---------------------------------------------------------------- sentence after sentence into a buffer

  function Larger(a: int, b: int): (m: int)
    ensures m >= a && m >= b && (m == a || m == b)
  {
    if a > b then a else b
  }

  /** A buffer that is filled up to `at`. */
  datatype Filled = Filled(mem: string, at: nat)

  lemma BodyIsBody(bodies: seq<string>)
    requires ValidBodies(bodies) && bodies != []
    ensures ValidBody(bodies[0]) && IsBody(bodies[0]) && PlainBody(bodies[0]) && ValidBodies(bodies[1..])
  {
    hide IsBody;
  }

  /** One sentence. */
  function FillOne(f: Filled, size: int, body: string): Filled
    requires IsBody(body)
  {
    Filled(Printed(f.mem, f.at, size - f.at, body), f.at + |Written(size - f.at, body)|)
  }

  /** Sentence after sentence, as long as there is room. */
  function Fill(f: Filled, size: int, bodies: seq<string>): Filled
    requires ValidBodies(bodies)
    decreases bodies
  {
    if bodies == [] || size - f.at <= 0 then f
    else
      BodyIsBody(bodies);
      Fill(FillOne(f, size, bodies[0]), size, bodies[1..])
  }

  /** The memory that is touched lies in the buffer. */
  predicate FillReaches(len: nat, at: nat, size: int, bodies: seq<string>)
    requires ValidBodies(bodies)
    decreases bodies
  {
    bodies == [] || size - at <= 0 ||
    (BodyIsBody(bodies);
     && Reaches(len, at, size - at, bodies[0])
     && FillReaches(len, at + |Written(size - at, bodies[0])|, size, bodies[1..]))
  }

  /** Some body is longer than the room it meets. */
  predicate FillOverruns(at: nat, size: int, bodies: seq<string>)
    requires ValidBodies(bodies)
    decreases bodies
  {
    bodies != [] && size - at > 0 &&
    (BodyIsBody(bodies);
     Overruns(size - at, bodies[0]) || FillOverruns(at + |Written(size - at, bodies[0])|, size, bodies[1..]))
  }

  lemma FillNothing(f: Filled, size: int, bodies: seq<string>)
    requires ValidBodies(bodies) && (bodies == [] || size - f.at <= 0)
    ensures Fill(f, size, bodies) == f
  {}

  lemma NoRoomIsEmpty(body: string, room: int)
    requires IsBody(body) && room <= 0
    ensures Written(room, body) == ""
  {}

  lemma FillNext(f: Filled, size: int, bodies: seq<string>)
    requires ValidBodies(bodies) && bodies != []
    ensures ValidBodies(bodies[1..]) && IsBody(bodies[0])
    ensures Fill(f, size, bodies) == Fill(FillOne(f, size, bodies[0]), size, bodies[1..])
  {
    hide Printed, Written, ValidBody, IsBody;
    BodyIsBody(bodies);
    if size - f.at <= 0 {
      NoRoomIsEmpty(bodies[0], size - f.at);
      NothingPrinted(f.mem, f.at, size - f.at, bodies[0]);
    }
  }

  lemma NothingPrinted(mem: string, off: nat, room: int, body: string)
    requires room <= 0
    ensures Printed(mem, off, room, body) == mem
  {}

  lemma ValidSplit(xs: seq<string>, ys: seq<string>)
    ensures ValidBodies(xs + ys) <==> ValidBodies(xs) && ValidBodies(ys)
  {
    hide ValidBody;
    if ValidBodies(xs + ys) {
      assert forall i | 0 <= i < |xs| :: xs[i] == (xs + ys)[i];
      assert forall i | 0 <= i < |ys| :: ys[i] == (xs + ys)[|xs| + i];
    }
  }

  lemma {:induction false} FillConcat(f: Filled, size: int, xs: seq<string>, ys: seq<string>, len: nat)
    requires ValidBodies(xs) && ValidBodies(ys)
    ensures ValidBodies(xs + ys)
    ensures Fill(f, size, xs + ys) == Fill(Fill(f, size, xs), size, ys)
    ensures FillReaches(len, f.at, size, xs + ys) ==>
              FillReaches(len, f.at, size, xs) && FillReaches(len, Fill(f, size, xs).at, size, ys)
    decreases xs
  {
    hide Printed, Written, ValidBody, Reaches;
    ValidSplit(xs, ys);
    if xs == [] {
      assert xs + ys == ys;
    } else {
      BodyIsBody(xs);
      assert (xs + ys)[0] == xs[0] && (xs + ys)[1..] == xs[1..] + ys;
      if size - f.at > 0 {
        FillConcat(FillOne(f, size, xs[0]), size, xs[1..], ys, len);
      }
    }
  }

  /** What sentence after sentence leaves in `room` bytes. */
  function Emit(room: int, bodies: seq<string>): (s: string)
    requires ValidBodies(bodies)
    ensures |s| <= if room > 0 then room else 0
    decreases bodies
  {
    if bodies == [] || room <= 0 then ""
    else
      BodyIsBody(bodies);
      var w := Written(room, bodies[0]);
      w + Emit(room - |w|, bodies[1..])
  }

  /** After one sentence, the rest is emitted into the room that is left. */
  lemma EmitNext(room: int, bodies: seq<string>)
    requires ValidBodies(bodies) && bodies != []
    ensures ValidBodies(bodies[1..]) && IsBody(bodies[0])
    ensures Emit(room, bodies) == Written(room, bodies[0]) + Emit(room - |Written(room, bodies[0])|, bodies[1..])
  {
    hide Written, IsBody, ValidBody;
    BodyIsBody(bodies);
    if room <= 0 {
      NoRoomIsEmpty(bodies[0], room);
      assert "" + "" == "";
    }
  }

  lemma EmitNothing(room: int, bodies: seq<string>)
    requires ValidBodies(bodies) && (room <= 0 || bodies == [])
    ensures Emit(room, bodies) == ""
  {}

  /** The buffer holds what is emitted, behind what was in it. */
  lemma {:induction false} FilledIsEmitted(f: Filled, size: int, bodies: seq<string>)
    requires ValidBodies(bodies) && IsInt(size - f.at) && f.at <= |f.mem| && (size > f.at ==> size <= |f.mem|)
    ensures var g := Fill(f, size, bodies);
            && |g.mem| == |f.mem| && g.at == f.at + |Emit(size - f.at, bodies)| <= |f.mem|
            && g.mem[..g.at] == f.mem[..f.at] + Emit(size - f.at, bodies)
    decreases bodies
  {
    hide Printed, Written, IsBody, ValidBody;
    if bodies == [] || size - f.at <= 0 {
      FillNothing(f, size, bodies);
      EmitNothing(size - f.at, bodies);
      assert f.mem[..f.at] + "" == f.mem[..f.at];
    } else {
      var room := size - f.at;
      FillNext(f, size, bodies);
      EmitNext(room, bodies);
      PrintedInRoom(f.mem, f.at, room, bodies[0]);
      var w, rest := Written(room, bodies[0]), Emit(room - |Written(room, bodies[0])|, bodies[1..]);
      FilledIsEmitted(FillOne(f, size, bodies[0]), size, bodies[1..]);
      assert f.mem[..f.at] + w + rest == f.mem[..f.at] + (w + rest);
    }
  }

  // ---------------------------------------------------------------- when the output leaves its room

  lemma {:induction false} FillStaysInRoom(f: Filled, size: int, bodies: seq<string>)
    requires ValidBodies(bodies) && IsInt(size - f.at) && !FillOverruns(f.at, size, bodies)
    ensures SameOutside(f.mem, Fill(f, size, bodies).mem, f.at, size - f.at)
    decreases bodies
  {
    hide Printed, Written, IsBody, ValidBody, Overruns;
    if bodies != [] && size - f.at > 0 {
      BodyIsBody(bodies);
      PrintedStaysInRoom(f.mem, f.at, size - f.at, bodies[0]);
      FillStaysInRoom(FillOne(f, size, bodies[0]), size, bodies[1..]);
    }
  }

  /** A body that overruns leaves its star behind the room, where nothing is written afterwards. */
  lemma {:induction false} FillLeavesRoom(f: Filled, size: int, bodies: seq<string>) returns (i: nat)
    requires ValidBodies(bodies) && IsInt(size - f.at) && FillOverruns(f.at, size, bodies)
    requires FillReaches(|f.mem|, f.at, size, bodies)
    ensures size <= i < |f.mem| && |Fill(f, size, bodies).mem| == |f.mem| && Fill(f, size, bodies).mem[i] == '*'
    decreases bodies
  {
    hide Printed, Written, IsBody, ValidBody;
    BodyIsBody(bodies);
    var room := size - f.at;
    var g := FillOne(f, size, bodies[0]);
    if Overruns(room, bodies[0]) {
      PrintedLeavesRoom(f.mem, f.at, room, bodies[0]);
      i := f.at + |bodies[0]|;
      FillNothing(g, size, bodies[1..]);
    } else {
      i := FillLeavesRoom(g, size, bodies[1..]);
    }
  }

  function TotalLength(bodies: seq<string>): nat {
    if bodies == [] then 0 else |bodies[0]| + TotalLength(bodies[1..])
  }

  lemma {:induction false} LargeBufferIsReached(len: nat, at: nat, size: int, bodies: seq<string>)
    requires ValidBodies(bodies) && at + TotalLength(bodies) + OVERRUN <= len &&
             Larger(size, 0) + TotalLength(bodies) + OVERRUN <= len
    ensures FillReaches(len, at, size, bodies)
    decreases bodies
  {
    hide Written, IsBody, ValidBody;
    if bodies != [] && size - at > 0 {
      BodyIsBody(bodies);
      var next := at + |Written(size - at, bodies[0])|;
      if next < size {
        LargeBufferIsReached(len, next, size, bodies[1..]);
      }
    }
  }

  /** Whatever the memory holds, nothing outside the room is written: this is true exactly if no body is longer than
      the room it meets. */
  lemma FillStaysInRoomExactly(at: nat, size: int, bodies: seq<string>)
    requires ValidBodies(bodies) && IsInt(size - at)
    ensures (forall mem: string | FillReaches(|mem|, at, size, bodies) ::
               SameOutside(mem, Fill(Filled(mem, at), size, bodies).mem, at, size - at))
            <==> !FillOverruns(at, size, bodies)
  {
    hide Fill, FillReaches, FillOverruns, ValidBodies;
    if FillOverruns(at, size, bodies) {
      var len := at + Larger(size, 0) + TotalLength(bodies) + OVERRUN;
      var mem := seq(len, _ => 'a');
      LargeBufferIsReached(len, at, size, bodies);
      var i := FillLeavesRoom(Filled(mem, at), size, bodies);
      assert mem[i] == 'a' && !(at <= i < at + (size - at));
      assert !SameOutside(mem, Fill(Filled(mem, at), size, bodies).mem, at, size - at);
    } else {
      forall mem: string ensures SameOutside(mem, Fill(Filled(mem, at), size, bodies).mem, at, size - at) {
        FillStaysInRoom(Filled(mem, at), size, bodies);
      }
    }
  }

  /** With ten bytes or less for a GSA sentence, the generator writes outside its room. */
  lemma TenBytesAreOverrun(info: Info, size: int)
    requires Printable(info) && 0 < size <= 10 && |GsaBody(InfoToGSA(info))| <= INT_MAX
    ensures ValidBodies([GsaBody(InfoToGSA(info))]) && FillOverruns(0, size, [GsaBody(InfoToGSA(info))])
  {
    GsaPartIsValid(info);
    GsaBodyIsLong(InfoToGSA(info));
    hide GsaBody, InfoToGSA, ValidBody;
  }

  lemma GsaBodyIsLong(p: Gsa)
    ensures |GsaBody(p)| > 10
  {
    var fs := GsaFields(p);
    JoinIsLong(fs);
    hide Join;
  }

  /** Three fields and more take four characters and more. */
  lemma JoinIsLong(fs: seq<Field>)
    requires |fs| > 2 && fs[0].CharField? && fs[1].IntField?
    ensures |Join(fs)| >= 4
  {
    var rest := fs[1..];
    assert rest[0] == fs[1] && |FieldText(rest[0])| >= 1;
    assert Join(rest) == FieldText(rest[0]) + "," + Join(rest[1..]);
    assert |FieldText(fs[0])| == 1;
    hide FieldText;
  }

  // ---------------------------------------------------------------- the generator

  lemma GsvBodiesNext(info: Info, it: nat)
    requires ValidInfo(info) && info.inview > -SATINPACK && it < GsvPackCount(info.inview)
    ensures HasPack(info, it)
    ensures var bodies := GsvBodies(info, it);
            bodies != [] && bodies[0] == GsvBody(InfoToGSV(info, it)) && bodies[1..] == GsvBodies(info, it + 1)
  {
    hide GsvBody, InfoToGSV, GsvPackCount;
    EveryPackIsThere(info, it);
  }

  lemma ReachesNext(len: nat, at: nat, size: int, bodies: seq<string>)
    requires ValidBodies(bodies) && bodies != [] && FillReaches(len, at, size, bodies)
    ensures IsBody(bodies[0]) && Reaches(len, at, size - at, bodies[0])
    ensures FillReaches(len, at + |Written(size - at, bodies[0])|, size, bodies[1..])
  {
    hide Written, ValidBody, IsBody;
    BodyIsBody(bodies);
    if size - at <= 0 {
      NoRoomIsEmpty(bodies[0], size - at);
    }
  }

  lemma StaysInBuffer(mem: string, at: nat, size: int, body: string)
    requires IsBody(body) && at <= |mem| && Reaches(|mem|, at, size - at, body)
    ensures at + |Written(size - at, body)| <= |mem|
  {
    hide Sentence;
  }

  /** One sentence of the output. */
  method GenerateOne(buff: array<char>, buffSz: int, ghost bodies: seq<string>, body: string, start: nat)
    returns (genCount: nat)
    requires ValidBodies(bodies) && bodies != [] && body == bodies[0]
    requires IsInt(buffSz) && IsInt(buffSz - start) && start <= buff.Length
    requires FillReaches(buff.Length, start, buffSz, bodies)
    modifies buff
    ensures ValidBodies(bodies[1..]) && start <= genCount <= buff.Length && genCount <= Larger(start, buffSz)
    ensures Fill(Filled(buff[..], genCount), buffSz, bodies[1..]) == Fill(Filled(old(buff[..]), start), buffSz, bodies)
    ensures FillReaches(buff.Length, genCount, buffSz, bodies[1..])
  {
    hide ValidBodies, ValidBody, IsBody, Fill, FillReaches, Printed, Written, Reaches;
    BodyIsBody(bodies);
    FillNext(Filled(buff[..], start), buffSz, bodies);
    ReachesNext(buff.Length, start, buffSz, bodies);
    StaysInBuffer(buff[..], start, buffSz, body);
    var n := Printf(buff, start, buffSz - start, body);
    genCount := start + n;
  }

  /** The GSV loop of `nmea_generate`. */
  method GenerateGSV(buff: array<char>, buffSz: int, info: Info, start: nat) returns (genCount: nat)
    requires ValidInfo(info) && ValidBodies(GsvPart(info)) && IsInt(buffSz) && IsInt(buffSz - start) &&
             start <= buff.Length
    requires start <= Larger(0, buffSz) && FillReaches(buff.Length, start, buffSz, GsvPart(info))
    modifies buff
    ensures Filled(buff[..], genCount) == Fill(Filled(old(buff[..]), start), buffSz, GsvPart(info))
    ensures genCount <= buff.Length && genCount <= Larger(0, buffSz)
  {
    hide ValidBodies, ValidBody, Fill, FillReaches, GsvBodies, GsvBody, InfoToGSV, GsvPackCount;
    genCount := start;
    var gsvCount := GsvPackCount(info.inview);
    GsvPartIs(info);
    ghost var was := Filled(buff[..], start);
    if gsvCount < 0 {
      FillNothing(was, buffSz, GsvPart(info));
      return;  // the loop ends at once
    }
    var gsvIt := 0;
    while gsvIt < gsvCount && buffSz - genCount > 0
      invariant 0 <= gsvIt <= gsvCount && genCount <= buff.Length && start <= genCount <= Larger(0, buffSz)
      invariant ValidBodies(GsvBodies(info, gsvIt))
      invariant Fill(Filled(buff[..], genCount), buffSz, GsvBodies(info, gsvIt)) == Fill(was, buffSz, GsvPart(info))
      invariant FillReaches(buff.Length, genCount, buffSz, GsvBodies(info, gsvIt))
      decreases gsvCount - gsvIt
    {
      GsvBodiesNext(info, gsvIt);
      var gsv := FillGSV(info, gsvIt);
      genCount := GenerateOne(buff, buffSz, GsvBodies(info, gsvIt), GsvBody(gsv), genCount);
      gsvIt := gsvIt + 1;
    }
    FillNothing(Filled(buff[..], genCount), buffSz, GsvBodies(info, gsvIt));
  }

  lemma GsvPartIs(info: Info)
    requires ValidInfo(info)
    ensures GsvPackCount(info.inview) < 0 <==> info.inview <= -SATINPACK
    ensures info.inview <= -SATINPACK ==> GsvPart(info) == []
    ensures info.inview > -SATINPACK ==>
              GsvPart(info) == GsvBodies(info, 0) && GsvBodies(info, GsvPackCount(info.inview)) == []
  {}

  /** The type the loop handles next. */
  function NextType(mask: set<PackType>): PackType {
    if GPGGA in mask then GPGGA
    else if GPGSA in mask then GPGSA
    else if GPGSV in mask then GPGSV
    else if GPRMC in mask then GPRMC
    else if GPVTG in mask then GPVTG
    else GPNON
  }

  lemma BodiesSplit(info: Info, mask: set<PackType>, n: Numerals)
    requires ValidInfo(info)
    ensures var p := NextType(mask); Bodies(info, mask, n) == PartOf(info, p, n) + Bodies(info, mask - {p}, n)
    ensures NextType(mask) == GPNON ==> Bodies(info, mask, n) == []
    ensures NextType(mask) != GPNON ==> NextType(mask) in mask
  {
    var p := NextType(mask);
    var rest := mask - {p};
    NextIsFirst(mask);
    ChosenPart(info, mask, p, n);
    OtherPart(info, mask, GPGGA, n);
    OtherPart(info, mask, GPGSA, n);
    OtherPart(info, mask, GPGSV, n);
    OtherPart(info, mask, GPRMC, n);
    OtherPart(info, mask, GPVTG, n);
    hide PartIf, PartOf, NextType;
    FiveParts(PartIf(info, mask, GPGGA, n), PartIf(info, mask, GPGSA, n), PartIf(info, mask, GPGSV, n),
              PartIf(info, mask, GPRMC, n), PartIf(info, mask, GPVTG, n));
    match p {
      case GPGGA =>
      case GPGSA =>
      case GPGSV =>
      case GPRMC =>
      case GPVTG =>
      case GPNON =>
    }
  }

  /** The types in front of the next one are not in the mask. */
  lemma NextIsFirst(mask: set<PackType>)
    ensures var p := NextType(mask);
            && (p != GPNON ==> p in mask)
            && (GPGGA in mask ==> p == GPGGA)
            && (GPGSA in mask ==> p == GPGGA || p == GPGSA)
            && (GPGSV in mask ==> p == GPGGA || p == GPGSA || p == GPGSV)
            && (GPRMC in mask ==> p != GPVTG && p != GPNON)
            && (GPVTG in mask ==> p != GPNON)
  {}

  /** Taking the first part that is not empty out of five. */
  lemma FiveParts(a: seq<string>, b: seq<string>, c: seq<string>, d: seq<string>, e: seq<string>)
    ensures a + b + c + d + e == a + ([] + b + c + d + e)
    ensures a == [] ==> a + b + c + d + e == b + (a + [] + c + d + e)
    ensures a == b == [] ==> a + b + c + d + e == c + (a + b + [] + d + e)
    ensures a == b == c == [] ==> a + b + c + d + e == d + (a + b + c + [] + e)
    ensures a == b == c == d == [] ==> a + b + c + d + e == e + (a + b + c + d + [])
    ensures a == b == c == d == e == [] ==> a + b + c + d + e == []
  {}

  lemma ChosenPart(info: Info, mask: set<PackType>, p: PackType, n: Numerals)
    requires ValidInfo(info)
    ensures p in mask ==> PartIf(info, mask, p, n) == PartOf(info, p, n)
    ensures p == GPNON ==> PartOf(info, p, n) == []
    ensures PartIf(info, mask - {p}, p, n) == []
  {}

  lemma OtherPart(info: Info, mask: set<PackType>, q: PackType, n: Numerals)
    requires ValidInfo(info)
    ensures q !in mask ==> PartIf(info, mask, q, n) == []
    ensures q != NextType(mask) ==> PartIf(info, mask - {NextType(mask)}, q, n) == PartIf(info, mask, q, n)
  {
    hide PartOf, NextType;
  }

  /** One turn of the loop: the sentences of one type. */
  method GenerateType(buff: array<char>, buffSz: int, info: Info, p: PackType, n: Numerals,
                      start: nat) returns (genCount: nat)
    requires ValidInfo(info) && ValidBodies(PartOf(info, p, n)) && p != GPNON
    requires IsInt(buffSz) && IsInt(buffSz - start) && start <= buff.Length && start <= Larger(0, buffSz)
    requires FillReaches(buff.Length, start, buffSz, PartOf(info, p, n))
    modifies buff
    ensures Filled(buff[..], genCount) == Fill(Filled(old(buff[..]), start), buffSz, PartOf(info, p, n))
    ensures genCount <= buff.Length && genCount <= Larger(0, buffSz)
  {
    hide ValidBodies, Fill, FillReaches, GsvPart, GgaBody, GsaBody, RmcBody, VtgBody;
    hide InfoToGSA, InfoToGGA, InfoToRMC, InfoToVTG;
    if p == GPGSV {
      genCount := GenerateGSV(buff, buffSz, info, start);
    } else {
      var body: string;
      match p {
        case GPGGA => body := GgaBody(InfoToGGA(info, n));
        case GPGSA =>
          var gsa := FillGSA(info);
          body := GsaBody(gsa);
        case GPRMC => body := RmcBody(InfoToRMC(info, n));
        case GPVTG => body := VtgBody(InfoToVTG(info, n));
      }
      assert PartOf(info, p, n) == [body] && [body][1..] == [];
      genCount := GenerateOne(buff, buffSz, [body], body, start);
      FillNothing(Filled(buff[..], genCount), buffSz, []);
    }
  }

  /** `nmea_generate`. The mask is the set of its bits; `GPNON` stands for bits that name no type. */
  method Generate(buff: array<char>, buffSz: int, info: Info, mask: set<PackType>, n: Numerals) returns (genCount: nat)
    requires ValidInfo(info) && IsInt(buffSz) && ValidBodies(Bodies(info, mask, n))
    requires FillReaches(buff.Length, 0, buffSz, Bodies(info, mask, n))
    modifies buff
    ensures Filled(buff[..], genCount) == Fill(Filled(old(buff[..]), 0), buffSz, Bodies(info, mask, n))
    ensures genCount <= buff.Length && genCount <= Larger(0, buffSz)
  {
    hide Bodies, PartOf, Fill, FillReaches, ValidBodies, NextType;
    genCount := 0;
    var packMask := mask;
    while packMask != {}
      invariant genCount <= buff.Length && genCount <= Larger(0, buffSz) && ValidBodies(Bodies(info, packMask, n))
      invariant Fill(Filled(buff[..], genCount), buffSz, Bodies(info, packMask, n)) ==
                Fill(Filled(old(buff[..]), 0), buffSz, Bodies(info, mask, n))
      invariant FillReaches(buff.Length, genCount, buffSz, Bodies(info, packMask, n))
      decreases packMask
    {
      BodiesSplit(info, packMask, n);
      var p := NextType(packMask);
      if p == GPNON {
        break;
      }
      ghost var part, rest := PartOf(info, p, n), Bodies(info, packMask - {p}, n);
      ValidSplit(part, rest);
      FillConcat(Filled(buff[..], genCount), buffSz, part, rest, buff.Length);
      genCount := GenerateType(buff, buffSz, info, p, n, genCount);
      packMask := packMask - {p};
      if buffSz - genCount <= 0 {
        break;
      }
    }
    BodiesSplit(info, packMask, n);
    NothingLeft(packMask);
    FillNothing(Filled(buff[..], genCount), buffSz, Bodies(info, packMask, n));
  }

  lemma NothingLeft(mask: set<PackType>)
    ensures mask == {} ==> NextType(mask) == GPNON
  {}
}
