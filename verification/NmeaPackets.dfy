/** Packets, their text forms, and how they are folded into the summary information:
    nmea/src/parse.c, with the structures of include/nmea/sentence.h and include/nmea/info.h. */
module NmeaPackets {
  import opened Options
  import opened Machine
  import opened NmeaText
  import opened NmeaScanf

  const MAXSAT := 12
  const SATINPACK := 4

  const SIG_BAD := 0
  const SIG_MID := 2
  const FIX_BAD := 1
  const FIX_2D := 2

  datatype PackType = GPNON | GPGGA | GPGSA | GPGSV | GPRMC | GPVTG

  datatype Satellite = Satellite(id: int, inUse: int, elv: int, azimuth: int, sig: int)

  /** Years count from 1900 and months from 0. */
  datatype Utc = Utc(year: int, mon: int, day: int, hour: int, min: int, sec: int, hsec: int)

  /** A double is the numeral it was read from, negated or converted from knots to km/h. */
  datatype Real = Numeral(text: string) | Minus(text: string) | FromKnots(text: string)

  /** The numeral that stands for a zeroed double. */
  const ZERO_REAL := "0.0"

  const NO_SATELLITE := Satellite(0, 0, 0, 0, 0)
  const NO_TIME := Utc(0, 0, 0, 0, 0, 0, 0)

  datatype Gga = Gga(
    utc: Utc, lat: string, ns: char, lon: string, ew: char, sig: int, satInUse: int, hdop: string, elv: string,
    elvUnits: char, diff: string, diffUnits: char, dgpsAge: string, dgpsSid: int)

  datatype Gsa = Gsa(fixMode: char, fixType: int, prn: seq<int>, pdop: string, hdop: string, vdop: string)

  datatype Gsv = Gsv(packCount: int, packIndex: int, satCount: int, sats: seq<Satellite>)

  datatype Rmc = Rmc(
    utc: Utc, status: char, lat: string, ns: char, lon: string, ew: char, speed: string, direction: string,
    declination: string, declinEw: char, mode: char)

  datatype Vtg = Vtg(
    dir: string, dirT: char, dec: string, decM: char, spn: string, spnN: char, spk: string, spkK: char)

  datatype Pack = GGA(gga: Gga) | GSA(gsa: Gsa) | GSV(gsv: Gsv) | RMC(rmc: Rmc) | VTG(vtg: Vtg)

  function TypeOf(p: Pack): PackType {
    match p
    case GGA(_) => GPGGA
    case GSA(_) => GPGSA
    case GSV(_) => GPGSV
    case RMC(_) => GPRMC
    case VTG(_) => GPVTG
  }

  // ---------------------------------------------------------------- from text

  /** `nmea_pack_type` on the bytes after the dollar. */
  function HeaderType(s: string): PackType {
    if |s| < 5 then GPNON
    else if s[..5] == "GPGGA" then GPGGA
    else if s[..5] == "GPGSA" then GPGSA
    else if s[..5] == "GPGSV" then GPGSV
    else if s[..5] == "GPRMC" then GPRMC
    else if s[..5] == "GPVTG" then GPVTG
    else GPNON
  }

  const GGA_FORMAT := "$GPGGA," + "%s,%f,%C,%f," + "%C,%d,%d,%f," + "%f,%C,%f,%C," + "%f,%d*"
  const GSA_FORMAT := "$GPGSA," + "%C,%d," + "%d,%d,%d,%d," + "%d,%d,%d,%d," + "%d,%d,%d,%d," + "%f,%f,%f*"
  const GSV_FORMAT := "$GPGSV," + "%d,%d,%d," + "%d,%d,%d,%d," + "%d,%d,%d,%d," + "%d,%d,%d,%d," + "%d,%d,%d,%d*"
  const RMC_FORMAT := "$GPRMC," + "%s,%C,%f,%C," + "%f,%C,%f,%f," + "%2d%2d%2d," + "%f,%C,%C*"
  const VTG_FORMAT := "$GPVTG," + "%f,%C,%f,%C," + "%f,%C,%f,%C*"

  function Scan(s: string, format: string): seq<Slot> {
    Run(format, s, Compare, [])
  }

  /** The value of an int field of a zeroed packet after scanning. */
  function IntAt(slots: seq<Slot>, i: nat): int {
    if i < |slots| && slots[i].IntSlot? then slots[i].i else 0
  }

  function CharAt(slots: seq<Slot>, i: nat): char {
    if i < |slots| && slots[i].CharSlot? then slots[i].c else NUL
  }

  function TextAt(slots: seq<Slot>, i: nat): string {
    if i < |slots| && slots[i].TextSlot? then slots[i].text else ""
  }

  function RealAt(slots: seq<Slot>, i: nat): string {
    if i < |slots| && slots[i].RealSlot? then slots[i].numeral else ZERO_REAL
  }

  /** The part of a time field that `strlen` sees. */
  function TimePart(field: string): string {
    field[..IndexOf(field, NUL)]
  }

  /** The time of day put into a date. */
  function AtTime(day: Utc, v: seq<Slot>): Utc {
    day.(hour := IntAt(v, 0), min := IntAt(v, 1), sec := IntAt(v, 2), hsec := IntAt(v, 3))
  }

  /** `_nmea_parse_time`: six digits, or six digits and a fraction of up to three. */
  function ReadTime(field: string, day: Utc): Option<Utc> {
    var t := TimePart(field);
    if |t| == 6 then
      var v := Scan(t, "%2d%2d%2d");
      if |v| == 3 then Some(AtTime(day, v)) else None
    else if 8 <= |t| <= 10 then
      var v := Scan(t, "%2d%2d%2d.%d");
      if |v| == 4 then Some(AtTime(day, v)) else None
    else None
  }

  function MakeGGA(v: seq<Slot>, utc: Utc): Gga {
    Gga(utc, RealAt(v, 1), CharAt(v, 2), RealAt(v, 3), CharAt(v, 4), IntAt(v, 5), IntAt(v, 6), RealAt(v, 7),
        RealAt(v, 8), CharAt(v, 9), RealAt(v, 10), CharAt(v, 11), RealAt(v, 12), IntAt(v, 13))
  }

  function MakeGSA(v: seq<Slot>): Gsa {
    Gsa(CharAt(v, 0), IntAt(v, 1), seq(MAXSAT, i requires 0 <= i < MAXSAT => IntAt(v, i + 2)),
        RealAt(v, 14), RealAt(v, 15), RealAt(v, 16))
  }

  function SlotSatellite(v: seq<Slot>, k: nat): Satellite {
    Satellite(IntAt(v, 3 + 4 * k), 0, IntAt(v, 4 + 4 * k), IntAt(v, 5 + 4 * k), IntAt(v, 6 + 4 * k))
  }

  function MakeGSV(v: seq<Slot>): Gsv {
    Gsv(IntAt(v, 0), IntAt(v, 1), IntAt(v, 2),
        seq(SATINPACK, k requires 0 <= k < SATINPACK => SlotSatellite(v, k)))
  }

  /** The date as it is scanned, before the corrections of year and month. */
  function ScannedDay(v: seq<Slot>): Utc {
    NO_TIME.(day := IntAt(v, 8), mon := IntAt(v, 9), year := IntAt(v, 10))
  }

  /** Two-digit years below 90 are in this century, and months count from 0. */
  function Corrected(utc: Utc): Utc {
    utc.(year := if utc.year < 90 then utc.year + 100 else utc.year, mon := utc.mon - 1)
  }

  function MakeRMC(v: seq<Slot>, utc: Utc): Rmc {
    Rmc(utc, CharAt(v, 1), RealAt(v, 2), CharAt(v, 3), RealAt(v, 4), CharAt(v, 5), RealAt(v, 6), RealAt(v, 7),
        RealAt(v, 11), CharAt(v, 12), CharAt(v, 13))
  }

  function MakeVTG(v: seq<Slot>): Vtg {
    Vtg(RealAt(v, 0), CharAt(v, 1), RealAt(v, 2), CharAt(v, 3), RealAt(v, 4), CharAt(v, 5), RealAt(v, 6), CharAt(v, 7))
  }

  predicate RightUnits(p: Vtg) {
    p.dirT == 'T' && p.decM == 'M' && p.spnN == 'N' && p.spkK == 'K'
  }

  /** Where the satellites of a packet go, in the source's 32-bit arithmetic. */
  function FirstSlot(packIndex: int): int {
    ToInt((packIndex - 1) * SATINPACK)
  }

  /** How many satellites of a packet belong to the table by the packet's own counts, in the same arithmetic. */
  function SatsInPack(packIndex: int, satCount: int): int {
    var first := FirstSlot(packIndex);
    if ToInt(first + SATINPACK) > satCount then ToInt(satCount - first) else SATINPACK
  }

  /** The fields a GSV sentence must have. */
  function FieldsNeeded(packIndex: int, satCount: int): int {
    ToInt(SatsInPack(packIndex, satCount) * 4 + 3)
  }

  /** The parse functions: how many fields must have been scanned, and what else is asked of them.
      None is the source's "parse error". */
  function ParseAs(t: PackType, s: string): (r: Option<Pack>)
    ensures r.Some? ==> TypeOf(r.value) == t && ValidPack(r.value)
  {
    match t
    case GPGGA =>
      var v := Scan(s, GGA_FORMAT);
      if |v| != 14 then None
      else
        (match ReadTime(TextAt(v, 0), NO_TIME) case None => None case Some(utc) => Some(GGA(MakeGGA(v, utc))))
    case GPGSA =>
      var v := Scan(s, GSA_FORMAT);
      if |v| == 17 then Some(GSA(MakeGSA(v))) else None
    case GPGSV =>
      var v := Scan(s, GSV_FORMAT);
      var p := MakeGSV(v);
      if FieldsNeeded(p.packIndex, p.satCount) <= |v| <= SATINPACK * 4 + 3 then Some(GSV(p)) else None
    case GPRMC =>
      var v := Scan(s, RMC_FORMAT);
      if |v| != 13 && |v| != 14 then None
      else
        (match ReadTime(TextAt(v, 0), ScannedDay(v))
         case None => None
         case Some(utc) => Some(RMC(MakeRMC(v, Corrected(utc)))))
    case GPVTG =>
      var v := Scan(s, VTG_FORMAT);
      var p := MakeVTG(v);
      if |v| == 8 && RightUnits(p) then Some(VTG(p)) else None
    case GPNON => None
  }

  method ParseTime(field: string, day: Utc) returns (utc: Option<Utc>)
    ensures utc == ReadTime(field, day)
  {
    hide Run;
    var t := TimePart(field);
    utc := None;
    if |t| == 6 {
      var v := Scanf(t, "%2d%2d%2d");
      if |v| == 3 {
        utc := Some(AtTime(day, v));
      }
    } else if |t| == 8 || |t| == 9 || |t| == 10 {
      var v := Scanf(t, "%2d%2d%2d.%d");
      if |v| == 4 {
        utc := Some(AtTime(day, v));
      }
    }
  }

  /** The parse functions as they run, on the scanning loop. */
  method ParseSentence(t: PackType, s: string) returns (r: Option<Pack>)
    ensures r == ParseAs(t, s)
  {
    hide Run, ReadTime, MakeGGA, MakeGSA, MakeRMC;
    r := None;
    match t {
      case GPGGA =>
        var v := Scanf(s, GGA_FORMAT);
        if |v| == 14 {
          var utc := ParseTime(TextAt(v, 0), NO_TIME);
          if utc.Some? {
            r := Some(GGA(MakeGGA(v, utc.value)));
          }
        }
      case GPGSA =>
        var v := Scanf(s, GSA_FORMAT);
        if |v| == 17 {
          r := Some(GSA(MakeGSA(v)));
        }
      case GPGSV => r := ParseGSV(s);
      case GPRMC =>
        var v := Scanf(s, RMC_FORMAT);
        if |v| == 13 || |v| == 14 {
          var utc := ParseTime(TextAt(v, 0), ScannedDay(v));
          if utc.Some? {
            var u := utc.value;
            if u.year < 90 {
              u := u.(year := u.year + 100);
            }
            u := u.(mon := u.mon - 1);
            r := Some(RMC(MakeRMC(v, u)));
          }
        }
      case GPVTG =>
        var v := Scanf(s, VTG_FORMAT);
        if |v| == 8 {
          var p := MakeVTG(v);
          if !(p.dirT != 'T' || p.decM != 'M' || p.spnN != 'N' || p.spkK != 'K') {
            r := Some(VTG(p));
          }
        }
      case GPNON =>
    }
  }

  method ParseGSV(s: string) returns (r: Option<Pack>)
    ensures r == ParseAs(GPGSV, s)
  {
    hide Run, MakeGSV, ToInt;
    r := None;
    var v := Scanf(s, GSV_FORMAT);
    var p := MakeGSV(v);
    var nsat := ToInt((p.packIndex - 1) * SATINPACK);
    nsat := if ToInt(nsat + SATINPACK) > p.satCount then ToInt(p.satCount - nsat) else SATINPACK;
    nsat := ToInt(nsat * 4 + 3);
    if !(|v| < nsat || |v| > SATINPACK * 4 + 3) {
      r := Some(GSV(p));
    }
  }

  // ---------------------------------------------------------------- folding

  /** The three precisions. */
  datatype Dop = Dop(pdop: string, hdop: string, vdop: string)

  /** Position and motion. */
  datatype Motion = Motion(lat: Real, lon: Real, elv: string, speed: Real, direction: string, declination: string)

  const NO_DOP := Dop(ZERO_REAL, ZERO_REAL, ZERO_REAL)
  const NO_MOTION :=
    Motion(Numeral(ZERO_REAL), Numeral(ZERO_REAL), ZERO_REAL, Numeral(ZERO_REAL), ZERO_REAL, ZERO_REAL)

  /** `nmeaINFO` */
  datatype Info = Info(smask: set<PackType>, utc: Utc, sig: int, fix: int, dop: Dop, motion: Motion,
                       inuse: int, inview: int, sats: seq<Satellite>)

  predicate ValidInfo(i: Info) {
    |i.sats| == MAXSAT
  }

  function WithSign(positive: bool, text: string): Real {
    if positive then Numeral(text) else Minus(text)
  }

  /** `nmea_GPGGA2info` */
  function FoldGGA(i: Info, p: Gga): (r: Info)
    requires ValidInfo(i)
    ensures ValidInfo(r)
  {
    i.(utc := i.utc.(hour := p.utc.hour, min := p.utc.min, sec := p.utc.sec, hsec := p.utc.hsec),
       sig := p.sig, dop := i.dop.(hdop := p.hdop),
       motion := i.motion.(elv := p.elv, lat := WithSign(p.ns == 'N', p.lat), lon := WithSign(p.ew == 'E', p.lon)),
       smask := i.smask + {GPGGA})
  }

  /** The slot after a packet's satellite has been copied into it: the in-use flag stays. */
  function Observed(slot: Satellite, seen: Satellite): Satellite {
    Satellite(seen.id, slot.inUse, seen.elv, seen.azimuth, seen.sig)
  }

  function Clamp1(packIndex: int): int {
    if packIndex < 1 then 1 else packIndex
  }

  /** The packet does not get past the guard. */
  predicate Ignored(p: Gsv) {
    p.packIndex > p.packCount || ToInt(p.packIndex * SATINPACK) > MAXSAT
  }

  /** Every slot the packet writes is one of the table's, and every satellite it reads one of its own. */
  predicate StaysInTable(p: Gsv) {
    Ignored(p) ||
    var first, n := FirstSlot(Clamp1(p.packIndex)), SatsInPack(Clamp1(p.packIndex), p.satCount);
    n <= 0 || (0 <= first && first + n <= MAXSAT && n <= SATINPACK)
  }

  /** The table after `n` satellites of a packet have gone to the slots from `first` on. */
  function WithSatellites(sats: seq<Satellite>, seen: seq<Satellite>, first: int, n: int): (r: seq<Satellite>)
    requires n <= |seen|
    ensures |r| == |sats|
  {
    seq(|sats|, j requires 0 <= j < |sats| =>
          if first <= j < first + n then Observed(sats[j], seen[j - first]) else sats[j])
  }

  /** `nmea_GPGSV2info`; None when it writes outside the table. */
  function FoldGSV(i: Info, p: Gsv): (r: Option<Info>)
    requires ValidInfo(i) && |p.sats| == SATINPACK
    ensures r.Some? ==> ValidInfo(r.value)
  {
    if !StaysInTable(p) then None
    else if Ignored(p) then Some(i)
    else
      var index := Clamp1(p.packIndex);
      var from, n := FirstSlot(index), SatsInPack(index, p.satCount);
      Some(i.(inview := p.satCount, smask := i.smask + {GPGSV},
              sats := WithSatellites(i.sats, p.sats, from, n)))
  }

  /** Exactly these packets stay within the table: those with an index that the guard catches, or that is at most 3
      without the two bits lost in the 32-bit product, with a satellite count that does not underflow; and those whose
      count says that the packet holds none. */
  lemma GsvStaysInTableExactly(p: Gsv)
    requires IsInt(p.packCount) && IsInt(p.packIndex) && IsInt(p.satCount)
    ensures StaysInTable(p) <==>
            || p.packIndex > p.packCount || p.packIndex < 1
            || var k := p.packIndex % 0x4000_0000;
               if k == 0 then p.satCount <= -4
               else if k <= 3 then p.satCount >= -0x8000_0000 + 4 * (k - 1)
               else if k < 0x2000_0000 then true
               else k > 0x2000_0000 && p.satCount <= 4 * (k - 0x4000_0000) - 4
  {
    if p.packIndex >= 1 {
      var k := p.packIndex % 0x4000_0000;
      assert p.packIndex == k || p.packIndex == 0x4000_0000 + k;
      ProductOfIndex(p.packIndex, k);
    }
  }

  /** The product keeps the low 30 bits of the index only. */
  lemma ProductOfIndex(packIndex: int, k: int)
    requires 1 <= packIndex <= INT_MAX && 0 <= k < 0x4000_0000
    requires packIndex == k || packIndex == 0x4000_0000 + k
    ensures ToInt(packIndex * SATINPACK) == if k < 0x2000_0000 then 4 * k else 4 * (k - 0x4000_0000)
    ensures FirstSlot(packIndex) ==
            if k == 0x2000_0000 then 0x7FFF_FFFC else if k < 0x2000_0000 then 4 * k - 4 else 4 * (k - 0x4000_0000) - 4
  {}

  /** A packet that gets past the guard and writes in front of the table. */
  lemma GsvLeavesTable(sats: seq<Satellite>)
    ensures var p := Gsv(0x3FFF_FFFF, 0x3FFF_FFFF, 12, sats);
            && !Ignored(p) && FirstSlot(p.packIndex) == -8 && SatsInPack(p.packIndex, p.satCount) == 4 &&
               !StaysInTable(p)
  {}

  /** A satellite count that is refused only because the number of fields needed overflows. */
  lemma FieldsNeededOverflows()
    ensures SatsInPack(1, -600_000_000) == -600_000_000 && FieldsNeeded(1, -600_000_000) > SATINPACK * 4 + 3
  {}

  /** The satellites in view that have a slot. */
  function InTable(inview: int): nat {
    if inview < 0 then 0 else if inview > MAXSAT then MAXSAT else inview
  }

  predicate Matches(prn: int, s: Satellite) {
    prn != 0 && prn == s.id
  }

  /** How many of the first `n` satellites carry the number `prn`. */
  function CountMatches(prn: int, sats: seq<Satellite>, n: nat): nat
    requires n <= |sats|
  {
    if n == 0 then 0 else CountMatches(prn, sats, n - 1) + if Matches(prn, sats[n - 1]) then 1 else 0
  }

  function CountUse(prn: seq<int>, sats: seq<Satellite>, n: nat): nat
    requires n <= |sats|
  {
    if prn == [] then 0 else CountUse(prn[..|prn| - 1], sats, n) + CountMatches(prn[|prn| - 1], sats, n)
  }

  lemma {:induction false} CountSameIds(prn: int, s: seq<Satellite>, t: seq<Satellite>, n: nat)
    requires n <= |s| == |t| && forall j | 0 <= j < n :: s[j].id == t[j].id
    ensures CountMatches(prn, s, n) == CountMatches(prn, t, n)
  {
    if n > 0 {
      CountSameIds(prn, s, t, n - 1);
    }
  }

  predicate Listed(prn: seq<int>, s: Satellite) {
    s.id != 0 && s.id in prn
  }

  /** Slot `j` once the numbers `prn` have been looked up among the first `n` slots. */
  function Marked(prn: seq<int>, n: nat, s: Satellite, j: nat): Satellite {
    if j < n && Listed(prn, s) then s.(inUse := 1) else s
  }

  function MarkAll(prn: seq<int>, n: nat, s: seq<Satellite>): (t: seq<Satellite>)
    ensures |t| == |s|
  {
    seq(|s|, j requires 0 <= j < |s| => Marked(prn, n, s[j], j))
  }

  lemma MarkAllStep(prn: seq<int>, x: int, n: nat, s: seq<Satellite>)
    ensures MarkAll(prn + [x], n, s) == MarkAll([x], n, MarkAll(prn, n, s))
  {}

  /** The double loop looks only at slots of the table: it compares a satellite only with a number that is not 0. */
  predicate LooksInTable(i: Info, p: Gsa) {
    i.inview <= MAXSAT || forall k | 0 <= k < |p.prn| :: p.prn[k] == 0
  }

  /** `nmea_GPGSA2info`: the satellites in view that the packet lists are in use; None when it looks past the table. */
  function FoldGSA(i: Info, p: Gsa): (r: Option<Info>)
    requires ValidInfo(i)
    ensures r.Some? ==> ValidInfo(r.value)
  {
    var n := InTable(i.inview);
    if !LooksInTable(i, p) then None
    else
      Some(i.(fix := p.fixType, dop := Dop(p.pdop, p.hdop, p.vdop), smask := i.smask + {GPGSA},
              inuse := CountUse(p.prn, i.sats, n),
              sats := MarkAll(p.prn, n, i.sats)))
  }

  /** `nmea_GPRMC2info` */
  function FoldRMC(i: Info, p: Rmc): (r: Info)
    requires ValidInfo(i)
    ensures ValidInfo(r)
  {
    var sig := if p.status == 'A' && i.sig == SIG_BAD then SIG_MID else if p.status == 'V' then SIG_BAD else i.sig;
    var fix := if p.status == 'A' && i.fix == FIX_BAD then FIX_2D else if p.status == 'V' then FIX_BAD else i.fix;
    i.(sig := sig, fix := fix, utc := p.utc, smask := i.smask + {GPRMC},
       motion := i.motion.(lat := WithSign(p.ns == 'N', p.lat), lon := WithSign(p.ew == 'E', p.lon),
                           speed := FromKnots(p.speed), direction := p.direction))
  }

  /** `nmea_GPVTG2info` */
  function FoldVTG(i: Info, p: Vtg): (r: Info)
    requires ValidInfo(i)
    ensures ValidInfo(r)
  {
    i.(motion := i.motion.(direction := p.dir, declination := p.dec, speed := Numeral(p.spk)),
       smask := i.smask + {GPVTG})
  }

  predicate ValidPack(p: Pack) {
    match p
    case GSV(g) => |g.sats| == SATINPACK
    case GSA(g) => |g.prn| == MAXSAT
    case _ => true
  }

  /** The `switch` of `nmea_parse`. */
  function Fold(i: Info, p: Pack): (r: Option<Info>)
    requires ValidInfo(i) && ValidPack(p)
    ensures r.Some? ==> ValidInfo(r.value)
  {
    match p
    case GGA(g) => Some(FoldGGA(i, g))
    case GSA(g) => FoldGSA(i, g)
    case GSV(g) => FoldGSV(i, g)
    case RMC(g) => Some(FoldRMC(i, g))
    case VTG(g) => Some(FoldVTG(i, g))
  }

  predicate ValidPacks(ps: seq<Pack>) {
    forall k | 0 <= k < |ps| :: ValidPack(ps[k])
  }

  /** The information after all packets; None when one of them leaves the table. */
  function FoldAll(i: Info, ps: seq<Pack>): (r: Option<Info>)
    requires ValidInfo(i) && ValidPacks(ps)
    ensures r.Some? ==> ValidInfo(r.value)
    decreases ps
  {
    if ps == [] then Some(i)
    else
      match Fold(i, ps[0])
      case None => None
      case Some(j) => FoldAll(j, ps[1..])
  }

  lemma {:induction false} FoldAllConcat(i: Info, ps: seq<Pack>, qs: seq<Pack>)
    requires ValidInfo(i) && ValidPacks(ps) && ValidPacks(qs)
    ensures ValidPacks(ps + qs)
    ensures FoldAll(i, ps + qs) == match FoldAll(i, ps) case None => None case Some(j) => FoldAll(j, qs)
    decreases ps
  {
    hide Fold, ValidPack;
    if ps == [] {
      assert ps + qs == qs;
    } else {
      assert (ps + qs)[1..] == ps[1..] + qs;
      if Fold(i, ps[0]).Some? {
        FoldAllConcat(Fold(i, ps[0]).value, ps[1..], qs);
      }
    }
  }

  // ---------------------------------------------------------------- in place

  /** `nmeaINFO` as the library updates it. */
  class InfoTable {
    var smask: set<PackType>
    var utc: Utc
    var sig: int
    var fix: int
    var dop: Dop
    var motion: Motion
    var inuse: int
    var inview: int
    const sat: array<Satellite>

    /** `nmea_zero_INFO` at the time `now`: all zero but for the "bad" signal and fix. */
    constructor (now: Utc)
      ensures fresh(sat) && Valid() && Value() == EmptyInfo(now)
    {
      smask, utc, sig, fix, inuse, inview := {}, now, SIG_BAD, FIX_BAD, 0, 0;
      dop, motion := NO_DOP, NO_MOTION;
      sat := new Satellite[MAXSAT](_ => NO_SATELLITE);
    }

    predicate Valid() {
      sat.Length == MAXSAT
    }

    ghost function Value(): (i: Info)
      requires Valid()
      reads this, sat
      ensures ValidInfo(i)
    {
      Info(smask, utc, sig, fix, dop, motion, inuse, inview, sat[..])
    }

    method AddGGA(p: Gga)
      requires Valid()
      modifies this
      ensures Value() == FoldGGA(old(Value()), p)
    {
      utc := utc.(hour := p.utc.hour);
      utc := utc.(min := p.utc.min);
      utc := utc.(sec := p.utc.sec);
      utc := utc.(hsec := p.utc.hsec);
      sig, dop, motion := p.sig, dop.(hdop := p.hdop), motion.(elv := p.elv);
      motion := motion.(lat := if p.ns == 'N' then Numeral(p.lat) else Minus(p.lat));
      motion := motion.(lon := if p.ew == 'E' then Numeral(p.lon) else Minus(p.lon));
      smask := smask + {GPGGA};
    }

    /** `ok` is false when the source would go on outside the table or the packet. */
    method AddGSV(p: Gsv) returns (ok: bool)
      requires Valid() && |p.sats| == SATINPACK
      modifies this, sat
      ensures ok <==> StaysInTable(p)
      ensures ok ==> FoldGSV(old(Value()), p) == Some(Value())
    {
      hide ToInt, Observed;
      if p.packIndex > p.packCount || ToInt(p.packIndex * SATINPACK) > MAXSAT {
        return true;
      }
      var packIndex := if p.packIndex < 1 then 1 else p.packIndex;
      inview := p.satCount;
      var nsat := ToInt((packIndex - 1) * SATINPACK);
      nsat := if ToInt(nsat + SATINPACK) > p.satCount then ToInt(p.satCount - nsat) else SATINPACK;
      ok := CopySatellites(p.sats, ToInt((packIndex - 1) * SATINPACK), nsat);
      if ok {
        smask := smask + {GPGSV};
      }
    }

    /** The loop over the satellites of a packet. */
    method CopySatellites(seen: seq<Satellite>, first: int, nsat: int) returns (ok: bool)
      requires Valid() && |seen| == SATINPACK
      modifies sat
      ensures ok <==> nsat <= 0 || (0 <= first && first + nsat <= MAXSAT && nsat <= SATINPACK)
      ensures ok ==> nsat <= |seen| && sat[..] == WithSatellites(old(sat[..]), seen, first, nsat)
    {
      var isat := 0;
      while isat < nsat
        invariant 0 <= isat && (isat <= nsat || nsat < 0 == isat)
        invariant isat > 0 ==> 0 <= first && first + isat <= MAXSAT && isat <= SATINPACK
        invariant forall j | 0 <= j < MAXSAT ::
            sat[j] == if first <= j < first + isat then Observed(old(sat[..])[j], seen[j - first]) else old(sat[..])[j]
      {
        var isi := first + isat;
        if isi < 0 || isi >= MAXSAT || isat >= SATINPACK {
          return false;
        }
        sat[isi] := sat[isi].(id := seen[isat].id);
        sat[isi] := sat[isi].(elv := seen[isat].elv);
        sat[isi] := sat[isi].(azimuth := seen[isat].azimuth);
        sat[isi] := sat[isi].(sig := seen[isat].sig);
        isat := isat + 1;
      }
      assert sat[..] == WithSatellites(old(sat[..]), seen, first, nsat);
      ok := true;
    }

    /** The inner loop of `nmea_GPGSA2info`: one satellite number against the satellites in view. */
    method MarkRow(prn: int, n: int) returns (nuse: nat, ok: bool)
      requires Valid()
      modifies sat
      ensures ok <==> prn == 0 || n <= MAXSAT
      ensures ok ==> nuse == CountMatches(prn, old(sat[..]), InTable(n))
      ensures ok ==> sat[..] == MarkAll([prn], InTable(n), old(sat[..]))
    {
      nuse, ok := 0, true;
      var j := 0;
      while j < n
        invariant 0 <= j && (j <= n || n < 0 == j)
        invariant prn != 0 ==> j <= MAXSAT
        invariant nuse == CountMatches(prn, old(sat[..]), InTable(j))
        invariant forall k | 0 <= k < MAXSAT :: sat[k] == Marked([prn], InTable(j), old(sat[..])[k], k)
      {
        if prn != 0 {
          if j >= MAXSAT {
            return nuse, false;
          }
          if prn == sat[j].id {
            sat[j] := sat[j].(inUse := 1);
            nuse := nuse + 1;
          }
        }
        j := j + 1;
      }
    }

    /** `ok` is false when the source would look past the table. */
    method AddGSA(p: Gsa) returns (ok: bool)
      requires Valid() && |p.prn| == MAXSAT
      modifies this, sat
      ensures ok <==> LooksInTable(old(Value()), p)
      ensures ok ==> FoldGSA(old(Value()), p) == Some(Value())
    {
      hide CountUse, MarkAll;
      fix, dop := p.fixType, Dop(p.pdop, p.hdop, p.vdop);
      var nuse;
      nuse, ok := MarkRows(p.prn);
      if ok {
        inuse := nuse;
        smask := smask + {GPGSA};
      }
    }

    /** Both loops. */
    method MarkRows(prn: seq<int>) returns (nuse: nat, ok: bool)
      requires Valid() && |prn| == MAXSAT
      modifies sat
      ensures ok <==> inview <= MAXSAT || forall k | 0 <= k < |prn| :: prn[k] == 0
      ensures ok ==> nuse == CountUse(prn, old(sat[..]), InTable(inview))
      ensures ok ==> sat[..] == MarkAll(prn, InTable(inview), old(sat[..]))
    {
      hide CountUse, CountMatches, MarkAll;
      ghost var was, n := sat[..], InTable(inview);
      NothingMarked(prn, n, was);
      nuse, ok := 0, true;
      for i := 0 to MAXSAT
        modifies sat
        invariant ok && (inview <= MAXSAT || forall k | 0 <= k < i :: prn[k] == 0)
        invariant nuse == CountUse(prn[..i], was, n)
        invariant sat[..] == MarkAll(prn[..i], n, was)
      {
        var row;
        row, ok := MarkRow(prn[i], inview);
        if !ok {
          return;
        }
        RowIsNext(prn, i, n, was);
        nuse := nuse + row;
      }
      assert prn[..MAXSAT] == prn;
    }

    method AddRMC(p: Rmc)
      requires Valid()
      modifies this
      ensures Value() == FoldRMC(old(Value()), p)
    {
      if p.status == 'A' {
        if sig == SIG_BAD {
          sig := SIG_MID;
        }
        if fix == FIX_BAD {
          fix := FIX_2D;
        }
      } else if p.status == 'V' {
        sig, fix := SIG_BAD, FIX_BAD;
      }
      utc := p.utc;
      motion := motion.(lat := if p.ns == 'N' then Numeral(p.lat) else Minus(p.lat));
      motion := motion.(lon := if p.ew == 'E' then Numeral(p.lon) else Minus(p.lon));
      motion := motion.(speed := FromKnots(p.speed), direction := p.direction);
      smask := smask + {GPRMC};
    }

    method AddVTG(p: Vtg)
      requires Valid()
      modifies this
      ensures Value() == FoldVTG(old(Value()), p)
    {
      motion := motion.(direction := p.dir, declination := p.dec, speed := Numeral(p.spk));
      smask := smask + {GPVTG};
    }

    method Add(p: Pack) returns (ok: bool)
      requires Valid() && ValidPack(p)
      modifies this, sat
      ensures ok <==> Fold(old(Value()), p).Some?
      ensures ok ==> Fold(old(Value()), p) == Some(Value())
    {
      hide FoldGGA, FoldRMC, FoldVTG, StaysInTable, LooksInTable;
      ok := true;
      match p {
        case GGA(g) => AddGGA(g);
        case GSA(g) =>
          ok := AddGSA(g);
          FoldsWhenInTable(old(Value()), g);
        case GSV(g) =>
          ok := AddGSV(g);
          FoldsWhenInside(old(Value()), g);
        case RMC(g) => AddRMC(g);
        case VTG(g) => AddVTG(g);
      }
    }
  }

  function EmptyInfo(now: Utc): (i: Info)
    ensures ValidInfo(i)
  {
    Info({}, now, SIG_BAD, FIX_BAD, NO_DOP, NO_MOTION, 0, 0, seq(MAXSAT, _ => NO_SATELLITE))
  }

  lemma FoldsWhenInTable(i: Info, p: Gsa)
    requires ValidInfo(i)
    ensures FoldGSA(i, p).Some? <==> LooksInTable(i, p)
  {}

  lemma FoldsWhenInside(i: Info, p: Gsv)
    requires ValidInfo(i) && |p.sats| == SATINPACK
    ensures FoldGSV(i, p).Some? <==> StaysInTable(p)
  {}

  lemma NothingMarked(prn: seq<int>, n: nat, s: seq<Satellite>)
    requires n <= |s|
    ensures CountUse(prn[..0], s, n) == 0 && MarkAll(prn[..0], n, s) == s
  {}

  /** One more number of the packet, counted and marked. */
  lemma RowIsNext(prn: seq<int>, i: nat, n: nat, s: seq<Satellite>)
    requires i < |prn| && n <= |s|
    ensures var t := MarkAll(prn[..i], n, s);
            && CountUse(prn[..i + 1], s, n) == CountUse(prn[..i], s, n) + CountMatches(prn[i], t, n)
            && MarkAll(prn[..i + 1], n, s) == MarkAll([prn[i]], n, t)
  {
    var t := MarkAll(prn[..i], n, s);
    assert prn[..i + 1][..i] == prn[..i] && prn[..i + 1] == prn[..i] + [prn[i]];
    assert forall j | 0 <= j < n :: t[j].id == s[j].id;
    CountSameIds(prn[i], t, s, n);
    MarkAllStep(prn[..i], prn[i], n, s);
  }
}
