/** Every sentence of nmea/src/generate.c is parsed back by nmea/src/parse.c. */
module NmeaRoundTrip {
  import opened Options
  import opened Decimals
  import opened Machine
  import opened NmeaText
  import opened NmeaScanf
  import opened NmeaPackets
  import opened NmeaParser
  import opened NmeaPrintf
  import opened NmeaGenerate

  // ---------------------------------------------------------------- formats

  function Four(cs: string): string
    requires |cs| == 4
  {
    ['%', cs[0], ',', '%', cs[1], ',', '%', cs[2], ',', '%', cs[3], ',']
  }

  /** Four conversions in the middle of a format. */
  lemma FourConvs(cs: string, rest: string)
    requires |cs| == 4
    ensures rest != "" ==> FormatOf(cs + rest) == Four(cs) + FormatOf(rest)
    ensures FormatMore(cs + rest) == Four(cs) + FormatMore(rest)
  {
    var a, b, c := (cs + rest)[1..], (cs + rest)[1..][1..], (cs + rest)[1..][1..][1..];
    assert a[0] == cs[1] && b[0] == cs[2] && c[0] == cs[3] && c[1..] == rest;
    if rest != "" {
      assert FormatOf(c) == ['%', cs[3], ','] + FormatOf(rest);
      assert FormatOf(b) == ['%', cs[2], ','] + FormatOf(c);
      assert FormatOf(a) == ['%', cs[1], ','] + FormatOf(b);
    }
    assert FormatMore(c) == ['%', cs[3], ','] + FormatMore(rest);
    assert FormatMore(b) == ['%', cs[2], ','] + FormatMore(c);
    assert FormatMore(a) == ['%', cs[1], ','] + FormatMore(b);
  }

  lemma TwoLast(a: char, b: char)
    ensures FormatOf([a, b]) == ['%', a, ',', '%', b, '*']
  {
    assert [a, b][1..] == [b];
  }

  lemma ThreeLast(a: char, b: char, c: char)
    ensures FormatOf([a, b, c]) == ['%', a, ',', '%', b, ',', '%', c, '*']
  {
    assert [a, b, c][1..] == [b, c];
    TwoLast(b, c);
  }

  lemma FourLast(a: char, b: char, c: char, d: char)
    ensures FormatOf([a, b, c, d]) == ['%', a, ',', '%', b, ',', '%', c, ',', '%', d, '*']
  {
    assert [a, b, c, d][1..] == [b, c, d];
    ThreeLast(b, c, d);
  }

  lemma ShortFormats()
    ensures FormatOf("fd") == "%f,%d*" && FormatOf("fff") == "%f,%f,%f*" && FormatOf("fCC") == "%f,%C,%C*"
    ensures FormatOf("dddd") == "%d,%d,%d,%d*" && FormatOf("fCfC") == "%f,%C,%f,%C*" && FormatMore("") == ""
  {
    hide FormatOf;
    TwoLast('f', 'd');
    ThreeLast('f', 'f', 'f');
    ThreeLast('f', 'C', 'C');
    FourLast('d', 'd', 'd', 'd');
    FourLast('f', 'C', 'f', 'C');
  }

  lemma GgaFormat()
    ensures GGA_FORMAT == "$GPGGA," + FormatOf("sfCf" + ("Cddf" + ("fCfC" + "fd")))
  {
    ShortFormats();
    FourConvs("fCfC", "fd");
    FourConvs("Cddf", "fCfC" + "fd");
    FourConvs("sfCf", "Cddf" + ("fCfC" + "fd"));
    hide FormatOf, FormatMore;
    SixTexts("$GPGGA,", "%s,%f,%C,%f,", "%C,%d,%d,%f,", "%f,%C,%f,%C,", "%f,%d*", "");
  }

  lemma GsaFormat()
    ensures GSA_FORMAT == "$GPGSA," + FormatOf("Cd" + ("dddd" + ("dddd" + ("dddd" + "fff"))))
  {
    ShortFormats();
    FourConvs("dddd", "fff");
    FourConvs("dddd", "dddd" + "fff");
    FourConvs("dddd", "dddd" + ("dddd" + "fff"));
    TwoConvs("Cd", "dddd" + ("dddd" + ("dddd" + "fff")));
    hide FormatOf, FormatMore;
    SixTexts("$GPGSA,", "%C,%d,", "%d,%d,%d,%d,", "%d,%d,%d,%d,", "%d,%d,%d,%d,", "%f,%f,%f*");
  }

  lemma TwoConvs(cs: string, rest: string)
    requires |cs| == 2 && rest != ""
    ensures FormatOf(cs + rest) == ['%', cs[0], ',', '%', cs[1], ','] + FormatOf(rest)
  {
    var a := (cs + rest)[1..];
    assert a[0] == cs[1] && a[1..] == rest;
    assert FormatOf(a) == ['%', cs[1], ','] + FormatOf(rest);
  }

  lemma ThreeConvs(cs: string, rest: string)
    requires |cs| == 3 && rest != ""
    ensures FormatOf(cs + rest) == ['%', cs[0], ',', '%', cs[1], ',', '%', cs[2], ','] + FormatOf(rest)
  {
    assert cs + rest == cs[..1] + (cs[1..] + rest);
    assert (cs + rest)[1..] == cs[1..] + rest;
    TwoConvs(cs[1..], rest);
  }

  lemma GsvFormat()
    ensures GSV_FORMAT == "$GPGSV," + FormatOf("ddd" + ("dddd" + ("dddd" + ("dddd" + "dddd"))))
  {
    ShortFormats();
    FourConvs("dddd", "dddd");
    FourConvs("dddd", "dddd" + "dddd");
    FourConvs("dddd", "dddd" + ("dddd" + "dddd"));
    ThreeConvs("ddd", "dddd" + ("dddd" + ("dddd" + "dddd")));
    hide FormatOf, FormatMore;
    SixTexts("$GPGSV,", "%d,%d,%d,", "%d,%d,%d,%d,", "%d,%d,%d,%d,", "%d,%d,%d,%d,", "%d,%d,%d,%d*");
  }

  lemma RmcFormat()
    ensures RMC_FORMAT == "$GPRMC," + (FormatMore("sCfC" + "fCff") +
                                       ("%2d" + ("%2d" + ("%2d" + ("," + FormatOf("fCC"))))))
  {
    ShortFormats();
    FourConvs("fCff", "");
    FourConvs("sCfC", "fCff");
    assert "fCff" + "" == "fCff";
    hide FormatOf, FormatMore;
    assert "%2d" + ("%2d" + ("%2d" + ("," + "%f,%C,%C*"))) == "%2d%2d%2d," + "%f,%C,%C*";
    RmcTexts("$GPRMC,", "%s,%C,%f,%C,", "%f,%C,%f,%f,", "%2d%2d%2d,", "%f,%C,%C*", "");
  }

  lemma VtgFormat()
    ensures VTG_FORMAT == "$GPVTG," + FormatOf("fCfC" + "fCfC")
  {
    ShortFormats();
    FourConvs("fCfC", "fCfC");
    hide FormatOf, FormatMore;
    SixTexts("$GPVTG,", "%f,%C,%f,%C,", "%f,%C,%f,%C*", "", "", "");
  }

  lemma SixTexts(a: string, b: string, c: string, d: string, e: string, f: string)
    ensures a + (b + (c + (d + (e + f)))) == a + b + c + d + e + f
    ensures f == "" ==> a + b + c + d + e + f == a + b + c + d + e && e + f == e
    ensures d == e == f == "" ==> a + b + c + d + e + f == a + b + c && c + (d + (e + f)) == c
  {}

  /** A sentence of joined fields behind a header is scanned into its fields. */
  lemma ScanJoined(header: string, fs: seq<Field>, format: string)
    requires IsHeader(header) && '%' !in header && fs != [] && ValidFields(fs)
    requires format == header + FormatOf(Convs(fs))
    ensures PlainBody(header + Join(fs)) && (header + Join(fs))[0] == '$'
    ensures Scan(Sentence(header + Join(fs)), format) == Slots(fs)
  {
    hide Run, Convs, FormatOf, Join, PlainBody, ValidFields, IsHeader, Slots;
    JoinedBody(header, fs);
    var body := header + Join(fs);
    BodyIsText(body);
    var tail := CrcTail(body)[1..];
    TailStarts(body);
    assert Sentence(body) == header + (Join(fs) + "*" + tail);
    RunLiteral(header, FormatOf(Convs(fs)), Join(fs) + "*" + tail, []);
    ScanInvertsPrint(fs, tail, []);
    assert [] + Slots(fs) == Slots(fs);
  }

  lemma BodyIsText(body: string)
    requires PlainBody(body)
    ensures IsBody(body)
  {}

  lemma TailStarts(body: string)
    requires IsBody(body)
    ensures CrcTail(body) == "*" + CrcTail(body)[1..]
  {}

  lemma HeaderOfSentence(header: string, rest: string)
    requires |header| == 7 && IsBody(header + rest)
    ensures |Sentence(header + rest)| > 7 && HeaderType(Sentence(header + rest)[1..]) == HeaderType(header[1..])
  {
    assert Sentence(header + rest)[1..][..5] == header[1..][..5];
  }

  lemma HeaderIs(header: string, name: string)
    requires |header| == 7 && |name| == 5 && forall i | 0 <= i < 5 :: header[i + 1] == name[i]
    ensures header[1..][..5] == name
  {}

  lemma HeaderNamesDiffer()
    ensures "GPGGA"[3] == 'G' && "GPGSA"[3] == 'S' && "GPGSV"[3] == 'S' && "GPRMC"[3] == 'M' && "GPVTG"[3] == 'T'
    ensures "GPGGA"[4] == 'A' && "GPGSA"[4] == 'A' && "GPGSV"[4] == 'V' && "GPRMC"[4] == 'C' && "GPVTG"[4] == 'G'
  {}

  lemma HeaderTypes()
    ensures HeaderType("$GPGGA,"[1..]) == GPGGA && HeaderType("$GPGSA,"[1..]) == GPGSA
    ensures HeaderType("$GPGSV,"[1..]) == GPGSV && HeaderType("$GPRMC,"[1..]) == GPRMC
    ensures HeaderType("$GPVTG,"[1..]) == GPVTG
  {
    HeaderNamesDiffer();
    HeaderIs("$GPGGA,", "GPGGA");
    HeaderIs("$GPGSA,", "GPGSA");
    HeaderIs("$GPGSV,", "GPGSV");
    HeaderIs("$GPRMC,", "GPRMC");
    HeaderIs("$GPVTG,", "GPVTG");
  }

  // ---------------------------------------------------------------- GSV

  /** A GSV packet as it arrives: counted from one, its in-use flags not transmitted. */
  function Sent(p: Gsv): (r: Gsv)
    ensures |r.sats| == |p.sats|
  {
    Gsv(p.packCount, p.packIndex + 1, p.satCount,
        seq(|p.sats|, k requires 0 <= k < |p.sats| => p.sats[k].(inUse := 0)))
  }

  lemma GsvSlots(p: Gsv)
    requires |p.sats| == SATINPACK
    ensures MakeGSV(Slots(GsvFields(p))) == Sent(p)
  {
    assert MakeGSV(Slots(GsvFields(p))).sats == Sent(p).sats;
  }

  lemma GsvConvs(p: Gsv)
    requires |p.sats| == SATINPACK
    ensures Convs(GsvFields(p)) == "ddd" + ("dddd" + ("dddd" + ("dddd" + "dddd")))
  {}

  /** All 19 fields of a printed GSV packet are scanned, and the packet comes back, unless its counts overflow so that
      the parser asks for more fields than there are. */
  lemma GsvRoundTrip(p: Gsv)
    requires ValidGsv(p)
    ensures ValidBody(GsvBody(p)) && Sentence(GsvBody(p)) != ""
    ensures Scan(Sentence(GsvBody(p)), GSV_FORMAT) == Slots(GsvFields(p)) && |Slots(GsvFields(p))| == 19
    ensures Decode(Sentence(GsvBody(p))) ==
            if FieldsNeeded(p.packIndex + 1, p.satCount) <= 19 then [GSV(Sent(p))] else []
  {
    hide Run, GsvFields, FormatOf, Join, MakeGSV, Sent, ValidFields, PlainBody, Sentence, Slots;
    GsvIsValid(p);
    GsvFormat();
    GsvConvs(p);
    ScanJoined("$GPGSV,", GsvFields(p), GSV_FORMAT);
    BodyIsText(GsvBody(p));
    HeaderOfSentence("$GPGSV,", Join(GsvFields(p)));
    GsvSlots(p);
    SentKeepsCounts(p);
    HeaderTypes();
  }

  lemma SentKeepsCounts(p: Gsv)
    ensures Sent(p) == Gsv(p.packCount, p.packIndex + 1, p.satCount, Sent(p).sats)
  {}

  /** Satellite counts that are not absurdly negative never overflow for an index in range. */
  lemma FieldsNeededInRange(packIndex: int, satCount: int)
    requires 0 <= packIndex <= 3 && -1000 <= satCount <= INT_MAX
    ensures FieldsNeeded(packIndex + 1, satCount) <= 19
  {}

  /** The packet that makes the fold leave the table is one that the parser delivers. */
  lemma GsvLeavesTableAfterParsing(p: Gsv)
    requires ValidGsv(p) && p.packCount == 0x3FFF_FFFF && p.packIndex == 0x3FFF_FFFE && p.satCount == 12
    ensures ValidBody(GsvBody(p)) && Sentence(GsvBody(p)) != ""
    ensures Decode(Sentence(GsvBody(p))) == [GSV(Sent(p))]
    ensures !Ignored(Sent(p)) && FirstSlot(Sent(p).packIndex) == -8 && !StaysInTable(Sent(p))
  {
    FieldsOfThatPacket();
    hide Decode, Sentence, ValidGsv, Sent, ValidBody, FieldsNeeded, StaysInTable, FirstSlot, Ignored;
    GsvRoundTrip(p);
    SentKeepsCounts(p);
    GsvLeavesTable(Sent(p).sats);
  }

  lemma FieldsOfThatPacket()
    ensures FieldsNeeded(0x3FFF_FFFF, 12) == 19
  {}

  // ---------------------------------------------------------------- GSA

  lemma GsaConvs(p: Gsa)
    requires |p.prn| == MAXSAT
    ensures Convs(GsaFields(p)) == "Cd" + ("dddd" + ("dddd" + ("dddd" + "fff")))
  {
    hide FieldConv, NumberFields;
    var fs := GsaFields(p);
    GsaFieldsAre(p);
    forall i | 0 <= i < 17
      ensures Convs(fs)[i] == ("Cd" + ("dddd" + ("dddd" + ("dddd" + "fff"))))[i]
    {
      ConvIs(fs[i]);
      if 2 <= i < 14 {
        assert fs[i - 2 + 2] == IntField(p.prn[i - 2], 2);
      }
    }
  }

  lemma ConvIs(f: Field)
    ensures FieldConv(f) == if f.IntField? then 'd' else if f.RealField? then 'f' else if f.TextField? then 's' else 'C'
  {}

  lemma GsaFieldsAre(p: Gsa)
    requires |p.prn| == MAXSAT
    ensures var fs := GsaFields(p);
            && |fs| == 17 && fs[0] == CharField(p.fixMode) && fs[1] == IntField(p.fixType, 1)
            && (forall i | 0 <= i < MAXSAT :: fs[i + 2] == IntField(p.prn[i], 2))
            && fs[14] == RealField(p.pdop) && fs[15] == RealField(p.hdop) && fs[16] == RealField(p.vdop)
  {}

  lemma GsaSlots(p: Gsa)
    requires |p.prn| == MAXSAT
    ensures |Slots(GsaFields(p))| == 17 && MakeGSA(Slots(GsaFields(p))) == p
  {
    GsaFieldsAre(p);
    hide GsaFields;
    var v := Slots(GsaFields(p));
    forall i | 0 <= i < MAXSAT ensures MakeGSA(v).prn[i] == p.prn[i] {
      assert v[i + 2] == IntSlot(p.prn[i]);
    }
    assert MakeGSA(v).prn == p.prn;
  }

  /** Every GSA packet comes back. */
  lemma GsaRoundTrip(p: Gsa)
    requires |p.prn| == MAXSAT && ValidFields(GsaFields(p))
    ensures ValidBody(GsaBody(p)) && Sentence(GsaBody(p)) != ""
    ensures Decode(Sentence(GsaBody(p))) == [GSA(p)]
  {
    hide Run, GsaFields, FormatOf, Join, MakeGSA, ValidFields, PlainBody, Sentence, Slots;
    GsaFormat();
    GsaConvs(p);
    ScanJoined("$GPGSA,", GsaFields(p), GSA_FORMAT);
    BodyIsText(GsaBody(p));
    HeaderOfSentence("$GPGSA,", Join(GsaFields(p)));
    GsaSlots(p);
    HeaderTypes();
  }

  // ---------------------------------------------------------------- times

  /** The times of day that come back from a sentence. */
  predicate ValidTime(t: Utc) {
    TwoColumns(t.hour) && TwoColumns(t.min) && TwoColumns(t.sec) && ThreeColumns(t.hsec)
  }

  /** The dates that come back: the years are 1991 to 2089. */
  predicate ValidDate(t: Utc) {
    TwoColumns(t.day) && TwoColumns(t.mon + 1) && 91 <= t.year < 190
  }

  lemma NoNulInDigits(s: string)
    requires forall i | 0 <= i < |s| :: s[i] != NUL
    ensures TimePart(s) == s
  {
    assert NUL !in s;
    assert s[..|s|] == s;
  }

  /** A printed time: its parts, its length, and that it is the whole field. */
  lemma TimeTextIs(t: Utc)
    ensures var h, m, s, f := PrintInt(t.hour, 2), PrintInt(t.min, 2), PrintInt(t.sec, 2), PrintInt(t.hsec, 2);
            && TimeText(t) == h + (m + (s + ("." + f))) && |TimeText(t)| == |h| + |m| + |s| + 1 + |f| >= 9
    ensures TimePart(TimeText(t)) == TimeText(t)
  {
    ColumnsNeeded(t.hour);
    ColumnsNeeded(t.min);
    ColumnsNeeded(t.sec);
    ColumnsNeeded(t.hsec);
    hide PrintInt;
    NoNulInDigits(TimeText(t));
  }

  lemma TimeFormat()
    ensures "%2d%2d%2d.%d" == "%2d" + ("%2d" + ("%2d" + ("." + "%d")))
  {}

  /** Hours, minutes and seconds are what is in the first six characters. */
  lemma TimeIsScanned(t: Utc)
    ensures var text := TimeText(t);
            && |text| >= 6
            && var v := Scan(text, "%2d%2d%2d.%d");
               && v == Run("." + "%d", text[6..], Compare, ThreeSlots(text)) && ThreeSlots(text) <= v
  {
    TimeFormat();
    TimeTextIs(t);
    hide Run, TimeText, Atoi;
    RunThreeTwos("." + "%d", TimeText(t), []);
    assert [] + ThreeSlots(TimeText(t)) == ThreeSlots(TimeText(t));
    RunGrows("." + "%d", TimeText(t)[6..], Compare, ThreeSlots(TimeText(t)));
  }

  lemma FractionIsScanned(f: int, out: seq<Slot>)
    requires ThreeColumns(f)
    ensures Run("." + "%d", "." + PrintInt(f, 2), Compare, out) == out + [IntSlot(f)]
  {
    RunLiteral(".", "%d", PrintInt(f, 2), out);
    RunLastInt(f, 2, out);
  }

  function TimeInto(day: Utc, t: Utc): Utc {
    day.(hour := t.hour, min := t.min, sec := t.sec, hsec := t.hsec)
  }

  lemma TimeLength(t: Utc)
    ensures |TimeText(t)| >= 9
    ensures TwoColumns(t.hour) && TwoColumns(t.min) && TwoColumns(t.sec) ==>
              (|TimeText(t)| <= 10 <==> ThreeColumns(t.hsec))
  {
    TimeTextIs(t);
    ColumnsNeeded(t.hour);
    ColumnsNeeded(t.min);
    ColumnsNeeded(t.sec);
    ColumnsNeeded(t.hsec);
    hide TimeText, PrintInt;
  }

  lemma TimeOfText(t: Utc, day: Utc)
    ensures var v := Scan(TimeText(t), "%2d%2d%2d.%d");
            ReadTime(TimeText(t), day) ==
            if |TimeText(t)| <= 10 && |v| == 4 then Some(AtTime(day, v)) else None
  {
    TimeTextIs(t);
    hide TimeText, TimePart, Scan;
  }

  /** A printed time of day is read back into any date exactly if it is valid in that sense. */
  lemma TimeIsReadBackExactly(t: Utc, day: Utc)
    ensures ReadTime(TimeText(t), day) == Some(TimeInto(day, t)) <==> ValidTime(t)
  {
    hide ReadTime, TimeText, TimeInto, ValidTime;
    if ValidTime(t) {
      ValidTimeIsReadBack(t, day);
    } else if ReadTime(TimeText(t), day) == Some(TimeInto(day, t)) {
      TimeReadBackIsValid(t, day);
    }
  }

  lemma ValidTimeIsReadBack(t: Utc, day: Utc)
    requires ValidTime(t)
    ensures ReadTime(TimeText(t), day) == Some(TimeInto(day, t))
  {
    hide Run, ReadTime, TimeText, TimePart, Atoi, PrintInt, Scan, TwoColumns, ThreeColumns, TwoAt;
    TimeTextIs(t);
    TimeLength(t);
    TimeOfText(t, day);
    TimeIsScanned(t);
    ThreeNumbersRead(t.hour, t.min, t.sec, "." + PrintInt(t.hsec, 2));
    FractionIsScanned(t.hsec, ThreeSlots(TimeText(t)));
  }

  lemma TimeReadBackIsValid(t: Utc, day: Utc)
    requires ReadTime(TimeText(t), day) == Some(TimeInto(day, t))
    ensures ValidTime(t)
  {
    hide Run, ReadTime, TimeText, TimePart, Atoi, PrintInt, Scan, TwoColumns, ThreeColumns, TwoAt, ThreeSlots, AtTime;
    TimeTextIs(t);
    TimeLength(t);
    TimeOfText(t, day);
    TimeIsScanned(t);
    ThreeNumbersRead(t.hour, t.min, t.sec, "." + PrintInt(t.hsec, 2));
    ThreeOfFour(TimeText(t), Scan(TimeText(t), "%2d%2d%2d.%d"), day);
  }

  lemma ThreeOfFour(text: string, v: seq<Slot>, day: Utc)
    requires |text| >= 6 && ThreeSlots(text) <= v
    ensures var u := AtTime(day, v);
            u.hour == TwoAt(text, 0) && u.min == TwoAt(text, 2) && u.sec == TwoAt(text, 4)
  {}

  // ---------------------------------------------------------------- GGA

  /** The time of day that a sentence carries without a date. */
  function TimeOnly(t: Utc): Utc {
    TimeInto(NO_TIME, t)
  }

  lemma GgaConvs(p: Gga)
    ensures Convs(GgaFields(p)) == "sfCf" + ("Cddf" + ("fCfC" + "fd"))
  {
    hide TimeText;
  }

  lemma GgaSlots(p: Gga, utc: Utc)
    ensures |Slots(GgaFields(p))| == 14 && TextAt(Slots(GgaFields(p)), 0) == TimeText(p.utc)
    ensures MakeGGA(Slots(GgaFields(p)), utc) == p.(utc := utc)
  {
    hide TimeText;
  }

  /** A GGA packet comes back, with its time of day, exactly if that is valid. */
  lemma GgaRoundTrip(p: Gga)
    requires ValidFields(GgaFields(p))
    ensures ValidBody(GgaBody(p)) && Sentence(GgaBody(p)) != ""
    ensures Decode(Sentence(GgaBody(p))) == [GGA(p.(utc := TimeOnly(p.utc)))] <==> ValidTime(p.utc)
  {
    hide Run, GgaFields, FormatOf, Join, MakeGGA, ValidFields, PlainBody, Sentence, Slots, ReadTime, TimeText;
    hide ValidTime;
    GgaFormat();
    GgaConvs(p);
    ScanJoined("$GPGGA,", GgaFields(p), GGA_FORMAT);
    BodyIsText(GgaBody(p));
    HeaderOfSentence("$GPGGA,", Join(GgaFields(p)));
    TimeIsReadBackExactly(p.utc, NO_TIME);
    var time := ReadTime(TimeText(p.utc), NO_TIME);
    GgaSlots(p, if time.Some? then time.value else NO_TIME);
    HeaderTypes();
  }

  // ---------------------------------------------------------------- VTG

  lemma VtgConvs(p: Vtg)
    ensures Convs(VtgFields(p)) == "fCfC" + "fCfC"
  {}

  lemma VtgSlots(p: Vtg)
    ensures |Slots(VtgFields(p))| == 8 && MakeVTG(Slots(VtgFields(p))) == p
  {}

  /** A VTG packet comes back exactly if its units are the standard ones. */
  lemma VtgRoundTrip(p: Vtg)
    requires ValidFields(VtgFields(p))
    ensures ValidBody(VtgBody(p)) && Sentence(VtgBody(p)) != ""
    ensures Decode(Sentence(VtgBody(p))) == if RightUnits(p) then [VTG(p)] else []
  {
    hide Run, VtgFields, FormatOf, Join, MakeVTG, ValidFields, PlainBody, Sentence, Slots;
    VtgFormat();
    VtgConvs(p);
    ScanJoined("$GPVTG,", VtgFields(p), VTG_FORMAT);
    BodyIsText(VtgBody(p));
    HeaderOfSentence("$GPVTG,", Join(VtgFields(p)));
    VtgSlots(p);
    HeaderTypes();
  }

  // ---------------------------------------------------------------- RMC

  lemma RmcConvs(p: Rmc)
    ensures Convs(RmcHead(p)) == "sCfC" + "fCff" && Convs(RmcRest(p)) == "fCC"
  {
    hide TimeText;
  }

  /** The date and what follows it. */
  function DateOn(p: Rmc, tail: string): (s: string)
    ensures |s| >= 6
  {
    ColumnsNeeded(p.utc.day);
    ColumnsNeeded(p.utc.mon + 1);
    ColumnsNeeded(p.utc.year - 100);
    DateText(p.utc) + ("," + (Join(RmcRest(p)) + "*" + tail))
  }

  /** Whatever the date, the scan takes the fields in front of it and six of its characters. */
  lemma RmcIsScanned(p: Rmc, tail: string)
    requires ValidFields(RmcHead(p)) && ValidFields(RmcRest(p)) && IsPlainText(DateText(p.utc))
    requires IsBody(RmcBody(p)) && CrcTail(RmcBody(p)) == "*" + tail
    ensures Scan(Sentence(RmcBody(p)), RMC_FORMAT) ==
            Run("," + FormatOf("fCC"), DateOn(p, tail)[6..], Compare, Slots(RmcHead(p)) + ThreeSlots(DateOn(p, tail)))
  {
    hide Run, RmcHead, RmcRest, FormatOf, FormatMore, Join, JoinMore, ValidFields, Slots, CrcTail, DateText, Atoi;
    RmcFormat();
    RmcConvs(p);
    RmcSentence(p, tail);
    var date, head, end := DateOn(p, tail), [] + Slots(RmcHead(p)), "," + FormatOf("fCC");
    var dates := "%2d" + ("%2d" + ("%2d" + end));
    assert head == Slots(RmcHead(p));
    RunLiteral("$GPRMC,", FormatMore("sCfC" + "fCff") + dates, JoinMore(RmcHead(p)) + date, []);
    ScanInvertsMore(RmcHead(p), dates, date, []);
    RunThreeTwos(end, date, head);
  }

  lemma RmcSentence(p: Rmc, tail: string)
    requires IsBody(RmcBody(p)) && CrcTail(RmcBody(p)) == "*" + tail
    ensures Sentence(RmcBody(p)) == "$GPRMC," + (JoinMore(RmcHead(p)) + DateOn(p, tail))
  {
    hide Join, JoinMore, CrcTail, DateText;
    var r := Join(RmcRest(p));
    RmcTexts("$GPRMC,", JoinMore(RmcHead(p)), DateText(p.utc), ",", r, "*" + tail);
    assert r + ("*" + tail) == r + "*" + tail;
  }

  lemma RmcTexts(a: string, b: string, c: string, d: string, e: string, f: string)
    ensures a + (b + (c + d + e)) + f == a + (b + (c + (d + (e + f))))
  {}

  /** The fields behind a date of six characters. */
  lemma RmcRestIsScanned(p: Rmc, tail: string, out: seq<Slot>)
    requires ValidFields(RmcRest(p))
    ensures Run("," + FormatOf("fCC"), "," + (Join(RmcRest(p)) + "*" + tail), Compare, out) == out + Slots(RmcRest(p))
  {
    hide Run, RmcRest, FormatOf, Join, ValidFields, Slots;
    RmcConvs(p);
    RunLiteral(",", FormatOf("fCC"), Join(RmcRest(p)) + "*" + tail, out);
    ScanInvertsPrint(RmcRest(p), tail, out);
  }

  lemma RmcHeadSlots(p: Rmc, v: seq<Slot>)
    requires Slots(RmcHead(p)) <= v
    ensures TextAt(v, 0) == TimeText(p.utc)
    ensures var q := MakeRMC(v, p.utc); p == q.(declination := p.declination, declinEw := p.declinEw, mode := p.mode)
  {
    hide TimeText;
    var head := Slots(RmcHead(p));
    assert |head| == 8 && forall i | 0 <= i < 8 :: v[i] == head[i];
  }

  lemma RmcRestSlots(p: Rmc, v: seq<Slot>)
    requires |v| == 14 && v[11..] == Slots(RmcRest(p))
    ensures RealAt(v, 11) == p.declination && CharAt(v, 12) == p.declinEw && CharAt(v, 13) == p.mode
  {
    assert v[11..][0] == v[11] && v[11..][1] == v[12] && v[11..][2] == v[13];
  }

  predicate SameDate(t: Utc, u: Utc) {
    t.day == u.day && t.mon == u.mon && t.year == u.year
  }

  /** The date as it is scanned: correcting it gives the date of the packet exactly if that is valid. */
  lemma DateIsReadBackExactly(p: Rmc, tail: string, utc: Utc)
    requires var s := DateOn(p, tail);
             utc.day == TwoAt(s, 0) && utc.mon == TwoAt(s, 2) && utc.year == TwoAt(s, 4)
    ensures SameDate(Corrected(utc), p.utc) <==> ValidDate(p.utc)
    ensures ValidDate(p.utc) ==> DateOn(p, tail)[6..] == "," + (Join(RmcRest(p)) + "*" + tail)
  {
    var d, m, y, rest := p.utc.day, p.utc.mon + 1, p.utc.year - 100, "," + (Join(RmcRest(p)) + "*" + tail);
    var s := DateOn(p, tail);
    hide Join, RmcRest, Atoi, PrintInt, TwoColumns, TwoAt;
    FourTexts(PrintInt(d, 2), PrintInt(m, 2), PrintInt(y, 2), rest);
    ThreeNumbersRead(d, m, y, rest);
    YearIsSigned(d, m, y, rest);
    Centuries(utc.year, p.utc.year);
  }

  lemma FourTexts(a: string, b: string, c: string, d: string)
    ensures a + b + c + d == a + (b + (c + d))
  {}

  /** Behind a day and a month of two characters there is no late year for a negative one. */
  lemma YearIsSigned(d: int, m: int, y: int, rest: string)
    ensures var s := PrintInt(d, 2) + (PrintInt(m, 2) + (PrintInt(y, 2) + rest));
            && |s| >= 6 && TwoColumns(TwoAt(s, 0)) && TwoColumns(TwoAt(s, 2)) && TwoColumns(TwoAt(s, 4))
            && (TwoColumns(d) && TwoColumns(m) && y < 0 ==> TwoAt(s, 4) <= 0)
  {
    var p, q, r := PrintInt(d, 2), PrintInt(m, 2), PrintInt(y, 2);
    var s := p + (q + (r + rest));
    ColumnsNeeded(d);
    ColumnsNeeded(m);
    ColumnsNeeded(y);
    TwoCharacters(s[0..2]);
    TwoCharacters(s[2..4]);
    TwoCharacters(s[4..6]);
    hide PrintInt, Atoi;
    if TwoColumns(d) && TwoColumns(m) {
      assert s[4..6][0] == r[0];
    }
  }

  /** A year as it is read, and the year that was printed. */
  lemma Centuries(read: int, year: int)
    requires TwoColumns(read)
    ensures (year < 100 ==> read <= 0) ==>
              ((if read < 90 then read + 100 else read) == year <==> read == year - 100 && 91 <= year < 190)
    ensures 91 <= year < 190 ==> TwoColumns(year - 100)
  {}

  lemma TimeKeepsDay(field: string, day: Utc)
    ensures var u := ReadTime(field, day);
            u.Some? ==> u.value.day == day.day && u.value.mon == day.mon && u.value.year == day.year
  {
    hide Run;
  }

  /** What the parser makes of the slots, up to the packet it returns. */
  function ReadRmc(v: seq<Slot>): Option<Rmc> {
    if |v| != 13 && |v| != 14 then None
    else
      match ReadTime(TextAt(v, 0), ScannedDay(v))
      case None => None
      case Some(utc) => Some(MakeRMC(v, Corrected(utc)))
  }

  lemma RmcIsReadBackExactly(p: Rmc, tail: string, v: seq<Slot>)
    requires ValidFields(RmcRest(p))
    requires var date := DateOn(p, tail);
             v == Run("," + FormatOf("fCC"), date[6..], Compare, Slots(RmcHead(p)) + ThreeSlots(date))
    ensures ReadRmc(v) == Some(p) <==> ValidTime(p.utc) && ValidDate(p.utc)
  {
    var head, date := Slots(RmcHead(p)), DateOn(p, tail);
    hide Run, RmcHead, RmcRest, MakeRMC, ValidFields, ReadTime, TimeText, DateOn, Join, FormatOf, Slots, Atoi;
    hide ValidTime, ValidDate, TimeInto;
    RunGrows("," + FormatOf("fCC"), date[6..], Compare, head + ThreeSlots(date));
    assert head <= head + ThreeSlots(date) <= v;
    assert v[8] == ThreeSlots(date)[0] && v[9] == ThreeSlots(date)[1] && v[10] == ThreeSlots(date)[2];
    RmcHeadSlots(p, v);
    var day := ScannedDay(v);
    TimeIsReadBackExactly(p.utc, day);
    TimeKeepsDay(TimeText(p.utc), day);
    DateIsReadBackExactly(p, tail, day);
    if ValidDate(p.utc) {
      RmcRestIsScanned(p, tail, head + ThreeSlots(date));
      assert v[11..] == Slots(RmcRest(p));
      RmcRestSlots(p, v);
    }
    var time := ReadTime(TimeText(p.utc), day);
    if time.Some? {
      MadeOfParts(p, v, time.value, day);
    }
  }

  lemma MadeOfParts(p: Rmc, v: seq<Slot>, u: Utc, day: Utc)
    requires u.day == day.day && u.mon == day.mon && u.year == day.year
    requires var q := MakeRMC(v, p.utc); p == q.(declination := p.declination, declinEw := p.declinEw, mode := p.mode)
    ensures MakeRMC(v, Corrected(u)) == p ==> u == TimeInto(day, p.utc) && SameDate(Corrected(day), p.utc)
    ensures u == TimeInto(day, p.utc) && SameDate(Corrected(day), p.utc) &&
            RealAt(v, 11) == p.declination && CharAt(v, 12) == p.declinEw && CharAt(v, 13) == p.mode ==>
              MakeRMC(v, Corrected(u)) == p
  {}

  /** An RMC packet comes back exactly if its time and its date are valid. */
  lemma RmcRoundTrip(p: Rmc)
    requires ValidFields(RmcHead(p)) && ValidFields(RmcRest(p)) && IsPlainText(DateText(p.utc))
    ensures ValidBody(RmcBody(p)) && Sentence(RmcBody(p)) != ""
    ensures Decode(Sentence(RmcBody(p))) == [RMC(p)] <==> ValidTime(p.utc) && ValidDate(p.utc)
  {
    hide RmcHead, RmcRest, MakeRMC, ValidFields, PlainBody, Sentence, ReadTime, TimeText, DateText, DateOn, Join;
    hide JoinMore, FormatOf, Slots, Run, Atoi, ValidTime, ValidDate, Corrected, CrcTail, ThreeSlots;
    RmcBodyIsPlain(p);
    BodyIsText(RmcBody(p));
    TailStarts(RmcBody(p));
    HeaderOfSentence("$GPRMC,", JoinMore(RmcHead(p)) + (DateText(p.utc) + "," + Join(RmcRest(p))));
    HeaderTypes();
    var v, tail := Scan(Sentence(RmcBody(p)), RMC_FORMAT), CrcTail(RmcBody(p))[1..];
    RmcIsScanned(p, tail);
    RmcIsReadBackExactly(p, tail, v);
  }
}
