/** Which satellites are in use: what a reader learns from the GSA sentence that nmea/src/generate.c puts in front of
    the GSV sentences. */
module NmeaInUse {
  import opened Options
  import opened NmeaPackets
  import opened NmeaParser
  import opened NmeaGenerate
  import opened NmeaLoopback

  /** Numbered satellites: those in view have different numbers that are not 0, and only they are in use. */
  predicate Numbered(info: Info) {
    && InRange(info)
    && (forall i, j | 0 <= i < j < info.inview :: info.sats[i].id != info.sats[j].id)
    && (forall j | 0 <= j < MAXSAT :: if j < info.inview then info.sats[j].id != 0 else info.sats[j].inUse == 0)
  }

  function InUseCount(sats: seq<Satellite>): nat {
    if sats == [] then 0
    else InUseCount(sats[..|sats| - 1]) + if sats[|sats| - 1].inUse != 0 then 1 else 0
  }

  lemma {:induction false} NoneInUse(sats: seq<Satellite>)
    ensures InUseCount(sats) == 0 <==> forall j | 0 <= j < |sats| :: sats[j].inUse == 0
  {
    if sats != [] {
      var last := |sats| - 1;
      NoneInUse(sats[..last]);
      assert forall j | 0 <= j < last :: sats[..last][j] == sats[j];
    }
  }

  /** A satellite number is found once, at its own slot. */
  lemma {:induction false} FoundOnce(prn: int, k: nat, sats: seq<Satellite>, n: nat)
    requires n <= |sats| && k < |sats| && prn == sats[k].id != 0
    requires forall j | 0 <= j < |sats| && j != k && j < n :: sats[j].id != prn
    ensures CountMatches(prn, sats, n) == if k < n then 1 else 0
  {
    if n > 0 {
      FoundOnce(prn, k, sats, n - 1);
    }
  }

  lemma {:induction false} NoneFound(sats: seq<Satellite>, n: nat)
    requires n <= |sats|
    ensures CountMatches(0, sats, n) == 0
  {
    if n > 0 {
      NoneFound(sats, n - 1);
    }
  }

  /** The double loop counts every satellite in use exactly once. */
  lemma {:induction false} CountsInUse(info: Info, table: seq<Satellite>, m: nat)
    requires Numbered(info) && |table| == MAXSAT && m <= MAXSAT
    requires forall j | 0 <= j < info.inview :: table[j].id == info.sats[j].id
    ensures CountUse(InfoToGSA(info).prn[..m], table, info.inview) == InUseCount(info.sats[..m])
  {
    if m > 0 {
      CountsInUse(info, table, m - 1);
      var prn, s := InfoToGSA(info).prn, info.sats;
      assert prn[..m][..m - 1] == prn[..m - 1] && s[..m][..m - 1] == s[..m - 1];
      if s[m - 1].inUse != 0 {
        FoundOnce(prn[m - 1], m - 1, table, info.inview);
      } else {
        NoneFound(table, info.inview);
      }
    }
  }

  lemma ListedWhenInUse(info: Info, j: nat)
    requires Numbered(info) && j < info.inview
    ensures Listed(InfoToGSA(info).prn, info.sats[j]) <==> info.sats[j].inUse != 0
  {
    var prn := InfoToGSA(info).prn;
    if info.sats[j].inUse != 0 {
      assert prn[j] == info.sats[j].id;
    }
  }

  /** The in-use flags are those of the sender, as 0 or 1, and their number is known. */
  ghost predicate InUseRestored(info: Info, r: Info)
    requires ValidInfo(info) && ValidInfo(r)
  {
    && r.inuse == InUseCount(info.sats)
    && forall j | 0 <= j < MAXSAT :: r.sats[j].inUse == if info.sats[j].inUse != 0 then 1 else 0
  }

  /** Everything about the satellites comes back. */
  ghost predicate SatellitesRestored(info: Info, r: Info)
    requires InRange(info) && ValidInfo(r)
  {
    && InUseRestored(info, r) && r.inview == info.inview
    && forall j | 0 <= j < info.inview :: r.sats[j].(inUse := 0) == info.sats[j].(inUse := 0)
  }

  predicate Cleared(i: Info) {
    ValidInfo(i) && forall j | 0 <= j < MAXSAT :: i.sats[j].inUse == 0
  }

  /** A table that a complete GSV cycle has been folded into: the GSA packet counts the satellites in use and adds their
      flags to those already set. */
  lemma GsvThenGsa(info: Info, table: Info)
    requires Numbered(info) && ValidInfo(table) && table.inview == info.inview
    requires forall j | 0 <= j < info.inview :: table.sats[j].id == info.sats[j].id
    ensures FoldGSA(table, InfoToGSA(info)).Some?
    ensures var r := FoldGSA(table, InfoToGSA(info)).value;
            && r.inuse == InUseCount(info.sats) && r.inview == info.inview
            && forall j | 0 <= j < MAXSAT ::
                 r.sats[j] == if info.sats[j].inUse != 0 then table.sats[j].(inUse := 1) else table.sats[j]
  {
    CountsInUse(info, table.sats, MAXSAT);
    assert info.sats[..MAXSAT] == info.sats && InfoToGSA(info).prn[..MAXSAT] == InfoToGSA(info).prn;
    var r := FoldGSA(table, InfoToGSA(info)).value;
    forall j | 0 <= j < MAXSAT
      ensures r.sats[j] == if info.sats[j].inUse != 0 then table.sats[j].(inUse := 1) else table.sats[j]
    {
      if j < info.inview {
        ListedWhenInUse(info, j);
      }
    }
  }

  /** A complete GSV cycle in any order and then the GSA packet, on a table without flags. */
  lemma CycleThenGsa(i: Info, info: Info, ks: seq<nat>)
    requires Cleared(i) && Numbered(info)
    requires (forall x | 0 <= x < |ks| :: ks[x] < CycleLength(info)) && Members(ks) == AllIndices(info)
    ensures var r := FoldAll(i, CyclePacks(info, ks) + [GSA(InfoToGSA(info))]);
            r.Some? && SatellitesRestored(info, r.value)
  {
    hide CyclePacks, CycleLength, AllIndices, Updated, InfoToGSA, InUseCount, FoldGSA;
    var g := GSA(InfoToGSA(info));
    CycleUpdates(i, info, ks);
    CompleteCycleRestores(i, info);
    FoldAllConcat(i, CyclePacks(info, ks), [g]);
    var u := Updated(i, info, AllIndices(info));
    FoldAtMostOne(u, [g]);
    GsvThenGsa(info, u);
  }

  // ---------------------------------------------------------------- reading an output

  const GSA_GSV: set<PackType> := {GPGSA, GPGSV}

  /** With GSA and GSV sentences the GSA sentence comes first, in the output and in what arrives. */
  lemma GsaComesFirst(info: Info, n: Numerals)
    requires InRange(info)
    ensures Bodies(info, GSA_GSV, n) == [GsaBody(InfoToGSA(info))] + GsvPart(info)
    ensures Received(info, GSA_GSV, n) == [GSA(InfoToGSA(info))] + Cycle(info)
  {
    hide GsaBody, InfoToGSA, GsvPart, Cycle;
  }

  /** The satellites of the table that the sender's GSA sentence marks before the sender's GSV sentences arrive. */
  predicate MarkedEarly(info: Info, table: Info, j: nat)
    requires ValidInfo(info) && ValidInfo(table) && j < MAXSAT
  {
    j < InTable(table.inview) && Listed(InfoToGSA(info).prn, table.sats[j])
  }

  /** One reading of GSA and then a cycle: count and flags are those of the table as it was. */
  lemma GsaThenCycle(info: Info, table: Info)
    requires InRange(info) && Cleared(table)
    ensures var r := FoldAll(table, [GSA(InfoToGSA(info))] + Cycle(info));
            && (r.Some? <==> LooksInTable(table, InfoToGSA(info)))
            && (r.Some? ==>
                  && r.value.inview == info.inview
                  && r.value.inuse == CountUse(InfoToGSA(info).prn, table.sats, InTable(table.inview))
                  && (forall j | 0 <= j < MAXSAT ::
                        r.value.sats[j].inUse == if MarkedEarly(info, table, j) then 1 else 0)
                  && (forall j | 0 <= j < info.inview :: r.value.sats[j].(inUse := 0) == info.sats[j].(inUse := 0)))
  {
    var g := GSA(InfoToGSA(info));
    FoldAtMostOne(table, [g]);
    FoldAllConcat(table, [g], Cycle(info));
    hide Cycle, CountUse, InfoToGSA, Updated, AllIndices, FoldAll, Listed;
    if FoldGSA(table, g.gsa).Some? {
      var a := FoldGSA(table, g.gsa).value;
      CycleIsFolded(a, info);
      UpdatedCount(a, info);
    }
  }

  lemma UpdatedCount(a: Info, info: Info)
    requires ValidInfo(a) && InRange(info)
    ensures Updated(a, info, AllIndices(info)).inuse == a.inuse
  {}

  /** One reading of GSA and GSV output, on a table without flags, restores the satellites in use exactly if the numbers
      the table held before happened to name them: slot by slot, and as many. */
  lemma FirstReading(info: Info, n: Numerals, room: int, size: nat, table: Info)
    requires Sendable(info, GSA_GSV, n) && Numbered(info) && Cleared(table)
    requires OutputLength(info, GSA_GSV, n) < room && OutputLength(info, GSA_GSV, n) < size
    ensures var p := Parse(size, Stream("", []), table, Output(room, info, GSA_GSV, n));
            && (p.Some? <==> LooksInTable(table, InfoToGSA(info)))
            && (p.Some? ==>
                  (InUseRestored(info, p.value.info) <==>
                     && CountUse(InfoToGSA(info).prn, table.sats, InTable(table.inview)) == InUseCount(info.sats)
                     && forall j | 0 <= j < MAXSAT :: MarkedEarly(info, table, j) <==> info.sats[j].inUse != 0))
  {
    ReadingIsFolding(info, n, room, size, "", table);
    GsaThenCycle(info, table);
    hide *;
  }

  lemma ReadingIsFolding(info: Info, n: Numerals, room: int, size: nat, noise: string, table: Info)
    requires Sendable(info, GSA_GSV, n) && ValidInfo(table) && '*' !in noise
    requires OutputLength(info, GSA_GSV, n) < room && |noise| + OutputLength(info, GSA_GSV, n) < size
    ensures var ps := [GSA(InfoToGSA(info))] + Cycle(info);
            Parse(size, Stream(noise, []), table, Output(room, info, GSA_GSV, n)) ==
            match FoldAll(table, ps)
            case None => None
            case Some(r) => Some(Parsed(Stream("", []), r, |ps|))
  {
    NextIsFirst(GSA_GSV);
    OutputIsReadBack(info, GSA_GSV, n, room, size, noise, table);
    GsaComesFirst(info, n);
  }

  /** A table without satellites: then one reading restores the satellites in use exactly if there are none. */
  lemma FirstReadingOfEmptyTable(info: Info, n: Numerals, room: int, size: nat, table: Info)
    requires Sendable(info, GSA_GSV, n) && Numbered(info) && Cleared(table) && table.inview <= 0
    requires OutputLength(info, GSA_GSV, n) < room && OutputLength(info, GSA_GSV, n) < size
    ensures var p := Parse(size, Stream("", []), table, Output(room, info, GSA_GSV, n));
            p.Some? && (InUseRestored(info, p.value.info) <==> forall j | 0 <= j < MAXSAT :: info.sats[j].inUse == 0)
  {
    hide Parse, Output, OutputLength, InfoToGSA, Sendable, InUseRestored, InUseCount;
    FirstReading(info, n, room, size, table);
    NoneInUse(info.sats);
    NothingCounted(InfoToGSA(info).prn, table.sats);
  }

  lemma {:induction false} NothingCounted(prn: seq<int>, sats: seq<Satellite>)
    ensures CountUse(prn, sats, 0) == 0
    decreases prn
  {
    if prn != [] {
      NothingCounted(prn[..|prn| - 1], sats);
    }
  }

  /** Reading the same output a second time restores everything about the satellites exactly if the first reading has
      not marked a satellite that is not in use. */
  lemma SecondReading(info: Info, n: Numerals, room: int, size: nat, table: Info)
    requires Sendable(info, GSA_GSV, n) && Numbered(info) && Cleared(table) && LooksInTable(table, InfoToGSA(info))
    requires OutputLength(info, GSA_GSV, n) < room && OutputLength(info, GSA_GSV, n) < size
    ensures var out := Output(room, info, GSA_GSV, n);
            var p := Parse(size, Stream("", []), table, out);
            && p.Some?
            && var q := Parse(size, p.value.st, p.value.info, out);
               && q.Some? && q.value.st == Stream("", [])
               && (SatellitesRestored(info, q.value.info) <==>
                     forall j | 0 <= j < MAXSAT :: MarkedEarly(info, table, j) ==> info.sats[j].inUse != 0)
  {
    ReadingIsFolding(info, n, room, size, "", table);
    hide *;
    GsaThenCycle(info, table);
    var ps := [GSA(InfoToGSA(info))] + Cycle(info);
    var p := FoldAll(table, ps).value;
    ReadingIsFolding(info, n, room, size, "", p);
    CycleThenGsaThenCycle(info, p);
    RestoredWhenNothingStale(info, table, p, FoldAll(p, ps).value);
  }

  /** The flags of the first reading stay; those of the second are added. */
  lemma RestoredWhenNothingStale(info: Info, table: Info, p: Info, q: Info)
    requires InRange(info) && ValidInfo(table) && ValidInfo(p) && ValidInfo(q)
    requires q.inview == info.inview && q.inuse == InUseCount(info.sats)
    requires forall j | 0 <= j < MAXSAT :: p.sats[j].inUse == if MarkedEarly(info, table, j) then 1 else 0
    requires forall j | 0 <= j < MAXSAT :: q.sats[j].inUse == if info.sats[j].inUse != 0 then 1 else p.sats[j].inUse
    requires forall j | 0 <= j < info.inview :: q.sats[j].(inUse := 0) == info.sats[j].(inUse := 0)
    ensures SatellitesRestored(info, q) <==>
              forall j | 0 <= j < MAXSAT :: MarkedEarly(info, table, j) ==> info.sats[j].inUse != 0
  {
    hide MarkedEarly, InUseCount;
  }

  /** On a table with the satellites of the sender, one more reading adds the flags and counts them. */
  lemma CycleThenGsaThenCycle(info: Info, p: Info)
    requires Numbered(info) && ValidInfo(p) && p.inview == info.inview
    requires forall j | 0 <= j < info.inview :: p.sats[j].(inUse := 0) == info.sats[j].(inUse := 0)
    ensures var r := FoldAll(p, [GSA(InfoToGSA(info))] + Cycle(info));
            && r.Some? && r.value.inview == info.inview && r.value.inuse == InUseCount(info.sats)
            && (forall j | 0 <= j < MAXSAT ::
                  r.value.sats[j].inUse == if info.sats[j].inUse != 0 then 1 else p.sats[j].inUse)
            && (forall j | 0 <= j < info.inview :: r.value.sats[j].(inUse := 0) == info.sats[j].(inUse := 0))
  {
    var g := GSA(InfoToGSA(info));
    assert forall j | 0 <= j < info.inview :: p.sats[j].(inUse := 0).id == info.sats[j].(inUse := 0).id;
    GsvThenGsa(info, p);
    FoldAtMostOne(p, [g]);
    FoldAllConcat(p, [g], Cycle(info));
    hide Cycle, InUseCount, InfoToGSA, Updated, AllIndices, FoldAll, FoldGSA;
    var a := FoldGSA(p, g.gsa).value;
    CycleIsFolded(a, info);
    UpdatedCount(a, info);
  }
}
