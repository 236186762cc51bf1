/** What holds over whole runs of the stream parser of nmea/src/parser.c. */
module NmeaRuns {
  import opened Options
  import opened NmeaFraming
  import opened NmeaPackets
  import opened NmeaParser

  // ---------------------------------------------------------------- chunks

  lemma PushIsRealPush(size: nat, st: Stream, data: string)
    requires 0 < size && |data| <= size
    ensures Push(size, st, data) == RealPush(size, st, data)
    ensures PushedFrom(size, st, data, |data|) == RealParsed(size, st, data)
  {
    assert data[..|data|] == data;
  }

  lemma {:induction false} DecodeAllConcat(fs: seq<string>, gs: seq<string>)
    requires AllNonempty(fs) && AllNonempty(gs)
    ensures DecodeAll(fs + gs) == DecodeAll(fs) + DecodeAll(gs)
  {
    hide Decode;
    if fs == [] {
      assert fs + gs == gs;
    } else {
      assert (fs + gs)[0] == fs[0] && (fs + gs)[1..] == fs[1..] + gs;
      DecodeAllConcat(fs[1..], gs);
    }
  }

  /** The packets of a stream that comes in two parts. */
  lemma PacketsConcat(a: string, b: string)
    ensures Packets(a + b) == Packets(a) + Packets(Reframe(a).rest + b)
  {
    hide DecodeAll, FindTail;
    ReframeConcat(a, b);
    FramesNonempty(a);
    FramesNonempty(Reframe(a).rest + b);
    DecodeAllConcat(Reframe(a).frames, Reframe(Reframe(a).rest + b).frames);
  }

  /** Two pushes leave the same packets and the same bytes as one push of both chunks, and report as
      many parsed bytes, as long as the bytes waiting and both chunks stay below the buffer size. */
  lemma ChunkIndependence(size: nat, st: Stream, a: string, b: string)
    requires 0 < size && |st.rest| + |a| + |b| < size
    ensures Push(size, Push(size, st, a), b) == Push(size, st, a + b)
    ensures RealParsed(size, st, a) + RealParsed(size, Push(size, st, a), b) == RealParsed(size, st, a + b)
  {
    hide Packets, Reframe, PushFrom, PushedFrom;
    PushIsRealPush(size, st, a);
    PushIsRealPush(size, Push(size, st, a), b);
    PushIsRealPush(size, st, a + b);
    var s := st.rest + a;
    assert st.rest + (a + b) == s + b;
    ReframeConcat(s, b);
    PacketsConcat(s, b);
    assert st.queue + Packets(s) + Packets(Reframe(s).rest + b) == st.queue + Packets(s + b);
  }

  function Concat(chunks: seq<string>): string {
    if chunks == [] then "" else chunks[0] + Concat(chunks[1..])
  }

  /** `nmea_parse` on one chunk after the other. */
  function ParseChunks(size: nat, st: Stream, info: Info, chunks: seq<string>): Option<Parsed>
    requires 0 < size && ValidInfo(info) && ValidPacks(st.queue)
    decreases chunks
  {
    if chunks == [] then Some(Parsed(st, info, 0))
    else
      match Parse(size, st, info, chunks[0])
      case None => None
      case Some(p) => Counted(p.nread, ParseChunks(size, p.st, p.info, chunks[1..]))
  }

  /** The packets counted before are added to the result. */
  function Counted(n: nat, r: Option<Parsed>): Option<Parsed> {
    match r
    case None => None
    case Some(q) => Some(q.(nread := n + q.nread))
  }

  lemma ParseTwo(size: nat, st: Stream, info: Info, a: string, b: string)
    requires 0 < size && |st.rest| + |a| + |b| < size && ValidInfo(info) && ValidPacks(st.queue)
    ensures Parse(size, st, info, a + b) ==
            match Parse(size, st, info, a)
            case None => None
            case Some(p) => Counted(p.nread, Parse(size, p.st, p.info, b))
  {
    hide Packets, Reframe, FoldAll;
    ChunkIndependence(size, st, a, b);
    PushIsRealPush(size, st, a);
    var first := Push(size, st, a);
    var after := Push(size, first.(queue := []), b);
    PushIsRealPush(size, first, b);
    PushIsRealPush(size, first.(queue := []), b);
    assert [] + Packets(first.rest + b) == Packets(first.rest + b) == after.queue;
    FoldAllConcat(info, first.queue, after.queue);
  }

  /** However a stream is divided into chunks, the information, the packet count and the bytes kept are the same. */
  lemma {:induction false} ParseIsChunkIndependent(size: nat, st: Stream, info: Info, chunks: seq<string>)
    requires 0 < size && |st.rest| + |Concat(chunks)| < size && ValidInfo(info) && ValidPacks(st.queue)
    requires chunks != []
    ensures ParseChunks(size, st, info, chunks) == Parse(size, st, info, Concat(chunks))
    decreases chunks
  {
    hide Packets, FoldAll, FindTail;
    var a, t := chunks[0], Concat(chunks[1..]);
    ParsedRest(size, st, info, a);
    hide Parse;
    if |chunks| == 1 {
      assert a + "" == a;
    } else {
      ParseTwo(size, st, info, a, t);
      if Parse(size, st, info, a).Some? {
        var p := Parse(size, st, info, a).value;
        ParseIsChunkIndependent(size, p.st, p.info, chunks[1..]);
      }
    }
  }

  /** What is kept is not longer than what was there. */
  lemma ParsedRest(size: nat, st: Stream, info: Info, a: string)
    requires 0 < size && |st.rest| + |a| < size && ValidInfo(info) && ValidPacks(st.queue)
    ensures Parse(size, st, info, a).Some? ==> |Parse(size, st, info, a).value.st.rest| <= |st.rest| + |a|
  {
    hide Packets, FoldAll, FindTail;
    PushIsRealPush(size, st, a);
  }

  // ---------------------------------------------------------------- any run

  /** A parser between two calls: the buffer holds, and nothing in it could still be consumed. */
  predicate Settled(size: nat, st: Stream) {
    |st.rest| <= size && FindTail(st.rest) == Wait && ValidPacks(st.queue)
  }

  datatype Call = Pushing(data: string) | Popping

  /** The state after some calls, with the packets fetched so far. */
  datatype History = History(st: Stream, fetched: seq<Pack>)

  function Do(size: nat, h: History, c: Call): History
    requires 0 < size
  {
    match c
    case Pushing(data) => h.(st := Push(size, h.st, data))
    case Popping =>
      if h.st.queue == [] then h
      else History(h.st.(queue := h.st.queue[1..]), h.fetched + [h.st.queue[0]])
  }

  function DoAll(size: nat, h: History, cs: seq<Call>): History
    requires 0 < size
    decreases cs
  {
    if cs == [] then h else DoAll(size, Do(size, h, cs[0]), cs[1..])
  }

  lemma {:induction false} PushAppends(size: nat, st: Stream, data: string, todo: nat)
    requires 0 < size && todo <= |data| && Settled(size, st)
    ensures var r := PushFrom(size, st, data, todo); Settled(size, r) && st.queue <= r.queue
    decreases todo
  {
    hide Packets, FindTail;
    var n := if todo <= size then todo else size;
    var r := RealPush(size, st, data[..n]);
    assert Settled(size, r) && st.queue <= r.queue;
    if todo > size {
      PushAppends(size, r, data, todo - size);
    }
  }

  /** In every run the parser stays settled, and what was fetched, followed by what is queued, only ever grows
      at its end: packets leave in the order in which they arrived and none is lost or repeated. */
  lemma {:induction false} RunsAreFifo(size: nat, h: History, cs: seq<Call>)
    requires 0 < size && Settled(size, h.st)
    ensures var r := DoAll(size, h, cs);
            Settled(size, r.st) && h.fetched + h.st.queue <= r.fetched + r.st.queue
    decreases cs
  {
    if cs != [] {
      var g := Do(size, h, cs[0]);
      assert Settled(size, g.st) && h.fetched + h.st.queue <= g.fetched + g.st.queue by {
        match cs[0] {
          case Pushing(data) =>
            PushAppends(size, h.st, data, |data|);
          case Popping =>
            if h.st.queue != [] {
              assert h.fetched + h.st.queue == g.fetched + g.st.queue;
            }
        }
      }
      RunsAreFifo(size, g, cs[1..]);
    }
  }

  // ---------------------------------------------------------------- when nothing is lost

  /** There is room for the chunk behind the bytes kept, and one byte more unless nothing is kept. */
  predicate HasRoom(size: nat, st: Stream, n: nat) {
    n <= size && (st.rest == "" || |st.rest| + n < size)
  }

  /** Pushing `data` makes the packets and the bytes kept those of everything received so far. */
  predicate LosesNothing(size: nat, st: Stream, data: string)
    requires 0 < size
  {
    Push(size, st, data) == Stream(Reframe(st.rest + data).rest, st.queue + Packets(st.rest + data))
  }

  lemma RoomLosesNothing(size: nat, st: Stream, data: string)
    requires 0 < size && HasRoom(size, st, |data|)
    ensures LosesNothing(size, st, data)
  {
    hide Reframe, Packets;
    PushIsRealPush(size, st, data);
    assert "" + data == st.rest + data || st.rest != "";
  }

  function Letters(n: nat): (s: string)
    ensures |s| == n && forall i | 0 <= i < n :: s[i] == 'a'
  {
    seq(n, _ => 'a')
  }

  /** Letters never complete what waits. */
  lemma LettersWait(r: string, n: nat)
    requires FindTail(r) == Wait
    ensures FindTail(r + Letters(n)) == Wait
  {
    var s, k := r + Letters(n), StopAt(r, 0);
    ScanQuiet(r, 0, k);
    if k < |r| {
      assert r[k] == '*';
      ScanQuiet(s, 0, k);
      assert Body(s, k) == Body(r, k);
      if k + TAIL_SIZE <= |r| {
        assert s[k + 1..k + 3] == r[k + 1..k + 3];
      }
    } else {
      ScanQuiet(s, 0, |s|);
    }
  }

  /** For chunks of length `n` nothing is ever lost if and only if there is room in that sense. */
  lemma PushLosesNothingExactly(size: nat, st: Stream, n: nat)
    requires 0 < size && Settled(size, st)
    ensures (forall data: string | |data| == n :: LosesNothing(size, st, data)) <==> HasRoom(size, st, n)
  {
    if HasRoom(size, st, n) {
      forall data: string | |data| == n ensures LosesNothing(size, st, data) {
        RoomLosesNothing(size, st, data);
      }
    } else {
      RoomIsNeeded(size, st, n);
    }
  }

  lemma RoomIsNeeded(size: nat, st: Stream, n: nat)
    requires 0 < size && Settled(size, st) && !HasRoom(size, st, n)
    ensures |Letters(n)| == n && !LosesNothing(size, st, Letters(n))
  {
    hide Packets, FindTail;
    var data := Letters(n);
    LettersWait(st.rest, n);
    assert Reframe(st.rest + data).rest == st.rest + data;
    if n > size {
      PushAppends(size, st, data, n);
    } else {
      PushIsRealPush(size, st, data);
      assert |Reframe("" + data).rest| <= n;
    }
  }

  /** Two chunks that lose bytes: one longer than the buffer, whose last byte is never looked at, and one in front of
      which the bytes kept are dropped although both would just fit. */
  lemma PushLosesInput()
    ensures Push(2, Stream("", []), "abc") == Stream("a", []) && Reframe("abc").rest == "abc"
    ensures Push(4, Stream("$G", []), "PG") == Stream("PG", []) && Reframe("$GPG").rest == "$GPG"
  {
    NoFrameYet("abc");
    NoFrameYet("ab");
    NoFrameYet("a");
    NoFrameYet("PG");
    NoFrameYet("$GPG");
    hide FindTail;
    assert "abc"[..2] == "ab" && "abc"[..1] == "a" && "PG"[..2] == "PG";
    assert "" + "ab" == "ab" && "" + "a" == "a" && "" + "PG" == "PG";
    var st := RealPush(2, Stream("", []), "ab");
    assert st == Stream("ab", []);
    assert PushFrom(2, st, "abc", 1) == RealPush(2, st, "a") == Stream("a", []);
    assert Push(4, Stream("$G", []), "PG") == RealPush(4, Stream("$G", []), "PG");
  }

  lemma NoFrameYet(s: string)
    requires Quiet(s, |s|)
    ensures FindTail(s) == Wait && Reframe(s) == Cut([], s) && Packets(s) == []
  {
    hide Reframe, Packets;
    ScanQuiet(s, 0, |s|);
    SettledHoldsNothing(s);
  }

  /** Every push of a run finds room. */
  predicate AlwaysRoom(size: nat, h: History, cs: seq<Call>)
    requires 0 < size
    decreases cs
  {
    cs == [] || ((cs[0].Pushing? ==> HasRoom(size, h.st, |cs[0].data|)) &&
                 AlwaysRoom(size, Do(size, h, cs[0]), cs[1..]))
  }

  /** Everything pushed in a run. */
  function PushedBytes(cs: seq<Call>): string {
    if cs == [] then "" else (if cs[0].Pushing? then cs[0].data else "") + PushedBytes(cs[1..])
  }

  /** As long as there is room, what was fetched and what is queued are exactly the packets in the bytes pushed,
      however they were divided and whenever packets were fetched. */
  lemma {:induction false} RunsLoseNothing(size: nat, h: History, cs: seq<Call>)
    requires 0 < size && Settled(size, h.st) && AlwaysRoom(size, h, cs)
    ensures var r := DoAll(size, h, cs);
            && r.fetched + r.st.queue == h.fetched + h.st.queue + Packets(h.st.rest + PushedBytes(cs))
            && r.st.rest == Reframe(h.st.rest + PushedBytes(cs)).rest
    decreases cs
  {
    hide Packets, Reframe, FindTail, Push;
    if cs == [] {
      assert h.st.rest + "" == h.st.rest;
      SettledHoldsNothing(h.st.rest);
      assert h.fetched + h.st.queue + [] == h.fetched + h.st.queue;
    } else {
      var g, bytes := Do(size, h, cs[0]), PushedBytes(cs[1..]);
      RunsAreFifo(size, h, cs[..1]);
      OneCall(size, h, cs[0], cs);
      RunsLoseNothing(size, g, cs[1..]);
      match cs[0] {
        case Pushing(data) =>
          RoomLosesNothing(size, h.st, data);
          var s := h.st.rest + data;
          assert h.st.rest + PushedBytes(cs) == s + bytes;
          ReframeConcat(s, bytes);
          PacketsConcat(s, bytes);
          MorePackets(h.fetched, h.st.queue, Packets(s), Packets(Reframe(s).rest + bytes));
        case Popping =>
          assert PushedBytes(cs) == "" + bytes == bytes;
          if h.st.queue != [] {
            assert h.fetched + h.st.queue == g.fetched + g.st.queue;
          }
      }
    }
  }

  lemma OneCall(size: nat, h: History, c: Call, cs: seq<Call>)
    requires 0 < size && cs != [] && cs[0] == c
    ensures DoAll(size, h, cs[..1]) == Do(size, h, c)
  {
    hide Do;
    assert cs[..1][1..] == [];
  }

  lemma MorePackets(a: seq<Pack>, b: seq<Pack>, c: seq<Pack>, d: seq<Pack>)
    ensures a + (b + c) + d == a + b + (c + d)
  {}

  lemma SettledHoldsNothing(r: string)
    requires FindTail(r) == Wait
    ensures Reframe(r) == Cut([], r) && Packets(r) == []
  {}

  // ---------------------------------------------------------------- input longer than the buffer

  /** The push loop does not move on in its input: of an input longer than the buffer
      only as many bytes as the buffer has are ever looked at. */
  lemma {:induction false} OnlyThePrefixIsRead(size: nat, st: Stream, a: string, b: string, todo: nat)
    requires 0 < size && todo <= |a| && todo <= |b|
    requires forall i | 0 <= i < size && i < todo :: a[i] == b[i]
    ensures PushFrom(size, st, a, todo) == PushFrom(size, st, b, todo)
    decreases todo
  {
    hide RealPush;
    if todo <= size {
      assert a[..todo] == b[..todo];
    } else {
      assert a[..size] == b[..size];
      OnlyThePrefixIsRead(size, RealPush(size, st, a[..size]), a, b, todo - size);
    }
  }
}
