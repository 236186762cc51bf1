/** Cutting a byte stream into sentences: `nmea_find_tail` of nmea/src/parse.c and the
    loop of `nmea_parser_real_push` in nmea/src/parser.c that calls it. */
module NmeaFraming {
  import opened NmeaText

  /** A complete sentence of `n` bytes, `n` bytes to throw away, or "need more bytes". */
  datatype Tail = Frame(n: nat) | Skip(n: nat) | Wait

  const TAIL_SIZE := 5  // *hh\r\n

  /** The scan of `nmea_find_tail` from position `i` on, with checksum `crc` so far. */
  function ScanTail(s: string, i: nat, crc: int): Tail
    requires i <= |s|
    decreases |s| - i
  {
    if i == |s| then Wait
    else if s[i] == '$' && i > 0 then Skip(i)
    else if s[i] == '*' then
      if i + TAIL_SIZE <= |s| && s[i + 3] == '\r' && s[i + 4] == '\n' then
        var c := Atoi(s[i + 1..i + 3], 16);
        if c != crc then Skip(i + TAIL_SIZE) else if c >= 0 then Frame(i + TAIL_SIZE) else Wait
      else Wait
    else ScanTail(s, i + 1, if i > 0 then Xor(crc, Signed(s[i])) else crc)
  }

  function FindTail(s: string): (t: Tail)
    ensures !t.Wait? ==> 0 < t.n <= |s|
  {
    ScanProgress(s, 0, 0);
    ScanTail(s, 0, 0)
  }

  lemma {:induction false} ScanProgress(s: string, i: nat, crc: int)
    requires i <= |s|
    ensures var t := ScanTail(s, i, crc); !t.Wait? ==> 0 < t.n <= |s|
    decreases |s| - i
  {
    if i < |s| && !(s[i] == '$' && i > 0) && s[i] != '*' {
      ScanProgress(s, i + 1, if i > 0 then Xor(crc, Signed(s[i])) else crc);
    }
  }

  /** `nmea_find_tail` on the bytes lo..hi of a buffer. */
  method FindTailIn(buffer: array<char>, lo: nat, hi: nat) returns (nread: nat, resCrc: int)
    requires lo <= hi <= buffer.Length
    ensures match FindTail(buffer[lo..hi])
            case Wait => nread == 0
            case Skip(n) => nread == n && resCrc < 0
            case Frame(n) => nread == n && resCrc >= 0
  {
    hide Xor, Signed, Atoi;
    ghost var s := buffer[lo..hi];
    var crc := 0;
    nread, resCrc := 0, -1;
    var buff := lo;
    var stopped := false;  // the pointer was set to 0
    while buff < hi
      invariant lo <= buff <= hi && nread == buff - lo
      invariant resCrc == -1 && !stopped
      invariant ScanTail(s, 0, 0) == ScanTail(s, nread, crc)
    {
      if buffer[buff] == '$' && nread != 0 {
        stopped := true;
        break;
      } else if buffer[buff] == '*' {
        if buff + TAIL_SIZE <= hi && buffer[buff + 3] == '\r' && buffer[buff + 4] == '\n' {
          assert s[nread + 1] == buffer[buff + 1] && s[nread + 2] == buffer[buff + 2];
          assert s[nread + 1..nread + 3] == buffer[buff + 1..buff + 3];
          resCrc := Atoi(buffer[buff + 1..buff + 3], 16);
          nread := hi - lo - (hi - (buff + TAIL_SIZE));
          if resCrc != crc {
            resCrc, stopped := -1, true;
          }
        }
        break;
      } else if nread != 0 {
        crc := Xor(crc, Signed(buffer[buff]));
      }
      buff, nread := buff + 1, nread + 1;
    }
    if resCrc < 0 && !stopped {
      nread := 0;
    }
  }

  // ---------------------------------------------------------------- what a frame is

  /** The bytes the checksum covers: after the first one, before the star at `k`. */
  function Body(s: string, k: nat): string
    requires k <= |s|
  {
    if k == 0 then "" else s[1..k]
  }

  /** No byte before `k` ends the scan. */
  predicate Quiet(s: string, k: nat)
    requires k <= |s|
  {
    forall j | 0 <= j < k :: s[j] != '*' && (j > 0 ==> s[j] != '$')
  }

  /** A framed sentence: a first byte, a body without framing bytes, and `*hh\r\n` with the checksum of the body. */
  predicate IsFrame(f: string) {
    && |f| >= TAIL_SIZE
    && var k := |f| - TAIL_SIZE;
    && Quiet(f, k) && f[k] == '*' && f[k + 3] == '\r' && f[k + 4] == '\n'
    && Atoi(f[k + 1..k + 3], 16) == Crc(0, Body(f, k)) >= 0
  }

  /** The scan passes quiet bytes and accumulates their checksum. */
  lemma {:induction false} ScanQuiet(s: string, i: nat, k: nat)
    requires i <= k <= |s| && Quiet(s, k)
    ensures ScanTail(s, i, Crc(0, Body(s, i))) == ScanTail(s, k, Crc(0, Body(s, k)))
    decreases k - i
  {
    if i < k {
      if i > 0 {
        CrcConcat(0, Body(s, i), [s[i]]);
        assert Body(s, i + 1) == Body(s, i) + [s[i]];
        assert Crc(Crc(0, Body(s, i)), [s[i]]) == Xor(Crc(0, Body(s, i)), Signed(s[i]));
      }
      ScanQuiet(s, i + 1, k);
    }
  }

  /** The position where the scan stops: the first star, later dollar, or the end. */
  function StopAt(s: string, i: nat): (k: nat)
    requires i <= |s| && Quiet(s, i)
    ensures i <= k <= |s| && Quiet(s, k)
    ensures k < |s| ==> s[k] == '*' || (k > 0 && s[k] == '$')
    decreases |s| - i
  {
    if i == |s| || s[i] == '*' || (i > 0 && s[i] == '$') then i else StopAt(s, i + 1)
  }

  /** The scan decides by the bytes at its stop. */
  lemma TailAtStop(s: string, k: nat)
    requires k <= |s| && Quiet(s, k)
    ensures FindTail(s) == ScanTail(s, k, Crc(0, Body(s, k)))
  {
    ScanQuiet(s, 0, k);
  }

  lemma FrameIsFound(s: string, n: nat)
    requires n <= |s| && IsFrame(s[..n])
    ensures FindTail(s) == Frame(n)
  {
    var f, k := s[..n], n - TAIL_SIZE;
    assert Quiet(s, k) by {
      assert forall j | 0 <= j < k :: s[j] == f[j];
    }
    TailAtStop(s, k);
    assert s[k] == f[k] && s[k + 3] == f[k + 3] && s[k + 4] == f[k + 4];
    assert s[k + 1..k + 3] == f[k + 1..k + 3];
    assert Body(s, k) == Body(f, k);
  }

  lemma FoundIsFrame(s: string, n: nat)
    requires n <= |s| && FindTail(s) == Frame(n)
    ensures IsFrame(s[..n])
  {
    var f, k := s[..n], StopAt(s, 0);
    TailAtStop(s, k);
    assert n == k + TAIL_SIZE;
    assert s[k + 1..k + 3] == f[k + 1..k + 3];
    assert Body(s, k) == Body(f, k);
  }

  /** A prefix is taken as a sentence exactly when it is a framed sentence. */
  lemma FrameExactly(s: string, n: nat)
    requires n <= |s|
    ensures FindTail(s) == Frame(n) <==> IsFrame(s[..n])
  {
    if IsFrame(s[..n]) {
      FrameIsFound(s, n);
    }
    if FindTail(s) == Frame(n) {
      FoundIsFrame(s, n);
    }
  }

  /** What is decided about a prefix stays decided when more bytes arrive. */
  lemma {:induction false} ScanStable(s: string, t: string, i: nat, crc: int)
    requires i <= |s|
    ensures !ScanTail(s, i, crc).Wait? ==> ScanTail(s + t, i, crc) == ScanTail(s, i, crc)
    decreases |s| - i
  {
    if i < |s| {
      if s[i] == '*' {
        if i + TAIL_SIZE <= |s| {
          assert (s + t)[i + 1..i + 3] == s[i + 1..i + 3];
        }
      } else if !(s[i] == '$' && i > 0) {
        ScanStable(s, t, i + 1, if i > 0 then Xor(crc, Signed(s[i])) else crc);
      }
    }
  }

  // ---------------------------------------------------------------- the re-framing loop

  /** The sentences found in a buffer and the bytes that stay in it. */
  datatype Cut = Cut(frames: seq<string>, rest: string)

  function Reframe(s: string): (c: Cut)
    ensures |c.rest| <= |s|
    ensures FindTail(c.rest) == Wait
    decreases |s|
  {
    match FindTail(s)
    case Wait => Cut([], s)
    case Skip(n) => Reframe(s[n..])
    case Frame(n) => var c := Reframe(s[n..]); Cut([s[..n]] + c.frames, c.rest)
  }

  /** Cutting is independent of how the stream is divided. */
  lemma {:induction false} ReframeConcat(a: string, b: string)
    ensures var c, d := Reframe(a), Reframe(Reframe(a).rest + b);
            Reframe(a + b) == Cut(c.frames + d.frames, d.rest)
    decreases |a|
  {
    ScanStable(a, b, 0, 0);
    match FindTail(a)
    case Wait =>
      assert [] + Reframe(a + b).frames == Reframe(a + b).frames;
    case Skip(n) =>
      assert (a + b)[n..] == a[n..] + b;
      ReframeConcat(a[n..], b);
    case Frame(n) =>
      assert (a + b)[n..] == a[n..] + b && (a + b)[..n] == a[..n];
      ReframeConcat(a[n..], b);
      var c, d := Reframe(a[n..]), Reframe(Reframe(a[n..]).rest + b);
      assert [a[..n]] + (c.frames + d.frames) == ([a[..n]] + c.frames) + d.frames;
  }

  /** Everything that is cut out is a framed sentence. */
  lemma {:induction false} FramesAreFrames(s: string)
    ensures forall f <- Reframe(s).frames :: IsFrame(f)
    decreases |s|
  {
    match FindTail(s)
    case Wait =>
    case Skip(n) => FramesAreFrames(s[n..]);
    case Frame(n) => FrameExactly(s, n); FramesAreFrames(s[n..]);
  }

  // ---------------------------------------------------------------- resynchronisation

  /** A sentence as a talker sends it: it opens with a dollar. */
  predicate IsSentence(f: string) {
    |f| > TAIL_SIZE && IsFrame(f) && f[0] == '$'
  }

  /** One body byte replaced by another byte that is no framing byte. */
  predicate IsDamage(f: string, i: nat, c: char) {
    && IsSentence(f) && 0 < i < |f| - TAIL_SIZE
    && c != f[i] && c != '$' && c != '*' && c as int < 256 && f[i] as int < 256
  }

  lemma DamagedBody(f: string, i: nat, c: char, t: string, k: nat)
    requires 0 < i < k <= |f|
    ensures (f[i := c] + t)[1..k] == f[1..k][i - 1 := c]
  {}

  /** A damaged sentence is skipped as a whole, whatever follows. */
  lemma DamagedIsSkipped(f: string, i: nat, c: char, t: string)
    requires IsDamage(f, i, c)
    ensures FindTail(f[i := c] + t) == Skip(|f|)
  {
    var s := f[i := c] + t;
    var k := |f| - TAIL_SIZE;
    ScanQuiet(s, 0, k);
    assert Crc(0, Body(s, 0)) == 0;
    assert s[k + 1..k + 3] == f[k + 1..k + 3];
    DamagedBody(f, i, c, t, k);
    CrcDetectsChange(f[1..k], i - 1, c);
  }

  /** Bytes without a star in front of a dollar are thrown away. */
  lemma {:induction false} NoiseIsSkipped(p: string, t: string)
    requires '*' !in p && t != "" && t[0] == '$'
    ensures Reframe(p + t) == Reframe(t)
    decreases |p|
  {
    if p == "" {
      assert p + t == t;
    } else {
      var k := StopAt(p + t, 0);
      ScanQuiet(p + t, 0, k);
      assert (p + t)[|p|] == '$';
      assert k <= |p|;
      assert (p + t)[k] != '*' by {
        if k < |p| { assert (p + t)[k] == p[k]; }
      }
      assert k > 0;
      assert FindTail(p + t) == Skip(k);
      assert (p + t)[k..] == p[k..] + t;
      NoiseIsSkipped(p[k..], t);
    }
  }

  /** Bytes without a star hold no sentence, and leave bytes without a star. */
  lemma {:induction false} NoiseIsEmpty(p: string)
    requires '*' !in p
    ensures Reframe(p).frames == [] && '*' !in Reframe(p).rest
    decreases |p|
  {
    var k := StopAt(p, 0);
    ScanQuiet(p, 0, k);
    if k < |p| {
      assert FindTail(p) == Skip(k);
      NoiseIsEmpty(p[k..]);
    }
  }

  lemma SentenceIsCut(f: string, t: string)
    requires IsFrame(f)
    ensures Reframe(f + t) == Cut([f] + Reframe(t).frames, Reframe(t).rest)
  {
    assert (f + t)[..|f|] == f && (f + t)[|f|..] == t;
    FrameExactly(f + t, |f|);
  }

  /** A stream is a series of good sentences, sentences with one damaged body byte, and noise. */
  datatype Segment = Good(f: string) | Damaged(f: string, i: nat, c: char) | Noise(text: string)

  predicate ValidSegment(g: Segment) {
    match g
    case Good(f) => IsSentence(f)
    case Damaged(f, i, c) => IsDamage(f, i, c)
    case Noise(t) => '*' !in t
  }

  predicate ValidStream(gs: seq<Segment>) {
    forall i | 0 <= i < |gs| :: ValidSegment(gs[i])
  }

  function BytesOf(g: Segment): string
    requires ValidSegment(g)
  {
    match g
    case Good(f) => f
    case Damaged(f, i, c) => f[i := c]
    case Noise(t) => t
  }

  function Bytes(gs: seq<Segment>): string
    requires ValidStream(gs)
  {
    if gs == [] then "" else BytesOf(gs[0]) + Bytes(gs[1..])
  }

  function GoodSentences(gs: seq<Segment>): seq<string> {
    if gs == [] then []
    else (if gs[0].Good? then [gs[0].f] else []) + GoodSentences(gs[1..])
  }

  lemma GoodIsCut(p: string, f: string, t: string)
    requires '*' !in p && IsSentence(f)
    ensures Reframe(p + (f + t)) == Cut([f] + Reframe(t).frames, Reframe(t).rest)
  {
    hide Reframe;
    NoiseIsSkipped(p, f + t);
    SentenceIsCut(f, t);
  }

  lemma DamagedIsCut(p: string, f: string, i: nat, c: char, t: string)
    requires '*' !in p && IsDamage(f, i, c)
    ensures Reframe(p + (f[i := c] + t)) == Reframe(t)
  {
    var d := f[i := c];
    NoiseIsSkipped(p, d + t);
    DamagedIsSkipped(f, i, c, t);
    assert (d + t)[|f|..] == t;
  }

  lemma FirstSegment(gs: seq<Segment>)
    requires ValidStream(gs) && gs != []
    ensures ValidSegment(gs[0]) && ValidStream(gs[1..])
    ensures Bytes(gs) == BytesOf(gs[0]) + Bytes(gs[1..])
    ensures GoodSentences(gs) == if gs[0].Good? then [gs[0].f] + GoodSentences(gs[1..]) else GoodSentences(gs[1..])
  {
    hide IsDamage, IsSentence;
  }

  /** Exactly the undamaged sentences are recovered, in order, and nothing blocks what comes next. */
  lemma {:induction false} Resynchronises(p: string, gs: seq<Segment>)
    requires '*' !in p && ValidStream(gs)
    ensures Reframe(p + Bytes(gs)).frames == GoodSentences(gs)
    ensures '*' !in Reframe(p + Bytes(gs)).rest
    decreases gs
  {
    hide Reframe, IsSentence, IsDamage, ValidStream;
    if gs == [] {
      assert p + Bytes(gs) == p;
      NoiseIsEmpty(p);
    } else {
      FirstSegment(gs);
      var t := Bytes(gs[1..]);
      assert "" + t == t;
      match gs[0]
      case Good(f) =>
        GoodIsCut(p, f, t);
        Resynchronises("", gs[1..]);
      case Damaged(f, i, c) =>
        DamagedIsCut(p, f, i, c, t);
        Resynchronises("", gs[1..]);
      case Noise(n) =>
        assert p + (n + t) == (p + n) + t;
        Resynchronises(p + n, gs[1..]);
    }
  }

  /** No carriage return before the last two bytes, as the standard's character set demands. */
  predicate IsPlainSentence(f: string) {
    IsSentence(f) && '\r' !in f[..|f| - 2]
  }

  /** A star left in the buffer blocks a sentence that arrives after it. */
  lemma StarBlocks(r: string, f: string)
    requires FindTail(r) == Wait && '*' in r && IsPlainSentence(f)
    ensures FindTail(r + f) == Wait
  {
    var k := StopAt(r, 0);
    ScanQuiet(r, 0, k);
    assert k < |r| && r[k] == '*';
    ScanQuiet(r + f, 0, k);
    assert Crc(0, Body(r, 0)) == Crc(0, Body(r + f, 0)) == 0;
    assert Body(r + f, k) == Body(r, k);
    if k + TAIL_SIZE <= |r| {
      assert (r + f)[k + 1..k + 3] == r[k + 1..k + 3];
    } else if k + 4 < |r + f| {
      var j := k + 4 - |r|;
      assert (r + f)[k + 4] == f[j];
      if j > 0 {
        assert f[j - 1] in f[..|f| - 2];
      }
    }
  }

  /** After arbitrary bytes `g`, a sentence is recovered at once and the buffer emptied if and only if
      the bytes that `g` leaves in the buffer hold no star. */
  lemma RecoveredExactly(g: string, f: string)
    requires IsPlainSentence(f)
    ensures Reframe(g + f) == Cut(Reframe(g).frames + [f], "") <==> '*' !in Reframe(g).rest
  {
    var r := Reframe(g).rest;
    ReframeConcat(g, f);
    if '*' in r {
      StarBlocks(r, f);
    } else {
      NoiseIsSkipped(r, f);
      SentenceIsCut(f, "");
      assert f + "" == f;
    }
  }

  /** Such bytes exist: one lone star. */
  lemma LoneStarBlocks(f: string)
    requires IsPlainSentence(f)
    ensures Reframe("*" + f) == Cut([], "*" + f)
  {
    StarBlocks("*", f);
  }
}
