/** The pattern formatter of include/spdlog/pattern_formatter-inl.h: padding, compiled patterns and cached times. */
module LogFormat {
  import opened Options
  import opened Decimals
  import opened Machine
  import opened LogPattern

  // ---------------------------------------------------------------- padding

  /** A text in its padding. */
  function PadText(text: string, p: Padding): string {
    match p
    case NoPadding => text
    case Padding(width, side, truncate) =>
      if width <= |text| then if truncate then text[..width] else text
      else
        var k := width - |text|;
        match side
        case Left => Spaces(k) + text
        case Right => text + Spaces(k)
        case Center => Spaces(k / 2) + text + Spaces(k - k / 2)
  }

  /** `r` is the text with `i` spaces in front and spaces behind. */
  ghost predicate Surrounds(r: string, text: string, i: nat) {
    && i + |text| <= |r| && r[i..i + |text|] == text
    && (forall j | 0 <= j < i || i + |text| <= j < |r| :: r[j] == ' ')
  }

  /** Which of `total` spaces go in front: all, none, or half of them rounded down. */
  predicate OnSide(side: Side, i: nat, total: nat) {
    match side
    case Left => i == total
    case Right => i == 0
    case Center => 2 * i <= total <= 2 * i + 1
  }

  /** A padded text is exactly as long as the larger of width and length, or as the width when truncating;
      a text that fits stays whole with spaces on the side asked for, and a longer one keeps its beginning. */
  lemma PadTextIsExact(text: string, width: nat, side: Side, truncate: bool)
    ensures var r := PadText(text, Padding(width, side, truncate));
            && |r| == (if truncate || width > |text| then width else |text|)
            && (|text| <= width ==> exists i: nat :: Surrounds(r, text, i) && OnSide(side, i, width - |text|))
            && (|text| > width ==> r <= text)
  {
    var r := PadText(text, Padding(width, side, truncate));
    if |text| <= width {
      var k := width - |text|;
      var i := match side case Left => k case Right => 0 case Center => k / 2;
      assert Surrounds(r, text, i) && OnSide(side, i, k);
    }
  }

  /** What a padder does to the buffer when the text has another length than announced: None if the buffer would
      have to shrink below nothing. */
  function Padded(dest: string, text: string, announced: nat, p: Padding): Option<string> {
    match p
    case NoPadding => Some(dest + text)
    case Padding(width, side, truncate) =>
      var k := width - announced;
      if k > 0 then
        match side
        case Left => Some(dest + Spaces(k) + text)
        case Right => Some(dest + text + Spaces(k))
        case Center => Some(dest + Spaces(k / 2) + text + Spaces(k - k / 2))
      else if !truncate then Some(dest + text)
      else if |dest| + |text| + k >= 0 then Some((dest + text)[..|dest| + |text| + k])
      else None
  }

  /** The field is padded as meant exactly if its length was announced rightly, or neither length needs a padding. */
  lemma PaddedAsMeant(dest: string, text: string, announced: nat, width: nat, side: Side, truncate: bool)
    ensures var p := Padding(width, side, truncate);
            Padded(dest, text, announced, p) == Some(dest + PadText(text, p))
            <==> announced == |text| || (!truncate && announced >= width && |text| >= width)
  {
    var k := width - announced;
    var meant := PadText(text, Padding(width, side, truncate));
    if announced == |text| {
      if k <= 0 {
        assert truncate ==> (dest + text)[..|dest| + |text| + k] == dest + text[..width];
      } else {
        assert dest + Spaces(k) + text == dest + (Spaces(k) + text);
        assert dest + text + Spaces(k) == dest + (text + Spaces(k));
        assert dest + Spaces(k / 2) + text + Spaces(k - k / 2) == dest + (Spaces(k / 2) + text + Spaces(k - k / 2));
      }
    } else if truncate || announced < width || |text| < width {
      PadTextIsExact(text, width, side, truncate);
      var p := Padded(dest, text, announced, Padding(width, side, truncate));
      assert p.Some? ==> |p.value| == |dest| + |text| + if k > 0 || truncate then k else 0;
    }
  }

  /** The constructor of `scoped_padder`, before the text is written. */
  method OpenPadder(dest: string, announced: nat, p: Padding) returns (out: string, remaining: int)
    requires p.Padding? && p.width <= MAX_WIDTH
    ensures p.side == Left && p.width > announced ==> out == dest + Spaces(p.width - announced) && remaining == 0
    ensures p.side == Center && p.width > announced ==>
              var k := p.width - announced; out == dest + Spaces(k / 2) && remaining == k - k / 2
    ensures p.side == Right || p.width <= announced ==> out == dest && remaining == p.width - announced
  {
    out, remaining := dest, p.width - announced;
    if remaining <= 0 {
      return;
    }
    if p.side == Left {
      out := PadIt(out, remaining);
      remaining := 0;
    } else if p.side == Center {
      var halfPad := remaining / 2;
      var reminder := remaining % 2;
      out := PadIt(out, halfPad);
      remaining := halfPad + reminder;
    }
  }

  /** `pad_it`: there are only so many spaces to copy from. */
  method PadIt(dest: string, count: nat) returns (out: string)
    requires count <= MAX_WIDTH
    ensures out == dest + Spaces(count)
  {
    var spaces := Spaces(MAX_WIDTH);
    out := dest + spaces[..count];
  }

  /** The destructor, after the text was written. */
  method ClosePadder(dest: string, remaining: int, p: Padding) returns (out: Option<string>)
    requires p.Padding? && remaining <= MAX_WIDTH
    ensures out == if remaining >= 0 then Some(dest + Spaces(remaining))
                   else if !p.truncate then Some(dest)
                   else if |dest| + remaining >= 0 then Some(dest[..|dest| + remaining]) else None
  {
    if remaining >= 0 {
      var padded := PadIt(dest, remaining);
      out := Some(padded);
    } else if p.truncate {
      var newSize := |dest| + remaining;
      out := if newSize >= 0 then Some(dest[..newSize]) else None;
    } else {
      out := Some(dest);
    }
  }

  /** A field between the two, or without any padder. */
  method AppendField(dest: string, text: string, announced: nat, p: Padding) returns (out: Option<string>)
    requires p.Padding? ==> p.width <= MAX_WIDTH
    ensures out == Padded(dest, text, announced, p)
  {
    if p == NoPadding {
      return Some(dest + text);
    }
    var begun, remaining := OpenPadder(dest, announced, p);
    out := ClosePadder(begun + text, remaining, p);
    assert begun + text + Spaces(0) == begun + text;
  }

  /** Every field that announces the length of its text is padded as meant. */
  method ShowPadded(dest: string, text: string, p: Padding) returns (out: string)
    requires p.Padding? ==> p.width <= MAX_WIDTH
    ensures out == dest + PadText(text, p)
  {
    hide Padded, PadText;
    var padded := AppendField(dest, text, |text|, p);
    PaddedWhenExact(dest, text, p);
    out := padded.value;
  }

  lemma PaddedWhenExact(dest: string, text: string, p: Padding)
    ensures Padded(dest, text, |text|, p) == Some(dest + PadText(text, p))
  {
    if p.Padding? {
      PaddedAsMeant(dest, text, |text|, p.width, p.side, p.truncate);
    }
  }

  // ---------------------------------------------------------------- messages and times

  /** The parts of `std::tm` that are shown; the year counts from 1900 and the month from 0. */
  datatype Tm = Tm(year: int, mon: int, mday: int, hour: int, min: int, sec: int)

  const ZERO_TM := Tm(0, 0, 0, 0, 0, 0)

  /** A message at whole seconds and a fraction of the epoch, which have the same sign. */
  datatype LogMsg = LogMsg(
    secs: int, millis: int, name: string, level: string, payload: string, source: Option<(string, int)>)

  /** What the formatter does not decide: the calendar, the fields made by their own formatters, and user flags. */
  datatype World = World(
    tmOf: int -> Tm, field: (char, LogMsg, Tm) -> string, custom: (char, Padding, LogMsg, Tm) -> string)

  function Pad2(n: int): string {
    if 0 <= n < 100 then [Digit(n / 10), Digit(n % 10)] else PrintInt(n, 2)
  }

  function Pad3(n: nat): string {
    if n < 1000 then [Digit(n / 100), Digit(n % 100 / 10), Digit(n % 10)] else Dec(n)
  }

  /** The date and time up to the point before the milliseconds. */
  function DateText(tm: Tm): (s: string)
    ensures s != ""
  {
    "[" + PrintInt(tm.year + 1900, 0) + "-" + Pad2(tm.mon + 1) + "-" + Pad2(tm.mday) + " " + Pad2(tm.hour) + ":" +
    Pad2(tm.min) + ":" + Pad2(tm.sec) + "."
  }

  /** The file name behind the last folder separator. */
  function Basename(path: string): string {
    if '/' !in path then path else Basename(path[1..])
  }

  /** The default format behind the date. */
  function AfterDate(msg: LogMsg): string {
    Pad3(msg.millis % 0x1_0000_0000) + "] " +
    (if |msg.name| > 0 then "[" + msg.name + "] " else "") +
    "[" + msg.level + "] " +
    (match msg.source
     case Some((file, line)) => "[" + Basename(file) + ":" + PrintInt(line, 0) + "] "
     case None => "") +
    msg.payload
  }

  /** These flags show nothing, not even padding, for a message without source. */
  const SOURCE_FLAGS: set<char> := { '@', 's', 'g', '#', '!' }

  function FieldText(world: World, flag: char, msg: LogMsg, tm: Tm): string {
    if flag == 'n' then msg.name
    else if flag == 'l' then msg.level
    else if flag == 'v' then msg.payload
    else world.field(flag, msg, tm)
  }

  /** What one formatter adds, with nothing cached. */
  function Show(world: World, f: Formatter, tm: Tm, msg: LogMsg): string {
    match f
    case Custom(flag, padding) => world.custom(flag, padding, msg, tm)
    case Full(_, _) => DateText(tm) + AfterDate(msg)
    case Field(flag, padding) =>
      if flag in SOURCE_FLAGS && msg.source == None then "" else PadText(FieldText(world, flag, msg, tm), padding)
    case ColorStart => ""
    case ColorStop => ""
    case Single(c) => [c]
    case Chars(text) => text
  }

  function Line(world: World, fs: seq<Formatter>, tm: Tm, msg: LogMsg): string {
    if fs == [] then "" else Line(world, fs[..|fs| - 1], tm, msg) + Show(world, fs[|fs| - 1], tm, msg)
  }

  // ---------------------------------------------------------------- what a pattern shows

  function ShowPiece(world: World, p: Piece, tm: Tm, msg: LogMsg): string {
    match p
    case Plain(c) => [c]
    case Shown(f) => Show(world, f, tm, msg)
  }

  function ShowPieces(world: World, ps: seq<Piece>, tm: Tm, msg: LogMsg): string {
    if ps == [] then "" else ShowPiece(world, ps[0], tm, msg) + ShowPieces(world, ps[1..], tm, msg)
  }

  lemma {:induction false} ShowPiecesConcat(world: World, ps: seq<Piece>, qs: seq<Piece>, tm: Tm, msg: LogMsg)
    ensures ShowPieces(world, ps + qs, tm, msg) == ShowPieces(world, ps, tm, msg) + ShowPieces(world, qs, tm, msg)
  {
    hide ShowPiece;
    if ps == [] {
      assert ps + qs == qs;
    } else {
      assert (ps + qs)[1..] == ps[1..] + qs;
      ShowPiecesConcat(world, ps[1..], qs, tm, msg);
    }
  }

  lemma {:induction false} ShowPlains(world: World, text: string, tm: Tm, msg: LogMsg)
    ensures ShowPieces(world, Plains(text), tm, msg) == text
  {
    if text != "" {
      assert Plains(text)[1..] == Plains(text[1..]);
      ShowPlains(world, text[1..], tm, msg);
    }
  }

  lemma ShowOne(world: World, f: Formatter, tm: Tm, msg: LogMsg)
    ensures ShowPieces(world, PiecesOf(f), tm, msg) == Show(world, f, tm, msg)
  {
    if f.Chars? {
      ShowPlains(world, f.text, tm, msg);
    } else {
      assert PiecesOf(f)[1..] == [];
      assert Show(world, f, tm, msg) + "" == Show(world, f, tm, msg);
    }
  }

  lemma {:induction false} LineIsItsPieces(world: World, fs: seq<Formatter>, tm: Tm, msg: LogMsg)
    ensures Line(world, fs, tm, msg) == ShowPieces(world, Pieces(fs), tm, msg)
  {
    hide Show, PiecesOf;
    if fs != [] {
      var last := |fs| - 1;
      LineIsItsPieces(world, fs[..last], tm, msg);
      PiecesConcat(fs[..last], [fs[last]]);
      PiecesOfOne(fs[last]);
      assert fs[..last] + [fs[last]] == fs;
      ShowPiecesConcat(world, Pieces(fs[..last]), PiecesOf(fs[last]), tm, msg);
      ShowOne(world, fs[last], tm, msg);
    }
  }

  /** What the elements of a pattern show, one after the other. */
  function ItemsText(world: World, custom: set<char>, items: seq<Item>, tm: Tm, msg: LogMsg): string {
    if items == [] then ""
    else
      (match items[0]
       case Text(text) => text
       case Flag(flag, padding) => Show(world, Meaning(custom, flag, Clamped(padding)), tm, msg)) +
      ItemsText(world, custom, items[1..], tm, msg)
  }

  lemma {:induction false} PiecesShowItems(world: World, custom: set<char>, items: seq<Item>, tm: Tm, msg: LogMsg)
    ensures ShowPieces(world, AllPieces(custom, items), tm, msg) == ItemsText(world, custom, items, tm, msg)
  {
    hide Show, Meaning, PiecesOf, Plains;
    if items != [] {
      PiecesShowItems(world, custom, items[1..], tm, msg);
      ShowPiecesConcat(world, ItemPieces(custom, items[0]), AllPieces(custom, items[1..]), tm, msg);
      match items[0] {
        case Text(text) => ShowPlains(world, text, tm, msg);
        case Flag(flag, padding) => ShowOne(world, Meaning(custom, flag, Clamped(padding)), tm, msg);
      }
    }
  }

  /** A compiled pattern shows what was printed into it: the texts as they are, and each flag in its padding. */
  lemma CompiledPatternShowsItems(world: World, custom: set<char>, items: seq<Item>, tm: Tm, msg: LogMsg)
    requires forall i | 0 <= i < |items| :: Printable(custom, items[i])
    ensures Line(world, Compile(custom, Print(items), ""), tm, msg) == ItemsText(world, custom, items, tm, msg)
  {
    CompileInvertsPrint(custom, items);
    LineIsItsPieces(world, Compile(custom, Print(items), ""), tm, msg);
    PiecesShowItems(world, custom, items, tm, msg);
  }

  /** An escaped text formats to itself. */
  lemma EscapedTextFormatsToItself(world: World, custom: set<char>, text: string, tm: Tm, msg: LogMsg)
    requires '%' in text ==> '%' !in custom
    ensures Line(world, Compile(custom, Escape(text), ""), tm, msg) == text
  {
    EscapedTextShowsItself(custom, text);
    LineIsItsPieces(world, Compile(custom, Escape(text), ""), tm, msg);
    ShowPlains(world, text, tm, msg);
  }

  // ---------------------------------------------------------------- cached times over a run

  /** The calendar time a message is formatted with: in second 0 it is blank until another second was seen. */
  function TmUsed(world: World, refreshed: bool, secs: int): Tm {
    if secs == 0 && !refreshed then ZERO_TM else world.tmOf(secs)
  }

  function TmsUsed(world: World, refreshed: bool, msgs: seq<LogMsg>): (r: seq<Tm>)
    ensures |r| == |msgs|
    decreases msgs
  {
    if msgs == [] then []
    else [TmUsed(world, refreshed, msgs[0].secs)] + TmsUsed(world, refreshed || msgs[0].secs != 0, msgs[1..])
  }

  lemma {:induction false} RefreshedIsTransparent(world: World, msgs: seq<LogMsg>)
    ensures forall i | 0 <= i < |msgs| :: TmsUsed(world, true, msgs)[i] == world.tmOf(msgs[i].secs)
  {
    if msgs != [] {
      RefreshedIsTransparent(world, msgs[1..]);
      forall i | 0 <= i < |msgs| ensures TmsUsed(world, true, msgs)[i] == world.tmOf(msgs[i].secs) {
        if i > 0 {
          assert TmsUsed(world, true, msgs)[i] == TmsUsed(world, true, msgs[1..])[i - 1];
        }
      }
    }
  }

  /** From a new formatter, every message of a run gets its own time exactly if the first is not in second 0. */
  lemma CachingIsTransparent(world: World, msgs: seq<LogMsg>)
    ensures (forall i | 0 <= i < |msgs| :: TmsUsed(world, false, msgs)[i] == world.tmOf(msgs[i].secs))
            <==> msgs == [] || msgs[0].secs != 0 || world.tmOf(0) == ZERO_TM
  {
    if msgs == [] {
    } else if msgs[0].secs == 0 && world.tmOf(0) != ZERO_TM {
      assert TmsUsed(world, false, msgs)[0] == ZERO_TM;
    } else if msgs[0].secs != 0 {
      RefreshedIsTransparent(world, msgs);
      assert TmsUsed(world, false, msgs) == TmsUsed(world, true, msgs);
    } else {
      BlankIsRight(world, msgs);
    }
  }

  lemma {:induction false} BlankIsRight(world: World, msgs: seq<LogMsg>)
    requires world.tmOf(0) == ZERO_TM
    ensures TmsUsed(world, false, msgs) == TmsUsed(world, true, msgs)
    ensures forall i | 0 <= i < |msgs| :: TmsUsed(world, false, msgs)[i] == world.tmOf(msgs[i].secs)
  {
    RefreshedIsTransparent(world, msgs);
    if msgs != [] {
      BlankIsRight(world, msgs[1..]);
    }
  }

  // ---------------------------------------------------------------- the formatter object

  /** The formatters without what they have cached. */
  function Fresh(fs: seq<Formatter>): (r: seq<Formatter>)
    ensures |r| == |fs|
  {
    seq(|fs|, i requires 0 <= i < |fs| => if fs[i].Full? then NEW_FULL else fs[i])
  }

  lemma {:induction false} FreshLine(world: World, fs: seq<Formatter>, tm: Tm, msg: LogMsg)
    ensures Line(world, Fresh(fs), tm, msg) == Line(world, fs, tm, msg)
  {
    if fs != [] {
      var last := |fs| - 1;
      FreshLine(world, fs[..last], tm, msg);
      assert Fresh(fs)[..last] == Fresh(fs[..last]);
    }
  }

  /** A formatter as the compiler makes it. */
  predicate IsNew(f: Formatter) {
    (f.Full? ==> f == NEW_FULL) && NarrowEnough(f)
  }

  lemma {:induction false} CompiledAreNew(custom: set<char>, s: string, user: string)
    ensures forall f | f in Compile(custom, s, user) :: IsNew(f)
    decreases |s|
  {
    hide ReadPadding, Meaning, IsNew;
    PlainIsNew(user);
    if s != "" {
      if s[0] != '%' {
        CompiledAreNew(custom, s[1..], user + [s[0]]);
      } else {
        var p := ReadPadding(s[1..]);
        var rest := s[1 + p.1..];
        if rest != "" {
          CompiledAreNew(custom, rest[1..], "");
          MeaningIsNew(custom, rest[0], p.0);
        }
      }
    }
  }

  lemma PlainIsNew(user: string)
    ensures IsNew(Chars(user))
  {}

  lemma MeaningIsNew(custom: set<char>, flag: char, padding: Padding)
    requires padding.Padding? ==> padding.width <= MAX_WIDTH
    ensures IsNew(Meaning(custom, flag, padding))
  {}

  /** Widths stay within what the padder has spaces for. */
  predicate NarrowEnough(f: Formatter) {
    f.Field? && f.padding.Padding? ==> f.padding.width <= MAX_WIDTH
  }

  /** A cached date text is empty or that of the second it was made in. */
  predicate Cached(f: Formatter, secs: int, tm: Tm) {
    f.Full? ==> f.cachedText == "" || (f.cacheSecs == secs && f.cachedText == DateText(tm))
  }

  class PatternFormatter {
    var pattern: string
    const eol: string
    const world: World
    var custom: set<char>
    var formatters: seq<Formatter>
    var cachedTm: Tm
    var lastLogSecs: int
    ghost var compiledFor: set<char>  // the user flags when the pattern was compiled
    ghost var refreshed: bool         // whether a time other than second 0 was seen

    ghost predicate Valid()
      reads this
    {
      && Fresh(formatters) == Compile(compiledFor, pattern, "")
      && (if refreshed then cachedTm == world.tmOf(lastLogSecs) else cachedTm == ZERO_TM && lastLogSecs == 0)
      && (forall i | 0 <= i < |formatters| ::
            Cached(formatters[i], lastLogSecs, cachedTm) && NarrowEnough(formatters[i]))
    }

    constructor (pattern: string, eol: string, custom: set<char>, world: World)
      ensures Valid() && !refreshed
      ensures this.pattern == pattern && this.eol == eol && this.world == world
      ensures this.custom == compiledFor == custom
    {
      this.pattern, this.eol, this.world, this.custom, compiledFor := pattern, eol, world, custom, custom;
      cachedTm, lastLogSecs, refreshed, formatters := ZERO_TM, 0, false, [];
      new;
      CompilePattern(pattern);
      NewlyCompiled(custom, pattern);
    }

    /** Without a pattern the full formatter is taken directly, which is what its pattern compiles to. */
    constructor Default(eol: string, world: World)
      ensures Valid() && !refreshed
      ensures pattern == "%+" && this.eol == eol && this.world == world && custom == compiledFor == {}
    {
      pattern, this.eol, this.world, custom, compiledFor := "%+", eol, world, {}, {};
      cachedTm, lastLogSecs, refreshed, formatters := ZERO_TM, 0, false, [NEW_FULL];
      new;
      hide Compile;
      DefaultPattern();
    }

    /** A user flag is taken note of, but the pattern is not compiled again. */
    method AddFlag(flag: char)
      requires Valid()
      modifies `custom
      ensures Valid() && custom == old(custom) + {flag}
    {
      custom := custom + {flag};
    }

    method SetPattern(p: string)
      requires Valid()
      modifies this
      ensures Valid() && pattern == p && compiledFor == custom == old(custom) && refreshed == old(refreshed)
    {
      pattern := p;
      CompilePattern(p);
      NewlyCompiled(custom, p);
    }

    /** A copy compiles the pattern once more, with the user flags of now and with nothing cached. */
    method Clone() returns (copy: PatternFormatter)
      requires Valid()
      ensures copy.Valid() && fresh(copy) && !copy.refreshed && copy.compiledFor == copy.custom == custom
      ensures copy.pattern == pattern && copy.eol == eol && copy.world == world
    {
      copy := new PatternFormatter(pattern, eol, custom, world);
    }

    /** Formatting a message adds its line; what is shown never depends on what was cached. */
    method Format(msg: LogMsg, dest: string) returns (out: string)
      requires Valid()
      modifies `cachedTm, `lastLogSecs, `refreshed, `formatters
      ensures Valid() && refreshed == (old(refreshed) || msg.secs != 0)
      ensures var fs := Compile(compiledFor, pattern, "");
              out == dest + Line(world, fs, TmUsed(world, old(refreshed), msg.secs), msg) + eol
    {
      hide Line, Show, Compile, Fresh, DateText;
      if msg.secs != lastLogSecs {
        cachedTm := world.tmOf(msg.secs);
        lastLogSecs := msg.secs;
        refreshed := true;
      }
      ghost var fs := formatters;
      assert forall j | 0 <= j < |fs| :: Cached(fs[j], old(lastLogSecs), old(cachedTm));
      out := dest;
      NoLine(world, fs, cachedTm, msg);
      for i := 0 to |formatters|
        invariant |formatters| == |fs| && Fresh(formatters) == Fresh(fs)
        invariant forall j | i <= j < |fs| :: formatters[j] == fs[j]
        invariant forall j | 0 <= j < |fs| :: NarrowEnough(formatters[j])
        invariant forall j | 0 <= j < i :: Cached(formatters[j], lastLogSecs, cachedTm)
        invariant out == dest + Line(world, fs[..i], cachedTm, msg)
        modifies `formatters
      {
        ghost var before := formatters;
        assert Cached(fs[i], old(lastLogSecs), old(cachedTm));
        out := FormatOne(i, msg, out);
        NextOfLine(world, fs, i, cachedTm, msg);
        SameFresh(before, i, formatters[i]);
      }
      assert fs[..|fs|] == fs;
      FreshLine(world, fs, cachedTm, msg);
      out := out + eol;
    }

    /** One formatter; the full one keeps its date text for the next message of the same second. */
    method FormatOne(i: nat, msg: LogMsg, dest: string) returns (out: string)
      requires i < |formatters| && NarrowEnough(formatters[i])
      requires var f := formatters[i];
               f.Full? && f.cacheSecs == msg.secs && f.cachedText != "" ==> f.cachedText == DateText(cachedTm)
      modifies `formatters
      ensures |formatters| == |old(formatters)| && formatters == old(formatters)[i := formatters[i]]
      ensures formatters[i] == if old(formatters[i]).Full? then Full(msg.secs, DateText(cachedTm))
              else old(formatters[i])
      ensures out == dest + Show(world, old(formatters[i]), cachedTm, msg)
    {
      hide DateText, PadText, FieldText, AfterDate;
      match formatters[i]
      case Custom(flag, padding) => out := dest + world.custom(flag, padding, msg, cachedTm);
      case Full(secs, text) =>
        if secs != msg.secs || |text| == 0 {
          formatters := formatters[i := Full(msg.secs, DateText(cachedTm))];
        }
        out := dest + formatters[i].cachedText + AfterDate(msg);
      case Field(flag, padding) =>
        if flag in SOURCE_FLAGS && msg.source == None {
          return dest;
        }
        out := ShowPadded(dest, FieldText(world, flag, msg, cachedTm), padding);
      case ColorStart => out := dest;
      case ColorStop => out := dest;
      case Single(c) => out := dest + [c];
      case Chars(text) => out := dest + text;
    }

    method HandleFlag(flag: char, padding: Padding)
      modifies `formatters
      ensures formatters == old(formatters) + [Meaning(custom, flag, padding)]
    {
      if flag in custom {
        formatters := formatters + [Custom(flag, padding)];
        return;
      }
      if flag == '+' {
        formatters := formatters + [NEW_FULL];
      } else if flag == '^' {
        formatters := formatters + [ColorStart];
      } else if flag == '$' {
        formatters := formatters + [ColorStop];
      } else if flag == '%' {
        formatters := formatters + [Single('%')];
      } else if flag in FIELD_FLAGS {
        formatters := formatters + [Field(Canonical(flag), padding)];
      } else {
        formatters := formatters + [Chars(['%', flag])];
      }
    }

    /** The loop over the digits of a width, of which there is at least one. */
    static method HandleWidth(pattern: string, start: nat) returns (width: nat, it: nat)
      requires start < |pattern| && IsDigit(pattern[start])
      ensures start < it <= |pattern| && width < SIZE_T
      ensures (width, it - start) == ReadWidth(pattern[start..], 0)
    {
      width := pattern[start] as int - '0' as int;
      it := start + 1;
      DigitRead(pattern, start, 0);
      hide ReadWidth;
      while it < |pattern| && IsDigit(pattern[it])
        invariant start < it <= |pattern| && width < SIZE_T
        invariant var r := ReadWidth(pattern[it..], width); ReadWidth(pattern[start..], 0) == (r.0, r.1 + it - start)
      {
        DigitRead(pattern, it, width);
        width := (width * 10 + (pattern[it] as int - '0' as int)) % SIZE_T;
        it := it + 1;
      }
      NoDigitRead(pattern, it, width);
    }

    /** Reads a padding and moves the position behind it. */
    static method HandlePadspec(pattern: string, start: nat) returns (padding: Padding, it: nat)
      requires start <= |pattern|
      ensures start <= it <= |pattern|
      ensures (padding, it - start) == ReadPadding(pattern[start..])
    {
      hide ReadWidth, Clamp;
      it := start;
      if it == |pattern| {
        return NoPadding, it;
      }
      var side := Left;
      if pattern[it] == '-' {
        side, it := Right, it + 1;
      } else if pattern[it] == '=' {
        side, it := Center, it + 1;
      }
      ghost var from := it;
      SideRead(pattern, start, from, side);
      hide ReadPadding;
      if it == |pattern| || !IsDigit(pattern[it]) {
        NoDigitRead(pattern, it, 0);
        return NoPadding, it;
      }
      var width;
      width, it := HandleWidth(pattern, it);
      var truncate := false;
      if it < |pattern| && pattern[it] == '!' {
        truncate, it := true, it + 1;
      }
      padding := Padding(Clamp(width), side, truncate);
    }

    /** The plain characters found so far become a formatter. */
    method FlushChars(userChars: string)
      modifies `formatters
      ensures formatters == old(formatters) + Flush(userChars)
    {
      if userChars != "" {
        formatters := formatters + [Chars(userChars)];
      }
    }

    method CompilePattern(pattern: string)
      modifies `formatters, `compiledFor
      ensures formatters == Compile(custom, pattern, "") && compiledFor == custom
    {
      hide ReadPadding, Meaning, Compile, Flush;
      formatters, compiledFor := [], custom;
      var userChars := "";
      var it := 0;
      ghost var all := Compile(custom, pattern, "");
      assert pattern[0..] == pattern && [] + all == all;
      while it < |pattern|
        invariant it <= |pattern| && compiledFor == custom
        invariant formatters + Compile(custom, pattern[it..], userChars) == all
      {
        CompileStep(custom, pattern, it, userChars);
        ghost var was := formatters;
        if pattern[it] == '%' {
          FlushChars(userChars);
          userChars := "";
          var padding;
          padding, it := HandlePadspec(pattern, it + 1);
          if it == |pattern| {
            CompileEnd(custom, pattern[it..], userChars);
            assert formatters + [] == formatters;
            break;
          }
          ghost var m, after := Meaning(custom, pattern[it], padding), Compile(custom, pattern[it + 1..], "");
          HandleFlag(pattern[it], padding);
          FourLists(was, formatters[|was|..|formatters| - 1], [m], after);
        } else {
          userChars := userChars + [pattern[it]];
        }
        it := it + 1;
      }
      CompileEnd(custom, pattern[it..], userChars);
      FlushChars(userChars);
      assert formatters == all;
    }
  }

  lemma FourLists(a: seq<Formatter>, b: seq<Formatter>, c: seq<Formatter>, d: seq<Formatter>)
    ensures a + (b + (c + d)) == a + b + c + d
  {}

  lemma CompileStep(custom: set<char>, s: string, i: nat, user: string)
    requires i < |s|
    ensures s[i] != '%' ==> Compile(custom, s[i..], user) == Compile(custom, s[i + 1..], user + [s[i]])
    ensures s[i] == '%' ==>
              var p := ReadPadding(s[i + 1..]);
              var k := i + 1 + p.1;
              Compile(custom, s[i..], user) ==
              Flush(user) + if k == |s| then [] else [Meaning(custom, s[k], p.0)] + Compile(custom, s[k + 1..], "")
  {
    hide ReadPadding, Meaning;
    var t := s[i..];
    assert t[1..] == s[i + 1..];
    if s[i] == '%' {
      var n := ReadPadding(t[1..]).1;
      assert t[1 + n..] == s[i + 1 + n..];
      if i + 1 + n < |s| {
        assert s[i + 1 + n..][1..] == s[i + 2 + n..];
      }
    }
  }

  lemma CompileEnd(custom: set<char>, s: string, user: string)
    ensures s == "" ==> Compile(custom, s, user) == Flush(user)
    ensures Flush("") == []
  {}

  lemma SideRead(s: string, start: nat, from: nat, side: Side)
    requires start <= from <= |s| && ReadSide(s[start..]) == (side, from - start)
    ensures ReadPadding(s[start..]) == AfterSide(side, from - start, s[from..])
  {
    hide AfterSide;
    assert s[start..][from - start..] == s[from..];
  }

  lemma DigitRead(s: string, i: nat, acc: nat)
    requires i < |s| && IsDigit(s[i])
    ensures var next := (acc * 10 + (s[i] as int - '0' as int)) % SIZE_T;
            var r := ReadWidth(s[i + 1..], next);
            ReadWidth(s[i..], acc) == (r.0, r.1 + 1)
  {
    assert s[i..][1..] == s[i + 1..];
  }

  lemma NoDigitRead(s: string, i: nat, acc: nat)
    requires i <= |s| && (i < |s| ==> !IsDigit(s[i]))
    ensures ReadWidth(s[i..], acc) == (acc, 0)
  {}

  lemma DefaultPattern()
    ensures Compile({}, "%+", "") == [NEW_FULL] && Fresh([NEW_FULL]) == [NEW_FULL]
  {
    var s := "+";
    assert "%+"[1..] == s && s[1..] == "" && s[0..] == s;
    assert ReadPadding(s) == (NoPadding, 0);
    hide ReadPadding;
  }

  lemma NewlyCompiled(custom: set<char>, pattern: string)
    ensures var fs := Compile(custom, pattern, "");
            && Fresh(fs) == fs
            && forall i | 0 <= i < |fs| :: NarrowEnough(fs[i]) && forall secs, tm :: Cached(fs[i], secs, tm)
  {
    var fs := Compile(custom, pattern, "");
    CompiledAreNew(custom, pattern, "");
    hide Compile;
    assert forall i | 0 <= i < |fs| :: fs[i] in fs;
  }

  lemma NoLine(world: World, fs: seq<Formatter>, tm: Tm, msg: LogMsg)
    ensures Line(world, fs[..0], tm, msg) == ""
  {}

  lemma NextOfLine(world: World, fs: seq<Formatter>, i: nat, tm: Tm, msg: LogMsg)
    requires i < |fs|
    ensures Line(world, fs[..i + 1], tm, msg) == Line(world, fs[..i], tm, msg) + Show(world, fs[i], tm, msg)
  {
    hide Show;
    assert fs[..i + 1][..i] == fs[..i];
  }

  lemma SameFresh(fs: seq<Formatter>, i: nat, f: Formatter)
    requires i < |fs| && (if fs[i].Full? then f.Full? else f == fs[i])
    ensures Fresh(fs[i := f]) == Fresh(fs)
  {}

  /** Message after message: each gets the line for the time that was used, which is its own time from the first message
      on that is not in second 0, whatever was cached in between. */
  method FormatEach(f: PatternFormatter, msgs: seq<LogMsg>) returns (lines: seq<string>)
    requires f.Valid()
    modifies f
    ensures f.Valid() && |lines| == |msgs| && f.pattern == old(f.pattern) && f.compiledFor == old(f.compiledFor)
    ensures forall i | 0 <= i < |msgs| ::
              lines[i] == Line(f.world, Compile(f.compiledFor, f.pattern, ""),
                               TmsUsed(f.world, old(f.refreshed), msgs)[i], msgs[i]) + f.eol
    ensures old(f.refreshed) || (msgs != [] && msgs[0].secs != 0) ==>
              forall i | 0 <= i < |msgs| ::
                lines[i] == Line(f.world, Compile(f.compiledFor, f.pattern, ""), f.world.tmOf(msgs[i].secs),
                                 msgs[i]) + f.eol
  {
    hide Line, Compile, Fresh, DateText;
    ghost var used := TmsUsed(f.world, f.refreshed, msgs);
    lines := [];
    assert msgs[0..] == msgs && used[0..] == used;
    for i := 0 to |msgs|
      invariant f.Valid() && |lines| == i && f.pattern == old(f.pattern) && f.compiledFor == old(f.compiledFor)
      invariant used[i..] == TmsUsed(f.world, f.refreshed, msgs[i..])
      invariant forall j | 0 <= j < i ::
          lines[j] == Line(f.world, Compile(f.compiledFor, f.pattern, ""), used[j], msgs[j]) + f.eol
    {
      assert msgs[i..][0] == msgs[i] && msgs[i..][1..] == msgs[i + 1..];
      assert used[i..][0] == used[i] && used[i..][1..] == used[i + 1..];
      var line := f.Format(msgs[i], "");
      assert "" + Line(f.world, Compile(f.compiledFor, f.pattern, ""), used[i], msgs[i]) ==
             Line(f.world, Compile(f.compiledFor, f.pattern, ""), used[i], msgs[i]);
      lines := lines + [line];
    }
    if old(f.refreshed) {
      RefreshedIsTransparent(f.world, msgs);
    } else {
      CachingIsTransparent(f.world, msgs);
    }
  }
}
