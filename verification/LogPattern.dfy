/** The pattern compiler of include/spdlog/pattern_formatter-inl.h, which turns a format pattern into formatters. */
module LogPattern {
  import opened Decimals
  import opened Machine

  // ---------------------------------------------------------------- formatters

  datatype Side = Left | Right | Center

  /** `padding_info`: without a width it is not enabled. */
  datatype Padding = NoPadding | Padding(width: nat, side: Side, truncate: bool)

  /** The formatters a pattern compiles to; only the full formatter has state, its cached date text. */
  datatype Formatter =
    | Custom(flag: char, padding: Padding)
    | Full(cacheSecs: int, cachedText: string)
    | Field(flag: char, padding: Padding)
    | ColorStart
    | ColorStop
    | Single(c: char)
    | Chars(text: string)

  const MAX_WIDTH := 64

  /** The flags with a formatter of their own and a padding. */
  const FIELD_FLAGS: set<char> := {
    'n', 'l', 'L', 't', 'v', 'a', 'A', 'b', 'h', 'B', 'c', 'C', 'Y', 'D', 'x', 'm', 'd', 'H', 'I', 'M', 'S',
    'e', 'f', 'F', 'E', 'p', 'r', 'R', 'T', 'X', 'z', 'P', '@', 's', 'g', '#', '!', 'u', 'i', 'o', 'O' }

  /** Some formatters have two flags. */
  function Canonical(flag: char): char {
    if flag == 'h' then 'b' else if flag == 'x' then 'D' else if flag == 'X' then 'T' else flag
  }

  const NEW_FULL := Full(0, "")

  /** What a flag stands for: user flags come first, and an unknown flag is shown as it is, without its padding. */
  function Meaning(custom: set<char>, flag: char, padding: Padding): Formatter {
    if flag in custom then Custom(flag, padding)
    else if flag == '+' then NEW_FULL
    else if flag == '^' then ColorStart
    else if flag == '$' then ColorStop
    else if flag == '%' then Single('%')
    else if flag in FIELD_FLAGS then Field(Canonical(flag), padding)
    else Chars(['%', flag])
  }

  /** Built-in flags that show the same with any padding, and unknown ones, which are shown as they are. */
  predicate IgnoresPadding(custom: set<char>, flag: char) {
    flag !in custom && flag !in FIELD_FLAGS
  }

  /** The same flag, or two built-in names of one field. */
  predicate SameFlag(custom: set<char>, f: char, g: char) {
    f == g || (f !in custom && g !in custom && f in FIELD_FLAGS && g in FIELD_FLAGS && Canonical(f) == Canonical(g))
  }

  /** Two flags mean the same exactly if they are the same flag in that sense and have the same padding, where padding
      counts: a user flag is never mistaken for a built-in one, nor a known flag for an unknown one. */
  lemma FlagsAreToldApart(custom: set<char>, f: char, p: Padding, g: char, q: Padding)
    ensures Meaning(custom, f, p) == Meaning(custom, g, q) <==>
            SameFlag(custom, f, g) && (IgnoresPadding(custom, f) || p == q)
  {
    FieldFlagsAreNoSigns();
    hide Canonical;
    if Meaning(custom, f, p) == Meaning(custom, g, q) && Meaning(custom, f, p).Chars? {
      assert ['%', f][1] == ['%', g][1];
    }
  }

  lemma FieldFlagsAreNoSigns()
    ensures '+' !in FIELD_FLAGS && '^' !in FIELD_FLAGS && '$' !in FIELD_FLAGS && '%' !in FIELD_FLAGS
  {}

  // ---------------------------------------------------------------- the grammar of patterns

  /** The digits at the start of `s` behind those in `acc`, in the arithmetic of the size type, and their number. */
  function ReadWidth(s: string, acc: nat): (r: (nat, nat))
    ensures r.1 <= |s|
  {
    if s == "" || !IsDigit(s[0]) then (acc, 0)
    else
      var r := ReadWidth(s[1..], (acc * 10 + (s[0] as int - '0' as int)) % SIZE_T);
      (r.0, r.1 + 1)
  }

  function ReadSide(s: string): (r: (Side, nat))
    ensures r.1 <= |s|
  {
    if s != "" && s[0] == '-' then (Right, 1)
    else if s != "" && s[0] == '=' then (Center, 1)
    else (Left, 0)
  }

  function Clamp(width: nat): nat {
    if width < MAX_WIDTH then width else MAX_WIDTH
  }

  /** The padding in front of a flag and the characters it takes; a side without a width is dropped. */
  function ReadPadding(s: string): (r: (Padding, nat))
    ensures r.1 <= |s|
    ensures r.0.Padding? ==> r.0.width <= MAX_WIDTH
  {
    var side := ReadSide(s);
    AfterSide(side.0, side.1, s[side.1..])
  }

  /** The rest of a padding behind the `n` characters of its side. */
  function AfterSide(side: Side, n: nat, t: string): (r: (Padding, nat))
    ensures r.1 <= n + |t|
    ensures r.0.Padding? ==> r.0.width <= MAX_WIDTH
  {
    var w := ReadWidth(t, 0);
    if w.1 == 0 then (NoPadding, n) else AfterWidth(side, n + w.1, w.0, t[w.1..])
  }

  /** The optional mark behind the width. */
  function AfterWidth(side: Side, n: nat, width: nat, t: string): (r: (Padding, nat))
    ensures r.1 <= n + |t|
    ensures r.0.Padding? ==> r.0.width <= MAX_WIDTH
  {
    if t != "" && t[0] == '!' then (Padding(Clamp(width), side, true), n + 1)
    else (Padding(Clamp(width), side, false), n)
  }

  function Flush(user: string): seq<Formatter> {
    if user == "" then [] else [Chars(user)]
  }

  /** The formatters of a pattern, with the plain characters read so far. */
  function Compile(custom: set<char>, s: string, user: string): seq<Formatter>
    decreases |s|
  {
    if s == "" then Flush(user)
    else if s[0] != '%' then Compile(custom, s[1..], user + [s[0]])
    else
      var p := ReadPadding(s[1..]);
      var rest := s[1 + p.1..];
      Flush(user) +
      if rest == "" then [] else [Meaning(custom, rest[0], p.0)] + Compile(custom, rest[1..], "")
  }

  // ---------------------------------------------------------------- what compiled formatters stand for

  /** One character shown as it is, or the output of a formatter. */
  datatype Piece = Plain(c: char) | Shown(f: Formatter)

  function Plains(text: string): (r: seq<Piece>)
    ensures |r| == |text|
  {
    seq(|text|, i requires 0 <= i < |text| => Plain(text[i]))
  }

  /** How plain characters are grouped into formatters does not matter. */
  function Pieces(fs: seq<Formatter>): seq<Piece> {
    if fs == [] then []
    else PiecesOf(fs[0]) + Pieces(fs[1..])
  }

  function PiecesOf(f: Formatter): seq<Piece> {
    match f
    case Chars(text) => Plains(text)
    case Single(c) => [Plain(c)]
    case _ => [Shown(f)]
  }

  lemma {:induction false} PiecesConcat(a: seq<Formatter>, b: seq<Formatter>)
    ensures Pieces(a + b) == Pieces(a) + Pieces(b)
  {
    if a == [] {
      assert a + b == b;
    } else {
      assert (a + b)[1..] == a[1..] + b;
      PiecesConcat(a[1..], b);
    }
  }

  lemma PlainsConcat(a: string, b: string)
    ensures Plains(a + b) == Plains(a) + Plains(b)
  {}

  lemma PiecesOfOne(f: Formatter)
    ensures Pieces([f]) == PiecesOf(f)
  {
    assert [f][1..] == [];
  }

  /** The characters read before come out before everything else. */
  lemma {:induction false} UserCharsComeFirst(custom: set<char>, s: string, user: string)
    ensures Pieces(Compile(custom, s, user)) == Plains(user) + Pieces(Compile(custom, s, ""))
    decreases |s|
  {
    hide Meaning, ReadPadding, Pieces, PiecesOf, Plains, Flush;
    FlushedChars(user);
    FlushedChars("");
    if s != "" {
      if s[0] != '%' {
        UserCharsComeFirst(custom, s[1..], user + [s[0]]);
        UserCharsComeFirst(custom, s[1..], "" + [s[0]]);
        PlainsConcat(user, [s[0]]);
        PlainsConcat("", [s[0]]);
      } else {
        var p := ReadPadding(s[1..]);
        var rest := s[1 + p.1..];
        var after := if rest == "" then [] else [Meaning(custom, rest[0], p.0)] + Compile(custom, rest[1..], "");
        PiecesConcat(Flush(user), after);
        PiecesConcat(Flush(""), after);
        assert Plains(user) + (Plains("") + Pieces(after)) == Plains(user) + Pieces(after);
      }
    }
  }

  lemma FlushedChars(user: string)
    ensures Pieces(Flush(user)) == Plains(user)
  {
    if user != "" {
      PiecesOfOne(Chars(user));
    }
  }

  // ---------------------------------------------------------------- printing patterns

  /** An element of a pattern: text to be shown literally, or a flag with its padding. */
  datatype Item = Text(text: string) | Flag(flag: char, padding: Padding)

  /** A percent sign is written twice. */
  function Escape(text: string): string {
    if text == "" then ""
    else EscapeOne(text[0]) + Escape(text[1..])
  }

  function EscapeOne(c: char): string {
    if c == '%' then "%%" else [c]
  }

  function PrintSide(side: Side): string {
    match side
    case Left => ""
    case Right => "-"
    case Center => "="
  }

  function PrintPadding(p: Padding): string {
    match p
    case NoPadding => ""
    case Padding(width, side, truncate) => PrintSide(side) + Dec(width) + Mark(truncate)
  }

  function PrintItem(i: Item): string {
    match i
    case Text(text) => Escape(text)
    case Flag(flag, padding) => "%" + PrintPadding(padding) + [flag]
  }

  function Print(items: seq<Item>): string {
    if items == [] then "" else PrintItem(items[0]) + Print(items[1..])
  }

  function Clamped(p: Padding): Padding {
    match p
    case NoPadding => NoPadding
    case Padding(width, side, truncate) => Padding(Clamp(width), side, truncate)
  }

  /** What an element is meant to show. */
  function ItemPieces(custom: set<char>, i: Item): seq<Piece> {
    match i
    case Text(text) => Plains(text)
    case Flag(flag, padding) => PiecesOf(Meaning(custom, flag, Clamped(padding)))
  }

  function AllPieces(custom: set<char>, items: seq<Item>): seq<Piece> {
    if items == [] then [] else ItemPieces(custom, items[0]) + AllPieces(custom, items[1..])
  }

  /** A flag that does not look like a part of the padding in front of it. */
  predicate Distinct(flag: char, padding: Padding) {
    match padding
    case NoPadding => !IsDigit(flag) && flag != '-' && flag != '='
    case Padding(width, _, truncate) => width < SIZE_T && (truncate || (!IsDigit(flag) && flag != '!'))
  }

  /** An element that can be printed: no user flag has taken the escape, and the flag is told apart from its padding. */
  predicate Printable(custom: set<char>, i: Item) {
    match i
    case Text(text) => '%' in text ==> '%' !in custom
    case Flag(flag, padding) => Distinct(flag, padding)
  }

  lemma WidthStep(d: nat, t: string, acc: nat)
    requires d < 10 && acc * 10 + d < SIZE_T
    ensures ReadWidth([Digit(d)] + t, acc) == (ReadWidth(t, acc * 10 + d).0, ReadWidth(t, acc * 10 + d).1 + 1)
  {
    assert ([Digit(d)] + t)[1..] == t;
  }

  lemma {:induction false} ReadWidthBack(w: nat, t: string)
    requires w < SIZE_T
    ensures ReadWidth(Dec(w) + t, 0) == (ReadWidth(t, w).0, |Dec(w)| + ReadWidth(t, w).1)
  {
    hide ReadWidth, Digit;
    if w < 10 {
      WidthStep(w, t, 0);
    } else {
      ReadWidthBack(w / 10, [Digit(w % 10)] + t);
      WidthStep(w % 10, t, w / 10);
      assert Dec(w / 10) + [Digit(w % 10)] + t == Dec(w / 10) + ([Digit(w % 10)] + t);
    }
  }

  lemma ReadSideBack(side: Side, t: string)
    requires t != "" && IsDigit(t[0])
    ensures ReadSide(PrintSide(side) + t) == (side, |PrintSide(side)|) &&
            (PrintSide(side) + t)[|PrintSide(side)|..] == t
  {
    assert "" + t == t;
  }

  lemma WidthAfterSide(side: Side, n: nat, t: string, w: (nat, nat))
    requires ReadWidth(t, 0) == w && w.1 > 0
    ensures AfterSide(side, n, t) == AfterWidth(side, n + w.1, w.0, t[w.1..])
  {
    hide ReadWidth, AfterWidth;
  }

  /** A printed side and width in front of `rest`, whose own digits would belong to the width. */
  lemma ReadPrinted(side: Side, w: nat, rest: string)
    requires w < SIZE_T
    ensures var more := ReadWidth(rest, w);
            ReadPadding(PrintSide(side) + (Dec(w) + rest)) ==
            AfterWidth(side, |PrintSide(side)| + |Dec(w)| + more.1, more.0, rest[more.1..])
  {
    hide AfterSide, AfterWidth, ReadWidth, ReadSide, PrintSide, Dec, IsDigit;
    var t := Dec(w) + rest;
    assert AllDigits(Dec(w)) && t[0] == Dec(w)[0];
    ReadSideBack(side, t);
    ReadWidthBack(w, rest);
    var more := ReadWidth(rest, w);
    WidthAfterSide(side, |PrintSide(side)|, t, (more.0, |Dec(w)| + more.1));
    assert t[|Dec(w)| + more.1..] == rest[more.1..];
  }

  function Mark(truncate: bool): string {
    if truncate then "!" else ""
  }

  lemma PaddingInParts(side: Side, w: nat, truncate: bool, t: string)
    ensures PrintPadding(Padding(w, side, truncate)) + t == PrintSide(side) + (Dec(w) + (Mark(truncate) + t))
  {}

  lemma NoPaddingBack(flag: char, t: string)
    requires Distinct(flag, NoPadding)
    ensures ReadPadding([flag] + t) == (NoPadding, 0)
  {
    assert ([flag] + t)[0..] == [flag] + t;
  }

  lemma ReadPaddingBack(p: Padding, flag: char, t: string)
    requires Distinct(flag, p)
    ensures ReadPadding(PrintPadding(p) + [flag] + t) == (Clamped(p), |PrintPadding(p)|)
  {
    hide Clamp, PrintSide, ReadPadding;
    if p == NoPadding {
      assert "" + [flag] + t == [flag] + t;
      NoPaddingBack(flag, t);
    } else {
      var rest := Mark(p.truncate) + ([flag] + t);
      assert PrintPadding(p) + [flag] + t == PrintPadding(p) + ([flag] + t);
      PaddingInParts(p.side, p.width, p.truncate, [flag] + t);
      ReadPrinted(p.side, p.width, rest);
      assert ReadWidth(rest, p.width) == (p.width, 0);
      hide ReadWidth;
      assert rest[0..] == rest && rest[0] == if p.truncate then '!' else flag;
    }
  }

  /** A flag in front of the rest of a pattern. */
  lemma CompileFlag(custom: set<char>, flag: char, padding: Padding, t: string)
    requires Distinct(flag, padding)
    ensures Pieces(Compile(custom, PrintItem(Flag(flag, padding)) + t, "")) ==
            PiecesOf(Meaning(custom, flag, Clamped(padding))) + Pieces(Compile(custom, t, ""))
  {
    hide ReadPadding, PrintPadding, PiecesOf, Meaning, Distinct;
    var pad := PrintPadding(padding);
    var s := "%" + pad + [flag] + t;
    ReadPaddingBack(padding, flag, t);
    assert s[1..] == pad + [flag] + t;
    assert s[1 + |pad|..] == [flag] + t;
    assert ([flag] + t)[1..] == t;
    var m := Meaning(custom, flag, Clamped(padding));
    assert Compile(custom, s, "") == [m] + Compile(custom, t, "");
    PiecesConcat([m], Compile(custom, t, ""));
    PiecesOfOne(m);
  }

  lemma {:induction false} CompileText(custom: set<char>, text: string, t: string)
    requires '%' in text ==> '%' !in custom
    ensures Pieces(Compile(custom, Escape(text) + t, "")) == Plains(text) + Pieces(Compile(custom, t, ""))
    decreases |text|
  {
    hide Compile, Plains, Pieces;
    if text == "" {
      assert Escape(text) + t == t;
      assert Plains("") + Pieces(Compile(custom, t, "")) == Pieces(Compile(custom, t, ""));
    } else {
      var c, rest := text[0], Escape(text[1..]) + t;
      CompileText(custom, text[1..], t);
      assert text == [c] + text[1..];
      PlainsConcat([c], text[1..]);
      CompileEscaped(custom, c, rest);
      assert Escape(text) + t == EscapeOne(c) + rest;
      assert Plains([c]) + (Plains(text[1..]) + Pieces(Compile(custom, t, ""))) ==
             Plains([c]) + Plains(text[1..]) + Pieces(Compile(custom, t, ""));
    }
  }

  lemma CompileEscaped(custom: set<char>, c: char, t: string)
    requires c == '%' ==> '%' !in custom
    ensures Pieces(Compile(custom, EscapeOne(c) + t, "")) == Plains([c]) + Pieces(Compile(custom, t, ""))
  {
    hide Compile, Pieces;
    if c == '%' {
      CompileFlag(custom, '%', NoPadding, t);
      assert EscapeOne(c) == PrintItem(Flag('%', NoPadding));
    } else {
      CompilePlain(custom, c, t);
    }
  }

  lemma CompilePlain(custom: set<char>, c: char, t: string)
    requires c != '%'
    ensures Pieces(Compile(custom, [c] + t, "")) == [Plain(c)] + Pieces(Compile(custom, t, ""))
  {
    assert ([c] + t)[1..] == t && "" + [c] == [c];
    UserCharsComeFirst(custom, t, [c]);
  }

  /** The compiler inverts the printer: every printable list of texts and flags compiles to what it stands for. */
  lemma {:induction false} CompileInvertsPrint(custom: set<char>, items: seq<Item>)
    requires forall i | 0 <= i < |items| :: Printable(custom, items[i])
    ensures Pieces(Compile(custom, Print(items), "")) == AllPieces(custom, items)
  {
    hide Compile, PrintItem, Distinct, Meaning;
    if items == [] {
      NothingCompiles(custom);
    } else {
      var rest := Print(items[1..]);
      CompileInvertsPrint(custom, items[1..]);
      assert Printable(custom, items[0]);
      match items[0] {
        case Text(text) =>
          CompileText(custom, text, rest);
          PrintedText(text);
        case Flag(flag, padding) =>
          CompileFlag(custom, flag, padding, rest);
      }
    }
  }

  lemma PrintedText(text: string)
    ensures PrintItem(Text(text)) == Escape(text)
  {}

  lemma NothingCompiles(custom: set<char>)
    ensures Compile(custom, "", "") == [] && Pieces([]) == []
  {}

  /** Escaped text shows itself exactly if no user flag has taken the percent sign, or it holds none. */
  lemma EscapedTextShowsItself(custom: set<char>, text: string)
    ensures Pieces(Compile(custom, Escape(text), "")) == Plains(text) <==> ('%' in text ==> '%' !in custom)
  {
    if '%' in text && '%' in custom {
      var i := FirstPercent(text);
      PercentIsTaken(custom, text, i);
    } else {
      CompileText(custom, text, "");
      assert Escape(text) + "" == Escape(text);
      NothingCompiles(custom);
    }
  }

  function FirstPercent(text: string): (i: nat)
    requires '%' in text
    ensures i < |text| && text[i] == '%' && '%' !in text[..i]
  {
    if text[0] == '%' then 0 else 1 + FirstPercent(text[1..])
  }

  /** The first percent sign of an escaped text becomes a piece of the user's formatter. */
  lemma PercentIsTaken(custom: set<char>, text: string, i: nat)
    requires '%' in custom && i < |text| && text[i] == '%' && '%' !in text[..i]
    ensures var ps := Pieces(Compile(custom, Escape(text), "")); i < |ps| && ps[i] == Shown(Custom('%', NoPadding))
  {
    hide Compile, Pieces;
    var rest := Escape(text[i + 1..]);
    EscapeSplit(text[..i], text[i..]);
    assert text[..i] + text[i..] == text;
    assert text[i..][1..] == text[i + 1..];
    CompileText(custom, text[..i], Escape(text[i..]));
    CompileFlag(custom, '%', NoPadding, rest);
    assert Escape(text[i..]) == PrintItem(Flag('%', NoPadding)) + rest;
  }

  lemma {:induction false} EscapeSplit(a: string, b: string)
    ensures Escape(a + b) == Escape(a) + Escape(b)
  {
    if a == "" {
      assert a + b == b;
    } else {
      assert (a + b)[1..] == a[1..] + b;
      EscapeSplit(a[1..], b);
    }
  }

  /** The flags that are excluded are exactly those that cannot be printed. */
  lemma OnlyDistinctFlagsPrint(custom: set<char>, flag: char, padding: Padding)
    requires padding.Padding? ==> padding.width < SIZE_T
    ensures Pieces(Compile(custom, Print([Flag(flag, padding)]), "")) == AllPieces(custom, [Flag(flag, padding)])
            <==> Distinct(flag, padding)
  {
    var item := Flag(flag, padding);
    if Distinct(flag, padding) {
      CompileInvertsPrint(custom, [item]);
    } else {
      FlagIsSwallowed(custom, flag, padding);
      assert AllPieces(custom, [item]) == ItemPieces(custom, item);
      assert PiecesOf(Meaning(custom, flag, Clamped(padding))) != [];
    }
  }

  lemma FlagIsSwallowed(custom: set<char>, flag: char, padding: Padding)
    requires padding.Padding? ==> padding.width < SIZE_T
    requires !Distinct(flag, padding)
    ensures Compile(custom, Print([Flag(flag, padding)]), "") == []
  {
    var s := PrintPadding(padding) + [flag];
    NothingLeft(flag, padding);
    assert [Flag(flag, padding)][1..] == [] && "%" + s + "" == "%" + s;
    assert PrintItem(Flag(flag, padding)) == "%" + s;
    assert ("%" + s)[1..] == s && ("%" + s)[1 + |s|..] == "";
  }

  lemma NothingLeft(flag: char, p: Padding)
    requires (p.Padding? ==> p.width < SIZE_T) && !Distinct(flag, p)
    ensures ReadPadding(PrintPadding(p) + [flag]).1 == |PrintPadding(p)| + 1
  {
    hide Clamp, PrintSide;
    assert [flag][1..] == "" && [flag][0..] == [flag] && "" + [flag] == [flag];
    if p.Padding? {
      PaddingInParts(p.side, p.width, p.truncate, [flag]);
      ReadPrinted(p.side, p.width, Mark(p.truncate) + [flag]);
      hide ReadPadding;
      assert "" + [flag] == [flag];
    }
  }
}
