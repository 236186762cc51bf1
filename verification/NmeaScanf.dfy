/** The format machine `nmea_scanf` of nmea/src/tok.c. */
module NmeaScanf {
  import opened Decimals
  import opened Machine
  import opened NmeaText
  import opened Options

  /** What one conversion stores through its pointer argument; `Unset` leaves the target alone.
      A floating point target is represented by the text that `strtod` gets. */
  datatype Slot = Unset | IntSlot(i: int) | CharSlot(c: char) | TextSlot(text: string) | RealSlot(numeral: string)

  /** `Width(digits)` covers the states PERCENT (no digit yet) and WIDTH. */
  datatype Mode = Compare | Width(digits: string)

  /** `memchr`, with the length of `s` for "not there". */
  function IndexOf(s: string, c: char): (n: nat)
    ensures n <= |s| && c !in s[..n]
    ensures n < |s| ==> s[n] == c
  {
    if s == [] || s[0] == c then 0
    else
      var n := 1 + IndexOf(s[1..], c);
      assert s[..n] == [s[0]] + s[1..][..n - 1];
      n
  }

  predicate IsChar(conv: char) { conv == 'c' || conv == 'C' }
  predicate IsText(conv: char) { conv == 's' || conv == 'S' }
  predicate IsReal(conv: char) { conv in "fgGeE" }

  /** How many characters the conversion takes, None when a fixed width runs over the end.
      `next` is the character after the conversion in the format, NUL at its end. */
  function TokenLength(conv: char, next: char, digits: string, buf: string): (n: Option<nat>)
    requires buf != []
    ensures n.Some? ==> n.value <= |buf|
  {
    var w := if digits == "" then 0 else Atoi(digits, 10);
    var width := if w == 0 && IsChar(conv) && buf[0] != next then 1 else w;
    if width != 0 then
      if 0 < width <= |buf| then Some(width) else None
    else
      Some(if next == NUL then |buf| else IndexOf(buf, next))
  }

  /** The effect of a conversion on its target, None for a letter that is no conversion. */
  function Store(conv: char, tok: string): Option<Slot> {
    if IsChar(conv) then Some(if tok == "" then Unset else CharSlot(tok[0]))
    else if IsText(conv) then Some(if tok == "" then Unset else TextSlot(tok))
    else if IsReal(conv) then Some(if tok == "" then Unset else RealSlot(tok))
    else if tok == "" then Some(Unset)
    else if conv in "diu" then Some(IntSlot(Atoi(tok, 10)))
    else if conv in "xX" then Some(IntSlot(Atoi(tok, 16)))
    else if conv == 'o' then Some(IntSlot(Atoi(tok, 8)))
    else None
  }

  function Next(fmt: string): char {
    if |fmt| > 1 then fmt[1] else NUL
  }

  /** The slots stored when the machine goes on in state `mode` with format `fmt` and input `buf`;
      their number is the token count the C function returns. */
  function Run(fmt: string, buf: string, mode: Mode, out: seq<Slot>): seq<Slot>
    decreases |fmt|
  {
    if fmt == "" || buf == "" then out
    else match mode
      case Compare =>
        if fmt[0] == '%' then Run(fmt[1..], buf, Width(""), out)
        else if buf[0] != fmt[0] then out
        else Run(fmt[1..], buf[1..], Compare, out)
      case Width(digits) =>
        if IsDigit(fmt[0]) then Run(fmt[1..], buf, Width(digits + [fmt[0]]), out)
        else match TokenLength(fmt[0], Next(fmt), digits, buf)
          case None => out
          case Some(n) =>
            match Store(fmt[0], buf[..n])
            case None => out + [Unset]
            case Some(slot) => Run(fmt[1..], buf[n..], Compare, out + [slot])
  }

  /** The end of the token that a conversion takes from position `beg` on, None for `goto fail`. */
  method TokenEnd(buff: string, beg: nat, conv: char, next: char, digits: string) returns (end: Option<nat>)
    requires beg < |buff|
    ensures match TokenLength(conv, next, digits, buff[beg..])
            case None => end == None
            case Some(n) => end == Some(beg + n)
  {
    var width := 0;
    if digits != "" {
      width := Atoi(digits, 10);
    }
    if width == 0 && IsChar(conv) && buff[beg] != next {
      width := 1;
    }
    if width == 0 {
      end := Some(if next == NUL then |buff| else beg + IndexOf(buff[beg..], next));
    } else if 0 < width && beg + width <= |buff| {
      end := Some(beg + width);
    } else {
      end := None;
    }
  }

  lemma RunLeavesPercent(fmt: string, buf: string, digits: string, n: nat, out: seq<Slot>)
    requires fmt != "" && buf != "" && !IsDigit(fmt[0]) && TokenLength(fmt[0], Next(fmt), digits, buf) == Some(n)
    ensures Run(fmt, buf, Width(digits), out) ==
            match Store(fmt[0], buf[..n])
            case None => out + [Unset]
            case Some(slot) => Run(fmt[1..], buf[n..], Compare, out + [slot])
  {}

  /** `nmea_scanf`, with the targets returned in order. */
  method Scanf(buff: string, format: string) returns (slots: seq<Slot>)
    ensures slots == Run(format, buff, Compare, [])
  {
    hide Store, TokenLength, IsDigit;
    slots := [];
    var f, b := 0, 0;
    var digits: Option<string> := None;  // the digits of the conversion being read
    while f < |format| && b < |buff|
      invariant 0 <= f <= |format| && 0 <= b <= |buff|
      invariant Run(format, buff, Compare, []) ==
                Run(format[f..], buff[b..], if digits == None then Compare else Width(digits.value), slots)
      decreases |format| - f
    {
      ghost var fmt, rest := format[f..], buff[b..];
      assert fmt[1..] == format[f + 1..] && fmt[0] == format[f] && rest[0] == buff[b];
      if digits == None {
        assert rest[1..] == buff[b + 1..];
        if format[f] == '%' {
          digits := Some("");
        } else {
          b := b + 1;
          if buff[b - 1] != format[f] {
            return;
          }
        }
      } else if IsDigit(format[f]) {
        digits := Some(digits.value + [format[f]]);
      } else {
        var next := if f + 1 < |format| then format[f + 1] else NUL;
        assert Next(fmt) == next;
        var end := TokenEnd(buff, b, format[f], next, digits.value);
        if end == None {
          return;
        }
        RunLeavesPercent(fmt, rest, digits.value, end.value - b, slots);
        assert rest[..end.value - b] == buff[b..end.value] && rest[end.value - b..] == buff[end.value..];
        var slot := Store(format[f], buff[b..end.value]);
        if slot == None {
          slots := slots + [Unset];
          return;
        }
        slots, b, digits := slots + [slot.value], end.value, None;
      }
      f := f + 1;
    }
  }

  // ---------------------------------------------------------------- what the machine computes

  /** Literal text in the format is matched and skipped. */
  lemma {:induction false} RunLiteral(lit: string, fmt: string, buf: string, out: seq<Slot>)
    requires '%' !in lit
    ensures Run(lit + fmt, lit + buf, Compare, out) == Run(fmt, buf, Compare, out)
  {
    if lit == "" {
      assert lit + fmt == fmt && lit + buf == buf;
    } else {
      assert (lit + fmt)[1..] == lit[1..] + fmt && (lit + buf)[1..] == lit[1..] + buf;
      RunLiteral(lit[1..], fmt, buf, out);
    }
  }

  lemma {:induction false} IndexOfSeparator(tok: string, sep: char, rest: string)
    requires sep !in tok
    ensures IndexOf(tok + [sep] + rest, sep) == |tok|
  {
    if tok != "" {
      assert (tok + [sep] + rest)[1..] == tok[1..] + [sep] + rest;
      IndexOfSeparator(tok[1..], sep, rest);
    }
  }

  /** A conversion followed by a separator takes the text up to that separator. */
  lemma RunField(conv: char, sep: char, fmt: string, tok: string, buf: string, out: seq<Slot>)
    requires sep != NUL && sep != '%' && sep !in tok
    requires !IsDigit(conv) && !IsChar(conv)
    requires Store(conv, tok).Some?
    ensures Run(['%', conv, sep] + fmt, tok + [sep] + buf, Compare, out)
         == Run(fmt, buf, Compare, out + [Store(conv, tok).value])
  {
    var f, b := ['%', conv, sep] + fmt, tok + [sep] + buf;
    IndexOfSeparator(tok, sep, buf);
    assert f[1..] == [conv, sep] + fmt && f[1..][1..] == [sep] + fmt && ([sep] + fmt)[1..] == fmt;
    assert b[..|tok|] == tok && b[|tok|..] == [sep] + buf && ([sep] + buf)[1..] == buf;
    assert Run(f, b, Compare, out) == Run(f[1..], b, Width(""), out);
    assert TokenLength(conv, Next(f[1..]), "", b) == Some(|tok|);
    assert Run(f[1..], b, Width(""), out) == Run([sep] + fmt, [sep] + buf, Compare, out + [Store(conv, tok).value]);
  }

  /** `%C` takes one character. */
  lemma RunChar(c: char, sep: char, fmt: string, buf: string, out: seq<Slot>)
    requires sep != NUL && sep != '%' && sep != c
    ensures Run(['%', 'C', sep] + fmt, [c, sep] + buf, Compare, out) == Run(fmt, buf, Compare, out + [CharSlot(c)])
  {
    var f, b := ['%', 'C', sep] + fmt, [c, sep] + buf;
    assert f[1..] == ['C', sep] + fmt && f[1..][1..] == [sep] + fmt && ([sep] + fmt)[1..] == fmt;
    assert b[..1] == [c] && b[1..] == [sep] + buf && ([sep] + buf)[1..] == buf;
    assert Run(f, b, Compare, out) == Run(f[1..], b, Width(""), out);
    assert TokenLength('C', Next(f[1..]), "", b) == Some(1);
    assert Run(f[1..], b, Width(""), out) == Run([sep] + fmt, [sep] + buf, Compare, out + [CharSlot(c)]);
  }

  /** One field of a comma separated sentence body. */
  datatype Field = IntField(v: int, width: nat) | RealField(text: string) | TextField(text: string) | CharField(c: char)

  /** A character that neither separates fields nor frames sentences. */
  predicate IsPlain(c: char) {
    c != ',' && c != '*' && c != '$' && c as int < 128
  }

  predicate IsPlainText(t: string) {
    t != "" && forall i | 0 <= i < |t| :: IsPlain(t[i])
  }

  predicate ValidField(f: Field) {
    match f
    case IntField(v, w) => IsInt(v) && w < 200
    case RealField(t) => IsPlainText(t)
    case TextField(t) => IsPlainText(t)
    case CharField(c) => IsPlain(c)
  }

  predicate ValidFields(fs: seq<Field>) {
    forall i | 0 <= i < |fs| :: ValidField(fs[i])
  }

  function FieldText(f: Field): (s: string)
    ensures ValidField(f) ==> s != ""
  {
    match f
    case IntField(v, w) => PrintInt(v, w)
    case RealField(t) => t
    case TextField(t) => t
    case CharField(c) => [c]
  }

  function FieldSlot(f: Field): Slot {
    match f
    case IntField(v, _) => IntSlot(v)
    case RealField(t) => RealSlot(t)
    case TextField(t) => TextSlot(t)
    case CharField(c) => CharSlot(c)
  }

  function FieldConv(f: Field): char {
    match f
    case IntField(_, _) => 'd'
    case RealField(_) => 'f'
    case TextField(_) => 's'
    case CharField(_) => 'C'
  }

  /** What printf makes of the fields: their texts with commas between them. */
  function Join(fs: seq<Field>): string
    requires fs != []
  {
    if |fs| == 1 then FieldText(fs[0]) else FieldText(fs[0]) + "," + Join(fs[1..])
  }

  /** The texts of fields with a comma behind each. */
  function JoinMore(fs: seq<Field>): string {
    if fs == [] then "" else FieldText(fs[0]) + "," + JoinMore(fs[1..])
  }

  function Convs(fs: seq<Field>): (cs: string)
    ensures |cs| == |fs|
  {
    seq(|fs|, i requires 0 <= i < |fs| => FieldConv(fs[i]))
  }

  /** The scanf format for some conversions, closed by the star of the checksum. */
  function FormatOf(convs: string): string
    requires convs != ""
  {
    if |convs| == 1 then ['%', convs[0], '*'] else ['%', convs[0], ','] + FormatOf(convs[1..])
  }

  /** The same with a comma behind each. */
  function FormatMore(convs: string): string {
    if convs == "" then "" else ['%', convs[0], ','] + FormatMore(convs[1..])
  }

  function Slots(fs: seq<Field>): (r: seq<Slot>)
    ensures |r| == |fs|
  {
    seq(|fs|, i requires 0 <= i < |fs| => FieldSlot(fs[i]))
  }

  lemma FieldIsPlain(f: Field)
    requires ValidField(f)
    ensures ',' !in FieldText(f) && '*' !in FieldText(f) && '$' !in FieldText(f) && Ascii(FieldText(f))
  {
    match f
    case IntField(v, w) => AtoiPrintInt(v, w);
    case RealField(t) => PlainTextIsPlain(t);
    case TextField(t) => PlainTextIsPlain(t);
    case CharField(_) =>
  }

  lemma PlainTextIsPlain(t: string)
    requires IsPlainText(t)
    ensures ',' !in t && '*' !in t && '$' !in t && Ascii(t)
  {
    assert forall i | 0 <= i < |t| :: IsPlain(t[i]);
  }

  lemma FieldStore(f: Field)
    requires ValidField(f) && !f.CharField?
    ensures Store(FieldConv(f), FieldText(f)) == Some(FieldSlot(f))
  {
    if f.IntField? {
      AtoiPrintInt(f.v, f.width);
    }
  }

  /** The conversion of a field takes the field, up to the comma or star behind it. */
  lemma RunOne(f: Field, sep: char, fmt: string, buf: string, out: seq<Slot>)
    requires ValidField(f) && (sep == ',' || sep == '*')
    ensures Run(['%', FieldConv(f), sep] + fmt, FieldText(f) + [sep] + buf, Compare, out)
         == Run(fmt, buf, Compare, out + [FieldSlot(f)])
  {
    hide Run, Store;
    if f.CharField? {
      RunChar(f.c, sep, fmt, buf, out);
      assert FieldText(f) + [sep] + buf == [f.c, sep] + buf;
    } else {
      FieldIsPlain(f);
      FieldStore(f);
      RunField(FieldConv(f), sep, fmt, FieldText(f), buf, out);
    }
  }

  lemma RunEnds(buf: string, out: seq<Slot>)
    ensures Run("", buf, Compare, out) == out
  {}

  lemma ConvsRest(fs: seq<Field>)
    requires fs != []
    ensures Convs(fs)[0] == FieldConv(fs[0]) && Convs(fs)[1..] == Convs(fs[1..])
  {}

  lemma SlotsRest(fs: seq<Field>, out: seq<Slot>)
    requires fs != []
    ensures out + Slots(fs) == out + [FieldSlot(fs[0])] + Slots(fs[1..])
  {}

  /** Scanning inverts printing, for any list of fields and whatever follows the star. */
  lemma {:induction false} ScanInvertsPrint(fs: seq<Field>, tail: string, out: seq<Slot>)
    requires fs != [] && ValidFields(fs)
    ensures Run(FormatOf(Convs(fs)), Join(fs) + "*" + tail, Compare, out) == out + Slots(fs)
  {
    hide Run, ValidField, FieldText, FieldConv, Slots;
    var f := fs[0];
    var c, tok := FieldConv(f), FieldText(f);
    ConvsRest(fs);
    SlotsRest(fs, out);
    hide Convs;
    if |fs| == 1 {
      RunOne(f, '*', "", tail, out);
      RunEnds(tail, out + [FieldSlot(f)]);
      assert FormatOf(Convs(fs)) == ['%', c, '*'] + "";
      assert Slots(fs[1..]) == [];
    } else {
      var rest := Join(fs[1..]) + "*" + tail;
      RunOne(f, ',', FormatOf(Convs(fs[1..])), rest, out);
      assert Join(fs) + "*" + tail == tok + "," + rest;
      ScanInvertsPrint(fs[1..], tail, out + [FieldSlot(f)]);
    }
  }

  /** The same for fields in front of something else. */
  lemma {:induction false} ScanInvertsMore(fs: seq<Field>, fmt: string, buf: string, out: seq<Slot>)
    requires ValidFields(fs)
    ensures Run(FormatMore(Convs(fs)) + fmt, JoinMore(fs) + buf, Compare, out) ==
            Run(fmt, buf, Compare, out + Slots(fs))
  {
    hide Run, ValidField, FieldText, FieldConv, Slots;
    if fs == [] {
      assert FormatMore(Convs(fs)) + fmt == fmt && JoinMore(fs) + buf == buf;
      assert Slots(fs) == [] && out + [] == out;
    } else {
      var f := fs[0];
      ConvsRest(fs);
      SlotsRest(fs, out);
      hide Convs;
      var format, text := FormatMore(Convs(fs[1..])) + fmt, JoinMore(fs[1..]) + buf;
      RunOne(f, ',', format, text, out);
      assert FormatMore(Convs(fs)) + fmt == ['%', FieldConv(f), ','] + format;
      assert JoinMore(fs) + buf == FieldText(f) + "," + text;
      ScanInvertsMore(fs[1..], fmt, buf, out + [FieldSlot(f)]);
    }
  }

  /** A printed body holds no character that frames a sentence. */
  lemma {:induction false} JoinIsPlain(fs: seq<Field>)
    requires fs != [] && ValidFields(fs)
    ensures '*' !in Join(fs) && '$' !in Join(fs) && Ascii(Join(fs))
  {
    hide ValidField, FieldText;
    FieldIsPlain(fs[0]);
    if |fs| > 1 {
      JoinIsPlain(fs[1..]);
    }
  }

  lemma {:induction false} JoinMoreIsPlain(fs: seq<Field>)
    requires ValidFields(fs)
    ensures '*' !in JoinMore(fs) && '$' !in JoinMore(fs) && Ascii(JoinMore(fs))
  {
    hide ValidField, FieldText;
    if fs != [] {
      FieldIsPlain(fs[0]);
      JoinMoreIsPlain(fs[1..]);
    }
  }

  // ---------------------------------------------------------------- numbers of two characters

  /** Numbers that `%02d` prints in two characters. */
  predicate TwoColumns(v: int) {
    -10 < v < 100
  }

  predicate ThreeColumns(v: int) {
    -100 < v < 1000
  }

  lemma ColumnsNeeded(v: int)
    ensures |PrintInt(v, 2)| >= 2
    ensures |PrintInt(v, 2)| == 2 <==> TwoColumns(v)
    ensures |PrintInt(v, 2)| <= 3 <==> ThreeColumns(v)
    ensures v < 0 ==> PrintInt(v, 2)[0] == '-'
  {
    var n: nat := if v >= 0 then v else -v;
    DecColumns(n);
  }

  lemma DecColumns(n: nat)
    ensures |Dec(n)| == 1 <==> n < 10
    ensures |Dec(n)| <= 2 <==> n < 100
    ensures |Dec(n)| <= 3 <==> n < 1000
  {
    if n >= 10 {
      assert |Dec(n)| == |Dec(n / 10)| + 1;
      if n >= 100 {
        assert |Dec(n / 10)| == |Dec(n / 10 / 10)| + 1;
      }
    }
  }

  lemma TwoColumnsText(v: int)
    requires TwoColumns(v)
    ensures |PrintInt(v, 2)| == 2 && Atoi(PrintInt(v, 2), 10) == v
  {
    hide Atoi;
    AtoiPrintInt(v, 2);
    ColumnsNeeded(v);
  }

  /** What can be read from two characters, whatever they are. */
  lemma TwoCharacters(t: string)
    requires |t| == 2
    ensures TwoColumns(Atoi(t, 10)) && (t[0] == '-' ==> Atoi(t, 10) <= 0)
  {
    SkipSpaceShortens(t);
    ReadAtMostTwo(SkipSpace(t));
    if IsSpace(t[0]) {
      assert SkipSpace(t) == SkipSpace(t[1..]);
    }
  }

  lemma {:induction false} SkipSpaceShortens(t: string)
    ensures |SkipSpace(t)| <= |t|
  {
    if t != "" && IsSpace(t[0]) {
      SkipSpaceShortens(t[1..]);
    }
  }

  lemma ReadAtMostTwo(u: string)
    requires |u| <= 2
    ensures ReadDigits(u, 10, 0) < 100
    ensures |u| > 0 ==> ReadDigits(u[1..], 10, 0) < 10
  {
    if |u| > 0 {
      ReadAtMostOne(u[1..], 0);
      ReadAtMostOne(u[1..], DigitValue(u[0]));
    }
  }

  lemma ReadAtMostOne(u: string, acc: nat)
    requires |u| <= 1
    ensures ReadDigits(u, 10, acc) < acc * 10 + 10
  {
    if |u| == 1 {
      assert u[1..] == "";
    }
  }

  lemma WidthTwo()
    ensures Atoi("2", 10) == 2
  {
    assert "2"[1..] == "";
  }

  /** The number in the two characters from `i` on. */
  function TwoAt(buf: string, i: nat): int
    requires i + 2 <= |buf|
  {
    Atoi(buf[i..i + 2], 10)
  }

  /** `%2d` takes two characters, whatever they are and whatever follows in format and text. */
  lemma RunTwo(fmt: string, buf: string, out: seq<Slot>)
    requires |buf| >= 2
    ensures Run("%2d" + fmt, buf, Compare, out) == Run(fmt, buf[2..], Compare, out + [IntSlot(TwoAt(buf, 0))])
  {
    WidthTwo();
    hide Atoi;
    var f := "%2d" + fmt;
    assert f[1..] == "2d" + fmt && f[1..][1..] == "d" + fmt && f[1..][1..][1..] == fmt;
    assert "" + ['2'] == "2" && buf[0..2] == buf[..2];
    assert Run(f, buf, Compare, out) == Run("2d" + fmt, buf, Width(""), out) == Run("d" + fmt, buf, Width("2"), out);
    assert Store('d', buf[..2]) == Some(IntSlot(TwoAt(buf, 0)));
  }

  function ThreeSlots(buf: string): seq<Slot>
    requires |buf| >= 6
  {
    [IntSlot(TwoAt(buf, 0)), IntSlot(TwoAt(buf, 2)), IntSlot(TwoAt(buf, 4))]
  }

  /** Three numbers without separators take six characters. */
  lemma RunThreeTwos(fmt: string, buf: string, out: seq<Slot>)
    requires |buf| >= 6
    ensures Run("%2d" + ("%2d" + ("%2d" + fmt)), buf, Compare, out) ==
            Run(fmt, buf[6..], Compare, out + ThreeSlots(buf))
  {
    hide Run, Atoi;
    var out1 := out + [IntSlot(TwoAt(buf, 0))];
    var out2 := out1 + [IntSlot(TwoAt(buf, 2))];
    assert buf[2..][0..2] == buf[2..4] && buf[4..][0..2] == buf[4..6];
    assert buf[2..][2..] == buf[4..] && buf[4..][2..] == buf[6..];
    RunTwo("%2d" + ("%2d" + fmt), buf, out);
    RunTwo("%2d" + fmt, buf[2..], out1);
    RunTwo(fmt, buf[4..], out2);
    assert out2 + [IntSlot(TwoAt(buf, 4))] == out + ThreeSlots(buf);
  }

  /** Three printed numbers are read back that way exactly if each of them prints in two characters. */
  lemma ThreeNumbersRead(a: int, b: int, c: int, rest: string)
    ensures var buf := PrintInt(a, 2) + (PrintInt(b, 2) + (PrintInt(c, 2) + rest));
            && |buf| >= 6 + |rest|
            && (TwoAt(buf, 0) == a && TwoAt(buf, 2) == b && TwoAt(buf, 4) == c <==>
                TwoColumns(a) && TwoColumns(b) && TwoColumns(c))
            && (TwoColumns(a) && TwoColumns(b) && TwoColumns(c) ==> buf[6..] == rest)
  {
    var p, q, r := PrintInt(a, 2), PrintInt(b, 2), PrintInt(c, 2);
    var buf := p + (q + (r + rest));
    ColumnsNeeded(a);
    ColumnsNeeded(b);
    ColumnsNeeded(c);
    TwoCharacters(buf[0..2]);
    TwoCharacters(buf[2..4]);
    TwoCharacters(buf[4..6]);
    if TwoColumns(a) && TwoColumns(b) && TwoColumns(c) {
      TwoColumnsText(a);
      TwoColumnsText(b);
      TwoColumnsText(c);
      hide PrintInt, Atoi;
      assert buf[0..2] == p && buf[2..4] == q && buf[4..6] == r;
    }
    hide PrintInt, Atoi;
  }

  /** Slots once stored stay. */
  lemma {:induction false} RunGrows(fmt: string, buf: string, mode: Mode, out: seq<Slot>)
    ensures out <= Run(fmt, buf, mode, out)
    decreases |fmt|
  {
    if fmt != "" && buf != "" {
      match mode
      case Compare =>
        if fmt[0] == '%' {
          RunGrows(fmt[1..], buf, Width(""), out);
        } else {
          RunGrows(fmt[1..], buf[1..], Compare, out);
        }
      case Width(digits) =>
        RunGrows(fmt[1..], buf, Width(digits + [fmt[0]]), out);
        match TokenLength(fmt[0], Next(fmt), digits, buf) {
          case None =>
          case Some(n) =>
            match Store(fmt[0], buf[..n]) {
              case None =>
              case Some(slot) => RunGrows(fmt[1..], buf[n..], Compare, out + [slot]);
            }
        }
    }
  }

  /** A conversion at the end of the format takes the rest. */
  lemma RunLastInt(v: int, width: nat, out: seq<Slot>)
    requires IsInt(v) && width < 200
    ensures Run("%d", PrintInt(v, width), Compare, out) == out + [IntSlot(v)]
  {
    AtoiPrintInt(v, width);
    var t := PrintInt(v, width);
    hide PrintInt, Atoi;
    assert "%d"[1..] == "d" && "d"[1..] == "" && t[..|t|] == t && t[|t|..] == "";
    assert Run("%d", t, Compare, out) == Run("d", t, Width(""), out);
  }
}
