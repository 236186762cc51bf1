/** `nmea_printf` of nmea/src/tok.c on a caller's buffer: what it leaves in the room it is given, and when it writes
    outside that room. */
module NmeaPrintf {
  import opened Decimals
  import opened Machine
  import opened NmeaText
  import opened NmeaFraming

  // ---------------------------------------------------------------- one sentence

  /** What the format and its arguments print: some ASCII text. */
  predicate IsBody(body: string) {
    body != "" && Ascii(body)
  }

  function CrcTail(body: string): (t: string)
    requires IsBody(body)
    ensures |t| == TAIL_SIZE
  {
    CrcBound(0, body[1..]);
    "*" + Hex2(Crc(0, body[1..])) + "\r\n"
  }

  /** A body with its checksum and line end. */
  function Sentence(body: string): (s: string)
    requires IsBody(body)
  {
    body + CrcTail(body)
  }

  /** What is left in `room` bytes, as far as the result says: nothing without room, blanks when the sentence does not
      fit, and in an exact fit a NUL where the line feed should be. */
  function Written(room: int, body: string): (s: string)
    requires IsBody(body)
    ensures |s| <= if room > 0 then room else 0
    ensures room > 0 ==> |s| > 0
  {
    var w := Sentence(body);
    if room <= 0 then ""
    else if |w| > room then Spaces(room)
    else if |w| == room then w[..room - 1] + [NUL]
    else w
  }

  // ---------------------------------------------------------------- memory

  /** `mem` with `text` at `at`. */
  function Overwrite(mem: string, at: nat, text: string): (r: string)
    ensures |r| == |mem|
  {
    seq(|mem|, i requires 0 <= i < |mem| => if at <= i < at + |text| then text[i - at] else mem[i])
  }

  function Window(mem: string, lo: nat, hi: nat): string {
    if lo <= hi <= |mem| then mem[lo..hi] else ""
  }

  /** libc's `snprintf` of a finished text into `size` bytes. */
  function Snprinted(mem: string, off: nat, size: nat, text: string): (r: string)
    ensures |r| == |mem|
  {
    if size == 0 then mem else Overwrite(mem, off, (if |text| < size then text else text[..size - 1]) + [NUL])
  }

  function TailText(crc: int): string {
    "*" + PrintHex(crc) + "\r\n"
  }

  /** `nmea_printf` on the memory: the checksum is taken of what is in the buffer, and the room left for the tail is an
      int that is converted to a size. A body that is too long for an int makes `vsnprintf` fail. */
  function Printed(mem: string, off: nat, room: int, body: string): (r: string)
    ensures |r| == |mem|
  {
    if room <= 0 then mem
    else
      var m := Snprinted(mem, off, room, body);
      if |body| > INT_MAX then Overwrite(m, off, Spaces(room))
      else
        var tail := TailText(Crc(0, Window(m, off + 1, off + |body|)));
        var t := Snprinted(m, off + |body|, ToSize(room - |body|), tail);
        if |body| + |tail| > room then Overwrite(t, off, Spaces(room)) else t
  }

  /** The body alone exceeds the room, so that the size of the tail is a negative number converted. */
  predicate Overruns(room: int, body: string) {
    0 < room < |body| <= INT_MAX
  }

  const OVERRUN := 12  // the longest tail, with its NUL

  /** The memory that is touched lies in the buffer. */
  predicate Reaches(len: nat, off: nat, room: int, body: string) {
    room <= 0 || off + (if Overruns(room, body) then |body| + OVERRUN else room) <= len
  }

  lemma TailLength(crc: int)
    ensures TAIL_SIZE <= |TailText(crc)| < OVERRUN && TailText(crc)[0] == '*'
  {
    hide PrintHex;
    PrintHexLength(crc);
  }

  /** The tail of an ASCII body that is whole in memory. */
  lemma TailOfBody(body: string)
    requires IsBody(body)
    ensures TailText(Crc(0, body[1..])) == CrcTail(body)
  {
    CrcBound(0, body[1..]);
    SmallHex(Crc(0, body[1..]));
    hide Crc, PrintHex, Hex2;
  }

  lemma SmallHex(n: nat)
    requires n < 256
    ensures PrintHex(n) == Hex2(n)
  {}

  /** The checksum reads the body if there is room for more than it. */
  lemma BodyInMemory(mem: string, off: nat, room: nat, body: string)
    requires IsBody(body) && |body| < room && off + room <= |mem|
    ensures Window(Snprinted(mem, off, room, body), off + 1, off + |body|) == body[1..]
  {}

  // ---------------------------------------------------------------- the methods

  method Snprintf(buff: array<char>, off: nat, size: nat, text: string) returns (needed: nat)
    requires size == 0 || off + (if |text| < size then |text| + 1 else size) <= buff.Length
    modifies buff
    ensures needed == |text|
    ensures buff[..] == Snprinted(old(buff[..]), off, size, text)
  {
    needed := |text|;
    if size > 0 {
      var n := if |text| < size then |text| else size - 1;
      forall i | 0 <= i < n {
        buff[off + i] := text[i];
      }
      buff[off + n] := NUL;
      ghost var printed := text[..n] + [NUL];
      assert (if |text| < size then text else text[..size - 1]) + [NUL] == printed;
      assert buff[..] == Overwrite(old(buff[..]), off, printed);
    }
  }

  method Memset(buff: array<char>, off: nat, n: nat, c: char)
    requires off + n <= buff.Length && c == ' '
    modifies buff
    ensures buff[..] == Overwrite(old(buff[..]), off, Spaces(n))
  {
    forall i | 0 <= i < n {
      buff[off + i] := c;
    }
  }

  /** `nmea_printf` for a body that `vsnprintf` makes of the format and its arguments. */
  method Printf(buff: array<char>, off: nat, buffSz: int, body: string) returns (result: nat)
    requires IsBody(body) && IsInt(buffSz) && off <= buff.Length && Reaches(buff.Length, off, buffSz, body)
    modifies buff
    ensures result == |Written(buffSz, body)|
    ensures buff[..] == Printed(old(buff[..]), off, buffSz, body)
  {
    hide Snprinted, Overwrite, TailText, CrcTail, Crc, ToSize;
    if buffSz <= 0 {
      return 0;
    }
    ghost var mem := buff[..];
    var needed := Snprintf(buff, off, buffSz, body);
    var retval := if needed > INT_MAX then -1 else needed;
    if retval > 0 {
      var chsum := CalcCrc(buff[off + 1..off + retval]);
      assert buff[off + 1..off + retval] == Window(buff[..], off + 1, off + retval);
      TailLength(chsum);
      SizeOfRest(buffSz, retval);
      var add := Snprintf(buff, off + retval, ToSize(buffSz - retval), TailText(chsum));
      if |body| < buffSz {
        BodyInMemory(mem, off, buffSz, body);
        TailOfBody(body);
      }
      retval := retval + add;
    }
    if retval < 0 || retval > buffSz {
      Memset(buff, off, buffSz, ' ');
      retval := buffSz;
    }
    result := retval;
  }

  /** The room for the tail is enough for it, and far too much if the body was too long. */
  lemma SizeOfRest(room: int, n: nat)
    requires 0 < room <= INT_MAX && n <= INT_MAX
    ensures n <= room ==> ToSize(room - n) == room - n
    ensures n > room ==> ToSize(room - n) > OVERRUN
  {}

  // ---------------------------------------------------------------- what it means

  /** A body that frames well: no star, and no dollar but at its start. */
  predicate PlainBody(body: string) {
    IsBody(body) && '*' !in body && '$' !in body[1..]
  }

  lemma SentenceIsFrame(body: string)
    requires PlainBody(body)
    ensures IsFrame(Sentence(body))
  {
    var s, k := Sentence(body), |body|;
    CrcBound(0, body[1..]);
    AtoiHex2(Crc(0, body[1..]));
    assert s[k + 1..k + 3] == Hex2(Crc(0, body[1..]));
    assert Body(s, k) == body[1..];
    forall j | 0 <= j < k ensures s[j] != '*' && (j > 0 ==> s[j] != '$') {
      assert s[j] == body[j];
      if j > 0 { assert body[j] == body[1..][j - 1]; }
    }
  }

  /** The result describes the room: what was in front of it is kept, and what is written follows. */
  lemma PrintedInRoom(mem: string, off: nat, room: int, body: string)
    requires IsBody(body) && IsInt(room) && off <= |mem| && (room > 0 ==> off + room <= |mem|)
    ensures off + |Written(room, body)| <= |mem|
    ensures Printed(mem, off, room, body)[..off + |Written(room, body)|] == mem[..off] + Written(room, body)
  {
    hide CrcTail, TailText, Crc, ToSize;
    if room > 0 && |body| <= INT_MAX {
      var m := Snprinted(mem, off, room, body);
      TailLength(Crc(0, Window(m, off + 1, off + |body|)));
      SizeOfRest(room, |body|);
      if |body| < room {
        BodyInMemory(mem, off, room, body);
        TailOfBody(body);
        WholeOrBlank(mem, off, room, body);
      }
    }
  }

  /** The case in which the body leaves some room. */
  lemma WholeOrBlank(mem: string, off: nat, room: nat, body: string)
    requires IsBody(body) && |body| < room <= INT_MAX && off + room <= |mem|
    ensures var w := Written(room, body);
            var t := Snprinted(Snprinted(mem, off, room, body), off + |body|, room - |body|, CrcTail(body));
            (if |body| + TAIL_SIZE > room then Overwrite(t, off, Spaces(room)) else t)[..off + |w|] == mem[..off] + w
  {
    hide CrcTail, Sentence;
    SentenceLength(body);
    if |body| + TAIL_SIZE <= room {
      WholeInMemory(mem, off, room, body);
    } else {
      assert |Sentence(body)| > room;
    }
  }

  lemma SentenceLength(body: string)
    requires IsBody(body)
    ensures Sentence(body) == body + CrcTail(body) && |Sentence(body)| == |body| + TAIL_SIZE
  {}

  lemma WholeInMemory(mem: string, off: nat, room: nat, body: string)
    requires IsBody(body) && |body| + TAIL_SIZE <= room && off + room <= |mem|
    ensures var w := Written(room, body);
            Snprinted(Snprinted(mem, off, room, body), off + |body|, room - |body|, CrcTail(body))[..off + |w|] ==
            mem[..off] + w
  {
    hide CrcTail, Snprinted, TailText;
    var m, tail := Snprinted(mem, off, room, body), CrcTail(body);
    SentenceLength(body);
    SnprintedPrefix(mem, off, room, body);
    SnprintedPrefix(m, off + |body|, room - |body|, tail);
    assert m[..off + |body|] == mem[..off] + body;
    if |body| + TAIL_SIZE < room {
      assert mem[..off] + body + tail == mem[..off] + (body + tail);
    } else {
      var cut := tail[..TAIL_SIZE - 1];
      assert (body + tail)[..room - 1] == body + cut;
      assert mem[..off] + body + (cut + [NUL]) == mem[..off] + (body + cut + [NUL]);
    }
  }

  /** What `snprintf` writes follows what was in front of it. */
  lemma SnprintedPrefix(mem: string, at: nat, size: nat, text: string)
    requires 0 < size && at + size <= |mem|
    ensures |text| < size ==> Snprinted(mem, at, size, text)[..at + |text|] == mem[..at] + text
    ensures |text| >= size ==> Snprinted(mem, at, size, text)[..at + size] == mem[..at] + (text[..size - 1] + [NUL])
  {}

  /** Bytes outside the room are as before. */
  predicate SameOutside(mem: string, after: string, off: nat, room: int) {
    |after| == |mem| && forall i | 0 <= i < |mem| && !(off <= i < off + room) :: after[i] == mem[i]
  }

  lemma PrintedStaysInRoom(mem: string, off: nat, room: int, body: string)
    requires IsBody(body) && IsInt(room) && !Overruns(room, body)
    ensures SameOutside(mem, Printed(mem, off, room, body), off, room)
  {
    hide TailText, Crc, ToSize;
    if room > 0 && |body| <= INT_MAX {
      SizeOfRest(room, |body|);
    }
  }

  /** When the body is longer than the room, a star lands behind the room, and in front of it all is as before. */
  lemma PrintedLeavesRoom(mem: string, off: nat, room: int, body: string)
    requires IsBody(body) && IsInt(room) && Overruns(room, body) && Reaches(|mem|, off, room, body)
    ensures Printed(mem, off, room, body)[off + |body|] == '*'
    ensures Printed(mem, off, room, body)[..off] == mem[..off]
    ensures |Written(room, body)| == room
  {
    hide TailText, Crc, ToSize;
    var m := Snprinted(mem, off, room, body);
    TailLength(Crc(0, Window(m, off + 1, off + |body|)));
    SizeOfRest(room, |body|);
  }

  /** Whatever the memory holds, bytes outside the room are left alone: this is true exactly if there is no room,
      or the body is no longer than the room (or too long for an int). */
  lemma StaysInRoomExactly(off: nat, room: int, body: string)
    requires IsBody(body) && IsInt(room)
    ensures (forall mem: string | Reaches(|mem|, off, room, body) ::
               SameOutside(mem, Printed(mem, off, room, body), off, room))
            <==> !Overruns(room, body)
  {
    hide Printed;
    if Overruns(room, body) {
      var mem := seq(off + |body| + OVERRUN, _ => 'a');
      PrintedLeavesRoom(mem, off, room, body);
      assert !SameOutside(mem, Printed(mem, off, room, body), off, room);
    } else {
      forall mem: string ensures SameOutside(mem, Printed(mem, off, room, body), off, room) {
        PrintedStaysInRoom(mem, off, room, body);
      }
    }
  }

  /** One byte of room for two characters: the tail, with the checksum of a byte that is not part of the body, and its
      NUL overwrite the six bytes from the third on. */
  lemma OverrunOfOneByte()
    ensures Printed("aaaaaaaaaaaa", 0, 1, "$G") == " a*61\r\n" + [NUL] + "aaaa"
  {
    var mem := "aaaaaaaaaaaa";
    BodyThere();
    TailThere();
    BlankThere();
    XorZero('a' as int);
    assert "a"[1..] == "";
    assert Crc(0, "a") == 97;
    SizeOfRest(1, 2);
    assert TailText(97) == "*61\r\n";
    hide Snprinted, Overwrite, Crc, TailText, ToSize;
    assert Window([NUL] + "aaaaaaaaaaa", 1, 2) == "a";
  }

  lemma BodyThere()
    ensures Snprinted("aaaaaaaaaaaa", 0, 1, "$G") == [NUL] + "aaaaaaaaaaa"
  {}

  lemma TailThere()
    ensures Snprinted([NUL] + "aaaaaaaaaaa", 2, ToSize(-1), "*61\r\n") == [NUL] + "a*61\r\n" + [NUL] + "aaaa"
  {}

  lemma BlankThere()
    ensures Overwrite([NUL] + "a*61\r\n" + [NUL] + "aaaa", 0, Spaces(1)) == " a*61\r\n" + [NUL] + "aaaa"
  {}

  lemma {:induction false} XorZero(b: int)
    requires b >= 0
    ensures Xor(0, b) == b
    decreases b
  {
    XorUnfold(0, b);
    if b > 0 {
      XorZero(b / 2);
    }
  }
}
