/** What nmea/src/generate.c leaves in the room it is given. */
module NmeaOutput {
  import opened Decimals
  import opened NmeaText
  import opened NmeaFraming
  import opened NmeaPackets
  import opened NmeaParser
  import opened NmeaPrintf
  import opened NmeaGenerate

  // ---------------------------------------------------------------- bounded generation

  function Sentences(bodies: seq<string>): string
    requires ValidBodies(bodies)
  {
    if bodies == [] then ""
    else
      BodyIsBody(bodies);
      Sentence(bodies[0]) + Sentences(bodies[1..])
  }

  lemma BodyAt(bodies: seq<string>, k: nat)
    requires ValidBodies(bodies) && k < |bodies|
    ensures ValidBody(bodies[k]) && IsBody(bodies[k])
  {
    hide IsBody;
  }

  lemma SentenceEnds(body: string)
    requires IsBody(body)
    ensures |Sentence(body)| > TAIL_SIZE && Sentence(body)[|Sentence(body)| - 1] == '\n'
  {}

  /** The output is `k` whole sentences; it ends there with room to spare, or it is filled to the last byte by
      blanks or by one more sentence whose line feed became a NUL. */
  ghost predicate Shaped(out: string, room: int, bodies: seq<string>, k: nat)
    requires ValidBodies(bodies) && k <= |bodies|
  {
    var whole := Sentences(bodies[..k]);
    if k == |bodies| then
      out == whole && |whole| < room
    else
      && |whole| < room
      && (BodyAt(bodies, k);
          var s := Sentence(bodies[k]);
          if |whole| + |s| > room then out == whole + Spaces(room - |whole|)
          else |whole| + |s| == room && out == whole + (s[..|s| - 1] + [NUL]))
  }

  /** Generation never exceeds its room, and its output always has that shape. */
  lemma {:induction false} GenerationIsBounded(room: int, bodies: seq<string>) returns (k: nat)
    requires ValidBodies(bodies) && room > 0
    ensures k <= |bodies| && |Emit(room, bodies)| <= room
    ensures Shaped(Emit(room, bodies), room, bodies, k)
    decreases bodies
  {
    hide Sentence, ValidBody, IsBody, Written, Shaped;
    if bodies == [] {
      ShapedEnd(room);
      return 0;
    }
    BodyIsBody(bodies);
    EmitNext(room, bodies);
    WrittenIs(room, bodies[0]);
    var s := Sentence(bodies[0]);
    if |s| >= room {
      k := 0;
      EmitNothing(0, bodies[1..]);
      assert Written(room, bodies[0]) + "" == Written(room, bodies[0]);
      ShapedFirst(room, bodies);
    } else {
      var n := GenerationIsBounded(room - |s|, bodies[1..]);
      k := n + 1;
      ShapedStep(Emit(room - |s|, bodies[1..]), room, bodies, n);
    }
  }

  lemma WrittenIs(room: int, body: string)
    requires IsBody(body) && room > 0
    ensures |Sentence(body)| < room ==> Written(room, body) == Sentence(body)
    ensures |Sentence(body)| >= room ==> |Written(room, body)| == room
  {
    hide Sentence;
  }

  lemma ShapedEnd(room: int)
    requires room > 0
    ensures Shaped("", room, [], 0)
  {}

  /** The first sentence fills the room. */
  lemma ShapedFirst(room: int, bodies: seq<string>)
    requires ValidBodies(bodies) && bodies != [] && IsBody(bodies[0]) && 0 < room <= |Sentence(bodies[0])|
    ensures Shaped(Written(room, bodies[0]), room, bodies, 0)
  {
    hide Sentence, ValidBody;
    var s := Sentence(bodies[0]);
    assert bodies[..0] == [];
    assert "" + Spaces(room) == Spaces(room);
    assert "" + (s[..|s| - 1] + [NUL]) == s[..|s| - 1] + [NUL];
  }

  /** One more whole sentence in front of an output keeps its shape. */
  lemma ShapedStep(out: string, room: int, bodies: seq<string>, n: nat)
    requires ValidBodies(bodies) && n < |bodies| && IsBody(bodies[0])
    requires Shaped(out, room - |Sentence(bodies[0])|, bodies[1..], n)
    ensures Shaped(Sentence(bodies[0]) + out, room, bodies, n + 1)
  {
    hide Sentence, PlainBody, Spaces;
    var s, rest := Sentence(bodies[0]), Sentences(bodies[1..][..n]);
    assert bodies[..n + 1][0] == bodies[0] && bodies[..n + 1][1..] == bodies[1..][..n];
    assert Sentences(bodies[..n + 1]) == s + rest;
    if n + 1 < |bodies| {
      assert bodies[1..][n] == bodies[n + 1];
      BodyAt(bodies, n + 1);
      var t := Sentence(bodies[n + 1]);
      assert s + (rest + Spaces(room - |s| - |rest|)) == s + rest + Spaces(room - |s| - |rest|);
      assert s + (rest + (t[..|t| - 1] + [NUL])) == s + rest + (t[..|t| - 1] + [NUL]);
    }
  }

  lemma {:induction false} SentencesSplit(bodies: seq<string>, k: nat)
    requires ValidBodies(bodies) && k <= |bodies|
    ensures Sentences(bodies) == Sentences(bodies[..k]) + Sentences(bodies[k..])
  {
    hide Sentence, PlainBody;
    if k == 0 {
      assert bodies[..0] == [] && bodies[0..] == bodies;
    } else {
      SentencesSplit(bodies[1..], k - 1);
      assert bodies[..k][1..] == bodies[1..][..k - 1] && bodies[1..][k - 1..] == bodies[k..];
      BodyIsBody(bodies);
    }
  }

  /** All sentences come out undamaged if and only if they leave at least one byte of the room. */
  lemma WholeExactlyWhenItFits(room: int, bodies: seq<string>)
    requires ValidBodies(bodies) && bodies != []
    ensures Emit(room, bodies) == Sentences(bodies) <==> |Sentences(bodies)| < room
  {
    hide ValidBody, Emit, Sentence;
    BodyIsBody(bodies);
    if room <= 0 {
      EmitNothing(room, bodies);
      SentenceEnds(bodies[0]);
    } else {
      var k := GenerationIsBounded(room, bodies);
      SentencesSplit(bodies, k);
      if k == |bodies| {
        assert bodies[..k] == bodies;
      } else {
        assert bodies[k..][0] == bodies[k];
        BodyAt(bodies, k);
        SentenceEnds(bodies[k]);
        var whole, s, after := Sentences(bodies[..k]), Sentence(bodies[k]), Sentences(bodies[k..][1..]);
        assert Sentences(bodies) == whole + (s + after);
        if |whole| + |s| == room {
          assert Emit(room, bodies)[room - 1] == NUL;
          assert Sentences(bodies)[room - 1] == s[|s| - 1] == '\n';
        }
      }
    }
  }

  // ---------------------------------------------------------------- cutting the output again

  function DecodeBodies(bodies: seq<string>): (r: seq<Pack>)
    requires ValidBodies(bodies)
    ensures ValidPacks(r)
  {
    if bodies == [] then []
    else
      BodyIsBody(bodies);
      SentenceStart(bodies[0]);
      Decode(Sentence(bodies[0])) + DecodeBodies(bodies[1..])
  }

  lemma SentenceStart(body: string)
    requires IsBody(body)
    ensures |Sentence(body)| > |body| && Sentence(body)[0] == body[0]
  {}

  lemma FirstIsCut(noise: string, body: string, t: string)
    requires ValidBody(body) && '*' !in noise
    ensures Reframe(noise + (Sentence(body) + t)) == Cut([Sentence(body)] + Reframe(t).frames, Reframe(t).rest)
    ensures Sentence(body) != "" && Packets(noise + (Sentence(body) + t)) == Decode(Sentence(body)) + Packets(t)
  {
    hide Sentence, Decode, FindTail, IsFrame, Reframe;
    var s := Sentence(body);
    SentenceIsFrame(body);
    SentenceStart(body);
    NoiseIsSkipped(noise, s + t);
    SentenceIsCut(s, t);
    FramesNonempty(t);
    assert ([s] + Reframe(t).frames)[1..] == Reframe(t).frames;
  }

  /** A stream of whole sentences is cut back into exactly these sentences, after any bytes without a star. */
  lemma {:induction false} SentencesAreCut(noise: string, bodies: seq<string>)
    requires ValidBodies(bodies) && '*' !in noise && bodies != []
    ensures Packets(noise + Sentences(bodies)) == DecodeBodies(bodies)
    ensures Reframe(noise + Sentences(bodies)).rest == ""
    decreases bodies
  {
    hide Sentence, Decode, FindTail, ValidBody, IsBody;
    BodyIsBody(bodies);
    var t := Sentences(bodies[1..]);
    FirstIsCut(noise, bodies[0], t);
    if |bodies| == 1 {
      assert t == "";
      NothingToCut();
    } else {
      hide Packets, Reframe;
      SentencesAreCut("", bodies[1..]);
      assert "" + t == t;
    }
  }

  lemma NothingToCut()
    ensures Reframe("") == Cut([], "") && Packets("") == []
  {}

  lemma {:induction false} DecodeBodiesConcat(xs: seq<string>, ys: seq<string>)
    requires ValidBodies(xs) && ValidBodies(ys)
    ensures ValidBodies(xs + ys) && DecodeBodies(xs + ys) == DecodeBodies(xs) + DecodeBodies(ys)
  {
    hide Sentence, Decode, ValidBody, IsBody;
    ValidSplit(xs, ys);
    if xs == [] {
      assert xs + ys == ys;
    } else {
      BodyIsBody(xs);
      assert (xs + ys)[0] == xs[0] && (xs + ys)[1..] == xs[1..] + ys;
      DecodeBodiesConcat(xs[1..], ys);
    }
  }

  lemma DecodeOne(body: string)
    requires ValidBody(body)
    ensures ValidBodies([body]) && IsBody(body) && Sentence(body) != "" &&
            DecodeBodies([body]) == Decode(Sentence(body))
  {
    hide Sentence, Decode;
    SentenceStart(body);
    assert [body][1..] == [];
  }
}
