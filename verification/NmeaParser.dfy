/** The stream parser of nmea/src/parser.c: a bounded buffer in front of a linked queue of packets. */
module NmeaParser {
  import opened Options
  import opened NmeaFraming
  import opened NmeaPackets

  // ---------------------------------------------------------------- specification

  /** What a framed sentence yields: a packet, or nothing when its type is unknown or it does not parse. */
  function Decode(f: string): (r: seq<Pack>)
    requires f != ""
    ensures ValidPacks(r)
  {
    match ParseAs(HeaderType(f[1..]), f)
    case Some(p) => [p]
    case None => []
  }

  predicate AllNonempty(fs: seq<string>) {
    forall i | 0 <= i < |fs| :: fs[i] != ""
  }

  function DecodeAll(fs: seq<string>): (r: seq<Pack>)
    requires AllNonempty(fs)
    ensures ValidPacks(r)
  {
    if fs == [] then [] else Decode(fs[0]) + DecodeAll(fs[1..])
  }

  /** The packets in a byte stream. */
  function Packets(s: string): (r: seq<Pack>)
    ensures ValidPacks(r)
  {
    FramesNonempty(s);
    DecodeAll(Reframe(s).frames)
  }

  lemma FramesNonempty(s: string)
    ensures AllNonempty(Reframe(s).frames)
  {
    FramesAreFrames(s);
    forall i | 0 <= i < |Reframe(s).frames| ensures Reframe(s).frames[i] != "" {
      assert Reframe(s).frames[i] in Reframe(s).frames;
    }
  }

  /** What a parser holds: the bytes not yet consumed and the packets not yet fetched. */
  datatype Stream = Stream(rest: string, queue: seq<Pack>)

  /** The re-framing loop on values: `queue` takes the packets of `s`, the rest stays. */
  function Flow(queue: seq<Pack>, s: string): Stream
    decreases |s|
  {
    match FindTail(s)
    case Wait => Stream(s, queue)
    case Skip(n) => Flow(queue, s[n..])
    case Frame(n) => Flow(queue + Decode(s[..n]), s[n..])
  }

  /** The loop cuts first and decodes then, sentence by sentence; the order makes no difference. */
  lemma {:induction false} FlowIsCutAndDecode(queue: seq<Pack>, s: string)
    ensures Flow(queue, s) == Stream(Reframe(s).rest, queue + Packets(s))
    decreases |s|
  {
    hide Decode;
    match FindTail(s)
    case Wait => assert queue + [] == queue;
    case Skip(n) => FlowIsCutAndDecode(queue, s[n..]);
    case Frame(n) =>
      PacketsOfFrame(s, n);
      FlowIsCutAndDecode(queue + Decode(s[..n]), s[n..]);
      assert queue + Decode(s[..n]) + Packets(s[n..]) == queue + (Decode(s[..n]) + Packets(s[n..]));
  }

  /** `nmea_parser_real_push`: a full buffer is dropped, then the bytes are added and cut. */
  function RealPush(size: nat, st: Stream, data: string): (r: Stream)
    ensures ValidPacks(st.queue) ==> ValidPacks(r.queue)
  {
    var kept := if |st.rest| + |data| >= size then "" else st.rest;
    Stream(Reframe(kept + data).rest, st.queue + Packets(kept + data))
  }

  /** The bytes `nmea_parser_real_push` reports as parsed. */
  function RealParsed(size: nat, st: Stream, data: string): nat {
    var kept := if |st.rest| + |data| >= size then "" else st.rest;
    |kept + data| - |Reframe(kept + data).rest|
  }

  /** `nmea_parser_push` for `todo` bytes at `data`, whose loop never advances `data`. */
  function PushFrom(size: nat, st: Stream, data: string, todo: nat): (r: Stream)
    requires 0 < size && todo <= |data|
    ensures ValidPacks(st.queue) ==> ValidPacks(r.queue)
    decreases todo
  {
    if todo <= size then RealPush(size, st, data[..todo])
    else PushFrom(size, RealPush(size, st, data[..size]), data, todo - size)
  }

  function Push(size: nat, st: Stream, data: string): (r: Stream)
    requires 0 < size
    ensures ValidPacks(st.queue) ==> ValidPacks(r.queue)
  {
    PushFrom(size, st, data, |data|)
  }

  function PushedFrom(size: nat, st: Stream, data: string, todo: nat): nat
    requires 0 < size && todo <= |data|
    decreases todo
  {
    if todo <= size then RealParsed(size, st, data[..todo])
    else RealParsed(size, st, data[..size]) +
         PushedFrom(size, RealPush(size, st, data[..size]), data, todo - size)
  }

  // ---------------------------------------------------------------- the parser object

  class Node {
    const packType: PackType
    const pack: Pack
    var nextNode: Node?
    ghost const number: nat  // how many packets were queued before this one

    constructor (packType: PackType, pack: Pack, ghost number: nat)
      ensures this.packType == packType && this.pack == pack && nextNode == null && this.number == number
    {
      this.packType, this.pack, nextNode, this.number := packType, pack, null, number;
    }
  }

  class Parser {
    var topNode: Node?
    var endNode: Node?
    const buffer: array<char>
    var buffUse: nat
    ghost var nodes: seq<Node>
    ghost var Repr: set<Node>
    ghost var fetched: nat  // how many packets have left the queue

    /** The linked list is the chain `nodes`, from the top node to the end node, each of the type of its packet. */
    ghost predicate Valid()
      reads this, Repr
    {
      && 0 < buffer.Length && buffUse <= buffer.Length
      && (nodes == [] ==> topNode == null && endNode == null)
      && (nodes != [] ==> topNode == nodes[0] && endNode == nodes[|nodes| - 1])
      && (forall i | 0 <= i < |nodes| :: nodes[i] in Repr && nodes[i].number == fetched + i)
      && (forall i {:trigger nodes[i].nextNode} | 0 <= i < |nodes| ::
            nodes[i].nextNode == if i + 1 < |nodes| then nodes[i + 1] else null)
      && (forall i | 0 <= i < |nodes| :: nodes[i].packType == TypeOf(nodes[i].pack) && ValidPack(nodes[i].pack))
    }

    ghost function Value(): Stream
      requires Valid()
      reads this, Repr, buffer
    {
      Stream(buffer[..buffUse], PacksOf(nodes))
    }

    static ghost function PacksOf(ns: seq<Node>): (r: seq<Pack>)
      ensures |r| == |ns|
    {
      seq(|ns|, i requires 0 <= i < |ns| => ns[i].pack)
    }

    constructor (size: nat)
      requires 0 < size
      ensures Valid() && fresh(buffer) && Repr == {} && buffer.Length == size && nodes == []
      ensures Value() == Stream("", [])
    {
      topNode, endNode, nodes, fetched, Repr := null, null, [], 0, {};
      buffer := new char[size];
      buffUse := 0;
    }

    /** The end of the re-framing loop: link a new node behind the last one. */
    method Append(node: Node)
      requires Valid() && node.nextNode == null && node.number == fetched + |nodes|
      requires node.packType == TypeOf(node.pack) && ValidPack(node.pack)
      modifies this, Repr
      ensures Valid() && nodes == old(nodes) + [node] && buffUse == old(buffUse) && fetched == old(fetched)
      ensures Repr == old(Repr) + {node}
    {
      if endNode != null {
        endNode.nextNode := node;
      }
      endNode := node;
      if topNode == null {
        topNode := node;
      }
      nodes, Repr := nodes + [node], Repr + {node};
    }

    /** `nmea_pack_type` and the parse functions on the sentence at `from`, whose header is looked up
        in all the bytes that are left in the buffer. */
    method DecodeAt(from: nat, size: nat) returns (node: Node?)
      requires Valid() && from + size <= buffUse
      requires FindTail(buffer[from..buffUse]) == Frame(size)
      ensures node == null ==> Decode(buffer[from..from + size]) == []
      ensures node != null ==> fresh(node) && Decode(buffer[from..from + size]) == [node.pack]
      ensures node != null ==> node.packType == TypeOf(node.pack) && ValidPack(node.pack)
      ensures node != null ==> node.nextNode == null && node.number == fetched + |nodes|
    {
      node := null;
      ghost var s, f := buffer[from..buffUse], buffer[from..from + size];
      assert s[..size] == f && s[1..] == buffer[from + 1..buffUse];
      HeaderIsInSentence(s, size);
      var ptype := HeaderType(buffer[from + 1..buffUse]);
      var pack := ParseSentence(ptype, buffer[from..from + size]);
      if pack.Some? {
        node := new Node(ptype, pack.value, fetched + |nodes|);
      }
    }

    /** The start of `nmea_parser_real_push`: drop the old bytes if there is no room, then copy. */
    method AddBytes(data: string)
      requires Valid() && |data| <= buffer.Length
      modifies this`buffUse, buffer
      ensures Valid()
      ensures buffer[..buffUse] == (if old(buffUse) + |data| >= buffer.Length then ""
                                    else old(buffer[..buffUse])) + data
    {
      if buffUse + |data| >= buffer.Length {
        buffUse := 0;
      }
      forall i | 0 <= i < |data| {
        buffer[buffUse + i] := data[i];
      }
      buffUse := buffUse + |data|;
    }

    /** The end of `nmea_parser_real_push`: move the bytes that are left to the front. */
    method Compact(nparsed: nat)
      requires Valid() && nparsed <= buffUse
      modifies this`buffUse, buffer
      ensures Valid() && buffer[..buffUse] == old(buffer[nparsed..buffUse])
    {
      if nparsed > 0 {
        buffUse := buffUse - nparsed;
        forall i | 0 <= i < buffUse {
          buffer[i] := buffer[nparsed + i];
        }
      }
    }

    /** Decode the sentence at `from` and link its packet, if any, into the queue. */
    method Enqueue(from: nat, size: nat)
      requires Valid() && from + size <= buffUse
      requires FindTail(buffer[from..buffUse]) == Frame(size)
      modifies this, Repr
      ensures Valid() && fresh(Repr - old(Repr)) && buffUse == old(buffUse)
      ensures PacksOf(nodes) == PacksOf(old(nodes)) + Decode(buffer[from..from + size])
    {
      hide Decode;
      var node := DecodeAt(from, size);
      if node != null {
        Append(node);
      }
    }

    static lemma SliceOfSlice(s: string, i: nat, n: nat, end: nat)
      requires i + n <= end <= |s|
      ensures s[i..i + n] == s[..end][i..][..n]
    {}

    /** The re-framing loop. */
    method CutSentences(ghost input: string) returns (nparsed: nat)
      requires Valid() && buffer[..buffUse] == input
      modifies this, Repr
      ensures Valid() && fresh(Repr - old(Repr))
      ensures buffUse == old(buffUse) && nparsed <= buffUse
      ensures Stream(input[nparsed..], PacksOf(nodes)) == Flow(PacksOf(old(nodes)), input)
    {
      hide Decode, FindTail;
      nparsed := 0;
      assert input[0..] == input;
      while true
        invariant Valid() && fresh(Repr - old(Repr))
        invariant nparsed <= buffUse == old(buffUse) && buffer[..buffUse] == input
        invariant Flow(PacksOf(nodes), input[nparsed..]) == Flow(PacksOf(old(nodes)), input)
        decreases buffUse - nparsed
      {
        ghost var s := input[nparsed..];
        SliceOfSlice(buffer[..], nparsed, |s|, buffUse);
        var senSz, crc := FindTailIn(buffer, nparsed, buffUse);
        if senSz == 0 {
          break;
        }
        assert s[senSz..] == input[nparsed + senSz..];
        if crc >= 0 {
          SliceOfSlice(buffer[..], nparsed, senSz, buffUse);
          Enqueue(nparsed, senSz);
        }
        nparsed := nparsed + senSz;
      }
    }

    /** `nmea_parser_real_push`. */
    method RealPushBytes(data: string) returns (nparsed: nat)
      requires Valid() && |data| <= buffer.Length
      modifies this, buffer, Repr
      ensures Valid() && fresh(Repr - old(Repr))
      ensures Value() == RealPush(buffer.Length, old(Value()), data)
      ensures nparsed == RealParsed(buffer.Length, old(Value()), data)
    {
      AddBytes(data);
      ghost var queue, input := PacksOf(nodes), buffer[..buffUse];
      nparsed := CutSentences(input);
      FlowIsCutAndDecode(queue, input);
      Compact(nparsed);
    }

    /** `nmea_parser_push`. */
    method PushBytes(data: string) returns (nparsed: nat)
      requires Valid()
      modifies this, buffer, Repr
      ensures Valid() && fresh(Repr - old(Repr))
      ensures Value() == Push(buffer.Length, old(Value()), data)
      ensures nparsed == PushedFrom(buffer.Length, old(Value()), data, |data|)
    {
      hide RealPush, RealParsed;
      var buffSz: nat := |data|;
      nparsed := 0;
      while true
        invariant Valid() && fresh(Repr - old(Repr))
        invariant buffSz <= |data|
        invariant Push(buffer.Length, old(Value()), data) == PushFrom(buffer.Length, Value(), data, buffSz)
        invariant PushedFrom(buffer.Length, old(Value()), data, |data|) ==
                  nparsed + PushedFrom(buffer.Length, Value(), data, buffSz)
        decreases buffSz
      {
        var nparse := if buffSz > buffer.Length then buffer.Length else buffSz;
        var n := RealPushBytes(data[..nparse]);
        nparsed := nparsed + n;
        if nparse == buffSz {
          return;
        }
        buffSz := buffSz - nparse;
      }
    }

    /** `nmea_parser_peek`, and `nmea_parser_top` in its first result. */
    method Peek() returns (ptype: PackType, pack: Option<Pack>)
      requires Valid()
      ensures var q := Value().queue;
              if q == [] then ptype == GPNON && pack == None
              else ptype == TypeOf(q[0]) != GPNON && pack == Some(q[0])
    {
      ptype, pack := GPNON, None;
      if topNode != null {
        ptype, pack := topNode.packType, Some(topNode.pack);
      }
    }

    /** `nmea_parser_pop`; `nmea_parser_drop` is the same but for the packet it does not hand out. */
    method Pop() returns (ptype: PackType, pack: Option<Pack>)
      requires Valid()
      modifies this
      ensures Valid() && buffUse == old(buffUse) && Repr == old(Repr)
      ensures Value().rest == old(Value()).rest
      ensures var q := old(Value()).queue;
              if q == [] then ptype == GPNON && pack == None && Value().queue == [] && nodes == []
              else ptype == TypeOf(q[0]) != GPNON && pack == Some(q[0]) && Value().queue == q[1..] &&
                   nodes == old(nodes)[1..]
    {
      ptype, pack := GPNON, None;
      var node := topNode;
      if node != null {
        ptype, pack := node.packType, Some(node.pack);
        topNode := node.nextNode;
        if topNode == null {
          endNode := null;
        }
        nodes, fetched := nodes[1..], fetched + 1;
      }
    }

    /** `nmea_parser_queue_clear`. */
    method ClearQueue()
      requires Valid()
      modifies this
      ensures Valid() && Value() == old(Value()).(queue := [])
    {
      while topNode != null
        invariant Valid() && buffUse == old(buffUse) && Value().rest == old(Value()).rest
        decreases |nodes|
      {
        var _, _ := Pop();
      }
    }

    /** The loop of `nmea_parse`: fetch packets until there are none, and fold each.
        `ok` is false when a packet makes the source leave the satellite table; nothing is said about what it does
        then. */
    method Drain(info: InfoTable) returns (nread: nat, ok: bool)
      requires Valid() && info.Valid()
      modifies this, info, info.sat
      ensures Valid() && ValidPacks(old(Value()).queue)
      ensures ok <==> FoldAll(old(info.Value()), old(Value()).queue).Some?
      ensures ok ==> nread == |old(Value()).queue| && Value() == old(Value()).(queue := [])
      ensures ok ==> FoldAll(old(info.Value()), old(Value()).queue) == Some(info.Value())
    {
      hide Fold;
      ghost var was, st := info.Value(), Value();
      nread, ok := 0, true;
      while true
        invariant Valid() && Value().rest == st.rest
        invariant nread <= |st.queue| && Value().queue == st.queue[nread..]
        invariant FoldAll(was, st.queue) == FoldAll(info.Value(), st.queue[nread..])
        decreases |st.queue| - nread
      {
        var ptype, pack := Pop();
        if ptype == GPNON {
          break;
        }
        nread := nread + 1;
        ok := info.Add(pack.value);
        if !ok {
          return;
        }
      }
      ok := true;
    }

    /** `nmea_parse`. */
    method ParseBytes(data: string, info: InfoTable) returns (nread: nat, ok: bool)
      requires Valid() && info.Valid() && ValidPacks(Value().queue)
      modifies this, buffer, Repr, info, info.sat
      ensures Valid()
      ensures ok <==> Parse(buffer.Length, old(Value()), old(info.Value()), data).Some?
      ensures var p := Parse(buffer.Length, old(Value()), old(info.Value()), data);
              ok ==> p == Some(Parsed(Value(), info.Value(), nread))
    {
      hide Push, FoldAll;
      var _ := PushBytes(data);
      nread, ok := Drain(info);
    }
  }

  datatype Parsed = Parsed(st: Stream, info: Info, nread: nat)

  /** `nmea_parse` on values: push, then fold and forget everything in the queue;
      None when a packet makes the source leave the satellite table. */
  function Parse(size: nat, st: Stream, info: Info, data: string): (r: Option<Parsed>)
    requires 0 < size && ValidInfo(info) && ValidPacks(st.queue)
    ensures r.Some? ==> ValidInfo(r.value.info) && r.value.st.queue == []
  {
    var pushed := Push(size, st, data);
    match FoldAll(info, pushed.queue)
    case None => None
    case Some(after) => Some(Parsed(pushed.(queue := []), after, |pushed.queue|))
  }

  /** The header lies inside the sentence, so looking past it makes no difference. */
  lemma HeaderIsInSentence(s: string, n: nat)
    requires FindTail(s) == Frame(n)
    ensures HeaderType(s[1..]) == HeaderType(s[1..n])
  {
    FrameExactly(s, n);
    assert s[..n][n - 2] == '\r' && s[n - 2] == '\r';
    if n == TAIL_SIZE {
      assert s[1..][2] == '\r';
      if |s| > n {
        assert s[1..][..5][2] == '\r';
      }
    } else {
      assert s[1..][..5] == s[1..n][..5];
    }
  }

  lemma PacketsOfFrame(s: string, n: nat)
    requires FindTail(s) == Frame(n)
    ensures Packets(s) == Decode(s[..n]) + Packets(s[n..])
  {
    hide Decode;
    FramesNonempty(s);
    assert Reframe(s).frames[0] == s[..n] && Reframe(s).frames[1..] == Reframe(s[n..]).frames;
  }
}
