/** The logger of include/spdlog/logger-inl.h with its backtrace: what is sent to the sinks, and what a dump replays. */
module LogBacktrace {
  import opened Machine
  import opened LogRing

  // ---------------------------------------------------------------- messages and what the sinks are sent

  /** trace 0, debug 1, info 2, warn 3, err 4, critical 5, off 6 */
  type Level = l: nat | l <= 6

  const INFO: Level := 2
  const OFF: Level := 6

  /** Time, thread and place of a message. */
  datatype Origin = Origin(time: int, thread: nat, file: string, line: int)

  datatype Message = Message(logger: string, level: Level, payload: string, origin: Origin)

  /** One call of a sink: `sink` is its position in the logger's list. */
  datatype Call = Sent(sink: nat, msg: Message) | Flushed(sink: nat)

  const START := "****************** Backtrace Start ******************"
  const END := "****************** Backtrace End ********************"

  function Marker(name: string, text: string, origin: Origin): Message {
    Message(name, INFO, text, origin)
  }

  /** Each sink gets the message if its own level lets it through. */
  function SendTo(levels: seq<Level>, msg: Message): seq<Call> {
    if levels == [] then []
    else
      var i := |levels| - 1;
      SendTo(levels[..i], msg) + if msg.level >= levels[i] then [Sent(i, msg)] else []
  }

  function FlushAll(n: nat): seq<Call> {
    if n == 0 then [] else FlushAll(n - 1) + [Flushed(n - 1)]
  }

  predicate ShouldFlush(flushLevel: Level, msg: Message) {
    msg.level >= flushLevel && msg.level != OFF
  }

  /** `sink_it_` */
  function Deliver(levels: seq<Level>, flushLevel: Level, msg: Message): seq<Call> {
    SendTo(levels, msg) + if ShouldFlush(flushLevel, msg) then FlushAll(|levels|) else []
  }

  function DeliverAll(levels: seq<Level>, flushLevel: Level, msgs: seq<Message>): seq<Call> {
    if msgs == [] then []
    else DeliverAll(levels, flushLevel, msgs[..|msgs| - 1]) + Deliver(levels, flushLevel, msgs[|msgs| - 1])
  }

  lemma {:induction false} DeliverAllConcat(levels: seq<Level>, flushLevel: Level, a: seq<Message>, b: seq<Message>)
    ensures DeliverAll(levels, flushLevel, a + b) ==
            DeliverAll(levels, flushLevel, a) + DeliverAll(levels, flushLevel, b)
  {
    hide Deliver;
    if b == [] {
      assert a + b == a;
    } else {
      var last := |b| - 1;
      DeliverAllConcat(levels, flushLevel, a, b[..last]);
      assert (a + b)[..|a + b| - 1] == a + b[..last];
    }
  }

  // ---------------------------------------------------------------- what one sink gets

  /** The messages among the calls of one sink. */
  function Received(calls: seq<Call>, sink: nat): seq<Message> {
    if calls == [] then []
    else
      var c := calls[|calls| - 1];
      Received(calls[..|calls| - 1], sink) + if c.Sent? && c.sink == sink then [c.msg] else []
  }

  /** The messages a level lets through. */
  function PassedBy(level: Level, msgs: seq<Message>): seq<Message> {
    if msgs == [] then []
    else
      var m := msgs[|msgs| - 1];
      PassedBy(level, msgs[..|msgs| - 1]) + if m.level >= level then [m] else []
  }

  lemma {:induction false} ReceivedConcat(a: seq<Call>, b: seq<Call>, sink: nat)
    ensures Received(a + b, sink) == Received(a, sink) + Received(b, sink)
  {
    if b == [] {
      assert a + b == a;
    } else {
      var last := |b| - 1;
      ReceivedConcat(a, b[..last], sink);
      assert (a + b)[..|a + b| - 1] == a + b[..last];
    }
  }

  lemma {:induction false} SinkGetsMessage(levels: seq<Level>, msg: Message, sink: nat)
    ensures Received(SendTo(levels, msg), sink) ==
            if sink < |levels| && msg.level >= levels[sink] then [msg] else []
  {
    if levels != [] {
      var i := |levels| - 1;
      SinkGetsMessage(levels[..i], msg, sink);
      var c := if msg.level >= levels[i] then [Sent(i, msg)] else [];
      ReceivedConcat(SendTo(levels[..i], msg), c, sink);
      ReceivedOne(c, sink);
    }
  }

  lemma ReceivedOne(c: seq<Call>, sink: nat)
    requires |c| <= 1
    ensures Received(c, sink) == if c != [] && c[0].Sent? && c[0].sink == sink then [c[0].msg] else []
  {}

  lemma {:induction false} FlushesCarryNothing(n: nat, sink: nat)
    ensures Received(FlushAll(n), sink) == []
  {
    if n > 0 {
      FlushesCarryNothing(n - 1, sink);
      assert (FlushAll(n - 1) + [Flushed(n - 1)])[..|FlushAll(n)| - 1] == FlushAll(n - 1);
    }
  }

  /** Through `sink_it_`, each sink gets exactly the messages its level lets through, in order. */
  lemma {:induction false} EachSinkFilters(levels: seq<Level>, flushLevel: Level, msgs: seq<Message>, sink: nat)
    requires sink < |levels|
    ensures Received(DeliverAll(levels, flushLevel, msgs), sink) == PassedBy(levels[sink], msgs)
  {
    if msgs != [] {
      var last := |msgs| - 1;
      var m := msgs[last];
      EachSinkFilters(levels, flushLevel, msgs[..last], sink);
      ReceivedConcat(DeliverAll(levels, flushLevel, msgs[..last]), Deliver(levels, flushLevel, m), sink);
      var flushes := if ShouldFlush(flushLevel, m) then FlushAll(|levels|) else [];
      ReceivedConcat(SendTo(levels, m), flushes, sink);
      SinkGetsMessage(levels, m, sink);
      FlushesCarryNothing(|levels|, sink);
    }
  }

  // ---------------------------------------------------------------- the logger as a state machine

  datatype State = State(
    name: string, level: Level, flushLevel: Level, sinkLevels: seq<Level>, tracing: bool, ring: Ring<Message>,
    calls: seq<Call>)

  datatype Action =
    | Logged(level: Level, payload: string, origin: Origin)
    | Enabled(size: nat)
    | Disabled
    | Dumped(start: Origin, end: Origin)
    | LevelSet(newLevel: Level)
    | FlushLevelSet(newFlushLevel: Level)
    | FlushedNow
    | SinkLevelsSet(newSinkLevels: seq<Level>)

  function SinkIt(s: State, msg: Message): State {
    s.(calls := s.calls + Deliver(s.sinkLevels, s.flushLevel, msg))
  }

  function Act(s: State, a: Action): State {
    match a
    case Logged(level, payload, origin) =>
      var msg := Message(s.name, level, payload, origin);
      var t := if level >= s.level then SinkIt(s, msg) else s;
      if s.tracing then t.(ring := t.ring.Push(msg)) else t
    case Enabled(size) => s.(tracing := true, ring := Ring(Slots(size), [], 0))
    case Disabled => s.(tracing := false)
    case Dumped(start, end) => if s.tracing then Dump(s, start, end) else s
    case LevelSet(l) => s.(level := l)
    case FlushLevelSet(l) => s.(flushLevel := l)
    case FlushedNow => s.(calls := s.calls + FlushAll(|s.sinkLevels|))
    case SinkLevelsSet(ls) => if |ls| == |s.sinkLevels| then s.(sinkLevels := ls) else s
  }

  /** The start marker, what the ring holds, the end marker; the ring is empty afterwards. */
  function Dump(s: State, start: Origin, end: Origin): State {
    var replayed := [Marker(s.name, START, start)] + s.ring.items + [Marker(s.name, END, end)];
    s.(calls := s.calls + DeliverAll(s.sinkLevels, s.flushLevel, replayed), ring := s.ring.(items := []))
  }

  function ActAll(s: State, actions: seq<Action>): State {
    if actions == [] then s else Act(ActAll(s, actions[..|actions| - 1]), actions[|actions| - 1])
  }

  /** What was logged, of any level, while the backtrace was not yet disabled again. */
  function Traced(name: string, actions: seq<Action>): seq<Message> {
    if actions == [] then []
    else
      var before := actions[..|actions| - 1];
      var a := actions[|actions| - 1];
      Traced(name, before) +
      if a.Logged? && StaysEnabled(before) then [Message(name, a.level, a.payload, a.origin)] else []
  }

  predicate StaysEnabled(actions: seq<Action>) {
    forall i | 0 <= i < |actions| :: actions[i] != Disabled
  }

  /** Neither a new ring nor a dump. */
  predicate KeepsRing(actions: seq<Action>) {
    forall i | 0 <= i < |actions| :: !actions[i].Enabled? && !actions[i].Dumped?
  }

  /** What a ring keeps of a list. */
  function Kept<T>(slots: nat, xs: seq<T>): seq<T> {
    if slots == 0 then [] else Newest(xs, slots - 1)
  }

  /** A ring made for `n` messages keeps the newest `n`, unless its size wrapped around. */
  lemma KeptExactly<T>(n: nat, xs: seq<T>)
    requires n < SIZE_T
    ensures Kept(Slots(n), xs) == Newest(xs, n) <==> n != SIZE_T - 1 || xs == []
  {
    SlotsWrap(n);
  }

  lemma KeptOneMore<T>(q: Ring<T>, xs: seq<T>, x: T)
    requires q.Valid() && q.items == Kept(q.slots, xs)
    ensures q.Push(x).Valid() && q.Push(x).slots == q.slots && q.Push(x).items == Kept(q.slots, xs + [x])
  {}

  /** Whatever else happens between: an enabled backtrace that was emptied holds the newest messages logged since. */
  lemma {:induction false} RingHoldsNewestTraced(s: State, actions: seq<Action>)
    requires s.tracing && s.ring.Valid() && s.ring.items == [] && KeepsRing(actions)
    ensures var t := ActAll(s, actions);
            && t.name == s.name && t.tracing == StaysEnabled(actions) && t.ring.Valid() && t.ring.slots == s.ring.slots
            && t.ring.items == Kept(s.ring.slots, Traced(s.name, actions))
  {
    if actions != [] {
      var before, a := actions[..|actions| - 1], actions[|actions| - 1];
      RingHoldsNewestTraced(s, before);
      assert StaysEnabled(actions) <==> StaysEnabled(before) && a != Disabled;
      var t := ActAll(s, before);
      hide Ring.Push, Ring.Valid, Kept, Deliver, FlushAll, StaysEnabled;
      if a.Logged? && t.tracing {
        KeptOneMore(t.ring, Traced(s.name, before), Message(s.name, a.level, a.payload, a.origin));
      } else {
        assert Traced(s.name, actions) == Traced(s.name, before);
      }
    }
  }

  /** A dump replays, between the two markers, the newest messages logged since the backtrace was enabled or dumped,
      also those below the level of the logger; each sink gets those its own level lets through. */
  lemma DumpReplays(s: State, actions: seq<Action>, start: Origin, end: Origin, sink: nat)
    requires s.tracing && s.ring.Valid() && s.ring.items == [] && KeepsRing(actions) && StaysEnabled(actions)
    requires sink < |s.sinkLevels|
    ensures var t := ActAll(s, actions);
            var d := Act(t, Dumped(start, end));
            var kept := Kept(s.ring.slots, Traced(s.name, actions));
            var sent := [Marker(s.name, START, start)] + kept + [Marker(s.name, END, end)];
            && d == t.(calls := t.calls + DeliverAll(t.sinkLevels, t.flushLevel, sent), ring := t.ring.(items := []))
            && |t.sinkLevels| == |s.sinkLevels|
            && Received(d.calls, sink) == Received(t.calls, sink) + PassedBy(t.sinkLevels[sink], sent)
  {
    hide DeliverAll, Received, PassedBy, Kept, Traced, StaysEnabled, ActAll;
    RingHoldsNewestTraced(s, actions);
    SinksStay(s, actions);
    var t := ActAll(s, actions);
    var kept := Kept(s.ring.slots, Traced(s.name, actions));
    var sent := [Marker(s.name, START, start)] + kept + [Marker(s.name, END, end)];
    ReceivedConcat(t.calls, DeliverAll(t.sinkLevels, t.flushLevel, sent), sink);
    EachSinkFilters(t.sinkLevels, t.flushLevel, sent, sink);
  }

  lemma {:induction false} SinksStay(s: State, actions: seq<Action>)
    ensures |ActAll(s, actions).sinkLevels| == |s.sinkLevels|
  {
    if actions != [] {
      hide Deliver, FlushAll, DeliverAll;
      SinksStay(s, actions[..|actions| - 1]);
    }
  }

  /** Enabling and dumping both leave an enabled backtrace with nothing in it: the next dump starts from here. */
  lemma EnableAndDumpStartAfresh(s: State, n: nat, start: Origin, end: Origin)
    requires n < SIZE_T
    ensures var e := Act(s, Enabled(n)); e.tracing && e.ring.Valid() && e.ring.items == [] && e.ring.slots == Slots(n)
    ensures s.tracing && s.ring.Valid() ==>
            var d := Act(s, Dumped(start, end));
            d.tracing && d.ring.Valid() && d.ring.items == [] && d.ring.slots == s.ring.slots
  {
    hide DeliverAll;
  }

  /** After a disable, a dump does nothing. */
  lemma DisabledDumpIsSilent(s: State, actions: seq<Action>, start: Origin, end: Origin)
    requires s.tracing && s.ring.Valid() && s.ring.items == [] && KeepsRing(actions) && !StaysEnabled(actions)
    ensures Act(ActAll(s, actions), Dumped(start, end)) == ActAll(s, actions)
  {
    hide ActAll, StaysEnabled;
    RingHoldsNewestTraced(s, actions);
  }

  // ---------------------------------------------------------------- the objects

  class Sink {
    var level: Level

    constructor (l: Level)
      ensures level == l
    {
      level := l;
    }

    predicate ShouldLog(msgLevel: Level)
      reads this
    {
      msgLevel >= level
    }
  }

  class Backtracer {
    var enabled: bool
    const messages: CircularQ<Message>

    constructor ()
      ensures !enabled && messages.Valid() && fresh(messages) && fresh(messages.v) &&
              messages.Contents() == Ring(0, [], 0)
    {
      enabled := false;
      messages := new CircularQ.Disabled();
    }

    method Enable(size: nat)
      requires size < SIZE_T && messages.Valid()
      modifies this, messages
      ensures enabled && messages.Valid() && fresh(messages.v) && messages.Contents() == Ring(Slots(size), [], 0)
    {
      enabled := true;
      var q := new CircularQ<Message>(size);
      messages.MoveFrom(q);
    }

    method Disable()
      modifies this
      ensures !enabled
    {
      enabled := false;
    }

    method PushBack(msg: Message)
      requires messages.Valid()
      modifies messages, messages.v
      ensures messages.Valid() && messages.v == old(messages.v)
      ensures messages.Contents() == old(messages.Contents()).Push(msg)
    {
      messages.PushBack(msg);
    }
  }

  class Logger {
    var name: string
    var level: Level
    var flushLevel: Level
    var sinks: seq<Sink>
    const tracer: Backtracer
    var calls: seq<Call>  // what the sinks were sent so far

    predicate Valid()
      reads this, tracer, tracer.messages
    {
      tracer.messages.Valid()
    }

    static function LevelsOf(sinks: seq<Sink>): (r: seq<Level>)
      reads sinks
      ensures |r| == |sinks|
    {
      seq(|sinks|, i requires 0 <= i < |sinks| reads sinks => sinks[i].level)
    }

    function Current(): (s: State)
      requires Valid()
      reads this, sinks, tracer, tracer.messages, tracer.messages.v
      ensures s.ring.Valid()
    {
      State(name, level, flushLevel, LevelsOf(sinks), tracer.enabled, tracer.messages.Contents(), calls)
    }

    /** A new logger logs from info on, never flushes by itself and has no backtrace. */
    constructor (name: string, sinks: seq<Sink>)
      ensures Valid() && fresh(tracer) && fresh(tracer.messages) && fresh(tracer.messages.v) && this.sinks == sinks
      ensures Current() == State(name, INFO, OFF, LevelsOf(sinks), false, Ring(0, [], 0), [])
    {
      this.name, level, flushLevel, this.sinks, calls := name, INFO, OFF, sinks, [];
      tracer := new Backtracer();
    }

    method SinkIt(msg: Message)
      modifies `calls
      ensures calls == old(calls) + Deliver(LevelsOf(sinks), flushLevel, msg)
    {
      ghost var levels := LevelsOf(sinks);
      for i := 0 to |sinks|
        invariant calls == old(calls) + SendTo(levels[..i], msg)
      {
        assert levels[..i + 1][..i] == levels[..i];
        if sinks[i].ShouldLog(msg.level) {
          calls := calls + [Sent(i, msg)];
        }
      }
      assert levels[..|sinks|] == levels;
      if msg.level >= flushLevel && msg.level != OFF {
        FlushSinks();
      }
    }

    method FlushSinks()
      modifies `calls
      ensures calls == old(calls) + FlushAll(|sinks|)
    {
      for i := 0 to |sinks|
        invariant calls == old(calls) + FlushAll(i)
      {
        calls := calls + [Flushed(i)];
      }
    }

    /** A message goes to the sinks if the logger's level lets it through, and to the backtrace in any case. */
    method Log(lvl: Level, payload: string, origin: Origin)
      requires Valid()
      modifies this, tracer, tracer.messages, tracer.messages.v
      ensures Valid() && sinks == old(sinks) && tracer.messages.v == old(tracer.messages.v)
      ensures Current() == Act(old(Current()), Logged(lvl, payload, origin))
    {
      hide CircularQ.Contents, Ring.Push, Deliver;
      var logEnabled := lvl >= level;
      var tracebackEnabled := tracer.enabled;
      if !logEnabled && !tracebackEnabled {
        return;
      }
      var msg := Message(name, lvl, payload, origin);
      if logEnabled {
        SinkIt(msg);
      }
      if tracebackEnabled {
        tracer.PushBack(msg);
      }
    }

    method EnableBacktrace(n: nat)
      requires Valid() && n < SIZE_T
      modifies this, tracer, tracer.messages
      ensures Valid() && sinks == old(sinks) && fresh(tracer.messages.v)
      ensures Current() == Act(old(Current()), Enabled(n))
    {
      hide CircularQ.Contents;
      tracer.Enable(n);
    }

    method DisableBacktrace()
      requires Valid()
      modifies tracer
      ensures Valid() && sinks == old(sinks) && Current() == Act(old(Current()), Disabled)
    {
      hide CircularQ.Contents;
      tracer.Disable();
    }

    /** `foreach_pop` with `sink_it_` */
    method Replay()
      requires Valid()
      modifies `calls, tracer.messages
      ensures Valid() && tracer.messages.v == old(tracer.messages.v)
      ensures calls == old(calls) + DeliverAll(LevelsOf(sinks), flushLevel, old(tracer.messages.Contents().items))
      ensures tracer.messages.Contents() == old(tracer.messages.Contents()).(items := [])
    {
      hide CircularQ.Contents, CircularQ.Valid, DeliverAll, Deliver;
      ghost var q := tracer.messages.Contents();
      ghost var i := 0;
      NothingDelivered(LevelsOf(sinks), flushLevel);
      while !tracer.messages.Empty()
        invariant tracer.messages.Valid() && tracer.messages.v == old(tracer.messages.v)
        invariant i <= |q.items| && tracer.messages.Contents() == q.(items := q.items[i..])
        invariant calls == old(calls) + DeliverAll(LevelsOf(sinks), flushLevel, q.items[..i])
        decreases |q.items| - i
      {
        SinkIt(tracer.messages.Front());
        DeliverOneMore(LevelsOf(sinks), flushLevel, q.items, i);
        tracer.messages.PopFront();
        i := i + 1;
      }
      assert q.items[..i] == q.items;
    }

    method DumpBacktrace(start: Origin, end: Origin)
      requires Valid()
      modifies this, tracer, tracer.messages
      ensures Valid() && sinks == old(sinks) && tracer.messages.v == old(tracer.messages.v)
      ensures Current() == Act(old(Current()), Dumped(start, end))
    {
      hide CircularQ.Contents, CircularQ.Valid, DeliverAll, Deliver;
      if tracer.enabled {
        ghost var levels, items := LevelsOf(sinks), tracer.messages.Contents().items;
        SinkIt(Marker(name, START, start));
        Replay();
        SinkIt(Marker(name, END, end));
        DumpInThreeParts(levels, flushLevel, Marker(name, START, start), items, Marker(name, END, end));
      }
    }

    method SetLevel(l: Level)
      requires Valid()
      modifies `level
      ensures Valid() && sinks == old(sinks) && Current() == Act(old(Current()), LevelSet(l))
    {
      level := l;
    }

    method FlushOn(l: Level)
      requires Valid()
      modifies `flushLevel
      ensures Valid() && sinks == old(sinks) && Current() == Act(old(Current()), FlushLevelSet(l))
    {
      flushLevel := l;
    }

    method Flush()
      requires Valid()
      modifies `calls
      ensures Valid() && sinks == old(sinks) && Current() == Act(old(Current()), FlushedNow)
    {
      FlushSinks();
    }
  }

  lemma NothingDelivered(levels: seq<Level>, flushLevel: Level)
    ensures forall ms: seq<Message> :: DeliverAll(levels, flushLevel, ms[..0]) == []
  {}

  lemma DeliverOneMore(levels: seq<Level>, flushLevel: Level, ms: seq<Message>, i: nat)
    requires i < |ms|
    ensures DeliverAll(levels, flushLevel, ms[..i + 1]) ==
            DeliverAll(levels, flushLevel, ms[..i]) + Deliver(levels, flushLevel, ms[i])
  {
    hide Deliver;
    assert ms[..i + 1][..i] == ms[..i];
  }

  lemma DumpInThreeParts(levels: seq<Level>, flushLevel: Level, a: Message, ms: seq<Message>, b: Message)
    ensures DeliverAll(levels, flushLevel, [a] + ms + [b]) ==
            Deliver(levels, flushLevel, a) + DeliverAll(levels, flushLevel, ms) + Deliver(levels, flushLevel, b)
  {
    hide Deliver;
    DeliverAllConcat(levels, flushLevel, [a], ms);
    DeliverAllConcat(levels, flushLevel, [a] + ms, [b]);
    DeliverOneMore(levels, flushLevel, [a], 0);
    DeliverOneMore(levels, flushLevel, [b], 0);
    assert [a][..1] == [a] && [b][..1] == [b];
  }
}
