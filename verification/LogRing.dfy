/** The overwriting queue of include/spdlog/details/circular_q.h. */
module LogRing {
  import opened Machine
  import opened Options

  // ---------------------------------------------------------------- the queue as a value

  /** `slots` is one more than the queue can hold, or 0 for a disabled queue; `overrun` counts modulo the size type. */
  datatype Ring<T> = Ring(slots: nat, items: seq<T>, overrun: nat) {
    predicate Valid() {
      slots < SIZE_T && overrun < SIZE_T && (if slots == 0 then items == [] && overrun == 0 else |items| < slots)
    }

    function Push(x: T): Ring<T> {
      if slots == 0 then this
      else if |items| + 1 < slots then this.(items := items + [x])
      else Ring(slots, (items + [x])[1..], (overrun + 1) % SIZE_T)
    }

    function Pop(): Ring<T>
      requires items != []
    {
      this.(items := items[1..])
    }
  }

  /** The newest elements of a list, at most `n`. */
  function Newest<T>(s: seq<T>, n: nat): (r: seq<T>)
    ensures |r| == if |s| <= n then |s| else n
    ensures forall i | 0 <= i < |r| :: r[i] == s[|s| - |r| + i]
  {
    if |s| <= n then s else s[|s| - n..]
  }

  // ---------------------------------------------------------------- runs

  datatype Op<T> = Pushed(x: T) | Popped

  /** The queue after a run, None if an empty queue was popped. */
  function Run<T>(q: Ring<T>, ops: seq<Op<T>>): Option<Ring<T>> {
    if ops == [] then Some(q)
    else
      match Run(q, ops[..|ops| - 1])
      case None => None
      case Some(r) =>
        match ops[|ops| - 1]
        case Pushed(x) => Some(r.Push(x))
        case Popped => if r.items == [] then None else Some(r.Pop())
  }

  function Pushes<T>(ops: seq<Op<T>>): seq<T> {
    if ops == [] then []
    else
      var before := Pushes(ops[..|ops| - 1]);
      match ops[|ops| - 1]
      case Pushed(x) => before + [x]
      case Popped => before
  }

  function Pops<T>(ops: seq<Op<T>>): nat {
    if ops == [] then 0
    else Pops(ops[..|ops| - 1]) + if ops[|ops| - 1] == Popped then 1 else 0
  }

  lemma CountOneMore(n: nat)
    ensures (n % SIZE_T + 1) % SIZE_T == (n + 1) % SIZE_T
  {}

  /** A queue into which `all` was pushed and out of which `pops` were popped: it holds a final stretch of `all`,
      and what is missing from it was popped or overrun. */
  predicate Accounts<T(==)>(q: Ring<T>, all: seq<T>, pops: nat) {
    && q.Valid() && q.slots > 0
    && pops + |q.items| <= |all| && q.items == all[|all| - |q.items|..]
    && q.overrun == (|all| - pops - |q.items|) % SIZE_T
  }

  lemma NewRingAccounts<T>(slots: nat)
    requires 0 < slots < SIZE_T
    ensures Accounts<T>(Ring(slots, [], 0), [], 0)
  {}

  lemma PushKeepsAccounts<T>(q: Ring<T>, all: seq<T>, pops: nat, x: T)
    requires Accounts(q, all, pops)
    ensures Accounts(q.Push(x), all + [x], pops) && q.Push(x).slots == q.slots
  {
    CountOneMore(|all| - pops - |q.items|);
    assert q.items + [x] == (all + [x])[|all| - |q.items|..];
  }

  lemma PopKeepsAccounts<T>(q: Ring<T>, all: seq<T>, pops: nat)
    requires Accounts(q, all, pops) && q.items != []
    ensures Accounts(q.Pop(), all, pops + 1) && q.Pop().slots == q.slots
  {
    assert q.items[1..] == all[|all| - |q.items| + 1..];
  }

  /** This holds in every state of every run: pushes = pops + size + overruns, the last counted modulo the size type. */
  lemma {:induction false} RunKeepsNewest<T>(slots: nat, ops: seq<Op<T>>)
    requires 0 < slots < SIZE_T && Run(Ring(slots, [], 0), ops).Some?
    ensures var q := Run(Ring(slots, [], 0), ops).value;
            q.slots == slots && Accounts(q, Pushes(ops), Pops(ops))
  {
    hide Ring.Push, Ring.Pop, Accounts;
    if ops == [] {
      NewRingAccounts<T>(slots);
    } else {
      var before := ops[..|ops| - 1];
      RunKeepsNewest(slots, before);
      var q, all := Run(Ring(slots, [], 0), before).value, Pushes(before);
      match ops[|ops| - 1] {
        case Pushed(x) => PushKeepsAccounts(q, all, Pops(before), x);
        case Popped => PopKeepsAccounts(q, all, Pops(before));
      }
    }
  }

  /** What the next pop takes is the element pushed after all those popped and overrun so far. */
  lemma FrontIsOldestKept<T>(slots: nat, ops: seq<Op<T>>)
    requires 0 < slots < SIZE_T && Run(Ring(slots, [], 0), ops).Some? && |Pushes(ops)| < SIZE_T
    ensures var q := Run(Ring(slots, [], 0), ops).value;
            q.items != [] ==> Pops(ops) + q.overrun < |Pushes(ops)| && q.items[0] == Pushes(ops)[Pops(ops) + q.overrun]
  {
    hide Run, Pushes, Pops, Accounts;
    RunKeepsNewest(slots, ops);
    var q := Run(Ring(slots, [], 0), ops).value;
    if q.items != [] {
      FrontOfAccounts(q, Pushes(ops), Pops(ops));
    }
  }

  lemma FrontOfAccounts<T>(q: Ring<T>, all: seq<T>, pops: nat)
    requires Accounts(q, all, pops) && q.items != [] && |all| < SIZE_T
    ensures pops + q.overrun < |all| && q.items[0] == all[pops + q.overrun]
  {
    SmallCount(|all| - pops - |q.items|);
  }

  lemma SmallCount(n: nat)
    requires n < SIZE_T
    ensures n % SIZE_T == n
  {}

  /** Without pops, exactly the newest `slots - 1` elements are there: an overrun happens only to a full queue. */
  lemma {:induction false} OnlyPushes<T>(q: Ring<T>, xs: seq<T>)
    requires q.Valid() && q.slots > 0
    ensures PushAll(q, xs).items == Newest(q.items + xs, q.slots - 1)
    ensures PushAll(q, xs).Valid() && PushAll(q, xs).slots == q.slots
  {
    hide Ring.Push;
    if xs == [] {
      assert q.items + xs == q.items;
    } else {
      var last := |xs| - 1;
      OnlyPushes(q, xs[..last]);
      PushKeepsNewest(PushAll(q, xs[..last]), q.items + xs[..last], xs[last]);
      assert q.items + xs == q.items + xs[..last] + [xs[last]];
    }
  }

  lemma PushKeepsNewest<T>(q: Ring<T>, all: seq<T>, x: T)
    requires q.Valid() && q.slots > 0 && q.items == Newest(all, q.slots - 1)
    ensures q.Push(x).Valid() && q.Push(x).slots == q.slots
    ensures q.Push(x).items == Newest(all + [x], q.slots - 1)
  {}

  function PushAll<T>(q: Ring<T>, xs: seq<T>): Ring<T> {
    if xs == [] then q else PushAll(q, xs[..|xs| - 1]).Push(xs[|xs| - 1])
  }

  /** A disabled queue takes nothing. */
  lemma {:induction false} DisabledStaysEmpty<T>(xs: seq<T>)
    ensures PushAll(Ring(0, [], 0), xs) == Ring(0, [], 0)
  {
    if xs != [] {
      DisabledStaysEmpty(xs[..|xs| - 1]);
    }
  }

  /** The constructor adds one to the wanted size and may wrap around: a queue for SIZE_T - 1 elements is disabled. */
  function Slots(maxItems: nat): nat {
    (maxItems + 1) % SIZE_T
  }

  lemma SlotsWrap(n: nat)
    requires n < SIZE_T
    ensures Slots(n) == if n == SIZE_T - 1 then 0 else n + 1
  {}

  /** A queue for `n` elements keeps the newest `n` of what is pushed, unless the size wrapped around. */
  lemma KeepsNewestExactly<T>(n: nat, xs: seq<T>)
    requires n < SIZE_T
    ensures PushAll(Ring(Slots(n), [], 0), xs).items == Newest(xs, n) <==> n != SIZE_T - 1 || xs == []
  {
    hide PushAll;
    SlotsWrap(n);
    if n == SIZE_T - 1 {
      DisabledStaysEmpty(xs);
    } else {
      OnlyPushes(Ring(Slots(n), [], 0), xs);
      assert [] + xs == xs;
    }
  }

  // ---------------------------------------------------------------- the queue as an object

  /** Where the slot `i` behind `head` is, in a circle of `n` slots. */
  function Around(head: nat, i: nat, n: nat): (k: nat)
    requires head < n && i < n
    ensures k < n
  {
    if head + i < n then head + i else head + i - n
  }

  lemma AroundIsRemainder(head: nat, i: nat, n: nat)
    requires head < n && i < n
    ensures (head + i) % n == Around(head, i, n)
  {
    if head + i < n {
      RemainderIs(head + i, n, 0, head + i);
    } else {
      RemainderIs(head + i, n, 1, head + i - n);
    }
  }

  lemma Product(n: nat, a: int, b: int)
    requires a < b
    ensures n * a + n <= n * b
  {
    var d := b - a - 1;
    assert n * b == n * a + n + n * d;
    assert n * d >= 0;
  }

  /** Quotient and remainder are unique. */
  lemma RemainderIs(k: nat, n: nat, q: nat, r: nat)
    requires n > 0 && r < n && k == n * q + r
    ensures k % n == r
  {
    var p, s := k / n, k % n;
    Quotient(k, n);
    QuotientsAgree(n, q, r, p, s);
  }

  lemma Quotient(k: nat, n: nat)
    requires n > 0
    ensures k == n * (k / n) + k % n && 0 <= k % n < n
  {}

  lemma QuotientsAgree(n: nat, q: int, r: nat, p: int, s: nat)
    requires r < n && s < n && n * q + r == n * p + s
    ensures q == p && r == s
  {
    if q < p {
      Product(n, q, p);
    } else if p < q {
      Product(n, p, q);
    }
  }

  /** The occupied slots, from the head on. */
  function Occupied<T>(v: seq<T>, head: nat, n: nat): (s: seq<T>)
    requires head < |v| && n < |v|
    ensures |s| == n
  {
    seq(n, i requires 0 <= i < n => v[Around(head, i, |v|)])
  }

  function Distance(head: nat, tail: nat, n: nat): nat
    requires head < n && tail < n
  {
    if tail >= head then tail - head else n - (head - tail)
  }

  lemma Appended<T>(v: seq<T>, head: nat, tail: nat, x: T)
    requires head < |v| && tail < |v|
    ensures var d, next := Distance(head, tail, |v|), Around(tail, 1 % |v|, |v|);
            && (next == head <==> d + 1 == |v|)
            && (next != head ==> Occupied(v[tail := x], head, Distance(head, next, |v|)) == Occupied(v, head, d) + [x])
            && (next == head ==>
                  var newHead := Around(head, 1 % |v|, |v|);
                  Occupied(v[tail := x], newHead, Distance(newHead, next, |v|)) == (Occupied(v, head, d) + [x])[1..])
  {
    if |v| == 1 {
    } else {
      assert 1 % |v| == 1;
    }
  }

  lemma Dropped<T>(v: seq<T>, head: nat, tail: nat)
    requires head < |v| && tail < |v| && head != tail
    ensures |v| > 1 && var next := Around(head, 1, |v|);
            Occupied(v, next, Distance(next, tail, |v|)) == Occupied(v, head, Distance(head, tail, |v|))[1..]
  {}

  class CircularQ<T(0)> {
    var maxItems: nat
    var head: nat
    var tail: nat
    var overrun: nat
    var v: array<T>

    predicate Valid()
      reads this
    {
      && maxItems == v.Length < SIZE_T && overrun < SIZE_T
      && (if maxItems == 0 then head == tail == overrun == 0 else head < maxItems && tail < maxItems)
    }

    /** The queue this object stands for. */
    function Contents(): (q: Ring<T>)
      requires Valid()
      reads this, v
      ensures q.Valid()
    {
      Ring(maxItems, if maxItems == 0 then [] else Occupied(v[..], head, Distance(head, tail, maxItems)), overrun)
    }

    /** The default constructor makes a disabled queue. */
    constructor Disabled()
      ensures Valid() && fresh(v) && Contents() == Ring(0, [], 0)
    {
      maxItems, head, tail, overrun, v := 0, 0, 0, 0, new T[0];
    }

    constructor (max: nat)
      requires max < SIZE_T
      ensures Valid() && fresh(v) && Contents() == Ring(Slots(max), [], 0)
    {
      maxItems, head, tail, overrun := Slots(max), 0, 0, 0;
      v := new T[Slots(max)];
    }

    /** `copy_moveable`: the elements change hands, and the source is a disabled queue. */
    method MoveFrom(other: CircularQ<T>)
      requires other != this && other.Valid()
      modifies this, other
      ensures Valid() && v == old(other.v) && Contents() == old(other.Contents())
      ensures other.Valid() && fresh(other.v) && other.Contents() == Ring(0, [], 0)
    {
      hide Occupied;
      maxItems, head, tail, overrun, v := other.maxItems, other.head, other.tail, other.overrun, other.v;
      other.maxItems, other.head, other.tail, other.overrun := 0, 0, 0, 0;
      other.v := new T[0];
    }

    method PushBack(item: T)
      requires Valid()
      modifies `head, `tail, `overrun, v
      ensures Valid() && v == old(v) && Contents() == old(Contents()).Push(item)
    {
      hide Occupied, Around;
      if maxItems > 0 {
        Appended(v[..], head, tail, item);
        OneAround(head, maxItems);
        OneAround(tail, maxItems);
        v[tail] := item;
        assert v[..] == old(v[..])[tail := item];
        tail := (tail + 1) % maxItems;
        if tail == head {
          head := (head + 1) % maxItems;
          overrun := (overrun + 1) % SIZE_T;
        }
      }
    }

    function Front(): (x: T)
      requires Valid() && !Empty()
      reads this, v
      ensures Contents().items != [] && x == Contents().items[0]
    {
      v[head]
    }

    function Size(): (n: nat)
      requires Valid()
      reads this, v
      ensures n == |Contents().items|
    {
      if tail >= head then tail - head else maxItems - (head - tail)
    }

    function At(i: nat): (x: T)
      requires Valid() && i < Size()
      reads this, v
      ensures x == Contents().items[i]
    {
      AroundIsRemainder(head, i, maxItems);
      v[(head + i) % maxItems]
    }

    method PopFront()
      requires Valid() && !Empty()
      modifies `head
      ensures Valid() && Contents() == old(Contents()).Pop()
    {
      hide Occupied, Around;
      Dropped(v[..], head, tail);
      OneAround(head, maxItems);
      head := (head + 1) % maxItems;
    }

    predicate Empty()
      requires Valid()
      reads this, v
      ensures Empty() <==> Contents().items == []
    {
      tail == head
    }

    predicate Full()
      requires Valid()
      reads this, v
      ensures Full() <==> maxItems > 0 && |Contents().items| == maxItems - 1
    {
      if maxItems > 0 then
        OneAround(tail, maxItems);
        (tail + 1) % maxItems == head
      else false
    }
  }

  lemma OneAround(k: nat, n: nat)
    requires k < n
    ensures 1 % n < n && (k + 1) % n == Around(k, 1 % n, n) && (n > 1 ==> 1 % n == 1)
  {
    if n == 1 {
      assert (k + 1) % n == 0;
    } else {
      AroundIsRemainder(k, 1, n);
      AroundIsRemainder(0, 1, n);
    }
  }
}
