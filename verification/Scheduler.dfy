/** The tick scheduler of a game thread: functions queued with a delay in ticks, run and removed in place. */
module Scheduler {

  const WORD: nat := 0x1_0000_0000_0000_0000  // tick counts are 64 bits wide
  const HALF_WORD: nat := 0x1_0000_0000       // delays are 32 bits wide

  /** Sums of tick counts wrap around. */
  function Wrap(n: nat): nat { n % WORD }

  lemma WrapSmall(n: nat)
    requires n < WORD
    ensures Wrap(n) == n
  {
  }

  /** Functions are known by a number; running one is recorded with the tick at which it ran. */
  datatype DelayedFunc = DelayedFunc(targetTicks: nat, func: nat)

  datatype Call = Call(func: nat, tick: nat)

  datatype Thread = Thread(queue: seq<DelayedFunc>, tickCount: nat, calls: seq<Call>)

  // ---------------------------------------------------------------- one step

  function Enqueue(t: Thread, delayTicks: nat, func: nat): Thread {
    t.(queue := t.queue + [DelayedFunc(Wrap(t.tickCount + delayTicks), func)])
  }

  /** The functions that are due at a tick, as calls made at that tick. */
  function Due(fs: seq<DelayedFunc>, tick: nat): seq<Call> {
    if fs == [] then []
    else if tick >= fs[0].targetTicks then [Call(fs[0].func, tick)] + Due(fs[1..], tick)
    else Due(fs[1..], tick)
  }

  function Later(fs: seq<DelayedFunc>, tick: nat): seq<DelayedFunc> {
    if fs == [] then []
    else if tick >= fs[0].targetTicks then Later(fs[1..], tick)
    else [fs[0]] + Later(fs[1..], tick)
  }

  function Process(t: Thread): Thread {
    Thread(Later(t.queue, t.tickCount), Wrap(t.tickCount + 1), t.calls + Due(t.queue, t.tickCount))
  }

  // ---------------------------------------------------------------- the code

  class ThreadData {
    var delayedFuncs: array<DelayedFunc>  // the vector's storage
    var size: nat                         // how much of it is in use
    var tickCount: nat
    var calls: seq<Call>

    ghost predicate Valid()
      reads this
    {
      size <= delayedFuncs.Length && tickCount < WORD
    }

    ghost function State(): Thread
      requires Valid()
      reads this, delayedFuncs
    {
      Thread(delayedFuncs[..size], tickCount, calls)
    }

    constructor ()
      ensures Valid() && State() == Thread([], 0, []) && fresh(delayedFuncs)
    {
      delayedFuncs := new DelayedFunc[8](_ => DelayedFunc(0, 0));
      size, tickCount, calls := 0, 0, [];
    }

    method QueueDelayTicks(delayTicks: nat, func: nat)
      requires Valid() && delayTicks < HALF_WORD
      modifies this, delayedFuncs
      ensures Valid() && State() == Enqueue(old(State()), delayTicks, func)
      ensures delayedFuncs == old(delayedFuncs) || fresh(delayedFuncs)
    {
      if size == delayedFuncs.Length {
        var larger := new DelayedFunc[2 * size + 1](_ => DelayedFunc(0, 0));
        for i := 0 to size
          invariant forall k | 0 <= k < i :: larger[k] == old(delayedFuncs[k])
          invariant size == old(size) && delayedFuncs == old(delayedFuncs) && delayedFuncs[..] == old(delayedFuncs[..])
          invariant tickCount == old(tickCount) && calls == old(calls)
        {
          larger[i] := delayedFuncs[i];
        }
        delayedFuncs := larger;
        assert delayedFuncs[..size] == old(delayedFuncs[..size]);
      }
      delayedFuncs[size] := DelayedFunc(Wrap(tickCount + delayTicks), func);
      size := size + 1;
    }

    /** The predicate given to remove_if: it also runs the function. */
    method RunIfDue(f: DelayedFunc, tick: nat) returns (due: bool)
      modifies this`calls
      ensures due == (tick >= f.targetTicks)
      ensures calls == old(calls) + if due then [Call(f.func, tick)] else []
    {
      due := tick >= f.targetTicks;
      if due {
        calls := calls + [Call(f.func, tick)];
      }
    }

    /** remove_if: each function is asked once, in order, and those that stay move to the front, in order. */
    method RemoveDue(tick: nat) returns (first: nat)
      requires Valid()
      modifies this`calls, delayedFuncs
      ensures first <= size && delayedFuncs[..first] == Later(old(delayedFuncs[..size]), tick)
      ensures calls == old(calls) + Due(old(delayedFuncs[..size]), tick)
    {
      ghost var before, log := delayedFuncs[..size], calls;
      first := 0;
      for i := 0 to size
        invariant first <= i
        invariant forall k | i <= k < size :: delayedFuncs[k] == before[k]
        invariant delayedFuncs[..first] == Later(before[..i], tick)
        invariant calls == log + Due(before[..i], tick)
      {
        var f := delayedFuncs[i];
        ghost var kept := delayedFuncs[..first];
        assert before[..i + 1] == before[..i] + [f];
        OneMore(before[..i], f, tick);
        var due := RunIfDue(f, tick);
        if !due {
          delayedFuncs[first] := f;
          first := first + 1;
          assert delayedFuncs[..first] == kept + [f];
        } else {
          assert kept + [] == kept;
        }
      }
      assert before[..size] == before;
    }

    method ProcessTick()
      requires Valid()
      modifies this, delayedFuncs
      ensures Valid() && State() == Process(old(State())) && delayedFuncs == old(delayedFuncs)
    {
      size := RemoveDue(tickCount);
      tickCount := Wrap(tickCount + 1);
    }
  }

  lemma {:induction false} OneMore(fs: seq<DelayedFunc>, f: DelayedFunc, tick: nat)
    ensures Later(fs + [f], tick) == Later(fs, tick) + if tick >= f.targetTicks then [] else [f]
    ensures Due(fs + [f], tick) == Due(fs, tick) + if tick >= f.targetTicks then [Call(f.func, tick)] else []
  {
    if fs == [] {
      assert fs + [f] == [f] && [f][1..] == [];
    } else {
      assert (fs + [f])[1..] == fs[1..] + [f];
      OneMore(fs[1..], f, tick);
    }
  }

  // ---------------------------------------------------------------- whole runs

  datatype Op = QueueOp(delayTicks: nat, func: nat) | TickOp

  function Step(t: Thread, op: Op): Thread {
    match op
    case QueueOp(d, f) => Enqueue(t, d, f)
    case TickOp => Process(t)
  }

  function After(ops: seq<Op>): Thread {
    if ops == [] then Thread([], 0, []) else Step(After(ops[..|ops| - 1]), ops[|ops| - 1])
  }

  function Ticks(ops: seq<Op>): nat {
    if ops == [] then 0 else Ticks(ops[..|ops| - 1]) + if ops[|ops| - 1].TickOp? then 1 else 0
  }

  /** Everything queued so far, in order, with the tick it is meant for: the tick count then plus the delay. */
  function Queued(ops: seq<Op>): seq<DelayedFunc> {
    if ops == [] then [] else
    var init, last := ops[..|ops| - 1], ops[|ops| - 1];
    Queued(init) + if last.QueueOp? then [DelayedFunc(Ticks(init) + last.delayTicks, last.func)] else []
  }

  /** No tick count and no meant tick reaches 2 to the 64th. */
  predicate InRange(ops: seq<Op>) {
    Ticks(ops) < WORD && forall f | f in Queued(ops) :: f.targetTicks < WORD
  }

  function MeantFor(fs: seq<DelayedFunc>, tick: nat): seq<Call> {
    if fs == [] then []
    else if fs[0].targetTicks == tick then [Call(fs[0].func, tick)] + MeantFor(fs[1..], tick)
    else MeantFor(fs[1..], tick)
  }

  function MeantBefore(fs: seq<DelayedFunc>, n: nat): seq<Call> {
    if n == 0 then [] else MeantBefore(fs, n - 1) + MeantFor(fs, n - 1)
  }

  function NotBefore(fs: seq<DelayedFunc>, n: nat): seq<DelayedFunc> {
    if fs == [] then []
    else if fs[0].targetTicks >= n then [fs[0]] + NotBefore(fs[1..], n)
    else NotBefore(fs[1..], n)
  }

  lemma {:induction false} NotBeforeAppend(fs: seq<DelayedFunc>, f: DelayedFunc, n: nat)
    ensures NotBefore(fs + [f], n) == NotBefore(fs, n) + if f.targetTicks >= n then [f] else []
  {
    if fs == [] {
      assert fs + [f] == [f] && [f][1..] == [];
    } else {
      assert (fs + [f])[1..] == fs[1..] + [f] && (fs + [f])[0] == fs[0];
      NotBeforeAppend(fs[1..], f, n);
    }
  }

  lemma {:induction false} MeantForAppend(fs: seq<DelayedFunc>, f: DelayedFunc, n: nat)
    ensures MeantFor(fs + [f], n) == MeantFor(fs, n) + if f.targetTicks == n then [Call(f.func, n)] else []
  {
    if fs == [] {
      assert fs + [f] == [f] && [f][1..] == [];
    } else {
      assert (fs + [f])[1..] == fs[1..] + [f] && (fs + [f])[0] == fs[0];
      MeantForAppend(fs[1..], f, n);
    }
  }

  lemma {:induction false} MeantBeforeUnchanged(fs: seq<DelayedFunc>, f: DelayedFunc, n: nat)
    requires f.targetTicks >= n
    ensures MeantBefore(fs + [f], n) == MeantBefore(fs, n)
  {
    hide MeantFor;
    if n > 0 {
      MeantForAppend(fs, f, n - 1);
      MeantBeforeUnchanged(fs, f, n - 1);
    }
  }

  lemma {:induction false} DueIsMeant(fs: seq<DelayedFunc>, n: nat)
    ensures Due(NotBefore(fs, n), n) == MeantFor(fs, n)
    ensures Later(NotBefore(fs, n), n) == NotBefore(fs, n + 1)
  {
    if fs != [] {
      DueIsMeant(fs[1..], n);
      var rest := NotBefore(fs[1..], n);
      assert fs[0].targetTicks >= n ==> NotBefore(fs, n)[1..] == rest;
      assert fs[0].targetTicks < n ==> NotBefore(fs, n) == rest;
    }
  }

  /** What the thread should be after a run. */
  function Exact(ops: seq<Op>): Thread {
    Thread(NotBefore(Queued(ops), Ticks(ops)), Ticks(ops), MeantBefore(Queued(ops), Ticks(ops)))
  }

  lemma OneMoreOp(init: seq<Op>, op: Op)
    ensures Ticks(init + [op]) == Ticks(init) + if op.TickOp? then 1 else 0
    ensures Queued(init + [op]) == Queued(init) + if op.QueueOp? then [DelayedFunc(Ticks(init) + op.delayTicks, op.func)] else []
  {
    assert (init + [op])[..|init|] == init;
  }

  lemma QueueExact(init: seq<Op>, d: nat, func: nat)
    requires Ticks(init) + d < WORD
    ensures Exact(init + [QueueOp(d, func)]) == Enqueue(Exact(init), d, func)
  {
    hide NotBefore, MeantBefore, Wrap, Ticks, Queued;
    var f := DelayedFunc(Ticks(init) + d, func);
    OneMoreOp(init, QueueOp(d, func));
    WrapSmall(Ticks(init) + d);
    NotBeforeAppend(Queued(init), f, Ticks(init));
    MeantBeforeUnchanged(Queued(init), f, Ticks(init));
  }

  lemma TickExact(init: seq<Op>)
    requires Ticks(init) + 1 < WORD
    ensures Exact(init + [TickOp]) == Process(Exact(init))
  {
    hide NotBefore, Wrap, Ticks, Queued, MeantFor, Due, Later;
    OneMoreOp(init, TickOp);
    assert Queued(init) + [] == Queued(init);
    WrapSmall(Ticks(init) + 1);
    DueIsMeant(Queued(init), Ticks(init));
  }

  /** After any run, the calls made are those meant for the ticks gone by, tick by tick and in queueing order within
      a tick, and what is left is what is meant for later, in queueing order. */
  lemma {:induction false} CallsAreExact(ops: seq<Op>)
    requires InRange(ops)
    ensures After(ops) == Exact(ops)
    decreases |ops|
  {
    hide Exact, Enqueue, Process;
    if ops == [] {
      NothingExact();
    } else {
      var init, last := ops[..|ops| - 1], ops[|ops| - 1];
      assert ops == init + [last];
      assert forall f | f in Queued(init) :: f in Queued(ops);
      CallsAreExact(init);
      match last
      case QueueOp(d, func) =>
        assert DelayedFunc(Ticks(init) + d, func) in Queued(ops);
        QueueExact(init, d, func);
      case TickOp =>
        TickExact(init);
    }
  }

  lemma NothingExact()
    ensures Exact([]) == Thread([], 0, [])
  {
  }

  function Times<T(==)>(s: seq<T>, x: T): nat {
    if s == [] then 0 else (if s[0] == x then 1 else 0) + Times(s[1..], x)
  }

  lemma {:induction false} TimesAppend<T>(a: seq<T>, b: seq<T>, x: T)
    ensures Times(a + b, x) == Times(a, x) + Times(b, x)
  {
    if a == [] {
      assert a + b == b;
    } else {
      assert (a + b)[1..] == a[1..] + b;
      TimesAppend(a[1..], b, x);
    }
  }

  lemma {:induction false} TimesMeantFor(fs: seq<DelayedFunc>, n: nat, c: Call)
    ensures Times(MeantFor(fs, n), c) == if c.tick == n then Times(fs, DelayedFunc(n, c.func)) else 0
  {
    if fs != [] {
      TimesMeantFor(fs[1..], n, c);
      var one := if fs[0].targetTicks == n then [Call(fs[0].func, n)] else [];
      TimesAppend(one, MeantFor(fs[1..], n), c);
      assert one != [] ==> one[1..] == [];
    }
  }

  lemma {:induction false} TimesMeantBefore(fs: seq<DelayedFunc>, n: nat, c: Call)
    ensures Times(MeantBefore(fs, n), c) == if c.tick < n then Times(fs, DelayedFunc(c.tick, c.func)) else 0
  {
    if n > 0 {
      TimesMeantBefore(fs, n - 1, c);
      TimesMeantFor(fs, n - 1, c);
      TimesAppend(MeantBefore(fs, n - 1), MeantFor(fs, n - 1), c);
    }
  }

  /** A function queued at tick t with delay d is called at tick t + d as often as it was queued so, once that tick
      has been processed, and at no other tick on that account. */
  lemma EachCallOnce(ops: seq<Op>, func: nat, tick: nat)
    requires InRange(ops)
    ensures Times(After(ops).calls, Call(func, tick))
         == if tick < Ticks(ops) then Times(Queued(ops), DelayedFunc(tick, func)) else 0
  {
    CallsAreExact(ops);
    assert After(ops).calls == MeantBefore(Queued(ops), Ticks(ops));
    TimesMeantBefore(Queued(ops), Ticks(ops), Call(func, tick));
  }

  /** The range matters: the very next processing calls a function exactly when its delay is zero or its target
      overflows the 64 bits, and then it comes too early. */
  lemma CalledAtOnce(t: Thread, delayTicks: nat, func: nat)
    requires t.tickCount < WORD && delayTicks < HALF_WORD
    ensures var f := Enqueue(t, delayTicks, func).queue[|t.queue|];
            t.tickCount >= f.targetTicks <==> delayTicks == 0 || t.tickCount + delayTicks >= 18_446_744_073_709_551_616
  {
  }
}
