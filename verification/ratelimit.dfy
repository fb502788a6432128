/** The two rate limiters: throttle (run now, then drop calls until the timer
    clears the flag) and debounce (each call cancels the pending run and
    schedules a new one with its own arguments).

    Real time is not modelled. A timer expiring is an explicit event, and the
    wrapped callback is not run: its runs are recorded, in order, with the
    arguments it was applied to. */
module RateLimit {

  datatype Option<T> = None | Some(value: T)

  /** What a rate limiter sees: a call of the wrapper, or its own timer expiring. */
  datatype Event<A> = Called(args: A) | Expired

  /** Only calls, one per argument. */
  function Calls<A>(args: seq<A>): (es: seq<Event<A>>)
    ensures |es| == |args|
    ensures forall i :: 0 <= i < |args| ==> es[i] == Called(args[i])
  {
    if args == [] then [] else [Called(args[0])] + Calls(args[1..])
  }

  /** Each call followed by its timer expiring before the next call. */
  function Spaced<A>(args: seq<A>): seq<Event<A>>
  {
    if args == [] then [] else [Called(args[0]), Expired] + Spaced(args[1..])
  }

  function CountExpired<A>(es: seq<Event<A>>): nat
  {
    if es == [] then 0 else (if es[0].Expired? then 1 else 0) + CountExpired(es[1..])
  }

  // ---------------------------------------------------------------- throttle

  /** One event for throttle: the new inThrottle flag and the runs it causes. */
  function ThrottleStep<A>(inThrottle: bool, e: Event<A>): (bool, seq<A>)
  {
    match e
    case Called(args) => if !inThrottle then (true, [args]) else (true, [])
    case Expired => (false, [])
  }

  /** A whole event sequence for throttle: the final flag and all runs in order. */
  function ThrottleRun<A>(inThrottle: bool, es: seq<Event<A>>): (bool, seq<A>)
    decreases |es|
  {
    if es == [] then (inThrottle, [])
    else
      var (f, out) := ThrottleStep(inThrottle, es[0]);
      var (g, rest) := ThrottleRun(f, es[1..]);
      (g, out + rest)
  }

  /** While the flag is set, calls are dropped, not queued: nothing runs and the flag stays set. */
  lemma {:induction false} ThrottleDropsWhileSet<A>(args: seq<A>)
    ensures ThrottleRun(true, Calls(args)) == (true, [])
  {
    if args != [] {
      var es := Calls(args);
      ThrottleDropsWhileSet(args[1..]);
      assert es[1..] == Calls(args[1..]);
      assert ThrottleRun(true, es) == (true, [] + []);
      var none: seq<A> := [];
      assert none + none == none;
    }
  }

  /** A burst of calls within one interval: exactly one runs, the first, immediately. */
  lemma ThrottleBurst<A>(args: seq<A>)
    requires |args| >= 1
    ensures ThrottleRun(false, Calls(args)) == (true, [args[0]])
  {
    var es := Calls(args);
    ThrottleDropsWhileSet(args[1..]);
    assert es[1..] == Calls(args[1..]);
    assert ThrottleStep(false, es[0]) == (true, [args[0]]);
    assert ThrottleRun(false, es) == (true, [args[0]] + []);
    assert [args[0]] + [] == [args[0]];
  }

  /** Calls spaced at least one interval apart all run, in order. */
  lemma {:induction false} ThrottleSpaced<A>(args: seq<A>)
    ensures ThrottleRun(false, Spaced(args)) == (false, args)
  {
    if args != [] {
      var es := Spaced(args);
      ThrottleSpaced(args[1..]);
      assert es[1..][1..] == Spaced(args[1..]);
      assert ThrottleRun(true, es[1..]) == (false, [] + args[1..]);
      assert ThrottleRun(false, es) == (false, [args[0]] + ([] + args[1..]));
      assert [args[0]] + ([] + args[1..]) == args;
    }
  }

  /** Only the timer clears the flag, so there is at most one run per flag-set period:
      at most one before the first expiry (none if the flag starts set) and one more per expiry. */
  lemma {:induction false} ThrottleRunBound<A>(inThrottle: bool, es: seq<Event<A>>)
    ensures |ThrottleRun(inThrottle, es).1| <= (if inThrottle then 0 else 1) + CountExpired(es)
    ensures es != [] && CountExpired(es) == 0 ==> ThrottleRun(inThrottle, es).0
    decreases |es|
  {
    if es != [] {
      ThrottleRunBound(ThrottleStep(inThrottle, es[0]).0, es[1..]);
    }
  }

  /** The wrapper returned by throttle(func, limit), with its captured inThrottle flag. */
  class Throttle<A> {
    const limit: nat
    var inThrottle: bool
    var runs: seq<A>

    constructor (limit: nat)
      ensures this.limit == limit && !inThrottle && runs == []
    {
      this.limit := limit;
      inThrottle := false;
      runs := [];
    }

    /** A call of the wrapper: runs func now if the flag is clear, sets the flag, and
        then schedules the timer that clears it `limit` ms later (`timer`); a dropped
        call schedules nothing. */
    method Call(args: A) returns (ran: bool, timer: Option<nat>)
      modifies this
      ensures ran == !old(inThrottle)
      ensures timer == if ran then Some(limit) else None
      ensures inThrottle
      ensures runs == old(runs) + (if ran then [args] else [])
      ensures inThrottle == ThrottleStep(old(inThrottle), Called(args)).0 && runs == old(runs) + ThrottleStep(old(inThrottle), Called(args)).1
    {
      ran, timer := !inThrottle, None;
      if !inThrottle {
        runs := runs + [args];
        inThrottle := true;
        timer := Some(limit);
      }
    }

    /** The timer scheduled by the run expires; it exists only while the flag is set. */
    method Expire()
      requires inThrottle
      modifies this
      ensures !inThrottle && runs == old(runs)
      ensures inThrottle == ThrottleStep<A>(old(inThrottle), Expired).0 && runs == old(runs) + ThrottleStep<A>(old(inThrottle), Expired).1
    {
      inThrottle := false;
    }
  }

  // ---------------------------------------------------------------- debounce

  /** One event for debounce: the run now pending (with its arguments) and the runs it causes. */
  function DebounceStep<A>(pending: Option<A>, e: Event<A>): (Option<A>, seq<A>)
  {
    match e
    case Called(args) => (Some(args), [])
    case Expired => if pending.Some? then (None, [pending.value]) else (None, [])
  }

  function DebounceRun<A>(pending: Option<A>, es: seq<Event<A>>): (Option<A>, seq<A>)
    decreases |es|
  {
    if es == [] then (pending, [])
    else
      var (p, out) := DebounceStep(pending, es[0]);
      var (q, rest) := DebounceRun(p, es[1..]);
      (q, out + rest)
  }

  /** A burst of calls runs nothing yet and leaves exactly one run pending: the last call's. */
  lemma {:induction false} DebouncePendingIsLast<A>(pending: Option<A>, args: seq<A>)
    requires |args| >= 1
    ensures DebounceRun(pending, Calls(args)) == (Some(args[|args| - 1]), [])
    decreases |args|
  {
    var es := Calls(args);
    assert es[1..] == Calls(args[1..]);
    if |args| > 1 {
      DebouncePendingIsLast(Some(args[0]), args[1..]);
      assert DebounceRun(pending, es) == (Some(args[|args| - 1]), [] + []);
      var none: seq<A> := [];
      assert none + none == none;
    } else {
      assert DebounceRun(pending, es) == (Some(args[0]), [] + []);
      var none: seq<A> := [];
      assert none + none == none;
    }
  }

  /** A burst followed by quiet: func runs exactly once, with the last call's arguments, and nothing stays pending. */
  lemma DebounceBurst<A>(pending: Option<A>, args: seq<A>)
    requires |args| >= 1
    ensures DebounceRun(pending, Calls(args) + [Expired]) == (None, [args[|args| - 1]])
  {
    DebounceSplit(pending, Calls(args), [Expired]);
    DebouncePendingIsLast(pending, args);
    var last := args[|args| - 1];
    assert DebounceRun(Some(last), [Expired]) == (None, [last] + []);
    assert [] + ([last] + []) == [last];
    assert DebounceRun(pending, Calls(args) + [Expired]).1 == [last];
  }

  lemma {:induction false} DebounceSplit<A>(pending: Option<A>, xs: seq<Event<A>>, ys: seq<Event<A>>)
    ensures DebounceRun(pending, xs + ys) ==
      (DebounceRun(DebounceRun(pending, xs).0, ys).0, DebounceRun(pending, xs).1 + DebounceRun(DebounceRun(pending, xs).0, ys).1)
    decreases |xs|
  {
    if xs != [] {
      assert (xs + ys)[1..] == xs[1..] + ys;
      var (p, out) := DebounceStep(pending, xs[0]);
      DebounceSplit(p, xs[1..], ys);
      var (q, rest) := DebounceRun(p, xs[1..]);
      assert DebounceRun(pending, xs) == (q, out + rest);
      assert out + (rest + DebounceRun(q, ys).1) == (out + rest) + DebounceRun(q, ys).1;
    } else {
      assert xs + ys == ys;
      assert [] + DebounceRun(pending, ys).1 == DebounceRun(pending, ys).1;
    }
  }

  /** Every run of func is caused by a timer expiring: never more runs than expiries. */
  lemma {:induction false} DebounceRunBound<A>(pending: Option<A>, es: seq<Event<A>>)
    ensures |DebounceRun(pending, es).1| <= CountExpired(es)
    decreases |es|
  {
    if es != [] {
      DebounceRunBound(DebounceStep(pending, es[0]).0, es[1..]);
    }
  }

  /** The wrapper returned by debounce(func, wait), with its captured pending timeout. */
  class Debounce<A> {
    const wait: nat
    var pending: Option<A>
    var runs: seq<A>

    constructor (wait: nat)
      ensures this.wait == wait && pending == None && runs == []
    {
      this.wait := wait;
      pending := None;
      runs := [];
    }

    /** A call of the wrapper: cancels any pending run and schedules one with these
        arguments, to fire `wait` ms later (`delay`). */
    method Call(args: A) returns (delay: nat)
      modifies this
      ensures delay == wait
      ensures pending == Some(args) && runs == old(runs)
      ensures pending == DebounceStep(old(pending), Called(args)).0 && runs == old(runs) + DebounceStep(old(pending), Called(args)).1
    {
      pending := Some(args);
      delay := wait;
    }

    /** The pending timer fires: func runs once with the arguments it carries. */
    method Fire() returns (args: A)
      requires pending.Some?
      modifies this
      ensures args == old(pending).value
      ensures pending == None && runs == old(runs) + [args]
      ensures pending == DebounceStep(old(pending), Expired).0 && runs == old(runs) + DebounceStep(old(pending), Expired).1
    {
      args := pending.value;
      pending := None;
      runs := runs + [args];
    }
  }
}
