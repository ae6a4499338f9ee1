/** The memory limiter: one atomic counter shared by any number of threads.

    `try_reserve` is a compare-and-swap loop, so it is modelled as the separate steps load, pool sample and
    check, and compare-and-swap (which may fail spuriously), interleaved with the steps of other threads.
    The memory pool's own figure is an environment value that may change at any time. Two records that the
    program does not keep are carried along: the outstanding reservations, and a log of the operations in
    the order in which they take effect.
  */
module MemLimiter {
  import opened Arithmetic
  import opened Wrappers

  const MIN_ADDITIONAL: nat := 128 * 1024 * 1024

  type Thread = nat

  datatype Kind = Conditional | Unconditional

  /** Memory reserved and not yet released. A release may draw on any number of reservations at once. */
  datatype Ticket = Ticket(kind: Kind, size: nat)

  /** An operation that has taken effect. */
  datatype Op =
    | Reserved(size: U64)
    | Released(size: U64)
    | Tried(thread: Thread, size: U64, ok: bool)

  /** Where a thread is inside `try_reserve`. */
  datatype Stage =
    | Started
    | Loaded(seen: U64)
    | Checked(seen: U64, sampled: U64)
    | Returning(ok: bool)

  /** A running `try_reserve`: the length of the log when it was called, and its own place in the log once
      its outcome is settled. */
  datatype Call = Call(size: U64, since: nat, settled: Settled, stage: Stage)

  datatype Settled = Pending | At(index: nat)

  datatype Limiter = Limiter(limit: U64, additional: U64, reserved: U64, pool: U64,
                             tickets: seq<Ticket>, calls: map<Thread, Call>, log: seq<Op>)

  datatype Event =
    | Reserve(size: U64)
    | Release(taken: seq<nat>)
    | Invoke(thread: Thread, size: U64)
    | Load(thread: Thread)
    | SampleAndCheck(thread: Thread)
    | CompareAndSwap(thread: Thread, spurious: bool)
    | Return(thread: Thread)
    | PoolChange(pool: U64)

  /** A new limiter sets an eighth of the limit, but at least 128 MiB, aside for other uses. */
  function New(limit: U64, pool: U64): Limiter {
    Limiter(limit, if limit / 8 > MIN_ADDITIONAL then limit / 8 else MIN_ADDITIONAL, 0, pool, [], map[], [])
  }

  /** Total memory use if `size` more were reserved on top of `seen`. */
  function UsageWith(s: Limiter, seen: U64, size: U64, pool: U64): U64 {
    SaturatingAdd(SaturatingAdd(SaturatingAdd(seen, size), pool), s.additional)
  }

  predicate Admits(s: Limiter, seen: U64, size: U64, pool: U64) {
    UsageWith(s, seen, size, pool) <= s.limit
  }

  predicate Enabled(s: Limiter, e: Event) {
    match e
    case Reserve(_) => true
    case Release(taken) =>
      && |taken| == |s.tickets| && Total(taken) <= U64_MAX
      && forall k | 0 <= k < |taken| :: taken[k] <= s.tickets[k].size
    case Invoke(t, _) => t !in s.calls
    case Load(t) => t in s.calls && s.calls[t].stage.Started?
    case SampleAndCheck(t) => t in s.calls && s.calls[t].stage.Loaded?
    case CompareAndSwap(t, _) => t in s.calls && s.calls[t].stage.Checked?
    case Return(t) => t in s.calls && s.calls[t].stage.Returning?
    case PoolChange(_) => true
  }

  /** A thread learns the value of the counter. If that value rules its request out, the request fails here. */
  function Observe(s: Limiter, t: Thread): Limiter
    requires t in s.calls
  {
    var c := s.calls[t].(stage := Loaded(s.reserved));
    if Admits(s, s.reserved, c.size, s.pool) then s.(calls := s.calls[t := c])
    else s.(calls := s.calls[t := c.(settled := At(|s.log|))], log := s.log + [Tried(t, c.size, false)])
  }

  function Step(s: Limiter, e: Event): Limiter
    requires Enabled(s, e)
  {
    match e
    case Reserve(size) =>
      s.(reserved := Wrap(s.reserved + size), tickets := s.tickets + [Ticket(Unconditional, size)],
         log := s.log + [Reserved(size)])
    case Release(taken) =>
      s.(reserved := Wrap(s.reserved - Total(taken)), tickets := Less(s.tickets, taken),
         log := s.log + [Released(Total(taken))])
    case Invoke(t, size) => s.(calls := s.calls[t := Call(size, |s.log|, Pending, Started)])
    case Load(t) => Observe(s, t)
    case SampleAndCheck(t) =>
      var c := s.calls[t];
      s.(calls := s.calls[t := c.(stage :=
                               if Admits(s, c.stage.seen, c.size, s.pool) then Checked(c.stage.seen, s.pool)
                               else Returning(false))])
    case CompareAndSwap(t, spurious) =>
      var c := s.calls[t];
      if s.reserved == c.stage.seen && !spurious then
        s.(reserved := SaturatingAdd(c.stage.seen, c.size),
           tickets := s.tickets + [Ticket(Conditional, c.size)],
           calls := s.calls[t := c.(settled := At(|s.log|), stage := Returning(true))],
           log := s.log + [Tried(t, c.size, true)])
      else Observe(s, t)
    case Return(t) => s.(calls := s.calls - {t})
    case PoolChange(p) => s.(pool := p)
  }

  // ----- Runs -----

  function Run(s: Limiter, events: seq<Event>): (r: Option<Limiter>)
    decreases |events|
  {
    if events == [] then Some(s)
    else if !Enabled(s, events[0]) then None
    else Run(Step(s, events[0]), events[1..])
  }

  // ----- The counter counts the outstanding reservations -----

  function Sum(tickets: seq<Ticket>): nat {
    if tickets == [] then 0 else Sum(tickets[..|tickets| - 1]) + tickets[|tickets| - 1].size
  }

  function ConditionalSum(tickets: seq<Ticket>): nat {
    if tickets == [] then 0
    else
      var last := tickets[|tickets| - 1];
      ConditionalSum(tickets[..|tickets| - 1]) + if last.kind.Conditional? then last.size else 0
  }

  lemma {:induction false} ConditionalIsPart(tickets: seq<Ticket>)
    ensures ConditionalSum(tickets) <= Sum(tickets)
    decreases |tickets|
  {
    if tickets != [] {
      ConditionalIsPart(tickets[..|tickets| - 1]);
    }
  }

  lemma SumAdd(tickets: seq<Ticket>, t: Ticket)
    ensures Sum(tickets + [t]) == Sum(tickets) + t.size
    ensures ConditionalSum(tickets + [t]) == ConditionalSum(tickets) + if t.kind.Conditional? then t.size else 0
  {
    assert (tickets + [t])[..|tickets|] == tickets;
  }

  function Total(taken: seq<nat>): nat {
    if taken == [] then 0 else Total(taken[..|taken| - 1]) + taken[|taken| - 1]
  }

  /** What is left of the reservations after some of each has been released. */
  function Less(tickets: seq<Ticket>, taken: seq<nat>): seq<Ticket>
    requires |taken| == |tickets| && forall k | 0 <= k < |tickets| :: taken[k] <= tickets[k].size
  {
    seq(|tickets|, k requires 0 <= k < |tickets| => tickets[k].(size := tickets[k].size - taken[k]))
  }

  lemma {:induction false} SumTake(tickets: seq<Ticket>, taken: seq<nat>)
    requires |taken| == |tickets| && forall k | 0 <= k < |tickets| :: taken[k] <= tickets[k].size
    ensures Sum(Less(tickets, taken)) == Sum(tickets) - Total(taken)
    ensures ConditionalSum(Less(tickets, taken)) <= ConditionalSum(tickets)
    decreases |tickets|
  {
    if tickets != [] {
      var n := |tickets| - 1;
      assert Less(tickets, taken)[..n] == Less(tickets[..n], taken[..n]);
      SumTake(tickets[..n], taken[..n]);
    }
  }

  /** Away from the largest limit, an admitted request is admitted without saturation. */
  lemma AdmitsExact(s: Limiter, seen: U64, size: U64, pool: U64)
    requires s.limit < U64_MAX
    ensures Admits(s, seen, size, pool) <==> seen + size + pool + s.additional <= s.limit
  {
  }

  /** A thread about to swap has seen a counter value under which its request fits. */
  ghost predicate ChecksHold(s: Limiter) {
    forall t <- s.calls | s.calls[t].stage.Checked? ::
      Admits(s, s.calls[t].stage.seen, s.calls[t].size, s.calls[t].stage.sampled)
  }

  lemma StepChecks(s: Limiter, e: Event)
    requires ChecksHold(s) && Enabled(s, e)
    ensures ChecksHold(Step(s, e))
  {
    hide Wrap, SaturatingAdd;
  }

  ghost predicate Counts(s: Limiter) {
    s.reserved == Wrap(Sum(s.tickets))
  }

  lemma WrapAdd(a: int, b: int)
    ensures Wrap(Wrap(a) + b) == Wrap(a + b)
  {
  }

  lemma WrapSmall(n: nat)
    requires n <= U64_MAX
    ensures Wrap(n) == n
  {
  }

  /** Every step keeps the counter equal, modulo its width, to the sum of the outstanding reservations,
      whether or not reservations wrap it around. */
  lemma StepCounts(s: Limiter, e: Event)
    requires s.limit < U64_MAX
    requires Counts(s) && ChecksHold(s) && Enabled(s, e)
    ensures Counts(Step(s, e))
  {
    hide Wrap, Sum, ConditionalSum, UsageWith, Admits;
    match e
    case Reserve(size) =>
      SumAdd(s.tickets, Ticket(Unconditional, size));
      WrapAdd(Sum(s.tickets), size);
    case Release(taken) =>
      SumTake(s.tickets, taken);
      var change: int := 0 - Total(taken);
      WrapAdd(Sum(s.tickets), change);
    case CompareAndSwap(t, spurious) =>
      var c := s.calls[t];
      if s.reserved == c.stage.seen && !spurious {
        SumAdd(s.tickets, Ticket(Conditional, c.size));
        AdmitsExact(s, c.stage.seen, c.size, c.stage.sampled);
        WrapAdd(Sum(s.tickets), c.size);
        WrapSmall(c.stage.seen + c.size);
      }
    case _ =>
  }

  // ----- Conditional reservations stay within the limit -----

  /** The run never lets `reserve` take the outstanding total past what the counter can hold. */
  predicate NoOverflow(s: Limiter, e: Event) {
    e.Reserve? ==> Sum(s.tickets) + e.size <= U64_MAX
  }

  ghost predicate Safe(s: Limiter) {
    && ChecksHold(s)
    && s.reserved == Sum(s.tickets)
    && (ConditionalSum(s.tickets) == 0 || ConditionalSum(s.tickets) + s.additional <= s.limit)
  }

  lemma StepSafe(s: Limiter, e: Event)
    requires s.limit < U64_MAX
    requires Safe(s) && Enabled(s, e) && NoOverflow(s, e)
    ensures Safe(Step(s, e))
  {
    hide Sum, ConditionalSum, UsageWith, Admits, Wrap;
    StepChecks(s, e);
    ConditionalIsPart(s.tickets);
    match e
    case Reserve(size) =>
      SumAdd(s.tickets, Ticket(Unconditional, size));
      WrapSmall(s.reserved + size);
    case Release(taken) =>
      SumTake(s.tickets, taken);
      WrapSmall(s.reserved - Total(taken));
    case CompareAndSwap(t, spurious) =>
      var c := s.calls[t];
      if s.reserved == c.stage.seen && !spurious {
        SumAdd(s.tickets, Ticket(Conditional, c.size));
        AdmitsExact(s, c.stage.seen, c.size, c.stage.sampled);
      }
    case _ =>
  }

  ghost predicate OverLimit(s: Limiter) {
    Sum(s.tickets) + s.pool + s.additional > s.limit
  }

  /** Only an unconditional reservation, a growing pool, or a swap after the pool has grown past the figure
      the thread sampled, can take the total over the limit. */
  lemma WhoExceedsTheLimit(s: Limiter, e: Event)
    requires s.limit < U64_MAX
    requires Safe(s) && Enabled(s, e)
    requires !OverLimit(s) && OverLimit(Step(s, e))
    ensures match e
            case Reserve(_) => true
            case PoolChange(pool) => pool > s.pool
            case CompareAndSwap(t, _) => s.pool > s.calls[t].stage.sampled
            case _ => false
  {
    hide Sum, ConditionalSum, UsageWith, Admits, Wrap;
    match e
    case Release(taken) => SumTake(s.tickets, taken);
    case CompareAndSwap(t, spurious) =>
      var c := s.calls[t];
      SumAdd(s.tickets, Ticket(Conditional, c.size));
      AdmitsExact(s, c.stage.seen, c.size, c.stage.sampled);
    case _ =>
  }

  // ----- Safety over whole runs -----

  /** Outside the reach of counter overflow. */
  predicate RunsWithoutOverflow(s: Limiter, events: seq<Event>)
    decreases |events|
  {
    events == [] ||
    (Enabled(s, events[0]) ==> NoOverflow(s, events[0]) && RunsWithoutOverflow(Step(s, events[0]), events[1..]))
  }

  /** In every run, over every interleaving: the counter equals the outstanding reservations modulo its width;
      and as long as `reserve` does not overflow it, it equals them outright and the conditional ones never
      exceed the limit less the additional reserve. */
  lemma {:induction false} SafeRun(s: Limiter, events: seq<Event>)
    requires s.limit < U64_MAX
    requires Counts(s) && ChecksHold(s)
    requires Run(s, events).Some?
    ensures var r := Run(s, events).value;
            && Counts(r) && r.limit == s.limit && r.additional == s.additional
            && (Safe(s) && RunsWithoutOverflow(s, events) ==> Safe(r))
    decreases |events|
  {
    if events != [] {
      hide Counts, ChecksHold, Safe, NoOverflow, Enabled, Admits;
      StepChecks(s, events[0]);
      StepCounts(s, events[0]);
      if Safe(s) && NoOverflow(s, events[0]) {
        StepSafe(s, events[0]);
      }
      SafeRun(Step(s, events[0]), events[1..]);
    }
  }

  /** A new limiter is safe, so every run from one is. */
  lemma SafeFromNew(limit: U64, pool: U64, events: seq<Event>)
    requires limit < U64_MAX
    requires Run(New(limit, pool), events).Some?
    ensures var r := Run(New(limit, pool), events).value;
            && r.additional >= 134217728 && r.additional >= limit / 8
            && (r.additional == 134217728 || r.additional == limit / 8)
            && r.reserved == Wrap(Sum(r.tickets))
            && (RunsWithoutOverflow(New(limit, pool), events) ==>
                  && r.reserved == Sum(r.tickets)
                  && (ConditionalSum(r.tickets) == 0
                      || ConditionalSum(r.tickets) <= limit - Max(134217728, limit / 8)))
  {
    SafeRun(New(limit, pool), events);
  }

  // ----- Every operation takes effect -----

  /** Each atomic step enters its operation in the log, for which the sequential account answers; a thread that loads
      the counter or fails to swap enters its request only if that is now ruled out. */
  lemma EventsAreLogged(s: Limiter, e: Event)
    requires Enabled(s, e)
    ensures Step(s, e).log == s.log + match e
                                      case Reserve(size) => [Reserved(size)]
                                      case Release(taken) => [Released(Total(taken))]
                                      case Load(t) => Ruling(s, t)
                                      case CompareAndSwap(t, spurious) =>
                                        if s.reserved == s.calls[t].stage.seen && !spurious
                                        then [Tried(t, s.calls[t].size, true)] else Ruling(s, t)
                                      case _ => []
  {
    hide SaturatingAdd, Wrap;
  }

  function Ruling(s: Limiter, t: Thread): seq<Op>
    requires t in s.calls
  {
    if UsageWith(s, s.reserved, s.calls[t].size, s.pool) > s.limit then [Tried(t, s.calls[t].size, false)] else []
  }

  /** A `try_reserve` that no other thread disturbs: its steps can be taken one after another, it succeeds exactly if
      the total would stay within the limit, and it then adds its size to the counter. */
  lemma UndisturbedCall(s: Limiter, t: Thread, size: U64) returns (events: seq<Event>)
    requires s.limit < U64_MAX && t !in s.calls
    ensures var fits := s.reserved + size + s.pool + s.additional <= s.limit;
            && Run(s, events).Some?
            && var r := Run(s, events).value;
            && t in r.calls && r.calls[t].stage == Returning(fits)
            && r.reserved == s.reserved + (if fits then size else 0)
            && r.tickets == s.tickets + (if fits then [Ticket(Conditional, size)] else [])
  {
    hide Run, RunsWithoutOverflow;
    AdmitsExact(s, s.reserved, size, s.pool);
    var s1 := Step(s, Invoke(t, size));
    var s2 := Step(s1, Load(t));
    var s3 := Step(s2, SampleAndCheck(t));
    var last: seq<Event> := [];
    if s.reserved + size + s.pool + s.additional <= s.limit {
      last := [CompareAndSwap(t, false)] + [];
      RunFirst(s3, CompareAndSwap(t, false), []);
      RunNothing(Step(s3, CompareAndSwap(t, false)));
    } else {
      RunNothing(s3);
    }
    events := [Invoke(t, size)] + ([Load(t)] + ([SampleAndCheck(t)] + last));
    RunFirst(s2, SampleAndCheck(t), last);
    RunFirst(s1, Load(t), [SampleAndCheck(t)] + last);
    RunFirst(s, Invoke(t, size), [Load(t)] + ([SampleAndCheck(t)] + last));
  }

  /** A successful swap keeps the count exactly when the new value fits the counter. */
  lemma SwapCountsIff(s: Limiter, t: Thread)
    requires Counts(s) && Enabled(s, CompareAndSwap(t, false)) && s.calls[t].stage.seen == s.reserved
    ensures Counts(Step(s, CompareAndSwap(t, false))) <==> s.reserved + s.calls[t].size <= U64_MAX
  {
    hide Sum, ConditionalSum;
    var size := s.calls[t].size;
    SumAdd(s.tickets, Ticket(Conditional, size));
    WrapAdd(Sum(s.tickets), size);
    if s.reserved + size <= U64_MAX {
      WrapSmall(s.reserved + size);
    }
  }

  lemma RunFirst(s: Limiter, e: Event, rest: seq<Event>)
    requires Enabled(s, e)
    ensures Run(s, [e] + rest) == Run(Step(s, e), rest)
    ensures RunsWithoutOverflow(s, [e] + rest) <==> NoOverflow(s, e) && RunsWithoutOverflow(Step(s, e), rest)
  {
    assert ([e] + rest)[1..] == rest;
  }

  /** At the one limit where saturation hides an excess, the count is lost: a request that saturates the
      counter is admitted and recorded short. */
  lemma LargestLimitLosesCount() returns (events: seq<Event>)
    ensures var s := New(U64_MAX, 0);
            && Run(s, events).Some? && RunsWithoutOverflow(s, events)
            && !Counts(Run(s, events).value)
  {
    hide Run, RunsWithoutOverflow, Counts;
    var s := New(U64_MAX, 0);
    var s1 := Step(s, Reserve(U64_MAX));
    var s2 := Step(s1, Invoke(0, 5));
    var s3 := Step(s2, Load(0));
    var s4 := Step(s3, SampleAndCheck(0));
    var s5 := Step(s4, CompareAndSwap(0, false));
    var last := [CompareAndSwap(0, false)] + [];
    events := [Reserve(U64_MAX)] + ([Invoke(0, 5)] + ([Load(0)] + ([SampleAndCheck(0)] + last)));
    CountsNew(U64_MAX, 0);
    assert Counts(s4) by {
      assert s4.tickets == [] + [Ticket(Unconditional, U64_MAX)] && s4.reserved == U64_MAX;
      CountsOne(s4);
    }
    SwapCountsIff(s4, 0);
    RunFirst(s4, CompareAndSwap(0, false), []);
    RunFirst(s3, SampleAndCheck(0), last);
    RunFirst(s2, Load(0), [SampleAndCheck(0)] + last);
    RunFirst(s1, Invoke(0, 5), [Load(0)] + ([SampleAndCheck(0)] + last));
    RunFirst(s, Reserve(U64_MAX), [Invoke(0, 5)] + ([Load(0)] + ([SampleAndCheck(0)] + last)));
    RunNothing(s5);
  }

  lemma RunNothing(s: Limiter)
    ensures Run(s, []) == Some(s) && RunsWithoutOverflow(s, [])
  {
  }

  lemma CountsNew(limit: U64, pool: U64)
    ensures Counts(New(limit, pool)) && Sum(New(limit, pool).tickets) == 0
  {
  }

  lemma CountsOne(s: Limiter)
    requires |s.tickets| == 1 && s.reserved == s.tickets[0].size
    ensures Counts(s)
  {
    assert s.tickets[..0] == [];
    WrapSmall(s.reserved);
  }

  /** What `available_mem` tells: a request for a positive size is admitted at that instant exactly when the
      size is at most the available figure. */
  function AvailableMem(s: Limiter): U64 {
    SaturatingSub(SaturatingSub(SaturatingSub(s.limit, s.reserved), s.pool), s.additional)
  }

  lemma AvailableIffAdmitted(s: Limiter, size: U64)
    requires s.limit < U64_MAX && size != 0
    ensures Admits(s, s.reserved, size, s.pool) <==> size <= AvailableMem(s)
  {
    AdmitsExact(s, s.reserved, size, s.pool);
  }

  // ----- Linearizability, with the pool figure held constant -----

  /** The limiter as a caller thinks of it, with operations that happen one after another: the value after
      the log, or nothing if the log could not happen. */
  function Replay(s: Limiter, log: seq<Op>): Option<U64>
    decreases |log|
  {
    if log == [] then Some(0)
    else
      var before := Replay(s, log[..|log| - 1]);
      if before.None? then None else
      match log[|log| - 1]
      case Reserved(size) => Some(Wrap(before.value + size))
      case Released(size) => Some(Wrap(before.value - size))
      case Tried(_, size, ok) =>
        if ok != Admits(s, before.value, size, s.pool) then None
        else if ok then Some(SaturatingAdd(before.value, size))
        else before
  }

  lemma ReplayAdd(s: Limiter, log: seq<Op>, op: Op)
    ensures Replay(s, log + [op]) ==
            var before := Replay(s, log);
            if before.None? then None else
            match op
            case Reserved(size) => Some(Wrap(before.value + size))
            case Released(size) => Some(Wrap(before.value - size))
            case Tried(_, size, ok) =>
              if ok != Admits(s, before.value, size, s.pool) then None
              else if ok then Some(SaturatingAdd(before.value, size))
              else before
  {
    assert (log + [op])[..|log|] == log;
  }

  lemma {:induction false} ReplaySame(s: Limiter, r: Limiter, log: seq<Op>)
    requires s.limit == r.limit && s.additional == r.additional && s.pool == r.pool
    ensures Replay(s, log) == Replay(r, log)
    decreases |log|
  {
    hide SaturatingAdd, Wrap;
    if log != [] {
      ReplaySame(s, r, log[..|log| - 1]);
    }
  }

  /** The result a call has been promised by its place in the log, if it has one. */
  ghost predicate CallLinearized(s: Limiter, t: Thread, c: Call) {
    && c.since <= |s.log|
    && (forall i | c.since <= i < |s.log| :: IsBy(s.log[i], t) ==> c.settled == At(i))
    && (c.settled.At? ==> c.since <= c.settled.index < |s.log|)
    && match c.stage
       case Started => c.settled.Pending?
       case Loaded(seen) =>
         if Admits(s, seen, c.size, s.pool) then c.settled.Pending?
         else c.settled.At? && s.log[c.settled.index] == Tried(t, c.size, false)
       case Checked(seen, sampled) => c.settled.Pending? && Admits(s, seen, c.size, s.pool)
       case Returning(ok) => c.settled.At? && s.log[c.settled.index] == Tried(t, c.size, ok)
  }

  predicate IsBy(op: Op, t: Thread) {
    op.Tried? && op.thread == t
  }

  /** The log is a sequential history that explains the counter and every call's result. */
  ghost predicate Linearized(s: Limiter) {
    && Replay(s, s.log) == Some(s.reserved)
    && forall t <- s.calls :: CallLinearized(s, t, s.calls[t])
  }

  lemma CallFrame(s: Limiter, r: Limiter, t: Thread, c: Call)
    requires CallLinearized(s, t, c)
    requires s.limit == r.limit && s.additional == r.additional && s.pool == r.pool
    requires r.log == s.log || (|r.log| == |s.log| + 1 && r.log[..|s.log|] == s.log && !IsBy(r.log[|s.log|], t))
    ensures CallLinearized(r, t, c)
  {
    hide SaturatingAdd;
    assert forall i | 0 <= i < |s.log| :: r.log[i] == r.log[..|s.log|][i] || r.log == s.log;
  }

  lemma ObserveLinearized(s: Limiter, t: Thread)
    requires Linearized(s) && t in s.calls && s.calls[t].settled.Pending?
    ensures Linearized(Observe(s, t))
  {
    hide SaturatingAdd, Wrap, Replay;
    var r := Observe(s, t);
    ReplaySame(s, r, s.log);
    ReplayAdd(s, s.log, Tried(t, s.calls[t].size, false));
    ReplaySame(s, r, s.log + [Tried(t, s.calls[t].size, false)]);
    forall k <- r.calls ensures CallLinearized(r, k, r.calls[k]) {
      if k != t {
        CallFrame(s, r, k, s.calls[k]);
      }
    }
  }

  lemma SwapLinearized(s: Limiter, t: Thread)
    requires Linearized(s) && Enabled(s, CompareAndSwap(t, false)) && s.reserved == s.calls[t].stage.seen
    ensures Linearized(Step(s, CompareAndSwap(t, false)))
  {
    hide SaturatingAdd, Wrap, Replay;
    var r, op := Step(s, CompareAndSwap(t, false)), Tried(t, s.calls[t].size, true);
    ReplayAdd(s, s.log, op);
    ReplaySame(s, r, s.log + [op]);
    forall k <- r.calls ensures CallLinearized(r, k, r.calls[k]) {
      if k != t {
        CallFrame(s, r, k, s.calls[k]);
      }
    }
  }

  lemma AtomicLinearized(s: Limiter, e: Event)
    requires Linearized(s) && Enabled(s, e) && (e.Reserve? || e.Release?)
    ensures Linearized(Step(s, e))
  {
    hide SaturatingAdd, Wrap, Replay;
    var r := Step(s, e);
    ReplayAdd(s, s.log, r.log[|s.log|]);
    ReplaySame(s, r, r.log);
    forall k <- r.calls ensures CallLinearized(r, k, r.calls[k]) {
      CallFrame(s, r, k, s.calls[k]);
    }
  }

  lemma LocalLinearized(s: Limiter, e: Event)
    requires Linearized(s) && Enabled(s, e) && (e.Invoke? || e.SampleAndCheck? || e.Return?)
    ensures Linearized(Step(s, e))
  {
    hide SaturatingAdd, Wrap, Replay;
    var r := Step(s, e);
    ReplaySame(s, r, r.log);
    forall k <- r.calls ensures CallLinearized(r, k, r.calls[k]) {
      if k in s.calls {
        CallFrame(s, r, k, s.calls[k]);
      }
    }
  }

  lemma StepLinearized(s: Limiter, e: Event)
    requires Linearized(s) && Enabled(s, e) && !e.PoolChange?
    ensures Linearized(Step(s, e))
    ensures s.log <= Step(s, e).log
  {
    hide SaturatingAdd, Wrap, Replay;
    match e
    case Load(t) => ObserveLinearized(s, t);
    case CompareAndSwap(t, spurious) =>
      if s.reserved == s.calls[t].stage.seen && !spurious {
        SwapLinearized(s, t);
      } else {
        ObserveLinearized(s, t);
      }
    case Reserve(_) => AtomicLinearized(s, e);
    case Release(_) => AtomicLinearized(s, e);
    case Invoke(_, _) => LocalLinearized(s, e);
    case SampleAndCheck(_) => LocalLinearized(s, e);
    case Return(_) => LocalLinearized(s, e);
  }

  /** Linearizability: in every run with a steady pool figure there is one sequential history that explains the
      counter, only ever grows, and in which every call in progress whose outcome is settled has exactly one
      entry, made after the call began, with the result the call returns. */
  lemma {:induction false} LinearizableRun(s: Limiter, events: seq<Event>)
    requires Linearized(s)
    requires forall i | 0 <= i < |events| :: !events[i].PoolChange?
    requires Run(s, events).Some?
    ensures Linearized(Run(s, events).value) && s.log <= Run(s, events).value.log
    decreases |events|
  {
    hide Linearized, Enabled, Step, Replay, Admits, UsageWith, SaturatingAdd, Wrap;
    if events != [] {
      StepLinearized(s, events[0]);
      LinearizableRun(Step(s, events[0]), events[1..]);
    }
  }

  /** At the moment a call returns: its result is the one a sequential limiter gives it at a single point
      between its invocation and its return. */
  lemma ReturnIsLinearized(limit: U64, pool: U64, events: seq<Event>, t: Thread)
    requires forall i | 0 <= i < |events| :: !events[i].PoolChange?
    requires Run(New(limit, pool), events).Some?
    requires Enabled(Run(New(limit, pool), events).value, Return(t))
    ensures var r := Run(New(limit, pool), events).value;
            var c := r.calls[t];
            && Replay(r, r.log) == Some(r.reserved)
            && c.settled.At? && c.since <= c.settled.index < |r.log|
            && r.log[c.settled.index] == Tried(t, c.size, c.stage.ok)
            && (forall i | c.since <= i < |r.log| && i != c.settled.index :: !IsBy(r.log[i], t))
  {
    assert Linearized(New(limit, pool));
    LinearizableRun(New(limit, pool), events);
    assert CallLinearized(Run(New(limit, pool), events).value, t, Run(New(limit, pool), events).value.calls[t]);
  }
}
