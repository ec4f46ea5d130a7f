/**
  Theorems about whole runs of the scheduler of proc/process.c: how many ticks a queued thread waits,
  which queued threads never run, and in which order threads are dispatched.
 */
module Fairness {
  import opened ReadyQueues

  // ---------- Runs ----------

  /** Every operation of the run is enabled where it happens. */
  ghost predicate Runs<T>(s: Sched<T>, ops: seq<Op<T>>)
    requires Inv(s)
    decreases |ops|
  {
    ops == [] ||
    (Enabled(s, ops[0]) && (StepKeepsInv(s, ops[0]); Runs(Step(s, ops[0]), ops[1..])))
  }

  ghost function Run<T>(s: Sched<T>, ops: seq<Op<T>>): (r: Sched<T>)
    requires Inv(s) && Runs(s, ops)
    ensures Inv(r)
    decreases |ops|
  {
    if ops == [] then s else StepKeepsInv(s, ops[0]); Run(Step(s, ops[0]), ops[1..])
  }

  /** No destruction of the run takes the last of two or more queued threads, and it creates no thread. */
  ghost predicate Guarded<T>(s: Sched<T>, ops: seq<Op<T>>)
    requires Inv(s) && Runs(s, ops)
    decreases |ops|
  {
    ops == [] ||
    (!ops[0].Create? && (ops[0].Destroy? ==> SparesLast(s, ops[0].t))
     && (StepKeepsInv(s, ops[0]); Guarded(Step(s, ops[0]), ops[1..])))
  }

  predicate SparesLast<T>(s: Sched<T>, t: T)
    requires t in s.tcb && s.tcb[t].prio < |s.ready|
  {
    var q := s.ready[s.tcb[t].prio];
    |q| >= 2 ==> t != q[|q| - 1]
  }

  /** Thread `t` is current at the start of the run or after some step of it. */
  ghost predicate Reached<T>(s: Sched<T>, ops: seq<Op<T>>, t: T)
    requires Inv(s) && Runs(s, ops)
    decreases |ops|
  {
    s.cur == t || (ops != [] && (StepKeepsInv(s, ops[0]); Reached(Step(s, ops[0]), ops[1..], t)))
  }

  function TicksIn<T>(ops: seq<Op<T>>): nat {
    if ops == [] then 0 else (if ops[0].Tick? then 1 else 0) + TicksIn(ops[1..])
  }

  // ---------- Waiting ----------

  /** Nothing that can be dispatched outranks priority `p`. */
  ghost predicate Undisturbed<T>(s: Sched<T>, p: nat)
    requires Inv(s)
  {
    && p < PRI_MAX
    && s.tcb[s.cur].prio <= p
    && forall i :: p < i < PRI_MAX ==> s.ready[i] == []
  }

  /** Ticks until `t` is dispatched: what is left of the current slice, and a full slice per thread ahead. */
  ghost function Wait<T>(s: Sched<T>, t: T, p: nat): nat
    requires Inv(s) && p <= PRI_MAX && t in s.ready[p]
  {
    s.tcb[s.cur].slice + SLICE * IndexOf(s.ready[p], t)
  }

  /** The step does not destroy `t`, and posts nothing that outranks `p`. */
  ghost predicate Calm<T>(s: Sched<T>, op: Op<T>, t: T, p: nat)
    requires Inv(s) && Enabled(s, op)
  {
    match op
    case Post(u) => s.tcb[u].prio <= p || s.tcb[u].prio == PRI_MAX || s.tcb[u].state == Terminated
    case Destroy(u) => u != t
    case _ => true
  }

  ghost predicate CalmRun<T>(s: Sched<T>, ops: seq<Op<T>>, t: T, p: nat)
    requires Inv(s) && Runs(s, ops)
    decreases |ops|
  {
    ops == [] ||
    (Calm(s, ops[0], t, p) && (StepKeepsInv(s, ops[0]); CalmRun(Step(s, ops[0]), ops[1..], t, p)))
  }

  /** A step that neither ends nor destroys a thread. */
  predicate Steady<T>(op: Op<T>) {
    op.Tick? || op.Post? || op.Create?
  }

  lemma IndexOfAppend<T>(q: seq<T>, t: T, u: T)
    requires t in q
    ensures IndexOf(q + [u], t) == IndexOf(q, t)
  {
    if q[0] != t { assert (q + [u])[1..] == q[1..] + [u]; }
  }

  lemma IndexOfWithout<T>(q: seq<T>, t: T, u: T)
    requires t in q && t != u
    ensures t in Without(q, u) && IndexOf(Without(q, u), t) <= IndexOf(q, t)
  {
    WithoutMember(q, u, t);
    if q[0] != t {
      IndexOfWithout(q[1..], t, u);
      if q[0] != u { assert Without(q, u)[1..] == Without(q[1..], u); }
    }
  }

  /** Dispatching from a settled state in which queue `p` is the highest nonempty one. */
  lemma DispatchFrom<T>(s: Sched<T>, t: T, p: nat)
    requires Settled(s) && p < PRI_MAX && t in s.ready[p]
    requires forall i :: p < i < PRI_MAX ==> s.ready[i] == []
    ensures Highest(s.ready, PRI_MAX) == p && Inv(Dispatch(s))
    ensures var k := IndexOf(s.ready[p], t); var r := Dispatch(s);
            if k == 0 then r.cur == t
            else r.cur != t && t in r.ready[p] && Undisturbed(r, p) && Wait(r, t, p) == SLICE * k
  {
    DispatchKeepsInv(s);
    var h := Highest(s.ready, PRI_MAX);
    assert s.ready[h] != [] && s.ready[p] != [];
    HeadIsQueued(s, p);
    var r := Dispatch(s);
    if s.ready[p][0] != t {
      assert t in s.ready[p][1..];
      assert r.tcb[r.cur].slice == SLICE;
    }
  }

  /** One step brings a queued thread nearer to the processor by as many ticks as the step takes, or more. */
  lemma Approach<T>(s: Sched<T>, op: Op<T>, t: T, p: nat)
    requires Inv(s) && Enabled(s, op) && p <= PRI_MAX && t in s.ready[p]
    requires Undisturbed(s, p) && Calm(s, op, t, p)
    ensures var r := Step(s, op); var d := if op.Tick? then 1 else 0;
            && Inv(r)
            && (r.cur == t || (t in r.ready[p] && Undisturbed(r, p) && Wait(r, t, p) <= Wait(s, t, p) - d))
            && (Steady(op) ==> (r.cur == t <==> op.Tick? && Wait(s, t, p) == 1))
            && (Steady(op) && r.cur != t ==> Wait(r, t, p) == Wait(s, t, p) - d)
  {
    StepKeepsInv(s, op);
    QueuedNotCurrent(s, t, p);
    match op
    case Tick =>
      if s.tcb[s.cur].slice == 1 {
        RequeueSettles(s);
        var r := Requeue(s);
        if s.tcb[s.cur].prio == p { IndexOfAppend(s.ready[p], t, s.cur); }
        DispatchFrom(r, t, p);
      }
    case Exit =>
      RetireSettles(s);
      DispatchFrom(Retire(s), t, p);
    case Destroy(u) =>
      if s.tcb[u].prio == p { IndexOfWithout(s.ready[p], t, u); }
    case Post(u) =>
      if s.tcb[u].prio == p { IndexOfAppend(s.ready[p], t, u); }
    case Create(u, prio) =>
  }

  /**
    Exact waiting time. In a run of ticks, creations and posts that bring nothing of higher priority, a thread
    at position k of its queue becomes current within the run if and only if the run has at least
    (ticks left of the current slice) + k * SLICE ticks.
   */
  lemma {:induction false} ExactWait<T>(s: Sched<T>, ops: seq<Op<T>>, t: T, p: nat)
    requires Inv(s) && Runs(s, ops) && p <= PRI_MAX && t in s.ready[p]
    requires Undisturbed(s, p) && CalmRun(s, ops, t, p)
    requires forall i :: 0 <= i < |ops| ==> Steady(ops[i])
    ensures Reached(s, ops, t) <==> TicksIn(ops) >= s.tcb[s.cur].slice + SLICE * IndexOf(s.ready[p], t)
    decreases |ops|
  {
    QueuedNotCurrent(s, t, p);
    if ops != [] {
      Approach(s, ops[0], t, p);
      var r := Step(s, ops[0]);
      if r.cur != t { ExactWait(r, ops[1..], t, p); }
    }
  }

  /** With exits and destructions of other threads interleaved, the thread is never dispatched later. */
  lemma {:induction false} NeverLater<T>(s: Sched<T>, ops: seq<Op<T>>, t: T, p: nat)
    requires Inv(s) && Runs(s, ops) && p <= PRI_MAX && t in s.ready[p]
    requires Undisturbed(s, p) && CalmRun(s, ops, t, p)
    requires TicksIn(ops) >= s.tcb[s.cur].slice + SLICE * IndexOf(s.ready[p], t)
    ensures Reached(s, ops, t)
    decreases |ops|
  {
    if ops != [] {
      Approach(s, ops[0], t, p);
      var r := Step(s, ops[0]);
      if r.cur != t { NeverLater(r, ops[1..], t, p); }
    }
  }

  ghost function TickN<T>(s: Sched<T>, n: nat): (r: Sched<T>)
    requires Inv(s)
    ensures Inv(r)
    decreases n
  {
    if n == 0 then s else StepKeepsInv(s, Tick); TickN(TickStep(s), n - 1)
  }

  /** Left to the timer alone, the thread becomes current at exactly the tick that `Wait` says. */
  lemma {:induction false} OnTime<T>(s: Sched<T>, t: T, p: nat)
    requires Inv(s) && p <= PRI_MAX && t in s.ready[p] && Undisturbed(s, p)
    ensures TickN(s, Wait(s, t, p)).cur == t
    ensures forall n :: 0 <= n < Wait(s, t, p) ==> TickN(s, n).cur != t
    decreases Wait(s, t, p)
  {
    var w := Wait(s, t, p);
    QueuedNotCurrent(s, t, p);
    Approach(s, Tick, t, p);
    var r := TickStep(s);
    if r.cur != t { OnTime(r, t, p); }
    forall n | 0 <= n < w ensures TickN(s, n).cur != t {
      if n > 0 { assert TickN(s, n) == TickN(r, n - 1); }
    }
  }

  // ---------- Starvation ----------

  /** A steady step keeps an outranked thread queued and outranked. */
  lemma StaysOutranked<T>(s: Sched<T>, op: Op<T>, t: T, p: nat)
    requires Inv(s) && Enabled(s, op) && p <= PRI_MAX && t in s.ready[p]
    requires !Undisturbed(s, p) && Steady(op)
    ensures var r := Step(s, op);
            Inv(r) && t in r.ready[p] && !Undisturbed(r, p) && r.cur != t
  {
    StepKeepsInv(s, op);
    QueuedNotCurrent(s, t, p);
    if op.Tick? && s.tcb[s.cur].slice == 1 {
      RequeueSettles(s);
      var r := Requeue(s);
      var h := Highest(r.ready, PRI_MAX);
      HeadIsQueued(r, h);
      if p < PRI_MAX {
        var i := if s.tcb[s.cur].prio > p then s.tcb[s.cur].prio else
          var j :| p < j < PRI_MAX && s.ready[j] != []; j;
        assert p < i < PRI_MAX && r.ready[i] != [];
      }
    } else if p < PRI_MAX && s.tcb[s.cur].prio <= p {
      var i :| p < i < PRI_MAX && s.ready[i] != [];
      assert Step(s, op).ready[i] != [];
    }
  }

  /** Strict priority starves: an outranked thread is not dispatched by any run of ticks, creations and posts. */
  lemma {:induction false} Starvation<T>(s: Sched<T>, ops: seq<Op<T>>, t: T, p: nat)
    requires Inv(s) && Runs(s, ops) && p <= PRI_MAX && t in s.ready[p]
    requires !Undisturbed(s, p)
    requires forall i :: 0 <= i < |ops| ==> Steady(ops[i])
    ensures !Reached(s, ops, t)
    decreases |ops|
  {
    QueuedNotCurrent(s, t, p);
    if ops != [] {
      StaysOutranked(s, ops[0], t, p);
      Starvation(Step(s, ops[0]), ops[1..], t, p);
    }
  }

  /** A step that does not destroy a thread of the last priority leaves it where it is: the scans do not look there. */
  lemma StaysUnscanned<T>(s: Sched<T>, op: Op<T>, t: T)
    requires Inv(s) && Enabled(s, op) && t in s.ready[PRI_MAX] && op != Destroy(t)
    ensures t in Step(s, op).ready[PRI_MAX] && Step(s, op).cur != t
  {
    StepKeepsInv(s, op);
    match op {
      case Tick => if s.tcb[s.cur].slice == 1 { RequeueSettles(s); }
      case Exit => RetireSettles(s);
      case Destroy(u) => WithoutMember(s.ready[PRI_MAX], u, t);
      case _ =>
    }
    QueuedNotCurrent(Step(s, op), t, PRI_MAX);
  }

  /** Whatever happens short of its destruction, a queued thread of the last priority never becomes current. */
  lemma {:induction false} NeverDispatched<T>(s: Sched<T>, ops: seq<Op<T>>, t: T)
    requires Inv(s) && Runs(s, ops) && t in s.ready[PRI_MAX]
    requires forall i :: 0 <= i < |ops| ==> ops[i] != Destroy(t)
    ensures !Reached(s, ops, t)
    decreases |ops|
  {
    QueuedNotCurrent(s, t, PRI_MAX);
    if ops != [] {
      StepKeepsInv(s, ops[0]);
      StaysUnscanned(s, ops[0], t);
      NeverDispatched(Step(s, ops[0]), ops[1..], t);
    }
  }

  function Ticks<T>(n: nat): (ops: seq<Op<T>>)
    ensures |ops| == n
  {
    if n == 0 then [] else [Tick] + Ticks(n - 1)
  }

  lemma {:induction false} TicksRun<T>(s: Sched<T>, n: nat, t: T, p: nat)
    requires Inv(s)
    ensures Runs(s, Ticks(n)) && TicksIn(Ticks<T>(n)) == n && CalmRun(s, Ticks(n), t, p)
    ensures forall i :: 0 <= i < n ==> Ticks<T>(n)[i] == Tick
    decreases n
  {
    if n > 0 {
      StepKeepsInv(s, Tick);
      TicksRun(TickStep(s), n - 1, t, p);
      assert Ticks<T>(n)[1..] == Ticks<T>(n - 1);
    }
  }

  /** Left to the timer alone, a queued thread runs eventually if and only if nothing dispatchable outranks it. */
  lemma EventuallyRunsIff<T>(s: Sched<T>, t: T, p: nat)
    requires Inv(s) && p <= PRI_MAX && t in s.ready[p]
    ensures (exists n: nat :: Runs(s, Ticks(n)) && Reached(s, Ticks(n), t)) <==> Undisturbed(s, p)
  {
    if Undisturbed(s, p) {
      var n := Wait(s, t, p);
      TicksRun(s, n, t, p);
      NeverLater(s, Ticks(n), t, p);
    } else {
      forall n: nat | Runs(s, Ticks(n)) ensures !Reached(s, Ticks(n), t) {
        TicksRun(s, n, t, p);
        Starvation(s, Ticks(n), t, p);
      }
    }
  }

  // ---------- Dispatch order ----------

  /** Whenever a step changes the current thread, no dispatchable queued thread outranks the new one. */
  lemma StrictPriority<T>(s: Sched<T>, op: Op<T>, u: T, i: nat)
    requires Inv(s) && Enabled(s, op) && i < PRI_MAX
    requires Step(s, op).cur != s.cur && u in Step(s, op).ready[i]
    ensures Step(s, op).tcb[Step(s, op).cur].prio >= i
  {
    if op.Tick? { RequeueSettles(s); HeadIsQueued(Requeue(s), Highest(Requeue(s).ready, PRI_MAX)); }
    if op.Exit? { RetireSettles(s); HeadIsQueued(Retire(s), Highest(Retire(s).ready, PRI_MAX)); }
  }

  ghost predicate Ahead<T>(q: seq<T>, a: T, b: T) {
    exists i, j :: 0 <= i < j < |q| && q[i] == a && q[j] == b
  }

  /** `b` does not become current before `a` does. */
  ghost predicate NotOvertaken<T>(s: Sched<T>, ops: seq<Op<T>>, a: T, b: T)
    requires Inv(s) && Runs(s, ops)
    decreases |ops|
  {
    s.cur == a ||
    (s.cur != b && (ops == [] || (StepKeepsInv(s, ops[0]); NotOvertaken(Step(s, ops[0]), ops[1..], a, b))))
  }

  lemma AheadWithout<T>(q: seq<T>, a: T, b: T, u: T)
    requires Ahead(q, a, b) && u != a && u != b
    ensures Ahead(Without(q, u), a, b)
  {
    var i, j :| 0 <= i < j < |q| && q[i] == a && q[j] == b;
    var w := Without(q[1..], u);
    if i == 0 {
      WithoutMember(q[1..], u, b);
      assert q[1..][j - 1] == b;
      var k :| 0 <= k < |w| && w[k] == b;
      assert Without(q, u)[0] == a && Without(q, u)[k + 1] == b;
    } else {
      assert q[1..][i - 1] == a && q[1..][j - 1] == b;
      AheadWithout(q[1..], a, b, u);
      var k, l :| 0 <= k < l < |w| && w[k] == a && w[l] == b;
      if q[0] != u { assert Without(q, u)[k + 1] == a && Without(q, u)[l + 1] == b; }
    }
  }

  lemma AheadAfterDispatch<T>(s: Sched<T>, a: T, b: T, p: nat)
    requires Settled(s) && p <= PRI_MAX && Ahead(s.ready[p], a, b) && Highest(s.ready, PRI_MAX) >= 0
    ensures var r := Dispatch(s); r.cur == a || (r.cur != b && Ahead(r.ready[p], a, b))
  {
    var h, r := Highest(s.ready, PRI_MAX), Dispatch(s);
    HeadIsQueued(s, h);
    assert QueueOk(s, p);
    var i, j :| 0 <= i < j < |s.ready[p]| && s.ready[p][i] == a && s.ready[p][j] == b;
    if h == p && i > 0 {
      assert r.ready[p][i - 1] == a && r.ready[p][j - 1] == b;
    }
  }

  lemma AheadAppend<T>(q: seq<T>, a: T, b: T, u: T)
    requires Ahead(q, a, b)
    ensures Ahead(q + [u], a, b)
  {
    var i, j :| 0 <= i < j < |q| && q[i] == a && q[j] == b;
    assert (q + [u])[i] == a && (q + [u])[j] == b;
  }

  lemma AheadStep<T>(s: Sched<T>, op: Op<T>, a: T, b: T, p: nat)
    requires Inv(s) && Enabled(s, op) && p <= PRI_MAX && Ahead(s.ready[p], a, b)
    requires op != Destroy(a) && op != Destroy(b)
    ensures var r := Step(s, op); r.cur == a || (r.cur != b && Ahead(r.ready[p], a, b))
  {
    QueuedNotCurrent(s, b, p);
    match op
    case Tick =>
      if s.tcb[s.cur].slice == 1 {
        RequeueSettles(s);
        if s.tcb[s.cur].prio == p { AheadAppend(s.ready[p], a, b, s.cur); }
        AheadAfterDispatch(Requeue(s), a, b, p);
      }
    case Exit => RetireSettles(s); AheadAfterDispatch(Retire(s), a, b, p);
    case Post(u) => if s.tcb[u].prio == p { AheadAppend(s.ready[p], a, b, u); }
    case Destroy(u) => if s.tcb[u].prio == p { AheadWithout(s.ready[p], a, b, u); }
    case Create(_, _) =>
  }

  /** FIFO in every run: of two threads in one queue, the one behind never runs before the one ahead. */
  lemma {:induction false} Fifo<T>(s: Sched<T>, ops: seq<Op<T>>, a: T, b: T, p: nat)
    requires Inv(s) && Runs(s, ops) && p <= PRI_MAX && Ahead(s.ready[p], a, b)
    requires forall i :: 0 <= i < |ops| ==> ops[i] != Destroy(a) && ops[i] != Destroy(b)
    ensures NotOvertaken(s, ops, a, b)
    decreases |ops|
  {
    QueuedNotCurrent(s, b, p);
    if ops != [] {
      AheadStep(s, ops[0], a, b, p);
      StepKeepsInv(s, ops[0]);
      var r := Step(s, ops[0]);
      if r.cur != a { Fifo(r, ops[1..], a, b, p); }
    }
  }

  // ---------- Round robin ----------

  /** The ring of threads that share the processor: the current one, then its queue. */
  ghost function Ring<T>(s: Sched<T>): seq<T>
    requires Inv(s)
  {
    [s.cur] + s.ready[s.tcb[s.cur].prio]
  }

  /** A RUNNING thread at the start of its slice, unrivalled, with at least one other thread in its queue. */
  ghost predicate SliceStart<T>(s: Sched<T>) {
    && Inv(s)
    && s.tcb[s.cur].state == Running
    && s.tcb[s.cur].slice == SLICE
    && Undisturbed(s, s.tcb[s.cur].prio)
    && s.ready[s.tcb[s.cur].prio] != []
  }

  /** What one slice does: the processor goes to the next thread of the ring, the last one goes to its end. */
  ghost function Rotate<T>(s: Sched<T>): Sched<T> {
    var p := if s.cur in s.tcb then s.tcb[s.cur].prio else 0;
    var q := if p < |s.ready| then s.ready[p] else [];
    if q == [] then s
    else s.(ready := s.ready[p := q[1..] + [s.cur]], cur := q[0],
       tcb := s.tcb[s.cur := Tcb(p, Ready, SLICE)][q[0] := Tcb(p, Running, SLICE)])
  }

  lemma {:induction false} TickNAdd<T>(s: Sched<T>, m: nat, n: nat)
    requires Inv(s)
    ensures TickN(s, m + n) == TickN(TickN(s, m), n)
    decreases m
  {
    if m > 0 {
      StepKeepsInv(s, Tick);
      TickNAdd(TickStep(s), m - 1, n);
    }
  }

  lemma {:induction false} RunDown<T>(s: Sched<T>, n: nat)
    requires Inv(s) && n < s.tcb[s.cur].slice
    ensures TickN(s, n) == s.(tcb := s.tcb[s.cur := s.tcb[s.cur].(slice := s.tcb[s.cur].slice - n)])
    decreases n
  {
    if n == 0 {
      assert s.tcb[s.cur := s.tcb[s.cur]] == s.tcb;
    } else {
      StepKeepsInv(s, Tick);
      RunDown(TickStep(s), n - 1);
    }
  }

  lemma OneSlice<T>(s: Sched<T>)
    requires SliceStart(s)
    ensures TickN(s, SLICE) == Rotate(s) && SliceStart(Rotate(s))
    ensures Ring(Rotate(s)) == Ring(s)[1..] + [Ring(s)[0]]
    ensures Rotate(s).tcb[Rotate(s).cur].prio == s.tcb[s.cur].prio
  {
    var p := s.tcb[s.cur].prio;
    RunDown(s, SLICE - 1);
    TickNAdd(s, SLICE - 1, 1);
    var e := TickN(s, SLICE - 1);
    RequeueSettles(e);
    DispatchKeepsInv(Requeue(e));
    HeadIsQueued(s, p);
    var t := s.ready[p][0];
    assert t != s.cur by { assert t in s.ready[p]; }
    assert Highest(Requeue(e).ready, PRI_MAX) == p by {
      assert Requeue(e).ready[p] != [];
      assert Requeue(e).ready[Highest(Requeue(e).ready, PRI_MAX)] != [];
    }
    assert Requeue(e).ready[p] == s.ready[p] + [s.cur];
    assert (s.ready[p] + [s.cur])[1..] == s.ready[p][1..] + [s.cur];
    assert TickStep(e) == TickN(e, 1);
    assert TickStep(e).ready == Rotate(s).ready;
    assert TickStep(e).tcb == Rotate(s).tcb;
  }

  /** `r` differs from `s` only in whose turn it is in the ring of `s`. */
  ghost predicate SameRound<T>(s: Sched<T>, r: Sched<T>)
    requires SliceStart(s) && SliceStart(r)
  {
    var p := s.tcb[s.cur].prio;
    && r.tcb[r.cur].prio == p
    && (forall t :: t in Ring(r) ==> t in Ring(s))
    && (forall t :: t in Ring(s) ==> t in Ring(r))
    && (forall i :: 0 <= i <= PRI_MAX && i != p ==> r.ready[i] == s.ready[i])
    && r.tcb.Keys == s.tcb.Keys
    && forall t :: t in s.tcb && t !in Ring(s) ==> r.tcb[t] == s.tcb[t]
  }

  lemma RingState<T>(s: Sched<T>, t: T)
    requires SliceStart(s) && t in Ring(s)
    ensures t in s.tcb && s.tcb[t] == Tcb(s.tcb[s.cur].prio, if t == s.cur then Running else Ready, SLICE)
  {
    if t != s.cur { QueuedNotCurrent(s, t, s.tcb[s.cur].prio); }
  }

  lemma RotateSameRound<T>(s: Sched<T>)
    requires SliceStart(s)
    ensures SliceStart(Rotate(s)) && SameRound(s, Rotate(s))
  {
    OneSlice(s);
    HeadIsQueued(s, s.tcb[s.cur].prio);
    var r := Rotate(s);
    assert Ring(s)[0] == s.cur && Ring(s)[1] == s.ready[s.tcb[s.cur].prio][0];
    assert Ring(s) == [s.cur] + Ring(s)[1..];
  }

  lemma SameRoundTransitive<T>(a: Sched<T>, b: Sched<T>, c: Sched<T>)
    requires SliceStart(a) && SliceStart(b) && SliceStart(c) && SameRound(a, b) && SameRound(b, c)
    ensures SameRound(a, c)
  {
  }

  lemma RotateSplit<T>(q: seq<T>, k: nat)
    requires k < |q|
    ensures var m := q[k..] + q[..k]; m[1..] + [m[0]] == q[k + 1..] + q[..k + 1]
  {
  }

  /** `r` is the state `k` slices into the round that starts in `s`. */
  ghost predicate SliceOf<T>(s: Sched<T>, r: Sched<T>, k: nat)
    requires SliceStart(s) && k <= |Ring(s)|
  {
    SliceStart(r) && SameRound(s, r) && Ring(r) == Ring(s)[k..] + Ring(s)[..k]
  }

  lemma NextSlice<T>(s: Sched<T>, m: Sched<T>, k: nat)
    requires SliceStart(s) && k < |Ring(s)| && SliceOf(s, m, k)
    ensures SliceOf(s, Rotate(m), k + 1)
  {
    OneSlice(m);
    RotateSplit(Ring(s), k);
    RotateSameRound(m);
    SameRoundTransitive(s, m, Rotate(m));
  }

  /** The state after `k` slices of the round. */
  ghost function Slices<T>(s: Sched<T>, k: nat): Sched<T> {
    if k == 0 then s else Rotate(Slices(s, k - 1))
  }

  lemma {:induction false} SlicesRotate<T>(s: Sched<T>, k: nat)
    requires SliceStart(s) && k <= |Ring(s)|
    ensures SliceOf(s, Slices(s, k), k)
    decreases k
  {
    if k == 0 {
      assert Ring(s)[0..] + Ring(s)[..0] == Ring(s);
    } else {
      SlicesRotate(s, k - 1);
      NextSlice(s, Slices(s, k - 1), k - 1);
    }
  }

  lemma SliceLater<T>(s: Sched<T>, n: nat, m: Sched<T>)
    requires Inv(s) && TickN(s, n) == m && SliceStart(m)
    ensures TickN(s, n + SLICE) == Rotate(m)
  {
    TickNAdd(s, n, SLICE);
    OneSlice(m);
  }

  lemma {:induction false} SlicesAreTicks<T>(s: Sched<T>, k: nat)
    requires SliceStart(s) && k <= |Ring(s)|
    ensures TickN(s, SLICE * k) == Slices(s, k)
    decreases k
  {
    hide Inv, SameRound, Undisturbed;
    if k > 0 {
      SlicesAreTicks(s, k - 1);
      SlicesRotate(s, k - 1);
      SliceLater(s, SLICE * (k - 1), Slices(s, k - 1));
    }
  }

  lemma FullRound<T>(s: Sched<T>, r: Sched<T>)
    requires SliceStart(s) && SliceOf(s, r, |Ring(s)|)
    ensures r == s
  {
    var p := s.tcb[s.cur].prio;
    assert Ring(r) == Ring(s);
    assert r.cur == Ring(r)[0] && r.ready[p] == Ring(r)[1..];
    assert s.ready[p] == Ring(s)[1..];
    assert r.ready == s.ready;
    forall t | t in s.tcb ensures r.tcb[t] == s.tcb[t] {
      if t in Ring(s) { RingState(s, t); RingState(r, t); }
    }
    assert r.tcb == s.tcb;
  }

  lemma SliceHead<T>(s: Sched<T>, r: Sched<T>, k: nat)
    requires SliceStart(s) && k < |Ring(s)| && SliceOf(s, r, k)
    ensures r.cur == Ring(s)[k]
  {
    assert r.cur == Ring(r)[0];
  }

  /**
    Round robin is periodic: when n threads share the top priority, the scheduler is back in exactly the same
    state after n slices, and at the start of slice k the k-th thread of the ring is current.
   */
  lemma RoundRobin<T>(s: Sched<T>, k: nat)
    requires SliceStart(s) && k < |Ring(s)|
    ensures TickN(s, SLICE * k).cur == Ring(s)[k]
    ensures TickN(s, SLICE * |Ring(s)|) == s
  {
    SlicesAreTicks(s, k);
    SlicesRotate(s, k);
    SliceHead(s, Slices(s, k), k);
    SlicesAreTicks(s, |Ring(s)|);
    SlicesRotate(s, |Ring(s)|);
    FullRound(s, Slices(s, |Ring(s)|));
  }
}
