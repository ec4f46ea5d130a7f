/**
  The scheduler of proc/process.c with stale tail pointers. `thread_destroy` does not repair `queue_tail`, so that the
  tail of a queue may point at a thread that is no longer on it; what is then posted there is lost.
 */
module StaleTails {
  import opened ReadyQueues
  import opened Fairness

  /** A scheduler state, and the queues whose tail pointers are stale. */
  datatype Frayed<T(==)> = Frayed(s: Sched<T>, stale: set<nat>)

  /** A queue that holds nothing has no use for its tail. */
  ghost predicate Ok<T>(f: Frayed<T>) {
    Inv(f.s) && forall p :: p in f.stale ==> p <= PRI_MAX && f.s.ready[p] != []
  }

  // ---------- Steps ----------

  /** The queues of `stale` that hold a thread: a post to an empty queue sets its tail afresh. */
  function Undrained<T>(stale: set<nat>, ready: seq<seq<T>>): (r: set<nat>)
    ensures r <= stale
  {
    set p | p in stale && p < |ready| && ready[p] != []
  }

  /** A thread posted to a queue with a stale tail becomes READY, but is linked behind a thread that is not queued. */
  function PostOn<T>(f: Frayed<T>, t: T): Frayed<T>
    requires t in f.s.tcb && f.s.tcb[t].prio < |f.s.ready|
  {
    var c := f.s.tcb[t];
    if c.prio in f.stale && c.state != Terminated then f.(s := f.s.(tcb := f.s.tcb[t := c.(state := Ready)]))
    else f.(s := PostStep(f.s, t))
  }

  function DispatchOn<T>(f: Frayed<T>): Frayed<T>
    requires Settled(f.s) && Highest(f.s.ready, PRI_MAX) >= 0
  {
    var r := Dispatch(f.s);
    Frayed(r, Undrained(f.stale, r.ready))
  }

  function RequeueOn<T>(f: Frayed<T>): Frayed<T>
    requires f.s.cur in f.s.tcb && f.s.tcb[f.s.cur].prio < |f.s.ready|
  {
    PostOn(f.(s := f.s.(tcb := f.s.tcb[f.s.cur := f.s.tcb[f.s.cur].(slice := SLICE)])), f.s.cur)
  }

  lemma RequeueOnSettles<T>(f: Frayed<T>)
    requires Ok(f)
    ensures Settled(RequeueOn(f).s) && Highest(RequeueOn(f).s.ready, PRI_MAX) >= 0
    ensures RequeueOn(f).s.ready == if f.s.tcb[f.s.cur].prio in f.stale then f.s.ready else Requeue(f.s).ready
    ensures RequeueOn(f).stale == f.stale && RequeueOn(f).s.tcb == Requeue(f.s).tcb && RequeueOn(f).s.cur == f.s.cur
  {
    RequeueSettles(f.s);
    var r, q := RequeueOn(f).s, Requeue(f.s);
    forall i | 0 <= i <= PRI_MAX ensures QueueOk(r, i) {
      assert QueueOk(q, i);
      if r.ready[i] != q.ready[i] { assert forall k :: 0 <= k < |r.ready[i]| ==> q.ready[i][k] == r.ready[i][k]; }
    }
    assert forall t :: t in r.tcb ==> IdleOk(q, t);
  }

  function TickOn<T>(f: Frayed<T>): Frayed<T>
    requires Ok(f)
  {
    if f.s.tcb[f.s.cur].slice > 1 then f.(s := TickStep(f.s))
    else RequeueOnSettles(f); DispatchOn(RequeueOn(f))
  }

  function ExitOn<T>(f: Frayed<T>): Frayed<T>
    requires Ok(f) && Highest(f.s.ready, PRI_MAX) >= 0
  {
    RetireSettles(f.s); DispatchOn(f.(s := Retire(f.s)))
  }

  /** The queues that end with one of these threads. */
  function EndingIn<T>(ready: seq<seq<T>>, dead: set<T>): (r: set<nat>) {
    set p: nat | p < |ready| && ready[p] != [] && ready[p][|ready[p]| - 1] in dead
  }

  /** A tail that pointed at the destroyed thread is stale, if the queue still holds another. */
  function DestroyOn<T>(f: Frayed<T>, t: T): Frayed<T>
    requires t in f.s.tcb && f.s.tcb[t].prio < |f.s.ready|
  {
    var r := DestroyStep(f.s, t);
    Frayed(r, Undrained(f.stale + EndingIn(f.s.ready, {t}), r.ready))
  }

  /** The same for all threads of a process. */
  function WithoutOn<T>(f: Frayed<T>, dead: set<T>): Frayed<T> {
    var r := WithoutThreads(f.s, dead);
    Frayed(r, Undrained(f.stale + EndingIn(f.s.ready, dead), r.ready))
  }

  function StepOn<T>(f: Frayed<T>, op: Op<T>): Frayed<T>
    requires Ok(f) && Enabled(f.s, op)
  {
    match op
    case Tick => TickOn(f)
    case Post(t) => PostOn(f, t)
    case Exit => ExitOn(f)
    case Create(t, prio) => f.(s := Step(f.s, op))
    case Destroy(t) => DestroyOn(f, t)
  }

  /** Safety holds with stale tails as well. */
  lemma StepOnKeepsOk<T>(f: Frayed<T>, op: Op<T>)
    requires Ok(f) && Enabled(f.s, op)
    ensures Ok(StepOn(f, op))
  {
    StepKeepsInv(f.s, op);
    match op
    case Tick =>
      if f.s.tcb[f.s.cur].slice == 1 {
        RequeueOnSettles(f);
        DispatchKeepsInv(RequeueOn(f).s);
      }
    case Exit =>
      RetireSettles(f.s);
      DispatchKeepsInv(Retire(f.s));
    case Post(t) =>
      var r := PostOn(f, t).s;
      if f.s.tcb[t].prio in f.stale {
        assert IdleOk(f.s, t);
        forall i | 0 <= i <= PRI_MAX ensures QueueOk(r, i) { assert QueueOk(f.s, i); }
        forall u | u in r.tcb && u != r.cur ensures IdleOk(r, u) { assert IdleOk(f.s, u); }
      }
    case _ =>
  }

  /**
    The tail of a queue is stale after a step exactly if the queue still holds a thread, and the tail was stale before or
    pointed at the thread that the step has destroyed.
   */
  lemma StaleIff<T>(f: Frayed<T>, op: Op<T>, p: nat)
    requires Ok(f) && Enabled(f.s, op) && p <= PRI_MAX
    ensures var q := f.s.ready[p];
      p in StepOn(f, op).stale <==>
        StepOn(f, op).s.ready[p] != [] && (p in f.stale || (op.Destroy? && q != [] && op.t == q[|q| - 1]))
  {
    StepOnKeepsOk(f, op);
    if op.Tick? && f.s.tcb[f.s.cur].slice == 1 { RequeueOnSettles(f); }
    if op.Exit? { RetireSettles(f.s); }
  }

  /** With all tails right, a step is the one of `ReadyQueues`, and keeps them right if it spares the last of several. */
  lemma StepAgrees<T>(s: Sched<T>, op: Op<T>)
    requires Inv(s) && Enabled(s, op)
    ensures StepOn(Frayed(s, {}), op).s == Step(s, op)
    ensures StepOn(Frayed(s, {}), op).stale == {} <==> (op.Destroy? ==> SparesLast(s, op.t))
  {
    var f := Frayed(s, {});
    if op.Tick? && s.tcb[s.cur].slice == 1 { RequeueSettles(s); RequeueOnSettles(f); }
    if op.Exit? { RetireSettles(s); }
    if op.Destroy? {
      var p := s.tcb[op.t].prio;
      var q := s.ready[p];
      StaleIff(f, op, p);
      assert QueueOk(s, p);
      if q != [] { LastWithout(q, op.t); }
      forall i | i in StepOn(f, op).stale ensures i == p {
        StepOnKeepsOk(f, op);
        StaleIff(f, op, i);
        QueuedPrio(s, op.t, i);
      }
    }
  }

  // ---------- Runs ----------

  ghost predicate RunsOn<T>(f: Frayed<T>, ops: seq<Op<T>>)
    requires Ok(f)
    decreases |ops|
  {
    ops == [] ||
    (Enabled(f.s, ops[0]) && (StepOnKeepsOk(f, ops[0]); RunsOn(StepOn(f, ops[0]), ops[1..])))
  }

  ghost function RunOn<T>(f: Frayed<T>, ops: seq<Op<T>>): (r: Frayed<T>)
    requires Ok(f) && RunsOn(f, ops)
    ensures Ok(r)
    decreases |ops|
  {
    if ops == [] then f else StepOnKeepsOk(f, ops[0]); RunOn(StepOn(f, ops[0]), ops[1..])
  }

  /** Thread `t` is current at the start of the run or after some step of it. */
  ghost predicate ReachedOn<T>(f: Frayed<T>, ops: seq<Op<T>>, t: T)
    requires Ok(f) && RunsOn(f, ops)
    decreases |ops|
  {
    f.s.cur == t || (ops != [] && (StepOnKeepsOk(f, ops[0]); ReachedOn(StepOn(f, ops[0]), ops[1..], t)))
  }

  /** One run after another is a run; so is a run, a creation and another run. */
  lemma {:induction false} RunOnConcat<T>(f: Frayed<T>, a: seq<Op<T>>, b: seq<Op<T>>)
    requires Ok(f) && RunsOn(f, a) && RunsOn(RunOn(f, a), b)
    ensures RunsOn(f, a + b) && RunOn(f, a + b) == RunOn(RunOn(f, a), b)
    decreases |a|
  {
    if a == [] {
      assert a + b == b;
    } else {
      StepOnKeepsOk(f, a[0]);
      assert (a + b)[1..] == a[1..] + b;
      RunOnConcat(StepOn(f, a[0]), a[1..], b);
    }
  }

  /** With all tails right, runs that spare the last of every queue of several are the runs of `Fairness`. */
  lemma {:induction false} RunAgrees<T>(s: Sched<T>, ops: seq<Op<T>>, t: T)
    requires Inv(s) && Runs(s, ops) && Guarded(s, ops)
    ensures var f := Frayed(s, {}); RunsOn(f, ops) && RunOn(f, ops) == Frayed(Run(s, ops), {})
    ensures ReachedOn(Frayed(s, {}), ops, t) <==> Reached(s, ops, t)
    decreases |ops|
  {
    if ops != [] {
      StepKeepsInv(s, ops[0]);
      StepAgrees(s, ops[0]);
      StepOnKeepsOk(Frayed(s, {}), ops[0]);
      assert StepOn(Frayed(s, {}), ops[0]) == Frayed(Step(s, ops[0]), {});
      RunAgrees(Step(s, ops[0]), ops[1..], t);
    }
  }

  // ---------- What a stale tail costs ----------

  /** A live thread of priority `p` that is neither queued nor current. */
  ghost predicate Aside<T>(f: Frayed<T>, t: T, p: nat) {
    p < |f.s.ready| && t in f.s.tcb && f.s.tcb[t].prio == p && t !in f.s.ready[p] && t != f.s.cur
  }

  /** A post puts a thread on its queue if and only if the tail of the queue is not stale; that of an empty one never is. */
  lemma PostIff<T>(f: Frayed<T>, t: T)
    requires Ok(f) && Enabled(f.s, Post(t)) && f.s.tcb[t].state != Terminated
    ensures var p := f.s.tcb[t].prio; var r := PostOn(f, t).s;
      && r.tcb[t].state == Ready && r.ready[p] == (if p in f.stale then f.s.ready[p] else f.s.ready[p] + [t])
      && (p in f.stale <==> Aside(PostOn(f, t), t, p))
      && (f.s.ready[p] == [] ==> r.ready[p] == [t])
  {
  }

  /** Destroying the last of two or more queued threads loses the next thread that is posted there. */
  lemma LostAfter<T>(f: Frayed<T>, victim: T, t: T, p: nat)
    requires Ok(f) && p <= PRI_MAX && |f.s.ready[p]| >= 2 && victim == f.s.ready[p][|f.s.ready[p]| - 1]
    requires Enabled(f.s, Destroy(victim)) && Aside(f, t, p) && f.s.tcb[t].state != Terminated && t != victim
    ensures var d := DestroyOn(f, victim);
      && Ok(d) && Enabled(d.s, Post(t)) && d.s.ready[p] == Without(f.s.ready[p], victim)
      && var r := PostOn(d, t); Ok(r) && Aside(r, t, p) && p in r.stale && r.s.ready == d.s.ready && r.s.tcb[t].state == Ready
  {
    var d := DestroyOn(f, victim);
    StepOnKeepsOk(f, Destroy(victim));
    QueuedPrio(f.s, victim, p);
    assert QueueOk(f.s, p);
    LastWithout(f.s.ready[p], victim);
    StaleIff(f, Destroy(victim), p);
    WithoutMember(f.s.ready[p], victim, t);
    StepOnKeepsOk(d, Post(t));
  }

  /** The tail of queue `p` is stale all along: by `StaleIff`, the queue is never drained. */
  ghost predicate StaleAlong<T>(f: Frayed<T>, ops: seq<Op<T>>, p: nat)
    requires Ok(f) && RunsOn(f, ops)
    decreases |ops|
  {
    p in f.stale && (ops == [] || (StepOnKeepsOk(f, ops[0]); StaleAlong(StepOn(f, ops[0]), ops[1..], p)))
  }

  /** Nothing enters a queue whose tail is stale. */
  lemma NothingEnters<T>(f: Frayed<T>, op: Op<T>, t: T, p: nat)
    requires Ok(f) && Enabled(f.s, op) && p in f.stale && op != Destroy(t) && Aside(f, t, p)
    ensures Aside(StepOn(f, op), t, p)
  {
    match op {
      case Tick => if f.s.tcb[f.s.cur].slice == 1 { RequeueOnSettles(f); DispatchedFrom(RequeueOn(f), t, p); }
      case Exit => RetireSettles(f.s); DispatchedFrom(f.(s := Retire(f.s)), t, p);
      case Destroy(u) => WithoutMember(f.s.ready[p], u, t);
      case _ =>
    }
  }

  /** Whoever is dispatched has been in the queue of its priority. */
  lemma DispatchedFrom<T>(f: Frayed<T>, t: T, p: nat)
    requires Settled(f.s) && Highest(f.s.ready, PRI_MAX) >= 0
    requires p <= PRI_MAX && t in f.s.tcb && f.s.tcb[t].prio == p && t !in f.s.ready[p]
    ensures Aside(DispatchOn(f), t, p)
  {
    HeadIsQueued(f.s, Highest(f.s.ready, PRI_MAX));
  }

  /**
    A thread that has been lost stays lost: however often it is posted, it is not queued and does not run until its
    queue has been drained.
   */
  lemma {:induction false} LostWhileStale<T>(f: Frayed<T>, ops: seq<Op<T>>, t: T, p: nat)
    requires Ok(f) && RunsOn(f, ops) && StaleAlong(f, ops, p) && Aside(f, t, p)
    requires forall i :: 0 <= i < |ops| ==> ops[i] != Destroy(t)
    ensures Aside(RunOn(f, ops), t, p) && !ReachedOn(f, ops, t)
    decreases |ops|
  {
    if ops != [] {
      StepOnKeepsOk(f, ops[0]);
      NothingEnters(f, ops[0], t, p);
      LostWhileStale(StepOn(f, ops[0]), ops[1..], t, p);
    }
  }

  /** The current thread itself is lost when its slice runs out, if and only if the tail of its queue is stale. */
  lemma RunnerLost<T>(f: Frayed<T>)
    requires Ok(f) && f.s.tcb[f.s.cur].slice == 1
    ensures var p := f.s.tcb[f.s.cur].prio; Aside(TickOn(f), f.s.cur, p) <==> p in f.stale
  {
    var p, q := f.s.tcb[f.s.cur].prio, RequeueOn(f);
    RequeueOnSettles(f);
    if p in f.stale {
      DispatchedFrom(q, f.s.cur, p);
    } else {
      var h := Highest(q.s.ready, PRI_MAX);
      assert q.s.ready[p] == f.s.ready[p] + [f.s.cur];
      if h == p && f.s.ready[p] != [] {
        assert q.s.ready[p][1..][|f.s.ready[p]| - 1] == f.s.cur;
      } else if h == p {
        assert q.s.ready[p][0] == f.s.cur;
      }
    }
  }

  ghost function TicksOn<T>(f: Frayed<T>, n: nat): (r: Frayed<T>)
    requires Ok(f)
    ensures Ok(r)
    decreases n
  {
    if n == 0 then f else StepOnKeepsOk(f, Tick); TicksOn(TickOn(f), n - 1)
  }

  lemma {:induction false} TicksOnAdd<T>(f: Frayed<T>, m: nat, n: nat)
    requires Ok(f)
    ensures TicksOn(f, m + n) == TicksOn(TicksOn(f, m), n)
    decreases m
  {
    if m > 0 {
      StepOnKeepsOk(f, Tick);
      TicksOnAdd(TickOn(f), m - 1, n);
    }
  }

  lemma TicksOnNone<T>(f: Frayed<T>)
    requires Ok(f)
    ensures TicksOn(f, 0) == f
  {
  }

  lemma TicksOnNext<T>(f: Frayed<T>, n: nat)
    requires Ok(f)
    ensures TicksOn(f, n + 1) == TickOn(TicksOn(f, n))
  {
    var g := TicksOn(f, n);
    TicksOnAdd(f, n, 1);
    StepOnKeepsOk(g, Tick);
    assert TicksOn(g, 1) == TicksOn(TickOn(g), 0);
  }

  /** With all tails right, ticks are those of `Fairness`. */
  lemma {:induction false} TicksAgree<T>(s: Sched<T>, n: nat)
    requires Inv(s)
    ensures TicksOn(Frayed(s, {}), n) == Frayed(TickN(s, n), {})
    decreases n
  {
    if n > 0 {
      StepKeepsInv(s, Tick);
      StepAgrees(s, Tick);
      StepOnKeepsOk(Frayed(s, {}), Tick);
      assert TickOn(Frayed(s, {})) == Frayed(TickStep(s), {});
      TicksAgree(TickStep(s), n - 1);
    }
  }

  lemma {:induction false} RunDownOn<T>(f: Frayed<T>, n: nat)
    requires Ok(f) && n < f.s.tcb[f.s.cur].slice
    ensures TicksOn(f, n) == f.(s := f.s.(tcb := f.s.tcb[f.s.cur := f.s.tcb[f.s.cur].(slice := f.s.tcb[f.s.cur].slice - n)]))
    decreases n
  {
    if n == 0 {
      assert f.s.tcb[f.s.cur := f.s.tcb[f.s.cur]] == f.s.tcb;
    } else {
      StepOnKeepsOk(f, Tick);
      RunDownOn(TickOn(f), n - 1);
    }
  }

  /** Thread `t` has just been dispatched from queue `p`, which holds `q` behind it. */
  ghost predicate Serving<T>(f: Frayed<T>, p: nat, t: T, q: seq<T>) {
    && Ok(f) && Undisturbed(f.s, p) && f.s.cur == t && f.s.ready[p] == q
    && f.s.tcb[t] == Tcb(p, Running, SLICE) && (p in f.stale <==> q != [])
  }

  /** The last tick of a slice. */
  lemma LastTick<T>(f: Frayed<T>, p: nat)
    requires Ok(f) && p in f.stale && Undisturbed(f.s, p) && f.s.tcb[f.s.cur].slice == 1
    ensures var q := f.s.ready[p]; q != [] && Serving(TickOn(f), p, q[0], q[1..])
  {
    StepOnKeepsOk(f, Tick);
    RequeueOnSettles(f);
    var r := RequeueOn(f);
    assert r.s.ready[p] == f.s.ready[p];
    assert Highest(r.s.ready, PRI_MAX) == p;
    HeadIsQueued(r.s, p);
    QueuedNotCurrent(f.s, f.s.ready[p][0], p);
  }

  /** What a slice does up to its last tick. */
  lemma UpToLastTick<T>(f: Frayed<T>) returns (g: Frayed<T>)
    requires Ok(f)
    ensures Ok(g) && TicksOn(f, f.s.tcb[f.s.cur].slice) == TickOn(g) && g.s.tcb[g.s.cur].slice == 1
    ensures g.stale == f.stale && g.s.ready == f.s.ready && g.s.cur == f.s.cur && f.s.cur in f.s.tcb && g.s.tcb.Keys == f.s.tcb.Keys
    ensures forall t :: t in f.s.tcb ==> g.s.tcb[t].prio == f.s.tcb[t].prio
  {
    var n := f.s.tcb[f.s.cur].slice;
    RunDownOn(f, n - 1);
    g := TicksOn(f, n - 1);
    TicksOnNext(f, n - 1);
  }

  /** The rest of a slice, with a stale tail in the queue that is served next. */
  lemma SliceOn<T>(f: Frayed<T>, p: nat)
    requires Ok(f) && p in f.stale && Undisturbed(f.s, p)
    ensures var q := f.s.ready[p]; var r := TicksOn(f, f.s.tcb[f.s.cur].slice);
      && q != [] && Serving(r, p, q[0], q[1..])
      && (forall t :: Aside(f, t, p) ==> Aside(r, t, p)) && (f.s.tcb[f.s.cur].prio == p ==> Aside(r, f.s.cur, p))
  {
    var g := UpToLastTick(f);
    hide TicksOn, TickOn, Serving;
    LastTick(g, p);
    RunnerLost(g);
    forall t | Aside(f, t, p) ensures Aside(TickOn(g), t, p) { NothingEnters(g, Tick, t, p); }
  }

  /**
    How a queue with a stale tail is drained: under ticks alone its threads get one slice each, in order, and are lost at
    the end of it; all but the last one, which has drained the queue by then.
   */
  lemma {:induction false} OneSliceEach<T>(f: Frayed<T>, p: nat, k: nat)
    requires Ok(f) && p in f.stale && Undisturbed(f.s, p) && k < |f.s.ready[p]|
    ensures var q, r := f.s.ready[p], TicksOn(f, f.s.tcb[f.s.cur].slice + SLICE * k);
      Serving(r, p, q[k], q[k + 1..]) && forall j :: 0 <= j < k ==> Aside(r, q[j], p)
    decreases k
  {
    hide TicksOn, Aside, Undisturbed;
    var q, n := f.s.ready[p], f.s.tcb[f.s.cur].slice + SLICE * k;
    if k == 0 {
      SliceOn(f, p);
    } else {
      OneSliceEach(f, p, k - 1);
      var m := n - SLICE;
      TicksOnAdd(f, m, SLICE);
      SliceOn(TicksOn(f, m), p);
      assert q[k..][0] == q[k] && q[k..][1..] == q[k + 1..];
    }
  }

  // ---------- The steps in full ----------

  /** A tick within a slice takes one of its ticks, and does nothing else. */
  lemma TickWithin<T>(f: Frayed<T>)
    requires Ok(f) && f.s.tcb[f.s.cur].slice > 1
    ensures var c := f.s.tcb[f.s.cur]; StepOn(f, Tick) == f.(s := f.s.(tcb := f.s.tcb[f.s.cur := Tcb(c.prio, c.state, c.slice - 1)]))
  {
  }

  /**
    The last tick of a slice: the current thread is READY with five fresh ticks, at the back of its queue unless the
    tail of that is stale; then the head of the highest queue below 10 is taken off it and RUNNING, unless it is that very
    thread. Nothing else changes.
   */
  lemma TickLaw<T>(f: Frayed<T>, q: seq<seq<T>>, h: nat)
    requires Ok(f) && f.s.tcb[f.s.cur].slice == 1
    requires var p := f.s.tcb[f.s.cur].prio; q == if p in f.stale then f.s.ready else f.s.ready[p := f.s.ready[p] + [f.s.cur]]
    requires h < 10 < |q| && q[h] != [] && forall i :: h < i < 10 ==> q[i] == []
    ensures var r, next, c := StepOn(f, Tick), q[h][0], f.s.tcb[f.s.cur];
      && r.s.cur == next && r.s.ready == q[h := q[h][1..]] && r.s.tcb.Keys == f.s.tcb.Keys
      && r.s.tcb[f.s.cur] == Tcb(c.prio, Ready, 5)
      && (next != f.s.cur ==> next in f.s.tcb && r.s.tcb[next] == f.s.tcb[next].(state := Running))
      && forall t :: t in f.s.tcb && t != f.s.cur && t != next ==> r.s.tcb[t] == f.s.tcb[t]
  {
    RequeueOnSettles(f);
    assert RequeueOn(f).s.ready == q;
    assert Highest(q, PRI_MAX) == h;
    HeadIsQueued(RequeueOn(f).s, h);
  }

  /** Posts, creations and destructions change one thread and at most one queue. */
  lemma OneThread<T>(f: Frayed<T>, op: Op<T>, t: T)
    requires Ok(f) && Enabled(f.s, op) && (op == Post(t) || op == Destroy(t) || (op.Create? && op.t == t))
    ensures var r, p := StepOn(f, op), if op.Create? then op.prio else f.s.tcb[t].prio;
      && r.s.cur == f.s.cur && (forall u :: u != t && u in f.s.tcb ==> u in r.s.tcb && r.s.tcb[u] == f.s.tcb[u])
      && (forall i :: 0 <= i <= 10 && i != p ==> r.s.ready[i] == f.s.ready[i])
      && (op.Create? ==> r.s.tcb[t] == Tcb(p, Ready, 5) && r.s.ready == f.s.ready)
      && (op.Post? ==> r.s.tcb[t] == if f.s.tcb[t].state == Terminated then f.s.tcb[t] else f.s.tcb[t].(state := Ready))
      && (op.Destroy? ==> t !in r.s.tcb && r.s.tcb.Keys == f.s.tcb.Keys - {t})
  {
  }

  // ---------- Threads that have exited ----------

  /** Thread `t` has exited: it is neither current nor queued. */
  ghost predicate Exited<T>(f: Frayed<T>, t: T) {
    && t in f.s.tcb && f.s.tcb[t].state == Terminated && t != f.s.cur
    && forall i :: 0 <= i < |f.s.ready| ==> t !in f.s.ready[i]
  }

  lemma TerminatedUnqueued<T>(f: Frayed<T>, t: T)
    requires Ok(f) && t in f.s.tcb && f.s.tcb[t].state == Terminated && t != f.s.cur
    ensures Exited(f, t)
  {
    forall i | 0 <= i <= PRI_MAX ensures t !in f.s.ready[i] {
      if t in f.s.ready[i] { QueuedPrio(f.s, t, i); }
    }
  }

  /**
    What an exit does: the current thread is TERMINATED, the head of the highest queue below 10 is taken off it and
    RUNNING, and nothing else changes.
   */
  lemma ExitLaw<T>(f: Frayed<T>, h: nat)
    requires Ok(f) && h < 10 && f.s.ready[h] != [] && forall i :: h < i < 10 ==> f.s.ready[i] == []
    ensures Enabled(f.s, Exit)
    ensures var r, next := StepOn(f, Exit), f.s.ready[h][0];
      && Ok(r) && next != f.s.cur && Exited(r, f.s.cur) && r.s.cur == next && r.s.ready == f.s.ready[h := f.s.ready[h][1..]]
      && r.s.tcb.Keys == f.s.tcb.Keys && r.s.tcb[f.s.cur] == f.s.tcb[f.s.cur].(state := Terminated)
      && r.s.tcb[next] == f.s.tcb[next].(state := Running)
      && forall t :: t in f.s.tcb && t != f.s.cur && t != next ==> r.s.tcb[t] == f.s.tcb[t]
  {
    assert Highest(f.s.ready, PRI_MAX) == h;
    RetireSettles(f.s);
    StepOnKeepsOk(f, Exit);
    QueuedNotCurrent(f.s, f.s.ready[h][0], h);
    TerminatedUnqueued(StepOn(f, Exit), f.s.cur);
  }

  /** An exited thread stays exited through every step but its destruction; a post of it is ignored. */
  lemma StaysExited<T>(f: Frayed<T>, op: Op<T>, t: T)
    requires Ok(f) && Enabled(f.s, op) && op != Destroy(t) && Exited(f, t)
    ensures Exited(StepOn(f, op), t) && (op == Post(t) ==> StepOn(f, op) == f)
  {
    StepOnKeepsOk(f, op);
    if op.Tick? && f.s.tcb[f.s.cur].slice == 1 {
      RequeueOnSettles(f);
      HeadIsQueued(RequeueOn(f).s, Highest(RequeueOn(f).s.ready, PRI_MAX));
    }
    if op.Exit? {
      RetireSettles(f.s);
      HeadIsQueued(f.s, Highest(f.s.ready, PRI_MAX));
    }
    TerminatedUnqueued(StepOn(f, op), t);
  }

  /** A thread that has exited is neither queued nor current in any run that does not destroy it. */
  lemma {:induction false} ExitedForGood<T>(f: Frayed<T>, ops: seq<Op<T>>, t: T)
    requires Ok(f) && RunsOn(f, ops) && Exited(f, t) && forall i :: 0 <= i < |ops| ==> ops[i] != Destroy(t)
    ensures Exited(RunOn(f, ops), t) && !ReachedOn(f, ops, t)
    decreases |ops|
  {
    if ops != [] {
      StepOnKeepsOk(f, ops[0]);
      StaysExited(f, ops[0], t);
      ExitedForGood(StepOn(f, ops[0]), ops[1..], t);
    }
  }
}
