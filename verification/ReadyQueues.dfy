/**
  The scheduler of proc/process.c on values: what a run of posts, ticks, exits, creations and
  destructions does to the ready queues. `Process.Kernel` refines every step defined here with
  linked lists that are updated in place.
 */
module ReadyQueues {

  const PRI_MAX: nat := 10
  const SLICE: nat := 5

  datatype ThreadState = Terminated | Blocked | Ready | Running

  /** The fields of a thread control block that scheduling depends on. */
  datatype Tcb = Tcb(prio: nat, state: ThreadState, slice: nat)

  /** One FIFO queue per priority 0..PRI_MAX, the current thread, and the block of every live thread. */
  datatype Sched<T(==)> = Sched(ready: seq<seq<T>>, cur: T, tcb: map<T, Tcb>)

  datatype Op<T> = Tick | Post(t: T) | Exit | Create(t: T, prio: nat) | Destroy(t: T)

  // ---------- Invariant ----------

  function IndexOf<T(==)>(q: seq<T>, t: T): (k: nat)
    requires t in q
    ensures k < |q| && q[k] == t && t !in q[..k]
  {
    if q[0] == t then 0 else 1 + IndexOf(q[1..], t)
  }

  ghost predicate NoDup<T>(s: seq<T>) {
    forall i, j :: 0 <= i < j < |s| ==> s[i] != s[j]
  }

  /** Queue `i` holds distinct live threads, each READY, of priority `i`, with a full slice. */
  ghost predicate QueueOk<T>(s: Sched<T>, i: nat)
    requires i < |s.ready|
  {
    && NoDup(s.ready[i])
    && forall k :: 0 <= k < |s.ready[i]| ==> QueuedOk(s, s.ready[i][k], i)
  }

  ghost predicate QueuedOk<T>(s: Sched<T>, t: T, i: nat) {
    t in s.tcb && s.tcb[t] == Tcb(i, Ready, SLICE)
  }

  /** A thread that does not run: unless it has exited, it holds a full slice. */
  ghost predicate IdleOk<T>(s: Sched<T>, t: T)
    requires t in s.tcb
  {
    && s.tcb[t].prio <= PRI_MAX
    && s.tcb[t].state != Running
    && (s.tcb[t].state != Terminated ==> s.tcb[t].slice == SLICE)
  }

  ghost predicate QueuesOk<T>(s: Sched<T>) {
    && |s.ready| == PRI_MAX + 1
    && forall i :: 0 <= i <= PRI_MAX ==> QueueOk(s, i)
  }

  /** The current thread is live, unqueued, dispatchable and holds between 1 and SLICE ticks. */
  ghost predicate CurOk<T>(s: Sched<T>)
    requires |s.ready| == PRI_MAX + 1
  {
    && s.cur in s.tcb
    && var c := s.tcb[s.cur];
       c.prio < PRI_MAX && (c.state == Running || c.state == Ready) && 1 <= c.slice <= SLICE
       && s.cur !in s.ready[c.prio]
  }

  ghost predicate Inv<T>(s: Sched<T>) {
    && QueuesOk(s)
    && CurOk(s)
    && (forall t :: t in s.tcb && t != s.cur ==> IdleOk(s, t))
  }

  /** The state between giving up the processor and dispatching: no thread runs. */
  ghost predicate Settled<T>(s: Sched<T>) {
    && QueuesOk(s)
    && (forall t :: t in s.tcb ==> IdleOk(s, t))
  }

  // ---------- Steps ----------

  /** The highest nonempty queue below `n`, or -1. */
  function Highest<T>(ready: seq<seq<T>>, n: nat): (h: int)
    requires n <= |ready|
    ensures -1 <= h < n
    ensures h >= 0 ==> ready[h] != []
    ensures forall i :: h < i < n ==> ready[i] == []
  {
    if n == 0 then -1 else if ready[n - 1] != [] then n - 1 else Highest(ready, n - 1)
  }

  /** Pops the head of queue `h` and makes it current; a thread that pops itself stays READY. */
  function Switch<T>(s: Sched<T>, h: nat): (r: Sched<T>)
    requires h < |s.ready| && s.ready[h] != [] && s.ready[h][0] in s.tcb
    ensures |r.ready| == |s.ready|
  {
    var t := s.ready[h][0];
    var popped := s.ready[h := s.ready[h][1..]];
    if t == s.cur then s.(ready := popped)
    else s.(ready := popped, cur := t, tcb := s.tcb[t := s.tcb[t].(state := Running)])
  }

  function PostStep<T>(s: Sched<T>, t: T): Sched<T>
    requires t in s.tcb && s.tcb[t].prio < |s.ready|
  {
    var c := s.tcb[t];
    if c.state == Terminated then s
    else s.(ready := s.ready[c.prio := s.ready[c.prio] + [t]], tcb := s.tcb[t := c.(state := Ready)])
  }

  /** The current thread's slice has just run out: it goes to the back of its queue with a fresh slice. */
  function Requeue<T>(s: Sched<T>): Sched<T>
    requires s.cur in s.tcb && s.tcb[s.cur].prio < |s.ready|
  {
    PostStep(s.(tcb := s.tcb[s.cur := s.tcb[s.cur].(slice := SLICE)]), s.cur)
  }

  /** Dispatches the head of the highest nonempty queue below PRI_MAX. */
  function Dispatch<T>(s: Sched<T>): (r: Sched<T>)
    requires Settled(s) && Highest(s.ready, PRI_MAX) >= 0
    ensures |r.ready| == |s.ready|
  {
    var h := Highest(s.ready, PRI_MAX);
    HeadIsQueued(s, h);
    Switch(s, h)
  }

  function TickStep<T>(s: Sched<T>): (r: Sched<T>)
    requires Inv(s)
    ensures |r.ready| == |s.ready|
  {
    var c := s.tcb[s.cur];
    if c.slice > 1 then s.(tcb := s.tcb[s.cur := c.(slice := c.slice - 1)])
    else RequeueSettles(s); Dispatch(Requeue(s))
  }

  /** The current thread stops for good. */
  function Retire<T>(s: Sched<T>): Sched<T>
    requires s.cur in s.tcb
  {
    s.(tcb := s.tcb[s.cur := s.tcb[s.cur].(state := Terminated)])
  }

  /** `thread_exit` with some queue below PRI_MAX nonempty; with none it spins for ever. */
  function ExitStep<T>(s: Sched<T>): Sched<T>
    requires Inv(s) && Highest(s.ready, PRI_MAX) >= 0
  {
    RetireSettles(s); Dispatch(Retire(s))
  }

  function Without<T(==)>(q: seq<T>, t: T): (r: seq<T>)
    ensures t !in q ==> r == q
    ensures t !in r
  {
    if q == [] then [] else if q[0] == t then Without(q[1..], t) else [q[0]] + Without(q[1..], t)
  }

  function DestroyStep<T>(s: Sched<T>, t: T): Sched<T>
    requires t in s.tcb && s.tcb[t].prio < |s.ready|
  {
    var p := s.tcb[t].prio;
    s.(ready := s.ready[p := Without(s.ready[p], t)], tcb := s.tcb - {t})
  }

  /** What the callers of proc/process.c owe: post only unqueued threads, never destroy the current one. */
  predicate Enabled<T>(s: Sched<T>, op: Op<T>)
    requires |s.ready| == PRI_MAX + 1
  {
    match op
    case Tick => true
    case Post(t) => t in s.tcb && t != s.cur && s.tcb[t].prio <= PRI_MAX && t !in s.ready[s.tcb[t].prio]
    case Exit => Highest(s.ready, PRI_MAX) >= 0
    case Create(t, prio) => t !in s.tcb && prio <= PRI_MAX
    case Destroy(t) => t in s.tcb && t != s.cur && s.tcb[t].prio <= PRI_MAX
  }

  function Step<T>(s: Sched<T>, op: Op<T>): (r: Sched<T>)
    requires Inv(s) && Enabled(s, op)
    ensures |r.ready| == PRI_MAX + 1
  {
    match op
    case Tick => TickStep(s)
    case Post(t) => PostStep(s, t)
    case Exit => ExitStep(s)
    case Create(t, prio) => s.(tcb := s.tcb[t := Tcb(prio, Ready, SLICE)])
    case Destroy(t) => DestroyStep(s, t)
  }

  // ---------- The invariant holds in every reachable state ----------

  lemma HeadIsQueued<T>(s: Sched<T>, h: nat)
    requires QueuesOk(s) && h <= PRI_MAX && s.ready[h] != []
    ensures QueuedOk(s, s.ready[h][0], h)
  {
    assert QueueOk(s, h);
  }

  /** A queued thread's queue is the one its priority names. */
  lemma QueuedPrio<T>(s: Sched<T>, t: T, i: nat)
    requires QueuesOk(s) && i <= PRI_MAX && t in s.ready[i]
    ensures QueuedOk(s, t, i)
  {
    assert QueueOk(s, i);
  }

  lemma QueuedNotCurrent<T>(s: Sched<T>, t: T, i: nat)
    requires Inv(s) && i <= PRI_MAX && t in s.ready[i]
    ensures QueuedOk(s, t, i) && t != s.cur
  {
    QueuedPrio(s, t, i);
  }

  lemma RequeueSettles<T>(s: Sched<T>)
    requires Inv(s)
    ensures Settled(Requeue(s)) && Highest(Requeue(s).ready, PRI_MAX) >= 0
  {
    var r, p := Requeue(s), s.tcb[s.cur].prio;
    assert s.cur in r.ready[p];
    forall i | 0 <= i <= PRI_MAX ensures QueueOk(r, i) {
      assert QueueOk(s, i);
      if i != p && s.cur in s.ready[i] { QueuedPrio(s, s.cur, i); }
    }
    forall t | t in r.tcb ensures IdleOk(r, t) {
      if t != s.cur { assert IdleOk(s, t); }
    }
  }

  lemma RetireSettles<T>(s: Sched<T>)
    requires Inv(s)
    ensures Settled(Retire(s)) && Retire(s).ready == s.ready
  {
    var r := Retire(s);
    forall i | 0 <= i <= PRI_MAX ensures QueueOk(r, i) {
      assert QueueOk(s, i);
      if s.cur in s.ready[i] { QueuedPrio(s, s.cur, i); }
    }
    forall t | t in r.tcb ensures IdleOk(r, t) {
      if t != s.cur { assert IdleOk(s, t); }
    }
  }

  lemma DispatchKeepsInv<T>(s: Sched<T>)
    requires Settled(s) && Highest(s.ready, PRI_MAX) >= 0
    ensures Inv(Dispatch(s))
  {
    var h := Highest(s.ready, PRI_MAX);
    HeadIsQueued(s, h);
    var t, r := s.ready[h][0], Dispatch(s);
    forall i | 0 <= i <= PRI_MAX ensures QueueOk(r, i) {
      assert QueueOk(s, i);
      forall k | 0 <= k < |r.ready[i]| ensures QueuedOk(r, r.ready[i][k], i) {
        assert r.ready[i][k] in s.ready[i];
      }
    }
    assert QueueOk(s, h);
    forall u | u in r.tcb && u != r.cur ensures IdleOk(r, u) {
      assert IdleOk(s, u);
    }
  }

  lemma WithoutMember<T>(q: seq<T>, t: T, x: T)
    ensures x in Without(q, t) <==> x in q && x != t
  {
  }

  lemma {:induction false} WithoutAt<T>(q: seq<T>, t: T, k: nat)
    requires NoDup(q) && k < |q| && q[k] == t
    ensures Without(q, t) == q[..k] + q[k + 1..]
  {
    if k == 0 {
      assert t !in q[1..];
      assert q[..0] + q[1..] == q[1..];
    } else {
      assert q[0] != t && NoDup(q[1..]) && q[1..][k - 1] == t;
      WithoutAt(q[1..], t, k - 1);
      CutOne(q, k);
    }
  }

  lemma CutOne<T>(q: seq<T>, k: nat)
    requires 0 < k < |q|
    ensures [q[0]] + (q[1..][..k - 1] + q[1..][k..]) == q[..k] + q[k + 1..]
  {
    assert [q[0]] + q[1..][..k - 1] == q[..k];
    assert q[1..][k..] == q[k + 1..];
  }

  /** Removing one element keeps the last one, unless it is the one removed. */
  lemma {:induction false} LastWithout<T>(q: seq<T>, t: T)
    requires NoDup(q) && q != []
    ensures var r := Without(q, t);
      if q[|q| - 1] == t then (r == [] <==> |q| == 1) && t !in r else r != [] && r[|r| - 1] == q[|q| - 1]
  {
    if |q| > 1 {
      LastWithout(q[1..], t);
      assert q[0] != q[|q| - 1];
    }
  }

  /** `q` without the members of `dead`, in order. */
  function Keep<T(==)>(q: seq<T>, dead: set<T>): seq<T> {
    if q == [] then [] else if q[0] in dead then Keep(q[1..], dead) else [q[0]] + Keep(q[1..], dead)
  }

  lemma {:induction false} KeepOneLess<T>(q: seq<T>, dead: set<T>, t: T)
    ensures Without(Keep(q, dead), t) == Keep(q, dead + {t})
  {
    if q != [] { KeepOneLess(q[1..], dead, t); }
  }

  lemma KeepMember<T>(q: seq<T>, dead: set<T>, x: T)
    ensures x in Keep(q, dead) <==> x in q && x !in dead
  {
  }

  lemma WithoutNoDup<T>(q: seq<T>, t: T)
    requires NoDup(q)
    ensures NoDup(Without(q, t))
  {
    if q != [] {
      WithoutNoDup(q[1..], t);
      WithoutMember(q[1..], t, q[0]);
    }
  }

  /** The state without the threads of `dead`: every queue is filtered, in order. */
  function WithoutThreads<T(==)>(s: Sched<T>, dead: set<T>): Sched<T> {
    s.(ready := seq(|s.ready|, i requires 0 <= i < |s.ready| => Keep(s.ready[i], dead)), tcb := s.tcb - dead)
  }

  lemma KeepNone<T>(q: seq<T>)
    ensures Keep(q, {}) == q
  {
  }

  /** Destroying threads one after the other filters the queues by all of them. */
  lemma DestroyOneMore<T>(s: Sched<T>, dead: set<T>, t: T)
    requires QueuesOk(s) && t in s.tcb && t !in dead && s.tcb[t].prio <= PRI_MAX
    ensures DestroyStep(WithoutThreads(s, dead), t) == WithoutThreads(s, dead + {t})
  {
    var d, p := WithoutThreads(s, dead), s.tcb[t].prio;
    forall i | 0 <= i <= PRI_MAX ensures DestroyStep(d, t).ready[i] == Keep(s.ready[i], dead + {t}) {
      KeepOneLess(s.ready[i], dead, t);
      KeepMember(s.ready[i], dead, t);
      if i != p && t in s.ready[i] { QueuedPrio(s, t, i); }
    }
    assert DestroyStep(d, t).ready == WithoutThreads(s, dead + {t}).ready;
    assert DestroyStep(d, t).tcb == s.tcb - (dead + {t});
  }

  lemma KeepNoDup<T>(q: seq<T>, dead: set<T>)
    requires NoDup(q)
    ensures NoDup(Keep(q, dead))
  {
    if q != [] {
      KeepNoDup(q[1..], dead);
      KeepMember(q[1..], dead, q[0]);
    }
  }

  lemma WithoutThreadsKeepsInv<T>(s: Sched<T>, dead: set<T>)
    requires Inv(s) && s.cur !in dead
    ensures Inv(WithoutThreads(s, dead))
  {
    var r := WithoutThreads(s, dead);
    forall i | 0 <= i <= PRI_MAX ensures QueueOk(r, i) {
      assert QueueOk(s, i);
      KeepNoDup(s.ready[i], dead);
      forall k | 0 <= k < |r.ready[i]| ensures QueuedOk(r, r.ready[i][k], i) {
        var x := r.ready[i][k];
        KeepMember(s.ready[i], dead, x);
        QueuedPrio(s, x, i);
      }
    }
    KeepMember(s.ready[s.tcb[s.cur].prio], dead, s.cur);
    forall u | u in r.tcb && u != r.cur ensures IdleOk(r, u) { assert IdleOk(s, u); }
  }

  lemma {:induction false} KeepLast<T>(q: seq<T>, dead: set<T>)
    requires q != []
    ensures var r := Keep(q, dead);
      if q[|q| - 1] in dead then r != [] ==> r[|r| - 1] !in dead else r != [] && r[|r| - 1] == q[|q| - 1]
  {
    if |q| > 1 { KeepLast(q[1..], dead); }
  }

  lemma DestroyKeepsInv<T>(s: Sched<T>, t: T)
    requires Inv(s) && Enabled(s, Destroy(t))
    ensures Inv(DestroyStep(s, t))
  {
    var r, p := DestroyStep(s, t), s.tcb[t].prio;
    forall i | 0 <= i <= PRI_MAX ensures QueueOk(r, i) {
      assert QueueOk(s, i);
      if i == p { WithoutNoDup(s.ready[p], t); }
      forall k | 0 <= k < |r.ready[i]| ensures QueuedOk(r, r.ready[i][k], i) {
        var x := r.ready[i][k];
        if i == p { WithoutMember(s.ready[p], t, x); }
        QueuedPrio(s, x, i);
      }
    }
    WithoutMember(s.ready[s.tcb[s.cur].prio], t, s.cur);
    forall u | u in r.tcb && u != r.cur ensures IdleOk(r, u) {
      assert IdleOk(s, u);
    }
  }

  /** Safety: every enabled step keeps the scheduler invariant. */
  lemma StepKeepsInv<T>(s: Sched<T>, op: Op<T>)
    requires Inv(s) && Enabled(s, op)
    ensures Inv(Step(s, op))
  {
    var r := Step(s, op);
    match op
    case Tick =>
      if s.tcb[s.cur].slice == 1 {
        RequeueSettles(s);
        DispatchKeepsInv(Requeue(s));
      } else {
        forall i | 0 <= i <= PRI_MAX ensures QueueOk(r, i) {
          assert QueueOk(s, i);
          if s.cur in s.ready[i] { QueuedPrio(s, s.cur, i); }
        }
        forall u | u in r.tcb && u != r.cur ensures IdleOk(r, u) { assert IdleOk(s, u); }
      }
    case Exit =>
      RetireSettles(s);
      DispatchKeepsInv(Retire(s));
    case Destroy(t) =>
      DestroyKeepsInv(s, t);
    case Post(t) =>
      assert IdleOk(s, t);
      forall i | 0 <= i <= PRI_MAX ensures QueueOk(r, i) { assert QueueOk(s, i); }
      forall u | u in r.tcb && u != r.cur ensures IdleOk(r, u) { assert IdleOk(s, u); }
    case Create(t, prio) =>
      forall i | 0 <= i <= PRI_MAX ensures QueueOk(r, i) { assert QueueOk(s, i); }
      assert QueueOk(s, s.tcb[s.cur].prio);
      forall u | u in r.tcb && u != r.cur ensures IdleOk(r, u) { if u != t { assert IdleOk(s, u); } }
  }

  /** The current thread's slice runs out and nothing is queued at its priority or above: it is its own successor. */
  predicate DispatchesItself<T>(s: Sched<T>)
    requires Inv(s)
  {
    var c := s.tcb[s.cur];
    c.slice == 1 && forall i :: c.prio <= i < PRI_MAX ==> s.ready[i] == []
  }

  /**
    The current thread is READY, and not RUNNING, after exactly these steps: a tick in which it dispatches itself, and
    any step that leaves a current thread alone that was READY before.
   */
  lemma ReadyWhileCurrent<T>(s: Sched<T>, op: Op<T>)
    requires Inv(s) && Enabled(s, op)
    ensures var r := Step(s, op);
      r.tcb[r.cur].state == Ready <==>
        match op
        case Exit => false
        case Tick => DispatchesItself(s) || (s.tcb[s.cur].slice > 1 && s.tcb[s.cur].state == Ready)
        case _ => s.tcb[s.cur].state == Ready
    ensures op.Tick? && s.tcb[s.cur].slice == 1 ==> (Step(s, op).cur == s.cur <==> DispatchesItself(s))
  {
    StepKeepsInv(s, op);
    if op.Tick? && s.tcb[s.cur].slice == 1 {
      RequeueSettles(s);
      var q, h := Requeue(s), Highest(Requeue(s).ready, PRI_MAX);
      HeadIsQueued(q, h);
      if !DispatchesItself(s) {
        var i :| s.tcb[s.cur].prio <= i < PRI_MAX && s.ready[i] != [];
        assert q.ready[i] != [];
        assert q.ready[h][0] == s.ready[h][0];
        QueuedNotCurrent(s, s.ready[h][0], h);
      } else {
        assert q.ready[s.tcb[s.cur].prio] == [s.cur];
        assert h == s.tcb[s.cur].prio;
      }
    } else if op.Exit? {
      RetireSettles(s);
      HeadIsQueued(Retire(s), Highest(s.ready, PRI_MAX));
    }
  }
}
