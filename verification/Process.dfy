/**
  proc/process.c: the thread and process tables and the scheduler, as objects that are updated in place.
  Ghost sequences record which threads each linked list holds; `Kernel.Frays` is the abstract scheduler state, with the
  queues whose tail pointers are stale, on which `ReadyQueues`, `Fairness` and `StaleTails` prove what the steps below
  amount to.
 */
module Process {
  import opened ReadyQueues
  import opened StaleTails
  import Fairness

  const PRI_DEFAULT: nat := 5
  const MAX_PROCESSES: nat := 128

  class Thread {
    var tid: nat
    var priority: nat
    var state: ThreadState
    var parent: Process
    var timeSlice: nat
    var next: Thread?
    var nextReady: Thread?

    constructor (tid: nat, parent: Process, next: Thread?)
      ensures this.tid == tid && this.parent == parent && this.next == next && nextReady == null
      ensures state == Ready && priority == PRI_DEFAULT && timeSlice == SLICE
    {
      this.tid, this.parent, this.next, nextReady := tid, parent, next, null;
      state, priority, timeSlice := Ready, PRI_DEFAULT, SLICE;
    }

    /** The thread that is already running when the scheduler starts; its links are left uninitialised. */
    constructor Boot(tid: nat, parent: Process)
      ensures this.tid == tid && this.parent == parent
      ensures state == Running && priority == PRI_DEFAULT && timeSlice == SLICE
    {
      this.tid, this.parent := tid, parent;
      state, priority, timeSlice := Running, PRI_DEFAULT, SLICE;
      next, nextReady := *, *;
    }
  }

  class Process {
    var pid: nat
    var state: ThreadState
    var threads: Thread?
    ghost var members: seq<Thread>  // the list that starts at `threads`, linked by `next`
    ghost var bottom: Thread?       // what the last link holds: NULL, but for the process that exists from the start
  }

  // ---------- Lists in the heap ----------

  /** `s` is the list that starts at `head` and is linked by `nextReady`. */
  ghost predicate ReadyChain(head: Thread?, s: seq<Thread>)
    reads s`nextReady
  {
    && head == (if s == [] then null else s[0])
    && (s != [] ==> s[|s| - 1].nextReady == null)
    && forall k {:trigger s[k].nextReady} :: 0 <= k < |s| - 1 ==> s[k].nextReady == s[k + 1]
  }

  /** `s` is the list that starts at `head` and is linked by `next`; its last link holds `bottom`. */
  ghost predicate ThreadChain(head: Thread?, s: seq<Thread>, bottom: Thread?)
    reads s`next
  {
    && head == (if s == [] then bottom else s[0])
    && (s != [] ==> s[|s| - 1].next == bottom)
    && forall k {:trigger s[k].next} :: 0 <= k < |s| - 1 ==> s[k].next == s[k + 1]
  }

  lemma Beheaded(q: seq<Thread>)
    requires q != [] && NoDup(q) && ReadyChain(q[0], q)
    ensures ReadyChain(q[0].nextReady, Without<Thread>(q, q[0]))
  {
    hide Without, NoDup;
    WithoutHead(q);
    assert ReadyChain(q[0].nextReady, q[1..]);
  }

  /** A list whose element `k` is bypassed is the list without it. */
  lemma Bypassed(q: seq<Thread>, k: nat)
    requires 0 < k < |q| && NoDup(q) && PassedOver(q, k)
    ensures ReadyChain(q[0], Without<Thread>(q, q[k]))
  {
    hide *;
    WithoutAt<Thread>(q, q[k], k);
    BypassedChain(q, k);
  }

  /** Every link is in place but the one of element `k - 1`, which passes over element `k`. */
  ghost predicate PassedOver(q: seq<Thread>, k: nat)
    requires 0 < k < |q|
    reads q`nextReady
  {
    && q[k - 1].nextReady == (if k + 1 < |q| then q[k + 1] else null)
    && (forall i {:trigger q[i].nextReady} :: 0 <= i < |q| - 1 && i != k - 1 && i != k ==> q[i].nextReady == q[i + 1])
    && (k < |q| - 1 ==> q[|q| - 1].nextReady == null)
  }

  lemma BypassedChain(q: seq<Thread>, k: nat)
    requires 0 < k < |q| && PassedOver(q, k)
    ensures ReadyChain(q[0], q[..k] + q[k + 1..])
  {
    var r := q[..k] + q[k + 1..];
    forall i {:trigger r[i].nextReady} | 0 <= i < |r| - 1 ensures r[i].nextReady == r[i + 1] {
      assert r[i] == q[if i < k then i else i + 1];
    }
  }

  lemma WithoutHead(q: seq<Thread>)
    requires q != [] && NoDup(q)
    ensures Without<Thread>(q, q[0]) == q[1..]
  {
    WithoutAt<Thread>(q, q[0], 0);
    assert q[..0] + q[1..] == q[1..];
  }

  lemma BeheadedList(q: seq<Thread>, bottom: Thread?)
    requires q != [] && NoDup(q) && ThreadChain(q[0], q, bottom)
    ensures ThreadChain(q[0].next, Without<Thread>(q, q[0]), bottom)
  {
    hide Without, NoDup;
    WithoutHead(q);
    assert ThreadChain(q[0].next, q[1..], bottom);
  }

  lemma BypassedList(q: seq<Thread>, k: nat, bottom: Thread?)
    requires 0 < k < |q| && NoDup(q) && PassedOverInList(q, k, bottom)
    ensures ThreadChain(q[0], Without<Thread>(q, q[k]), bottom)
  {
    hide *;
    WithoutAt<Thread>(q, q[k], k);
    BypassedListChain(q, k, bottom);
  }

  /** Every link is in place but the one of element `k - 1`, which passes over element `k`. */
  ghost predicate PassedOverInList(q: seq<Thread>, k: nat, bottom: Thread?)
    requires 0 < k < |q|
    reads q`next
  {
    && q[k - 1].next == (if k + 1 < |q| then q[k + 1] else bottom)
    && (forall i {:trigger q[i].next} :: 0 <= i < |q| - 1 && i != k - 1 && i != k ==> q[i].next == q[i + 1])
    && (k < |q| - 1 ==> q[|q| - 1].next == bottom)
  }

  lemma BypassedListChain(q: seq<Thread>, k: nat, bottom: Thread?)
    requires 0 < k < |q| && PassedOverInList(q, k, bottom)
    ensures ThreadChain(q[0], q[..k] + q[k + 1..], bottom)
  {
    var r := q[..k] + q[k + 1..];
    forall i {:trigger r[i].next} | 0 <= i < |r| - 1 ensures r[i].next == r[i + 1] {
      assert r[i] == q[if i < k then i else i + 1];
    }
  }

  ghost predicate EndsAt(q: seq<Thread>, tail: Thread?) {
    q == [] || tail == q[|q| - 1]
  }

  /** What posting `t` makes of the queue `q` that its priority names. */
  ghost function Posted(q: seq<Thread>, t: Thread, tailOk: bool): seq<Thread> {
    if t in q then q[..IndexOf(q, t) + 1] else if tailOk then q + [t] else q
  }

  /** Following `nextReady` from `head` visits `q` and then its last thread for ever. */
  ghost predicate Knotted(head: Thread?, q: seq<Thread>)
    reads q`nextReady
  {
    && q != [] && head == q[0]
    && q[|q| - 1].nextReady == q[|q| - 1]
    && forall k {:trigger q[k].nextReady} :: 0 <= k < |q| - 1 ==> q[k].nextReady == q[k + 1]
  }

  /** A knotted list is not a finite list of any threads. */
  lemma KnottedIsEndless(head: Thread?, q: seq<Thread>, s: seq<Thread>)
    requires Knotted(head, q)
    ensures !ReadyChain(head, s)
  {
    if ReadyChain(head, s) {
      var k := 0;
      while k < |s| - 1
        invariant 0 <= k < |s|
        invariant s[k] == q[if k < |q| then k else |q| - 1]
      {
        assert s[k].nextReady == s[k + 1];
        k := k + 1;
      }
    }
  }

  lemma BootInv(s: Sched<Thread>, t: Thread)
    requires |s.ready| == PRI_MAX + 1 && forall i :: 0 <= i <= PRI_MAX ==> s.ready[i] == []
    requires s.cur == t && s.tcb == map[t := Tcb(PRI_DEFAULT, Running, SLICE)]
    ensures Inv(s)
  {
  }

  lemma RequeueOf(r: Frayed<Thread>, f: Frayed<Thread>)
    requires Ok(f) && r == RequeueOn(f)
    ensures Settled(r.s) && Highest(r.s.ready, PRI_MAX) >= 0 && f.s.cur in r.s.tcb
  {
    RequeueOnSettles(f);
  }

  lemma PostOf(r: Frayed<Thread>, f: Frayed<Thread>, t: Thread)
    requires Ok(f) && Enabled(f.s, Post(t)) && r == PostOn(f, t)
    ensures Inv(r.s)
  {
    StepOnKeepsOk(f, Post(t));
  }

  /** Dispatching in full: the head of the highest queue becomes current and RUNNING, unless it is current already. */
  lemma HeadDispatched(f: Frayed<Thread>)
    requires Settled(f.s) && Highest(f.s.ready, PRI_MAX) >= 0
    ensures var h := Highest(f.s.ready, PRI_MAX);
      && h < PRI_MAX < |f.s.ready| && f.s.ready[h] != [] && f.s.ready[h][0] in f.s.tcb
      && var t, popped := f.s.ready[h][0], f.s.ready[h := f.s.ready[h][1..]];
         DispatchOn(f).stale == Undrained(f.stale, popped) && DispatchOn(f).s ==
           Sched(popped, t, if t == f.s.cur then f.s.tcb else f.s.tcb[t := f.s.tcb[t].(state := Running)])
  {
    HeadIsQueued(f.s, Highest(f.s.ready, PRI_MAX));
  }

  lemma RunningFacts(f: Frayed<Thread>)
    requires Ok(f)
    ensures |f.s.ready| == PRI_MAX + 1 && f.s.cur in f.s.tcb && f.s.tcb[f.s.cur].prio <= PRI_MAX
    ensures f.s.tcb[f.s.cur].state != Terminated && f.s.cur !in f.s.ready[f.s.tcb[f.s.cur].prio]
    ensures 1 <= f.s.tcb[f.s.cur].slice <= SLICE
  {
  }

  lemma StepOf(r: Frayed<Thread>, f: Frayed<Thread>, op: Op<Thread>)
    requires Ok(f) && Enabled(f.s, op) && r == StepOn(f, op)
    ensures Ok(r) && Inv(r.s)
  {
    StepOnKeepsOk(f, op);
  }

  /** The state once a new thread has been queued. */
  ghost function Spawned(f: Frayed<Thread>, t: Thread): Frayed<Thread>
    requires |f.s.ready| == PRI_MAX + 1
  {
    PostOn(f.(s := f.s.(tcb := f.s.tcb[t := Tcb(PRI_DEFAULT, Ready, SLICE)])), t)
  }

  /** The table with `p` in its first free slot, if it has one. */
  ghost function Claimed(table: seq<Process?>, p: Process): seq<Process?> {
    if null in table then table[IndexOf<Process?>(table, null) := p] else table
  }

  /** `p` has been put into the first free slot of a table, if there is one. */
  ghost predicate InFirstFree(before: seq<Process?>, after: seq<Process?>, p: Process) {
    if null in before then
      exists i :: 0 <= i < |before| && before[i] == null && (forall j :: 0 <= j < i ==> before[j] != null) && after == before[i := p]
    else after == before
  }

  lemma ClaimedFirst(table: seq<Process?>, p: Process)
    ensures InFirstFree(table, Claimed(table, p), p)
  {
    if null in table {
      var i := IndexOf<Process?>(table, null);
      assert forall j :: 0 <= j < i ==> table[j] == table[..i][j];
    }
  }

  lemma NowListed(before: seq<Process?>, after: seq<Process?>, p: Process)
    requires null in before && InFirstFree(before, after, p)
    ensures p in after
  {
    var i :| 0 <= i < |before| && before[i] == null && after == before[i := p];
    assert after[i] == p;
  }

  /** A process stays in the table while others enter it and leave it. */
  lemma StaysListed(before: seq<Process?>, after: seq<Process?>, p: Process, q: Process)
    requires p in before && p != q && (InFirstFree(before, after, q) || after == Kernel.Released(before, q))
    ensures p in after
  {
    var k :| 0 <= k < |before| && before[k] == p;
    if after == Kernel.Released(before, q) {
      if q in before { assert after[k] == p; }
    } else if null in before {
      var i :| 0 <= i < |before| && before[i] == null && after == before[i := q];
      assert after[k] == p;
    }
  }

  /** What a kernel may be told to do. */
  datatype Command = TickOnce | ExitCurrent | SpawnProcess(imageOk: bool, stackOk: bool) | KillProcess(process: Process)

  class Kernel {
    var currentThread: Thread
    var currentProc: Process
    var currentPid: nat
    var currentTid: nat
    const processTable: array<Process?>
    const queue: array<Thread?>
    const queueTail: array<Thread?>

    ghost var ready: seq<seq<Thread>>  // the list that starts at each queue head
    ghost var live: set<Thread>        // allocated and not freed
    ghost var heap: set<Thread>        // ever allocated; a tail pointer may dangle into heap - live
    ghost var procs: set<Process>      // created and not destroyed

    ghost predicate Shape()
      reads `ready, `heap, queueTail, heap`priority
    {
      && queue.Length == queueTail.Length == |ready| == PRI_MAX + 1
      && queue != queueTail
      && processTable.Length == MAX_PROCESSES
      && forall i :: 0 <= i <= PRI_MAX && queueTail[i] != null ==> queueTail[i] in heap && queueTail[i].priority == i
    }

    /** Queue head `i` starts a finite list of distinct live threads of priority `i`. */
    ghost predicate QueueLinked(i: nat)
      requires Shape() && i <= PRI_MAX
      reads `ready, `live, `heap, queue, queueTail, heap`priority, heap`nextReady
    {
      && (forall k :: 0 <= k < |ready[i]| ==> ready[i][k] in live && ready[i][k] in heap && ready[i][k].priority == i)
      && NoDup(ready[i])
      && ReadyChain(queue[i], ready[i])
    }

    ghost predicate Links()
      requires Shape()
      reads `ready, `live, `heap, queue, queueTail, heap`priority, heap`nextReady
    {
      live <= heap && forall i :: 0 <= i <= PRI_MAX ==> QueueLinked(i)
    }

    /** The `threads` list of a live process holds distinct live threads of it, linked by `next`. */
    ghost predicate ListLinked(p: Process)
      requires live <= heap
      reads `live, p`members, p`threads, p`bottom, heap`next, heap`parent, `heap
    {
      && (forall k :: 0 <= k < |p.members| ==> p.members[k] in live && p.members[k].parent == p)
      && NoDup(p.members)
      && ThreadChain(p.threads, p.members, p.bottom)
    }

    /** Every live thread of a live process is on that process's list. */
    ghost predicate Lists()
      reads `live, `procs, procs`members, procs`threads, procs`bottom, heap`next, heap`parent, `heap
    {
      && live <= heap
      && (forall p :: p in procs ==> ListLinked(p))
      && (forall t :: t in live && t.parent in procs ==> t in t.parent.members)
    }

    ghost predicate TailOk(i: nat)
      requires Shape() && i <= PRI_MAX
      reads `ready, `heap, queueTail, heap`priority
    {
      EndsAt(ready[i], queueTail[i])
    }

    /** The queues whose tail pointer is not their last thread. */
    ghost function Stale(): set<nat>
      reads `ready, queueTail
    {
      set i: nat | i < |ready| && i < queueTail.Length && !EndsAt(ready[i], queueTail[i])
    }

    /** A stale tail points at a thread that is not on the queue. */
    ghost predicate TailsSafe()
      reads `ready, queueTail
    {
      forall i :: 0 <= i < |ready| && i < queueTail.Length ==>
        EndsAt(ready[i], queueTail[i]) || (queueTail[i] != null && queueTail[i] !in ready[i])
    }

    ghost function Tcbs(): map<Thread, Tcb>
      reads `live, live`priority, live`state, live`timeSlice
    {
      map t | t in live :: Tcb(t.priority, t.state, t.timeSlice)
    }

    ghost function Abs(): Sched<Thread>
      reads `ready, `currentThread, `live, live`priority, live`state, live`timeSlice
    {
      Sched(ready, currentThread, Tcbs())
    }

    ghost function Frays(): Frayed<Thread>
      reads `ready, `currentThread, `live, live`priority, live`state, live`timeSlice, queueTail
    {
      Frayed(Abs(), Stale())
    }

    /** What the process code keeps besides the queues; no scheduling step touches anything it reads. */
    ghost predicate Records()
      reads `live, `heap, `procs, `currentPid, `currentTid, processTable
      reads procs`members, procs`threads, procs`bottom, procs`pid, procs`state, heap`next, heap`parent, live`tid
    {
      Lists() && Table() && Tids()
    }

    /** Holds in every reachable state. */
    ghost predicate Valid()
      reads this, queue, queueTail, processTable, heap, live, procs
    {
      SchedOk() && Records()
    }

    constructor ()
      ensures Valid()
      ensures fresh(processTable) && fresh(queue) && fresh(queueTail) && fresh(heap) && fresh(procs) && procs == {currentProc}
      ensures processTable.Length == 128 && (forall i :: 0 <= i < 128 ==> processTable[i] == null) && queue.Length == 11
      ensures currentThread.priority == 5 && currentThread.timeSlice == 5 && currentThread.tid == 1 && currentThread.parent == currentProc
      ensures currentProc.pid == 1 && currentPid == 2 && currentTid == 2
      ensures Stale() == {} && currentThread.state == Running && forall i :: 0 <= i <= PRI_MAX ==> ready[i] == []
    {
      hide Valid;
      var process := new Process;
      var thread := new Thread.Boot(1, process);
      process.pid, process.state, process.threads := 1, Running, thread;
      process.members, process.bottom := [thread], thread.next;
      currentProc, currentThread, currentPid, currentTid := process, thread, 2, 2;
      processTable := new Process?[MAX_PROCESSES](_ => null);
      queue := new Thread?[PRI_MAX + 1](_ => null);
      queueTail := new Thread?[PRI_MAX + 1](_ => null);
      ready := seq(PRI_MAX + 1, _ => []);
      live, heap, procs := {thread}, {thread}, {process};
      new;
      Booted();
    }

    lemma Booted()
      requires queue.Length == queueTail.Length == |ready| == PRI_MAX + 1 && queue != queueTail && processTable.Length == MAX_PROCESSES
      requires forall i :: 0 <= i <= PRI_MAX ==> queue[i] == null && queueTail[i] == null && ready[i] == []
      requires forall i :: 0 <= i < MAX_PROCESSES ==> processTable[i] == null
      requires live == heap == {currentThread} && procs == {currentProc} && currentProc == currentThread.parent && currentThread.tid < currentTid
      requires currentProc.threads == currentThread && currentProc.members == [currentThread] && currentProc.bottom == currentThread.next
      requires currentProc.pid < currentPid && currentProc.state != Terminated
      requires currentThread.state == Running && currentThread.priority == PRI_DEFAULT && currentThread.timeSlice == SLICE
      ensures Valid() && Stale() == {}
    {
      hide Valid, Linked, Links, TailsSafe, Inv, Records;
      BootQueues();
      BootRecords();
      assert Tcbs() == map[currentThread := Tcb(PRI_DEFAULT, Running, SLICE)];
      BootInv(Abs(), currentThread);
      AllLinked();
      Whole();
    }

    lemma BootQueues()
      requires queue.Length == queueTail.Length == |ready| == PRI_MAX + 1 && queue != queueTail
      requires processTable.Length == MAX_PROCESSES && live <= heap
      requires forall i :: 0 <= i <= PRI_MAX ==> queue[i] == null && queueTail[i] == null && ready[i] == []
      ensures Shape() && Links() && TailsSafe() && Stale() == {}
    {
    }

    lemma BootRecords()
      requires live == heap == {currentThread} && procs == {currentProc} && currentProc == currentThread.parent && currentThread.tid < currentTid
      requires currentProc.threads == currentThread && currentProc.members == [currentThread] && currentProc.bottom == currentThread.next
      requires currentProc.pid < currentPid && currentProc.state != Terminated && processTable.Length == MAX_PROCESSES
      requires forall i :: 0 <= i < MAX_PROCESSES ==> processTable[i] == null
      ensures Records()
    {
      assert ListLinked(currentProc);
    }

    /** Changing one queue and the links of threads of its priority leaves the other queues alone. */
    twostate lemma Relink(p: nat)
      requires old(Shape()) && old(Links()) && Shape() && p <= PRI_MAX
      requires live == old(live) && heap == old(heap) && live <= heap && forall t :: t in heap ==> t.priority == old(t.priority)
      requires ready == old(ready)[p := ready[p]]
      requires forall i :: 0 <= i <= PRI_MAX && i != p ==> queue[i] == old(queue[i])
      requires forall t :: t in live && t.priority != p ==> t.nextReady == old(t.nextReady)
      requires forall t :: t in ready[p] ==> t in live && t.priority == p
      requires NoDup(ready[p]) && ReadyChain(queue[p], ready[p])
      ensures Links()
    {
      forall i | 0 <= i <= PRI_MAX ensures QueueLinked(i) {
        if i != p { assert old(QueueLinked(i)); }
      }
    }

    /** The scan and pop that the timer tick and the thread exit share. */
    method PopHighest() returns (next: Thread?)
      requires Shape() && Links()
      modifies queue, heap`nextReady, this`ready
      ensures Shape() && Links()
      ensures (old(TailsSafe()) ==> TailsSafe()) && Stale() == Undrained(old(Stale()), ready)
      ensures var h := Highest(old(ready), PRI_MAX);
              if h < 0 then next == null && ready == old(ready)
              else next == old(ready)[h][0] && ready == old(ready)[h := old(ready)[h][1..]]
    {
      next := null;
      var i := PRI_MAX - 1;
      while i >= 0
        invariant -1 <= i < PRI_MAX
        invariant forall j :: i < j < PRI_MAX ==> ready[j] == []
      {
        assert QueueLinked(i);
        if queue[i] != null {
          break;
        }
        i := i - 1;
      }
      assert Highest(ready, PRI_MAX) == i;
      if i >= 0 {
        next := queue[i];
        queue[i] := next.nextReady;
        next.nextReady := null;
        ready := ready[i := ready[i][1..]];
        Relink(i);
        Popped(i);
      }
    }

    /** The tails after the head of queue `h` has been popped. */
    twostate lemma Popped(h: nat)
      requires queueTail[..] == old(queueTail[..]) && h < |ready| == |old(ready)| && old(ready)[h] != []
      requires ready == old(ready)[h := old(ready)[h][1..]]
      ensures (old(TailsSafe()) ==> TailsSafe()) && Stale() == Undrained(old(Stale()), ready)
    {
      forall i | 0 <= i < |ready| && i < queueTail.Length
        ensures EndsAt(ready[i], queueTail[i]) <==> ready[i] == [] || EndsAt(old(ready)[i], queueTail[i])
        ensures queueTail[i] == old(queueTail[i])
      {
        assert queueTail[..][i] == old(queueTail[..])[i];
      }
    }

    /** The last thread of its own queue: linking it behind the tail ties a knot. */
    ghost predicate AtTail(thread: Thread)
      requires Shape() && thread.priority <= PRI_MAX
      reads `ready, `heap, queueTail, heap`priority, thread`priority
    {
      var q := ready[thread.priority];
      TailOk(thread.priority) && q != [] && thread == q[|q| - 1]
    }

    /** The pointer updates of `SchedulerPost`. */
    method LinkBehind(thread: Thread)
      requires Shape() && Links() && thread in live && thread.priority <= PRI_MAX
      requires TailOk(thread.priority) || queueTail[thread.priority] !in ready[thread.priority]
      requires ready[thread.priority] != [] ==> queueTail[thread.priority] != null
      modifies queue, queueTail, heap`nextReady, this`ready
      ensures Shape()
      ensures var p := thread.priority;
        && ready == old(ready)[p := Posted(old(ready[p]), thread, old(TailOk(p)))]
        && queueTail[..] == old(queueTail[..])[p := thread]
        && (if old(AtTail(thread)) then Knotted(queue[p], ready[p]) else Links())
    {
      var p := thread.priority;
      ghost var q, tailOk := ready[p], TailOk(p);
      assert QueueLinked(p);
      thread.nextReady := null;
      if queue[p] == null {
        queue[p] := thread;
        queueTail[p] := thread;
      } else {
        queueTail[p].nextReady := thread;
        queueTail[p] := thread;
      }
      ready := ready[p := Posted(q, thread, tailOk)];
      if !old(AtTail(thread)) {
        Relink(p);
      }
    }

    /**
      Appends `thread` to the queue of its priority. A NULL or exited thread is ignored. The contract covers
      every thread the caller may pass: an unqueued one is appended, unless the tail pointer is stale, and then
      it is lost; a queued one cuts its queue short behind itself; and the last of its queue is linked to
      itself, so that the queue is no longer a finite list.
     */
    method SchedulerPost(thread: Thread?)
      requires Shape() && Links()
      requires thread != null ==> thread in live && thread.priority <= PRI_MAX
      requires thread != null ==> TailOk(thread.priority) || queueTail[thread.priority] !in ready[thread.priority]
      requires thread != null && ready[thread.priority] != [] ==> queueTail[thread.priority] != null
      modifies queue, queueTail, heap`nextReady, heap`state, this`ready
      ensures Shape()
      ensures thread == null || old(thread.state) == Terminated ==>
        Links() && ready == old(ready) && queueTail[..] == old(queueTail[..]) && unchanged(heap)
      ensures thread != null && old(thread.state) != Terminated ==>
        var p := thread.priority;
        && thread.state == Ready
        && (forall t :: t in heap && t != thread ==> t.state == old(t.state))
        && ready == old(ready)[p := Posted(old(ready[p]), thread, old(TailOk(p)))]
        && queueTail[..] == old(queueTail[..])[p := thread]
        && (if old(AtTail(thread)) then Knotted(queue[p], ready[p]) else Links())
      ensures old(TailsSafe()) && thread != null && thread !in old(ready[thread.priority]) ==>
        Links() && TailsSafe() && Frays() == PostOn(old(Frays()), thread)
    {
      hide ReadyChain, NoDup, Knotted, TailsSafe, Stale, QueueLinked;
      if thread == null || thread.state == Terminated {
        return;
      }
      thread.state := Ready;
      LinkBehind(thread);
      if old(TailsSafe()) && thread !in old(ready[thread.priority]) {
        PostedTails(thread);
        assert Abs().tcb == PostOn(old(Frays()), thread).s.tcb;
      }
    }

    /** The tails after a post of a thread that is not queued. */
    twostate lemma PostedTails(t: Thread)
      requires t.priority < |ready| == |old(ready)| && |ready| == queueTail.Length && t !in old(ready)[t.priority]
      requires var p, tailOk := t.priority, EndsAt(old(ready)[t.priority], old(queueTail[..])[t.priority]);
        && ready == old(ready)[p := if tailOk then old(ready)[p] + [t] else old(ready)[p]]
        && queueTail[..] == old(queueTail[..])[p := t]
      ensures (old(TailsSafe()) ==> TailsSafe()) && Stale() == old(Stale())
      ensures t.priority in Stale() <==> !EndsAt(old(ready)[t.priority], old(queueTail[..])[t.priority])
    {
      forall i | 0 <= i < |ready|
        ensures queueTail[i] == if i == t.priority then t else old(queueTail[i])
        ensures EndsAt(ready[i], queueTail[i]) <==> EndsAt(old(ready)[i], old(queueTail[i]))
      {
        assert queueTail[..][i] == old(queueTail[..])[t.priority := t][i];
      }
    }

    /** Every queue is a finite list, and a tail pointer that does not end it is not on it. */
    ghost predicate Linked()
      reads this, queue, queueTail, heap
    {
      Shape() && Links() && TailsSafe() && currentThread in live && currentProc == currentThread.parent
    }

    /** Scheduler part of the invariant: what every tick, post and exit needs and keeps. */
    ghost predicate SchedOk()
      reads this, queue, queueTail, heap
    {
      Linked() && Inv(Abs())
    }

    /** Context switch; the register and page-directory work is not part of this model. */
    method SchedulerSwitch(next: Thread?)
      modifies this`currentThread, this`currentProc, (if next == null then {} else {next})`state
      ensures next == null || next == old(currentThread) ==>
        currentThread == old(currentThread) && currentProc == old(currentProc) && (next != null ==> next.state == old(next.state))
      ensures next != null && next != old(currentThread) ==>
        currentThread == next && currentProc == next.parent && next.state == Running
        && (next in live ==> Tcbs() == old(Tcbs())[next := old(Tcbs())[next].(state := Running)])
    {
      if next == null || next == currentThread {
        return;
      }
      currentThread := next;
      currentProc := next.parent;
      next.state := Running;
    }

    /** Scan, pop and switch, as the timer tick and the thread exit do it; nothing happens when no queue holds a thread. */
    method DispatchHighest() returns (found: bool)
      requires Linked() && Settled(Abs())
      modifies this`currentThread, this`currentProc, this`ready, queue, heap`nextReady, heap`state
      ensures found <==> Highest(old(ready), PRI_MAX) >= 0
      ensures !found ==> currentThread == old(currentThread) && ready == old(ready) && currentThread.state == old(currentThread.state)
      ensures found ==> Linked() && Frays() == DispatchOn(old(Frays()))
    {
      hide Linked, Links, TailsSafe, Stale, Settled, Dispatch, DispatchOn, Undrained, Highest, Inv, Switch;
      ghost var f := Frays();
      LinkedParts();
      var next := PopHighest();
      found := next != null;
      if found {
        ghost var h := Highest(f.s.ready, PRI_MAX);
        HeadDispatched(f);
        LinksLive();
        assert Abs() == f.s.(ready := f.s.ready[h := f.s.ready[h][1..]]);
        SchedulerSwitch(next);
        assert Tcbs() == if next == f.s.cur then f.s.tcb else f.s.tcb[next := f.s.tcb[next].(state := Running)];
        AllLinked();
      }
    }

    lemma LinkedParts()
      requires Linked()
      ensures Shape() && Links() && TailsSafe() && currentThread in live && currentProc == currentThread.parent
    {
    }

    lemma LinksLive()
      requires Shape() && Links()
      ensures live <= heap
    {
    }


    /** A queue with a stale tail holds a thread. */
    lemma FraysOk()
      requires SchedOk()
      ensures Ok(Frays()) && currentThread in heap
    {
    }

    /** A post of a thread that is not queued ties no knot. */
    lemma TailFacts(t: Thread)
      requires Shape() && Links() && TailsSafe() && t in live && t.priority <= PRI_MAX && t !in ready[t.priority]
      ensures TailOk(t.priority) || queueTail[t.priority] !in ready[t.priority]
      ensures ready[t.priority] != [] ==> queueTail[t.priority] != null
      ensures !AtTail(t)
    {
    }

    /** The part of the timer interrupt that follows the last tick of a slice, which began in state `f`. */
    method EndSlice(ghost f: Frayed<Thread>)
      requires Ok(f) && Linked() && f.s.cur == currentThread && f.s.ready == ready && f.stale == Stale()
      requires Tcbs() == f.s.tcb[f.s.cur := f.s.tcb[f.s.cur].(slice := 0)]
      modifies this`currentThread, this`currentProc, this`ready, queue, queueTail, heap`nextReady, heap`state, heap`timeSlice
      ensures Linked() && Frays() == (RequeueOnSettles(f); DispatchOn(RequeueOn(f)))
    {
      hide Linked, Links, TailsSafe, Stale, Settled, DispatchOn, PostOn, Inv, Ok, Highest, AtTail, EndsAt, TailOk;
      LinkedParts();
      LinksLive();
      RunningFacts(f);
      assert currentThread in Tcbs() && Tcbs()[currentThread].prio == f.s.tcb[f.s.cur].prio;
      TailFacts(currentThread);
      currentThread.timeSlice := SLICE;
      assert Tcbs() == f.s.tcb[f.s.cur := f.s.tcb[f.s.cur].(slice := SLICE)];
      SchedulerPost(currentThread);
      AllLinked();
      RequeueOf(Frays(), f);
      var found := DispatchHighest();
    }

    /** The timer interrupt. */
    method SchedulerTick()
      requires SchedOk()
      modifies this`currentThread, this`currentProc, this`ready, queue, queueTail, heap`nextReady, heap`state, heap`timeSlice
      ensures SchedOk()
      ensures Ok(old(Frays())) && Frays() == TickOn(old(Frays()))
    {
      ghost var f := Frays();
      FraysOk();
      hide Links, TailsSafe;
      currentThread.timeSlice := currentThread.timeSlice - 1;
      assert Tcbs() == f.s.tcb[f.s.cur := f.s.tcb[f.s.cur].(slice := f.s.tcb[f.s.cur].slice - 1)];
      if currentThread.timeSlice > 0 {
        StepOf(Frays(), f, Tick);
        return;
      }
      EndSlice(f);
      StepOf(Frays(), f, Tick);
    }

    /** The current thread ends. With nothing to dispatch the source spins for ever with interrupts off. */
    method ThreadExit() returns (halted: bool)
      requires SchedOk()
      modifies this`currentThread, this`currentProc, this`ready, queue, heap`nextReady, heap`state
      ensures halted <==> !Enabled(old(Abs()), Exit)
      ensures old(currentThread).state == Terminated
      ensures !halted ==> SchedOk() && Ok(old(Frays())) && Frays() == ExitOn(old(Frays()))
      ensures halted ==> currentThread == old(currentThread) && currentThread.state == Terminated && ready == old(ready)
    {
      ghost var f := Frays();
      FraysOk();
      hide Links, TailsSafe;
      RetireSettles(f.s);
      currentThread.state := Terminated;
      assert Tcbs() == Retire(f.s).tcb;
      var found := DispatchHighest();
      if found {
        StepOf(Frays(), f, Exit);
      }
      halted := !found;
    }

    // ---------- Threads ----------

    /** Looks for `thread` behind the head of queue `p`, keeping a trailing pointer. */
    method SearchReady(p: nat, thread: Thread) returns (prev: Thread?, found: bool, ghost k: nat)
      requires Shape() && p <= PRI_MAX && QueueLinked(p) && queue[p] != thread
      ensures found <==> thread in ready[p]
      ensures found ==> 0 < k < |ready[p]| && ready[p][k] == thread && prev == ready[p][k - 1]
    {
      ghost var q := ready[p];
      var head := queue[p];
      prev := head;
      k := 0;
      while head != null && head != thread
        invariant 0 <= k <= |q| && thread !in q[..k]
        invariant head == if k < |q| then q[k] else null
        invariant k > 0 ==> prev == q[k - 1]
        decreases |q| - k
      {
        prev := head;
        head := head.nextReady;
        k := k + 1;
      }
      found := head != null;
      assert !found ==> q[..k] == q;
    }

    /** The pointer updates of `UnlinkReady`. */
    method CutOut(p: nat, thread: Thread)
      requires Shape() && p <= PRI_MAX && QueueLinked(p)
      modifies queue, ready[p]`nextReady
      ensures ReadyChain(queue[p], Without<Thread>(ready[p], thread))
      ensures forall i :: 0 <= i <= PRI_MAX && i != p ==> queue[i] == old(queue[i])
    {
      ghost var q := ready[p];
      if queue[p] == thread {
        Beheaded(q);
        queue[p] := thread.nextReady;
      } else {
        var prev, found, k := SearchReady(p, thread);
        if found {
          prev.nextReady := thread.nextReady;
          Bypassed(q, k);
        }
      }
    }

    /** Removes `thread` from the queue of its priority, if it is there; the tail pointer stays as it is. */
    method UnlinkReady(thread: Thread)
      requires Shape() && Links() && thread in live && thread.priority <= PRI_MAX
      modifies queue, heap`nextReady, this`ready
      ensures Shape() && Links()
      ensures ready == old(ready)[thread.priority := Without<Thread>(old(ready[thread.priority]), thread)]
      ensures old(TailsSafe()) ==> TailsSafe() && Stale() == Undrained(old(Stale()) + EndingIn(old(ready), {thread}), ready)
    {
      var p := thread.priority;
      ghost var q := ready[p];
      assert QueueLinked(p);
      CutOut(p, thread);
      WithoutNoDup<Thread>(q, thread);
      forall x | x in Without<Thread>(q, thread) ensures x in q { WithoutMember<Thread>(q, thread, x); }
      ready := ready[p := Without<Thread>(q, thread)];
      Relink(p);
      if old(TailsSafe()) { CutTails(thread); }
    }

    /** The tails after `t` has been taken out of its queue. */
    twostate lemma CutTails(t: Thread)
      requires old(Shape()) && old(Links()) && old(TailsSafe()) && t.priority == old(t.priority) <= PRI_MAX
      requires queueTail[..] == old(queueTail[..]) && ready == old(ready)[t.priority := Without<Thread>(old(ready)[t.priority], t)]
      ensures TailsSafe() && Stale() == Undrained(old(Stale()) + EndingIn(old(ready), {t}), ready)
    {
      forall i | 0 <= i < |ready|
        ensures queueTail[i] == old(queueTail[i])
        ensures EndsAt(ready[i], queueTail[i]) || (queueTail[i] != null && queueTail[i] !in ready[i])
        ensures EndsAt(ready[i], queueTail[i]) <==>
          ready[i] == [] || (EndsAt(old(ready)[i], old(queueTail[i])) && old(ready)[i][|old(ready)[i]| - 1] != t)
      {
        assert queueTail[..][i] == old(queueTail[..])[i];
        assert old(QueueLinked(i));
        var q := old(ready)[i];
        if i == t.priority && q != [] {
          LastWithout<Thread>(q, t);
          if queueTail[i] != null { WithoutMember<Thread>(q, t, queueTail[i]); }
        }
      }
    }

    /** The pointer updates that take `thread` off its parent's list. */
    method CutFromList(thread: Thread)
      requires live <= heap && ListLinked(thread.parent) && thread in thread.parent.members
      modifies thread.parent`threads, thread.parent.members`next
      ensures ThreadChain(thread.parent.threads, Without<Thread>(thread.parent.members, thread), thread.parent.bottom)
    {
      var parent := thread.parent;
      ghost var m := parent.members;
      var current := parent.threads;
      if current == thread {
        BeheadedList(m, parent.bottom);
        parent.threads := current.next;
      } else {
        ghost var k := 0;
        while current != null && current.next != thread
          invariant 0 <= k < |m| && thread in m[k + 1..] && current == m[k]
          decreases |m| - k
        {
          current := current.next;
          k := k + 1;
        }
        if current != null {
          current.next := thread.next;
          BypassedList(m, k + 1, parent.bottom);
        }
      }
    }

    /** Taking one thread off the list of `p` and out of `live` leaves the other lists alone. */
    twostate lemma Relist(p: Process)
      requires old(Lists()) && live <= old(live) && live <= heap && heap == old(heap) && procs == old(procs) && p in procs
      requires forall t :: t in heap ==> t.parent == old(t.parent)
      requires forall q :: q in procs && q != p ==> q.threads == old(q.threads) && q.members == old(q.members) && q.bottom == old(q.bottom)
      requires forall t :: t in live && t.parent != p ==> t.next == old(t.next)
      requires forall t :: t in old(live) && t !in live ==> t.parent == p
      requires ListLinked(p) && forall t :: t in live && t.parent == p ==> t in p.members
      ensures Lists()
    {
      forall q | q in procs ensures ListLinked(q) {
        if q != p { assert old(ListLinked(q)); }
      }
    }

    /**
      Unlinks a thread that is not running and frees it. The queue's tail pointer is not repaired, so it goes
      stale exactly when the thread was the last of two or more.
     */
    method ThreadDestroy(thread: Thread?) returns (r: int)
      requires Shape() && Links() && Lists()
      requires thread != null ==> thread in live && thread.priority <= PRI_MAX && thread.parent in procs
      modifies queue, heap`nextReady, heap`next, procs`threads, procs`members, this`ready, this`live
      ensures Shape() && Links() && Lists() && r in {0, -1}
      ensures r == -1 <==> thread == null || thread.state == Running
      ensures r == -1 ==> ready == old(ready) && live == old(live) && forall p :: p in procs ==> p.members == old(p.members)
      ensures r == 0 ==>
        && live == old(live) - {thread} && Abs() == DestroyStep(old(Abs()), thread)
        && thread.parent.members == Without<Thread>(old(thread.parent.members), thread)
        && (forall p :: p in procs && p != thread.parent ==> p.members == old(p.members) && p.threads == old(p.threads))
        && (old(TailsSafe()) ==> TailsSafe() && Frays() == DestroyOn(old(Frays()), thread))
    {
      if thread == null || thread.state == Running {
        return -1;
      }
      assert ListLinked(thread.parent) && thread.parent.threads != null;
      Dispose(thread);
      return 0;
    }

    /** The part of `ThreadDestroy` behind its guards. */
    method Dispose(thread: Thread)
      requires Shape() && Links() && Lists() && thread in live && thread.priority <= PRI_MAX && thread.parent in procs
      modifies queue, heap`nextReady, heap`next, procs`threads, procs`members, this`ready, this`live
      ensures Shape() && Links() && Lists()
      ensures live == old(live) - {thread} && Abs() == DestroyStep(old(Abs()), thread)
      ensures thread.parent.members == Without<Thread>(old(thread.parent.members), thread)
      ensures forall p :: p in procs && p != thread.parent ==> p.members == old(p.members) && p.threads == old(p.threads)
      ensures old(TailsSafe()) ==> TailsSafe() && Frays() == DestroyOn(old(Frays()), thread)
    {
      hide Links, TailsSafe, Stale, Without, Undrained, EndingIn, ListLinked;
      UnlinkReady(thread);
      assert thread.parent.members == old(thread.parent.members);
      UnlinkFromParent(thread);
    }

    /** Takes an unqueued thread off its parent's list and frees it. */
    method UnlinkFromParent(thread: Thread)
      requires Shape() && Links() && Lists()
      requires thread in live && thread.parent in procs && thread.priority <= PRI_MAX && thread !in ready[thread.priority]
      modifies heap`next, procs`threads, procs`members, this`live
      ensures Shape() && Links() && Lists()
      ensures live == old(live) - {thread} && Tcbs() == old(Tcbs()) - {thread}
      ensures thread.parent.members == Without<Thread>(old(thread.parent.members), thread)
      ensures forall p :: p in procs && p != thread.parent ==> p.members == old(p.members) && p.threads == old(p.threads)
    {
      hide Links, Without, NoDup, ThreadChain;
      var parent := thread.parent;
      ghost var m := parent.members;
      assert ListLinked(parent);
      CutFromList(thread);
      parent.members := Without<Thread>(m, thread);
      Free(thread);
      ShorterList(parent, m, thread);
      Relist(parent);
    }

    /** The list of `p`, which was `m`, without `thread`, which is no longer live. */
    lemma ShorterList(p: Process, m: seq<Thread>, thread: Thread)
      requires live <= heap && NoDup(m) && p.members == Without<Thread>(m, thread) && ThreadChain(p.threads, p.members, p.bottom)
      requires forall k :: 0 <= k < |m| ==> m[k].parent == p && (m[k] != thread ==> m[k] in live)
      ensures ListLinked(p) && forall t :: t in m && t != thread ==> t in p.members
    {
      hide Without, NoDup, ThreadChain;
      MembersLeft(m, thread);
      forall k | 0 <= k < |p.members| ensures p.members[k] in live && p.members[k].parent == p {
        assert p.members[k] in m && p.members[k] != thread;
      }
    }

    // ---------- Creation ----------

    /** Thread ids are handed out once. */
    ghost predicate Tids()
      reads `live, `currentTid, live`tid
    {
      && (forall t :: t in live ==> t.tid < currentTid)
      && (forall t, u :: t in live && u in live && t != u ==> t.tid != u.tid)
    }

    /** The table holds distinct processes of `ps`, and no two of these share a pid. */
    ghost predicate TableOf(ps: set<Process>)
      reads `currentPid, processTable, ps`pid, ps`state
    {
      && processTable.Length == MAX_PROCESSES
      && (forall i :: 0 <= i < MAX_PROCESSES && processTable[i] != null ==> processTable[i] in ps)
      && (forall i, j :: 0 <= i < j < MAX_PROCESSES && processTable[i] != null ==> processTable[i] != processTable[j])
      && (forall p :: p in ps ==> p.pid < currentPid && p.state != Terminated)
      && (forall p, q :: p in ps && q in ps && p != q ==> p.pid != q.pid)
    }

    /** The table holds distinct live processes, and no two live processes share a pid. */
    ghost predicate Table()
      reads `procs, `currentPid, processTable, procs`pid, procs`state
    {
      TableOf(procs)
    }

    /** A new READY thread at the front of its parent's list; NULL, at the cost of a thread id, without a kernel stack. */
    method ThreadCreate(parent: Process, stackOk: bool) returns (t: Thread?)
      requires Shape() && Links() && Lists() && Tids()
      modifies this`currentTid, this`live, this`heap, parent`threads, parent`members
      ensures Shape() && Links() && Lists() && Tids() && ready == old(ready) && currentTid == old(currentTid) + 1
      ensures t != null <==> stackOk
      ensures t == null ==> live == old(live) && heap == old(heap) && parent.members == old(parent.members) && parent.threads == old(parent.threads)
      ensures t != null ==>
        && fresh(t) && live == old(live) + {t} && heap == old(heap) + {t}
        && t.parent == parent && t.tid == old(currentTid) && t.state == Ready && t.nextReady == null
        && t.priority == 5 && t.timeSlice == 5
        && Tcbs() == old(Tcbs())[t := Tcb(PRI_DEFAULT, Ready, SLICE)]
        && parent.threads == t && parent.members == [t] + old(parent.members)
    {
      t := null;
      if !stackOk {
        currentTid := currentTid + 1;
        return;
      }
      t := NewThread(parent);
    }

    /** The part of `ThreadCreate` behind the allocation of the kernel stack. */
    method NewThread(parent: Process) returns (t: Thread)
      requires Shape() && Links() && Lists() && Tids()
      modifies this`currentTid, this`live, this`heap, parent`threads, parent`members
      ensures Shape() && Links() && Lists() && Tids() && currentTid == old(currentTid) + 1
      ensures fresh(t) && live == old(live) + {t} && heap == old(heap) + {t}
      ensures t.parent == parent && t.tid == old(currentTid) && t.state == Ready && t.nextReady == null
      ensures t.priority == 5 && t.timeSlice == 5
      ensures Tcbs() == old(Tcbs())[t := Tcb(PRI_DEFAULT, Ready, SLICE)]
      ensures parent.threads == t && parent.members == [t] + old(parent.members)
    {
      hide Links, Tids;
      t := new Thread(currentTid, parent, parent.threads);
      assert Tcbs() == old(Tcbs());
      Admit(t);
      AddToList(t);
    }

    /** A freshly allocated thread becomes part of the heap, and its id is used up. */
    method Admit(t: Thread)
      requires Shape() && Links() && Tids() && t !in heap && t !in live && t.tid == currentTid
      modifies this`live, this`heap, this`currentTid
      ensures Shape() && Links() && Tids() && live == old(live) + {t} && heap == old(heap) + {t}
      ensures currentTid == old(currentTid) + 1
      ensures Tcbs() == old(Tcbs())[t := Tcb(t.priority, t.state, t.timeSlice)]
    {
      currentTid := currentTid + 1;
      live, heap := live + {t}, heap + {t};
      forall i | 0 <= i <= PRI_MAX ensures QueueLinked(i) { assert old(QueueLinked(i)); }
    }

    /** Puts `t`, whose `next` is already the head of its parent's list, at the front of that list. */
    method AddToList(t: Thread)
      requires t in live && live <= heap && t !in t.parent.members && t.next == t.parent.threads
      requires forall p :: p in procs ==> ListLinked(p)
      requires forall u :: u in live && u.parent in procs && u != t ==> u in u.parent.members
      modifies t.parent`threads, t.parent`members
      ensures Lists() && t.parent.threads == t && t.parent.members == [t] + old(t.parent.members)
    {
      var parent := t.parent;
      ghost var m := parent.members;
      if parent in procs { assert ListLinked(parent); }
      parent.threads := t;
      parent.members := [t] + m;
      forall p | p in procs ensures ListLinked(p) { assert old(ListLinked(p)); }
    }

    /** Gives `process`, fresh storage, the next pid, and the first free slot of the table if there is one. */
    method ProcessCreate(process: Process)
      requires Table() && Lists() && process !in procs && forall t :: t in live ==> t.parent != process
      modifies process, processTable, this`procs, this`currentPid
      ensures Table() && Lists() && procs == old(procs) + {process} && currentPid == old(currentPid) + 1
      ensures process.state == Ready && process.pid == old(currentPid) && process.threads == process.bottom == null && process.members == []
      ensures processTable[..] == Claimed(old(processTable[..]), process)
      ensures InFirstFree(old(processTable[..]), processTable[..], process)
    {
      hide ThreadChain, NoDup, Claimed, InFirstFree, ListLinked;
      ClaimedFirst(processTable[..], process);
      process.state := Ready;
      process.pid := currentPid;
      currentPid := currentPid + 1;
      process.threads := null;
      process.members, process.bottom := [], null;
      procs := procs + {process};
      ListsWithNew(process);
      ClaimSlot(process);
    }

    twostate lemma ListsWithNew(new process: Process)
      requires old(Lists()) && live == old(live) && heap == old(heap) && procs == old(procs) + {process}
      requires process.threads == process.bottom == null && process.members == []
      requires forall t :: t in live ==> t.next == old(t.next) && t.parent == old(t.parent) && t.parent != process
      requires forall p :: p in old(procs) && p != process ==> p.threads == old(p.threads) && p.members == old(p.members) && p.bottom == old(p.bottom)
      ensures Lists()
    {
      forall p | p in procs ensures ListLinked(p) { if p != process { assert old(ListLinked(p)); } }
    }

    /** Stores `process` in the first free slot of the table, if there is one. */
    method ClaimSlot(process: Process)
      requires Table() && process in procs && process !in processTable[..]
      modifies processTable
      ensures Table() && processTable[..] == Claimed(old(processTable[..]), process)
    {
      var i := 0;
      while i < MAX_PROCESSES
        invariant 0 <= i <= MAX_PROCESSES && null !in processTable[..i]
        invariant processTable[..] == old(processTable[..])
      {
        if processTable[i] == null {
          assert IndexOf<Process?>(processTable[..], null) == i;
          processTable[i] := process;
          return;
        }
        i := i + 1;
      }
    }

    /** The process that holds `pid`; the source returns nothing in particular when there is none. */
    method ProcessFindByPid(pid: nat) returns (p: Process?)
      requires Table()
      ensures p != null ==> p in processTable[..] && p in procs && p.pid == pid
      ensures forall q :: q in procs && q in processTable[..] && q.pid == pid ==> p == q
    {
      var i := 0;
      while i < MAX_PROCESSES
        invariant 0 <= i <= MAX_PROCESSES
        invariant forall j :: 0 <= j < i && processTable[j] != null ==> processTable[j].pid != pid
      {
        if processTable[i] != null && processTable[i].pid == pid {
          assert processTable[i] in processTable[..];
          return processTable[i];
        }
        i := i + 1;
      }
      return null;
    }

    // ---------- Destruction of a process ----------

    /** The table without the first entry that is `p`. */
    static ghost function Released(table: seq<Process?>, p: Process): seq<Process?> {
      if p in table then table[IndexOf<Process?>(table, p) := null] else table
    }

    /** Marks `process` as ended and takes it out of the table. */
    method Unregister(process: Process)
      requires Table() && process in procs
      modifies process`state, processTable
      ensures TableOf(procs - {process})
      ensures processTable[..] == Released(old(processTable[..]), process)
    {
      process.state := Terminated;
      var i := 0;
      while i < MAX_PROCESSES
        invariant 0 <= i <= MAX_PROCESSES && process !in processTable[..i]
        invariant processTable[..] == old(processTable[..])
      {
        if processTable[i] == process {
          assert IndexOf<Process?>(processTable[..], process) == i;
          processTable[i] := null;
          return;
        }
        i := i + 1;
      }
    }

    /** One turn of the walk over the threads of `process`: `t` is destroyed after its successor has been read. */
    method DestroyNext(process: Process, t: Thread) returns (next: Thread?)
      requires Shape() && Links() && Lists() && process in procs && process.bottom == null && process.members != [] && t == process.threads
      requires t.state != Running && t.priority <= PRI_MAX
      modifies queue, heap`nextReady, heap`next, procs`threads, procs`members, this`ready, this`live
      ensures Shape() && Links() && Lists()
      ensures process.members == old(process.members)[1..] && next == process.threads
      ensures t == old(process.members)[0] && t in old(live)
      ensures live == old(live) - {t} && Abs() == DestroyStep(old(Abs()), t)
    {
      hide Links, Lists, TailsSafe, Stale, DestroyStep, DestroyOn, Without;
      ghost var m := process.members;
      HeadOf(process);
      WithoutHead(m);
      next := t.next;
      var r := ThreadDestroy(t);
      HeadOf(process);
    }

    /** The head of the list of a live process that ends in NULL, and where it leads. */
    lemma HeadOf(process: Process)
      requires Lists() && process in procs && process.bottom == null
      ensures var m := process.members;
        && NoDup(m) && process.threads == (if m == [] then null else m[0]) && (forall t :: t in m ==> t in live && t.parent == process)
        && (m != [] ==> m[0].next == if |m| > 1 then m[1] else null)
    {
      assert ListLinked(process);
    }

    /** The walk that destroys every thread of `process`. */
    method DestroyThreads(process: Process)
      requires Shape() && Links() && Lists() && Inv(Abs()) && process in procs && process.bottom == null && currentThread.parent != process
      modifies queue, heap`nextReady, heap`next, procs`threads, procs`members, this`ready, this`live
      ensures Shape() && Links() && Lists() && process.members == []
      ensures Abs() == WithoutThreads(old(Abs()), Dead(old(process.members)))
      ensures live == old(live) - Dead(old(process.members))
    {
      hide Links, Lists, Inv, WithoutThreads, Dead, DestroyStep, NoDup;
      ghost var s, m, k := Abs(), process.members, 0;
      NoneDeadYet(s);
      HeadOf(process);
      MembersIdle(process);
      var thread := process.threads;
      while thread != null
        invariant 0 <= k <= |m| && process.members == m[k..] && thread == process.threads
        invariant Shape() && Links() && Lists()
        invariant Abs() == WithoutThreads(s, Dead(m[..k]))
        invariant live == old(live) - Dead(m[..k])
        decreases |m| - k
      {
        HeadOf(process);
        NextVictim(s, m, k);
        thread := DestroyNext(process, thread);
        k := k + 1;
      }
      HeadOf(process);
      assert m[..k] == m;
    }

    /** No thread of a process that is not current is running. */
    lemma MembersIdle(process: Process)
      requires Lists() && process in procs && Inv(Abs()) && currentThread.parent != process
      ensures NoDup(process.members)
      ensures forall t :: t in process.members ==> t in Abs().tcb && t != Abs().cur && IdleOk(Abs(), t)
    {
      assert ListLinked(process);
      forall t | t in process.members ensures IdleOk(Abs(), t) {
      }
    }

    /**
      Destroys a process that is not current, and all its threads: every queue is filtered in order, and a tail pointer
      goes stale exactly if its queue loses its last thread and keeps another one.
     */
    method ProcessDestroy(process: Process)
      requires Shape() && Links() && Lists() && Table() && Inv(Abs())
      requires process.state != Terminated ==> process in procs && process.bottom == null && currentThread.parent != process
      modifies process`state, processTable, queue, heap`nextReady, heap`next, procs`threads, procs`members
      modifies this`ready, this`live, this`procs
      ensures Shape() && Links() && Lists() && Table()
      ensures old(process.state) == Terminated ==> Abs() == old(Abs()) && procs == old(procs) && processTable[..] == old(processTable[..])
      ensures old(process.state) != Terminated ==>
        var dead := Dead(old(process.members));
        && Abs() == WithoutThreads(old(Abs()), dead) && live == old(live) - dead && procs == old(procs) - {process}
        && processTable[..] == Released(old(processTable[..]), process)
        && (old(TailsSafe()) ==> TailsSafe() && Frays() == WithoutOn(old(Frays()), dead))
    {
      if process.state == Terminated {
        return;
      }
      Unregister(process);
      Reap(process);
    }

    /** The threads of a process that is no longer in the table, and then the process itself, are freed. */
    method Reap(process: Process)
      requires Shape() && Links() && Lists() && Inv(Abs()) && process in procs && process.bottom == null && currentThread.parent != process
      modifies queue, heap`nextReady, heap`next, procs`threads, procs`members, this`ready, this`live, this`procs
      ensures Shape() && Links() && Lists() && procs == old(procs) - {process}
      ensures live == old(live) - Dead(old(process.members))
      ensures Abs() == WithoutThreads(old(Abs()), Dead(old(process.members)))
      ensures old(TailsSafe()) ==> TailsSafe() && Frays() == WithoutOn(old(Frays()), Dead(old(process.members)))
    {
      hide Links, Inv, TailsSafe, Stale, Dead, NoDup, ThreadChain;
      ghost var dead := Dead(process.members);
      DestroyThreads(process);
      procs := procs - {process};
      if old(TailsSafe()) { TailsFiltered(dead); }
    }

    /** The tails after the queues have been filtered. */
    twostate lemma TailsFiltered(dead: set<Thread>)
      requires old(TailsSafe()) && queueTail[..] == old(queueTail[..]) && |ready| == |old(ready)| == queueTail.Length
      requires forall i :: 0 <= i < |ready| ==> ready[i] == Keep<Thread>(old(ready)[i], dead)
      ensures TailsSafe() && Stale() == Undrained(old(Stale()) + EndingIn(old(ready), dead), ready)
    {
      forall i | 0 <= i < |ready|
        ensures queueTail[i] == old(queueTail[i])
        ensures EndsAt(ready[i], queueTail[i]) || (queueTail[i] != null && queueTail[i] !in ready[i])
        ensures EndsAt(ready[i], queueTail[i]) <==>
          ready[i] == [] || (EndsAt(old(ready)[i], old(queueTail[i])) && old(ready)[i][|old(ready)[i]| - 1] !in dead)
      {
        assert queueTail[..][i] == old(queueTail[..])[i];
        var q := old(ready)[i];
        if q != [] { KeepLast<Thread>(q, dead); }
        if queueTail[i] != null { KeepMember<Thread>(q, dead, queueTail[i]); }
      }
    }

    // ---------- Spawning ----------

    lemma ClaimedReleased(table: seq<Process?>, p: Process)
      requires p !in table
      ensures Released(Claimed(table, p), p) == table
    {
      if null in table {
        var i := IndexOf<Process?>(table, null);
        assert Claimed(table, p)[i] == p;
        assert IndexOf<Process?>(Claimed(table, p), p) == i;
      }
    }

    /** Releasing a process frees its slot and no other. */
    lemma ReleasedSlots(table: seq<Process?>, p: Process)
      requires forall i, j :: 0 <= i < j < |table| && table[i] != null ==> table[i] != table[j]
      ensures |Released(table, p)| == |table|
      ensures forall k :: 0 <= k < |table| ==> Released(table, p)[k] == if table[k] == p then null else table[k]
    {
    }

    // ---------- Runs ----------

    // The parts of the invariant, for proofs that hide what they say.

    lemma Parts()
      requires Valid()
      ensures SchedOk() && Linked() && Shape() && Links() && TailsSafe() && Inv(Abs())
      ensures Records() && Lists() && Table() && Tids()
      ensures Ok(Frays()) && Frays().s == Abs() && |ready| == PRI_MAX + 1 && Abs().ready == ready && Abs().cur == currentThread
    {
      FraysOk();
    }

    lemma SchedParts()
      requires SchedOk()
      ensures Linked() && Inv(Abs())
    {
    }

    lemma AllLinked()
      requires Shape() && Links() && TailsSafe() && currentThread in live && currentProc == currentThread.parent
      ensures Linked()
    {
    }

    lemma AllRecords()
      requires Lists() && Table() && Tids()
      ensures Records()
    {
    }

    twostate lemma FewerTids()
      requires old(Tids()) && live <= old(live) && currentTid == old(currentTid)
      requires forall t :: t in live ==> t.tid == old(t.tid)
      ensures Tids()
    {
    }

    lemma Whole()
      requires Linked() && Inv(Frays().s) && Records()
      ensures Valid()
    {
    }

    method PerformTick()
      requires Valid()
      modifies this`currentThread, this`currentProc, this`ready, queue, queueTail, heap`nextReady, heap`state, heap`timeSlice
      ensures Valid() && Ok(old(Frays())) && Frays() == TickOn(old(Frays()))
    {
      hide Valid, SchedOk, Linked, Links, TailsSafe, Stale, Records, Inv, Ok, TickOn;
      ghost var f := Frays();
      Parts();
      SchedulerTick();
      SchedParts();
      Whole();
    }

    method PerformPost(t: Thread)
      requires Valid() && Enabled(Abs(), Post(t))
      modifies queue, queueTail, heap`nextReady, heap`state, this`ready
      ensures Valid() && Frays() == PostOn(old(Frays()), t)
    {
      hide *;
      ghost var f := Frays();
      Parts();
      PostAllowed(t);
      TailFacts(t);
      SchedulerPost(t);
      AllLinked();
      PostOf(Frays(), f, t);
      Whole();
    }

    lemma PostAllowed(t: Thread)
      requires Valid() && Enabled(Abs(), Post(t))
      ensures t in live && currentThread in live && currentProc == currentThread.parent
      ensures t.priority <= PRI_MAX < |ready| && t !in ready[t.priority]
    {
    }

    method PerformExit()
      requires Valid() && Enabled(Abs(), Exit)
      modifies this`currentThread, this`currentProc, this`ready, queue, heap`nextReady, heap`state
      ensures Valid() && Ok(old(Frays())) && Frays() == ExitOn(old(Frays()))
    {
      hide Valid, SchedOk, Linked, Links, TailsSafe, Stale, Records, Inv, Ok, ExitOn;
      ghost var f := Frays();
      Parts();
      var halted := ThreadExit();
      SchedParts();
      Whole();
    }

    lemma DestroyFacts(t: Thread)
      requires Valid() && Enabled(Abs(), Destroy(t))
      ensures t in live && t.priority <= PRI_MAX && t.state != Running && currentThread in live && currentThread != t
    {
      assert IdleOk(Abs(), t);
    }

    method PerformDestroy(t: Thread)
      requires Valid() && Enabled(Abs(), Destroy(t)) && t.parent in procs
      modifies queue, heap`nextReady, heap`next, procs`threads, procs`members, this`ready, this`live
      ensures Valid() && Frays() == DestroyOn(old(Frays()), t)
    {
      hide Valid, SchedOk, Linked, Links, TailsSafe, Stale, Records, Lists, Table, Tids, Inv, Ok, Enabled, DestroyOn;
      ghost var f := Frays();
      Parts();
      DestroyFacts(t);
      var r := ThreadDestroy(t);
      AllLinked();
      FewerTids();
      AllRecords();
      StepOf(Frays(), f, Destroy(t));
      Whole();
    }

    method PerformCreate(parent: Process, stackOk: bool) returns (t: Thread?)
      requires Valid()
      modifies this`currentTid, this`live, this`heap, parent`threads, parent`members
      ensures Valid() && (t != null <==> stackOk)
      ensures Frays() == if t == null then old(Frays()) else
        old(Frays()).(s := old(Abs()).(tcb := old(Abs()).tcb[t := Tcb(PRI_DEFAULT, Ready, SLICE)]))
      ensures t != null ==> fresh(t) && t.parent == parent && parent.threads == t && t !in old(Abs()).tcb
      ensures if t == null then heap == old(heap) && parent.threads == old(parent.threads) else heap == old(heap) + {t}
    {
      hide Valid, SchedOk, Linked, Links, TailsSafe, Records, Lists, Table, Tids, Inv, Ok;
      ghost var f := Frays();
      Parts();
      t := ThreadCreate(parent, stackOk);
      assert Stale() == f.stale;
      AllLinked();
      AllRecords();
      if t != null { StepOf(Frays(), f, Create(t, PRI_DEFAULT)); }
      Whole();
    }

    method PerformProcessCreate() returns (process: Process)
      requires Valid()
      modifies processTable, this`procs, this`currentPid
      ensures Valid() && Frays() == old(Frays()) && fresh(process)
      ensures procs == old(procs) + {process} && process !in old(procs) && currentThread.parent != process
      ensures process.pid == old(currentPid) && currentPid == old(currentPid) + 1
      ensures process.threads == process.bottom == null && process.members == [] && process.state == Ready
      ensures processTable[..] == Claimed(old(processTable[..]), process) && process !in old(processTable[..])
      ensures InFirstFree(old(processTable[..]), processTable[..], process)
    {
      hide Valid, SchedOk, Linked, Links, TailsSafe, Records, Lists, Table, Tids, Inv, Ok;
      ghost var f := Frays();
      Parts();
      process := new Process;
      assert Linked() && Tids();
      ProcessCreate(process);
      assert Frays() == f;
      AllRecords();
      Whole();
    }

    lemma ProcessFacts(process: Process)
      requires Valid() && process in procs && currentThread.parent != process
      ensures Inv(WithoutThreads(Abs(), Dead(process.members))) && WithoutThreads(Abs(), Dead(process.members)).cur == currentThread
      ensures currentThread in live - Dead(process.members)
    {
      var s, dead := Abs(), Dead(process.members);
      assert ListLinked(process);
      assert forall t :: t in dead ==> t.parent == process;
      WithoutThreadsKeepsInv(s, dead);
    }

    method PerformProcessDestroy(process: Process)
      requires Valid() && process in procs && process.bottom == null && currentThread.parent != process && process.state != Terminated
      modifies process`state, processTable, queue, heap`nextReady, heap`next, procs`threads, procs`members
      modifies this`ready, this`live, this`procs
      ensures Valid() && Frays() == WithoutOn(old(Frays()), Dead(old(process.members)))
      ensures procs == old(procs) - {process} && processTable[..] == Released(old(processTable[..]), process)
    {
      hide Valid, SchedOk, Linked, Links, TailsSafe, Stale, Records, Lists, Table, Tids, Inv, Ok, WithoutThreads, Dead, Released;
      Parts();
      ProcessFacts(process);
      ProcessDestroy(process);
      AllLinked();
      FewerTids();
      AllRecords();
      Whole();
    }

    /** A process whose image could not be loaded leaves nothing behind but a used pid. */
    method SpawnFailed()
      requires Valid()
      modifies processTable, this`procs, this`currentPid, queue, heap`nextReady, heap`next, procs`threads, procs`members, this`ready, this`live
      ensures Valid() && Frays() == old(Frays()) && procs == old(procs) && processTable[..] == old(processTable[..])
      ensures currentPid == old(currentPid) + 1
    {
      ghost var f, table, ps := Frays(), processTable[..], procs;
      Parts();
      hide Valid, WithoutOn, Ok, Stale, Linked, SchedOk, Links, TailsSafe, Records;
      var process := PerformProcessCreate();
      NoneDead(f);
      PerformProcessDestroy(process);
      ClaimedReleased(table, process);
      assert procs == ps + {process} - {process} == ps;
    }

    /** A thread that has just been created may be posted. */
    lemma NewcomerPostable(s: Sched<Thread>, t: Thread)
      requires Inv(s) && t !in s.tcb && Abs() == s.(tcb := s.tcb[t := Tcb(PRI_DEFAULT, Ready, SLICE)])
      ensures Enabled(Abs(), Post(t)) && t.priority == PRI_DEFAULT && t.state == Ready && t.state != Terminated
    {
      assert Tcbs()[t] == Tcb(PRI_DEFAULT, Ready, SLICE);
      forall i | 0 <= i <= PRI_MAX ensures t !in s.ready[i] { assert QueueOk(s, i); }
    }

    /** The first thread of a process is created and posted. */
    method SpawnThread(process: Process, stackOk: bool) returns (t: Thread?)
      requires Valid()
      modifies this`currentTid, this`live, this`heap, process`threads, process`members, queue, queueTail, heap`nextReady, heap`state, this`ready
      ensures Valid() && (t != null <==> stackOk) && fresh(heap - old(heap))
      ensures if t == null then Frays() == old(Frays()) && process.threads == old(process.threads)
        else fresh(t) && t.parent == process && process.threads == t && |old(ready)| == PRI_MAX + 1 && Frays() == Spawned(old(Frays()), t)
    {
      hide Valid, SchedOk, Linked, Links, TailsSafe, Stale, Records, Lists, Table, Tids, Inv, Ok, Enabled, PostOn;
      ghost var f := Frays();
      Parts();
      t := PerformCreate(process, stackOk);  // which leaves it in `process.threads` already
      if t != null {
        NewcomerPostable(f.s, t);
        PerformPost(t);
      }
    }

    /**
      `process_spawn`: -1, and nothing behind but a used pid, when the image cannot be loaded; otherwise a process with a
      fresh pid whose first thread, if its stack could be allocated, is posted: behind all threads of its priority, if the
      tail of their queue is right.
     */
    method ProcessSpawn(imageOk: bool, stackOk: bool) returns (r: int, ghost process: Process, ghost t: Thread?)
      requires Valid()
      modifies processTable, this`procs, this`currentPid, this`currentTid, queue, queueTail, heap`nextReady, heap`next, heap`state
      modifies procs`threads, procs`members, this`ready, this`live, this`heap
      ensures Valid() && currentPid == old(currentPid) + 1 && fresh(heap - old(heap))
      ensures r == if imageOk then old(currentPid) else -1
      ensures !imageOk ==> Frays() == old(Frays()) && procs == old(procs) && processTable[..] == old(processTable[..])
      ensures imageOk ==>
        && fresh(process) && procs == old(procs) + {process} && process.pid == old(currentPid)
        && processTable[..] == Claimed(old(processTable[..]), process) && (t != null <==> stackOk)
        && InFirstFree(old(processTable[..]), processTable[..], process)
      ensures imageOk && !stackOk ==> Frays() == old(Frays()) && process.threads == null
      ensures imageOk && stackOk ==>
        fresh(t) && t.parent == process && process.threads == t && |old(ready)| == PRI_MAX + 1 && Frays() == Spawned(old(Frays()), t)
    {
      hide Valid, Spawned, Claimed, InFirstFree;
      t := null;
      if !imageOk {
        SpawnFailed();
        return -1, currentProc, t;
      }
      var newProc := PerformProcessCreate();
      r, process := newProc.pid, newProc;
      var thread := SpawnThread(newProc, stackOk);
      t := thread;
    }

    /** Every operation of the running kernel keeps `Valid` and is the abstract step. */
    method Perform(op: Op<Thread>)
      requires Valid() && !op.Create? && Enabled(Abs(), op) && (op.Destroy? ==> op.t.parent in procs)
      modifies this`currentThread, this`currentProc, this`ready, this`live, queue, queueTail
      modifies heap`nextReady, heap`state, heap`timeSlice, heap`next, procs`threads, procs`members
      ensures Valid() && Ok(old(Frays())) && Frays() == StepOn(old(Frays()), op)
    {
      hide Valid, Ok, TickOn, PostOn, ExitOn, DestroyOn, Enabled;
      Parts();
      match op
      case Tick => PerformTick();
      case Post(t) => PerformPost(t);
      case Exit => PerformExit();
      case Destroy(t) => PerformDestroy(t);
    }

    lemma RunStep(ops: seq<Op<Thread>>)
      requires Valid() && Ok(Frays()) && RunsOn(Frays(), ops) && ops != []
      ensures Enabled(Abs(), ops[0])
      ensures var r := StepOn(Frays(), ops[0]);
        && Ok(r) && RunsOn(r, ops[1..]) && RunOn(Frays(), ops) == RunOn(r, ops[1..])
        && forall t :: ReachedOn(Frays(), ops, t) <==> currentThread == t || ReachedOn(r, ops[1..], t)
    {
      StepOnKeepsOk(Frays(), ops[0]);
    }

    lemma RunEnds(ops: seq<Op<Thread>>)
      requires Valid() && Ok(Frays()) && RunsOn(Frays(), ops) && ops == []
      ensures RunOn(Frays(), ops) == Frays() && forall t :: ReachedOn(Frays(), ops, t) <==> currentThread == t
    {
    }

    /** The run can be carried out: each step is enabled, it creates no thread, and the parents of destroyed ones exist. */
    ghost predicate Performable(ops: seq<Op<Thread>>)
      requires Ok(Frays())
      reads `ready, `currentThread, `live, live`priority, live`state, live`timeSlice, queueTail, `procs
      reads set op | op in ops && op.Destroy? :: op.t
    {
      RunsOn(Frays(), ops) && forall i :: 0 <= i < |ops| ==> !ops[i].Create? && (ops[i].Destroy? ==> ops[i].t.parent in procs)
    }

    /**
      Any run of enabled ticks, posts, exits and destructions is, on the linked lists, the abstract run; `seen` says
      whether `t` has been current. All that is proved about abstract runs holds of the kernel.
     */
    method PerformRun(ops: seq<Op<Thread>>, t: Thread) returns (seen: bool)
      requires Valid() && Ok(Frays()) && Performable(ops)
      modifies this`currentThread, this`currentProc, this`ready, this`live, queue, queueTail
      modifies heap`nextReady, heap`state, heap`timeSlice, heap`next, procs`threads, procs`members
      ensures Valid() && Ok(old(Frays())) && RunsOn(old(Frays()), ops) && Frays() == RunOn(old(Frays()), ops)
      ensures seen <==> ReachedOn(old(Frays()), ops, t)
      decreases |ops|
    {
      hide Valid, Ok, RunsOn, RunOn, ReachedOn, StepOn, Enabled, Stale;
      Parts();
      seen := currentThread == t;
      if ops == [] {
        RunEnds(ops);
        return;
      }
      RunStep(ops);
      Perform(ops[0]);
      Parts();
      var later := PerformRun(ops[1..], t);
      seen := seen || later;
    }

    /** Some thread can be dispatched. */
    method SomethingQueued() returns (b: bool)
      requires Shape() && Links()
      ensures b <==> Enabled(Abs(), Exit)
    {
      var i := 0;
      while i < PRI_MAX
        invariant 0 <= i <= PRI_MAX && forall j :: 0 <= j < i ==> ready[j] == []
      {
        assert QueueLinked(i);
        if queue[i] != null {
          return true;
        }
        i := i + 1;
      }
      return false;
    }

    /** The processes to kill are live and different from one another, and none is the one there was at first. */
    ghost predicate Sensible(cmds: seq<Command>)
      reads `procs, procs`bottom
    {
      && (forall i :: 0 <= i < |cmds| && cmds[i].KillProcess? ==> cmds[i].process in procs && cmds[i].process.bottom == null)
      && forall i, j :: 0 <= i < j < |cmds| && cmds[i].KillProcess? && cmds[j].KillProcess? ==> cmds[i].process != cmds[j].process
    }

    /** One command; an exit with nothing to dispatch and the killing of the current process are left out. */
    method Obey(cmd: Command, p: Process)
      requires Valid() && p in procs && p in processTable[..] && Sensible([cmd]) && cmd != KillProcess(p)
      modifies this`currentThread, this`currentProc, this`ready, this`live, this`heap, this`procs, this`currentPid, this`currentTid
      modifies processTable, queue, queueTail, heap`nextReady, heap`next, heap`state, heap`timeSlice
      modifies procs`threads, procs`members, procs`state
      ensures Valid() && p in procs && p in processTable[..] && fresh(heap - old(heap)) && fresh(procs - old(procs))
      ensures old(procs) - procs <= if cmd.KillProcess? then {cmd.process} else {}
    {
      hide Valid, InFirstFree, Claimed, Released, Spawned, WithoutOn, TickOn, ExitOn, Enabled, Stale;
      ghost var table := processTable[..];
      Parts();
      match cmd
      case TickOnce => PerformTick();
      case ExitCurrent =>
        var able := SomethingQueued();
        if able { PerformExit(); }
      case SpawnProcess(imageOk, stackOk) =>
        var r; ghost var process; ghost var t;
        r, process, t := ProcessSpawn(imageOk, stackOk);
        if imageOk { StaysListed(table, processTable[..], p, process); }
      case KillProcess(process) =>
        assert [cmd][0].process in procs;
        KillAllowed(process);
        if currentProc != process {
          PerformProcessDestroy(process);
          StaysListed(table, processTable[..], p, process);
        }
    }

    lemma KillAllowed(process: Process)
      requires Valid() && process in procs
      ensures process.state != Terminated && currentProc == currentThread.parent
    {
    }

    /** A process that is in the table is found by its pid after any run of commands that does not kill it. */
    method ObeyAll(cmds: seq<Command>, p: Process)
      requires Valid() && p in procs && p in processTable[..] && Sensible(cmds) && KillProcess(p) !in cmds
      modifies this`currentThread, this`currentProc, this`ready, this`live, this`heap, this`procs, this`currentPid, this`currentTid
      modifies processTable, queue, queueTail, heap`nextReady, heap`next, heap`state, heap`timeSlice
      modifies procs`threads, procs`members, procs`state
      ensures Valid() && p in procs && p in processTable[..]
      decreases |cmds|
    {
      hide Valid;
      if cmds == [] {
        return;
      }
      Obey(cmds[0], p);
      ObeyAll(cmds[1..], p);
    }

    /** A process that is created while a slot is free is found by its pid after any such run. */
    method CreatedIsFound(cmds: seq<Command>) returns (process: Process, found: Process?)
      requires Valid() && null in processTable[..] && Sensible(cmds)
      modifies this`currentThread, this`currentProc, this`ready, this`live, this`heap, this`procs, this`currentPid, this`currentTid
      modifies processTable, queue, queueTail, heap`nextReady, heap`next, heap`state, heap`timeSlice
      modifies procs`threads, procs`members, procs`state
      ensures Valid() && fresh(process) && process.pid == old(currentPid) && found == process
    {
      hide Valid, Claimed, Stale;
      ghost var table := processTable[..];
      process := PerformProcessCreate();
      NowListed(table, processTable[..], process);
      ObeyAll(cmds, process);
      Parts();
      found := ProcessFindByPid(process.pid);
    }

    lemma ExitFirst(ops: seq<Op<Thread>>)
      requires Valid() && Ok(Frays()) && Performable([Exit] + ops)
      ensures Enabled(Abs(), Exit) && |ready| == PRI_MAX + 1
      ensures var r := ExitOn(Frays());
        Ok(r) && RunsOn(r, ops) && (forall i :: 0 <= i < |ops| ==> !ops[i].Create? && (ops[i].Destroy? ==> ops[i].t.parent in procs))
      ensures Exited(ExitOn(Frays()), currentThread)
    {
      assert ([Exit] + ops)[1..] == ops;
      assert forall i :: 0 <= i < |ops| ==> ([Exit] + ops)[i + 1] == ops[i];
      StepOnKeepsOk(Frays(), Exit);
      ExitLaw(Frays(), Highest(ready, PRI_MAX));
    }

    /** A thread that exits is on no queue and is not dispatched in any run afterwards that does not destroy it. */
    method ExitForGood(ops: seq<Op<Thread>>) returns (t: Thread, seen: bool)
      requires Valid() && Ok(Frays()) && Performable([Exit] + ops)
      requires forall i :: 0 <= i < |ops| ==> ops[i] != Destroy(currentThread)
      modifies this`currentThread, this`currentProc, this`ready, this`live, queue, queueTail
      modifies heap`nextReady, heap`state, heap`timeSlice, heap`next, procs`threads, procs`members
      ensures Valid() && t == old(currentThread) && !seen && t.state == Terminated && t != currentThread
      ensures forall i :: 0 <= i < |ready| ==> t !in ready[i]
    {
      hide Valid, Ok, RunsOn, RunOn, ReachedOn, ExitOn, Enabled, Stale;
      t := currentThread;
      ExitFirst(ops);
      PerformExit();
      ExitedForGood(Frays(), ops, t);
      seen := PerformRun(ops, t);
      StateOf(t);
    }

    lemma ExactWaitHere(ops: seq<Op<Thread>>, t: Thread, p: nat)
      requires Valid() && Stale() == {} && Fairness.Runs(Abs(), ops) && Fairness.Guarded(Abs(), ops)
      requires p <= PRI_MAX && t in ready[p] && Fairness.Undisturbed(Abs(), p) && Fairness.CalmRun(Abs(), ops, t, p)
      requires forall i :: 0 <= i < |ops| ==> Fairness.Steady(ops[i])
      ensures Ok(Frays()) && RunsOn(Frays(), ops)
      ensures ReachedOn(Frays(), ops, t) <==>
        Fairness.TicksIn(ops) >= currentThread.timeSlice + SLICE * IndexOf<Thread>(ready[p], t)
    {
      Fairness.ExactWait(Abs(), ops, t, p);
      RunAgrees(Abs(), ops, t);
      assert Abs().tcb[Abs().cur].slice == currentThread.timeSlice;
    }

    /** Exact waiting on the heap: a queued thread has been current if and only if so many of the steps were ticks. */
    method ExactWait(ops: seq<Op<Thread>>, t: Thread, ghost p: nat) returns (seen: bool)
      requires Valid() && Stale() == {} && Fairness.Runs(Abs(), ops) && Fairness.Guarded(Abs(), ops)
      requires p <= PRI_MAX && t in ready[p] && Fairness.Undisturbed(Abs(), p) && Fairness.CalmRun(Abs(), ops, t, p)
      requires forall i :: 0 <= i < |ops| ==> Fairness.Steady(ops[i]) && !ops[i].Create?
      modifies this`currentThread, this`currentProc, this`ready, this`live, queue, queueTail
      modifies heap`nextReady, heap`state, heap`timeSlice, heap`next, procs`threads, procs`members
      ensures Valid()
      ensures seen <==> Fairness.TicksIn(ops) >= old(currentThread.timeSlice) + SLICE * IndexOf<Thread>(old(ready[p]), t)
    {
      ExactWaitHere(ops, t, p);
      hide Valid, Ok, RunsOn, ReachedOn, RunOn, IndexOf, Stale, Fairness.Runs, Fairness.Guarded, Fairness.CalmRun;
      seen := PerformRun(ops, t);
    }

    /**
      What the unrepaired tail costs: once the last of two or more queued threads has been destroyed, the next thread
      posted at that priority becomes READY but is on no queue.
     */
    method LostWakeup(victim: Thread, thread: Thread)
      requires Valid() && victim in live && victim.parent in procs && victim.priority <= PRI_MAX
      requires AtTail(victim) && |ready[victim.priority]| >= 2
      requires Enabled(Abs(), Post(thread)) && thread.priority == victim.priority && thread.state != Terminated
      modifies queue, queueTail, heap`nextReady, heap`next, heap`state, procs`threads, procs`members, this`ready, this`live
      ensures Valid() && thread.state == Ready && thread != currentThread && Aside(Frays(), thread, thread.priority)
      ensures thread.priority in Stale() && ready[thread.priority] == Without<Thread>(old(ready[thread.priority]), victim)
    {
      ghost var f, p := Frays(), thread.priority;
      Parts();
      VictimFacts(victim, thread);
      LostAfter(f, victim, thread, p);
      hide Valid, Ok, Enabled, PostOn, DestroyOn, Stale, Aside, Without, AtTail;
      PerformDestroy(victim);
      PerformPost(thread);
      Parts();
      StateOf(thread);
    }

    lemma StateOf(t: Thread)
      requires Valid() && t in Frays().s.tcb
      ensures t.state == Frays().s.tcb[t].state && Frays().stale == Stale() && Frays().s.ready == ready && Frays().s.cur == currentThread
    {
    }

    lemma VictimFacts(victim: Thread, thread: Thread)
      requires Valid() && victim in live && victim.priority <= PRI_MAX
      requires AtTail(victim) && |ready[victim.priority]| >= 2
      requires Enabled(Abs(), Post(thread)) && thread.priority == victim.priority && thread.state != Terminated
      ensures var f, p := Frays(), victim.priority;
        && p !in f.stale && |f.s.ready[p]| >= 2 && victim == f.s.ready[p][|f.s.ready[p]| - 1]
        && Aside(f, thread, p) && thread != victim && f.s.tcb[thread].state != Terminated && Enabled(f.s, Destroy(victim))
    {
      var p := victim.priority;
      assert victim in ready[p];
      QueuedNotCurrent(Abs(), victim, p);
    }

    /** A thread that has been lost is not dispatched in any run in which the tail of its queue stays stale. */
    method StaysLost(ops: seq<Op<Thread>>, t: Thread, ghost p: nat) returns (seen: bool)
      requires Valid() && Ok(Frays()) && Performable(ops) && StaleAlong(Frays(), ops, p) && Aside(Frays(), t, p)
      requires forall i :: 0 <= i < |ops| ==> ops[i] != Destroy(t)
      modifies this`currentThread, this`currentProc, this`ready, this`live, queue, queueTail
      modifies heap`nextReady, heap`state, heap`timeSlice, heap`next, procs`threads, procs`members
      ensures Valid() && Aside(Frays(), t, p) && !seen
    {
      LostWhileStale(Frays(), ops, t, p);
      hide Valid, Ok, RunsOn, RunOn, ReachedOn, StaleAlong, Aside, Stale;
      seen := PerformRun(ops, t);
    }

    /** The tail pointer of a queue that holds a thread. */
    lemma LastOf(p: nat)
      requires Valid() && Stale() == {} && p <= PRI_MAX && |ready| == PRI_MAX + 1 && ready[p] != []
      ensures Shape() && queueTail[p] != null && queueTail[p] == ready[p][|ready[p]| - 1]
      ensures queueTail[p].priority == p && queueTail[p] in live && AtTail(queueTail[p])
    {
      assert p !in Stale() && QueueLinked(p);
    }

    lemma SpawnedReady(f: Frayed<Thread>, t: Thread)
      requires Ok(f) && f.stale == {} && Frays() == Spawned(f, t)
      ensures |f.s.ready| == PRI_MAX + 1 && ready == f.s.ready[PRI_DEFAULT := f.s.ready[PRI_DEFAULT] + [t]] && Stale() == {}
    {
    }

    /** A process is spawned, and nothing fails. */
    method SpawnOne() returns (ghost t: Thread)
      requires Valid() && Stale() == {}
      modifies processTable, this`procs, this`currentPid, this`currentTid, queue, queueTail, heap`nextReady, heap`next, heap`state
      modifies procs`threads, procs`members, this`ready, this`live, this`heap
      ensures Valid() && fresh(heap - old(heap)) && fresh(procs - old(procs)) && t !in old(Abs()).tcb && t.parent in procs
      ensures |old(ready)| == PRI_MAX + 1 && Frays() == Spawned(old(Frays()), t)
      ensures ready == old(ready)[PRI_DEFAULT := old(ready)[PRI_DEFAULT] + [t]] && Stale() == {}
    {
      hide Valid, Spawned, Inv, SchedOk, Linked, Records, Claimed, Stale, Ok, TailsSafe;
      Parts();
      ghost var f := Frays();
      var r; ghost var process; ghost var first;
      r, process, first := ProcessSpawn(true, true);
      t := first;
      SpawnedReady(f, t);
    }

    /** A kernel that has just started and spawns two processes. */
    static method TwoSpawned() returns (k: Kernel, ghost a: Thread, ghost b: Thread)
      ensures fresh(k) && fresh(k.heap) && fresh(k.procs) && fresh(k.queue) && fresh(k.queueTail) && fresh(k.currentProc)
      ensures k.Valid() && k.Stale() == {} && |k.ready| == PRI_MAX + 1 && k.ready[PRI_DEFAULT] == [a, b] && a != b && b.parent in k.procs
    {
      hide *;
      k := new Kernel();
      k.Queues();
      a := k.SpawnOne();
      k.QueuedLive(a);
      b := k.SpawnOne();
    }

    lemma QueuedLive(t: Thread)
      requires Valid() && |ready| == PRI_MAX + 1 && t in ready[PRI_DEFAULT]
      ensures t in Abs().tcb
    {
      assert QueueLinked(PRI_DEFAULT);
    }

    /** It comes to lose a wake-up: the thread posted once the second process's thread has gone. */
    static method LostWakeupRun() returns (k: Kernel, thread: Thread)
      ensures fresh(k) && k.Valid() && thread.state == Ready && thread.priority in k.Stale()
      ensures Aside(k.Frays(), thread, thread.priority)
    {
      hide *;
      ghost var a, b;
      k, a, b := TwoSpawned();
      k.Parts();
      k.Queues();
      ghost var s := k.Abs();
      k.LastOf(PRI_DEFAULT);
      var victim := k.queueTail[PRI_DEFAULT];
      thread := k.PerformCreate(k.currentProc, true);
      k.Parts();
      k.NewcomerPostable(s, thread);
      k.Queues();
      k.LastOf(PRI_DEFAULT);
      k.LostWakeup(victim, thread);
    }

    /** `thread_destroy` does not protect the current thread as such: it is refused exactly while it is RUNNING. */
    method DestroyCurrent() returns (r: int)
      requires Valid() && currentThread.parent in procs
      modifies queue, heap`nextReady, heap`next, procs`threads, procs`members, this`ready, this`live
      ensures r == if old(currentThread.state) == Ready then 0 else -1
      ensures r == 0 ==> currentThread !in live
    {
      hide Valid, SchedOk, Linked, Links, TailsSafe, Stale, Records, Lists, Table, Tids, Inv, AtTail, DestroyOn;
      Parts();
      CurrentFacts();
      r := ThreadDestroy(currentThread);
    }

    lemma CurrentFacts()
      requires Valid()
      ensures currentThread in live && currentThread.priority <= PRI_MAX && (currentThread.state == Running || currentThread.state == Ready)
    {
    }

    /** A slice of ticks for a thread that is on its own. */
    method TickAlone(ghost t: Thread)
      requires Valid() && Alone(Frays(), t, SLICE)
      modifies this`currentThread, this`currentProc, this`ready, queue, queueTail, heap`nextReady, heap`state, heap`timeSlice
      ensures Valid() && currentThread == t && t.state == Ready
    {
      hide Valid, Inv, Ok, TickOn, Stale;
      var n := SLICE;
      while n > 1
        invariant 1 <= n <= SLICE && Valid() && Alone(Frays(), t, n)
      {
        AloneTick(Frays(), t, n);
        PerformTick();
        n := n - 1;
      }
      AloneTick(Frays(), t, n);
      PerformTick();
    }

    /** With nothing queued, a process is spawned and the current thread exits. */
    method SpawnAndExit() returns (ghost t: Thread)
      requires Valid() && Stale() == {} && |ready| == PRI_MAX + 1 && forall i :: 0 <= i <= PRI_MAX ==> ready[i] == []
      modifies processTable, this`procs, this`currentPid, this`currentTid, queue, queueTail, heap`nextReady, heap`next, heap`state
      modifies procs`threads, procs`members, this`ready, this`live, this`heap, this`currentThread, this`currentProc
      ensures Valid() && fresh(heap - old(heap)) && fresh(procs - old(procs)) && t.parent in procs && Alone(Frays(), t, SLICE)
    {
      hide *;
      ghost var f := Frays();
      Parts();
      Queues();
      t := SpawnOne();
      Parts();
      AloneAfterExit(f, t);
      PerformExit();
    }

    /** A kernel that has just started comes to free the thread it is running: one process, and one slice on its own. */
    static method SelfDispatchRun() returns (k: Kernel)
      ensures fresh(k) && k.currentThread.state == Ready && k.currentThread !in k.live
    {
      hide *;
      k := new Kernel();
      k.Parts();
      k.Queues();
      ghost var t := k.SpawnAndExit();
      k.TickAlone(t);
      var r := k.DestroyCurrent();
    }

    lemma Queues()
      requires Valid()
      ensures |ready| == PRI_MAX + 1 > PRI_DEFAULT && Abs().ready == ready && Frays().s == Abs() && Frays().stale == Stale()
    {
    }

    /** `OnTime` for the state of this kernel. */
    lemma OnTimeHere(t: Thread, p: nat)
      requires SchedOk() && p <= PRI_MAX && t in ready[p] && Fairness.Undisturbed(Abs(), p)
      ensures Inv(Abs()) && |ready| == PRI_MAX + 1 && currentThread.timeSlice >= 0
      ensures Fairness.TickN(Abs(), 0) == Abs()
      ensures Fairness.TickN(Abs(), currentThread.timeSlice + SLICE * IndexOf<Thread>(ready[p], t)).cur == t
    {
      Fairness.OnTime(Abs(), t, p);
    }

    /** So many timer interrupts. */
    method TickTimes(n: nat)
      requires SchedOk()
      modifies this`currentThread, this`currentProc, this`ready, queue, queueTail, heap`nextReady, heap`state, heap`timeSlice
      ensures SchedOk() && Ok(old(Frays())) && Frays() == TicksOn(old(Frays()), n)
    {
      hide SchedOk, TicksOn, TickOn, Ok, Stale, TailsSafe, Links;
      ghost var f := Frays();
      FraysOk();
      TicksOnNone(f);
      var i := 0;
      while i < n
        invariant 0 <= i <= n && SchedOk() && Frays() == TicksOn(f, i)
      {
        TicksOnNext(f, i);
        FraysOk();
        SchedulerTick();
        i := i + 1;
      }
    }

    lemma Current()
      requires SchedOk()
      ensures Ok(Frays()) && |ready| == PRI_MAX + 1 && Frays().s.ready == ready && Frays().s.cur == currentThread && Frays().s == Abs()
      ensures currentThread in Frays().s.tcb && Frays().s.tcb[currentThread].slice == currentThread.timeSlice
    {
      FraysOk();
    }

    /** Bounded waiting on the heap: after exactly so many timer interrupts the queued thread runs. */
    method TickUntil(ghost t: Thread, ghost p: nat, ticks: nat)
      requires SchedOk() && Stale() == {} && p <= PRI_MAX && t in ready[p] && Fairness.Undisturbed(Abs(), p)
      requires ticks == currentThread.timeSlice + SLICE * IndexOf<Thread>(ready[p], t)
      modifies this`currentThread, this`currentProc, this`ready, queue, queueTail, heap`nextReady, heap`state, heap`timeSlice
      ensures currentThread == t
    {
      hide SchedOk, Inv, Ok, Stale, TicksOn, Fairness.TickN, Fairness.Undisturbed, IndexOf;
      SchedParts();
      OnTimeHere(t, p);
      TicksAgree(Abs(), ticks);
      TickTimes(ticks);
    }

    /**
      A queue with a stale tail on the heap: after exactly so many timer interrupts its thread `k` runs, those behind it
      are still queued, and those that have run are on no queue.
     */
    method DrainStale(ghost p: nat, ghost k: nat, ticks: nat)
      requires SchedOk() && p <= PRI_MAX && p in Stale() && Fairness.Undisturbed(Abs(), p) && k < |ready[p]|
      requires ticks == currentThread.timeSlice + SLICE * k
      modifies this`currentThread, this`currentProc, this`ready, queue, queueTail, heap`nextReady, heap`state, heap`timeSlice
      ensures SchedOk() && |old(ready)| == |ready| == PRI_MAX + 1
      ensures currentThread == old(ready)[p][k] && ready[p] == old(ready)[p][k + 1..]
      ensures forall j :: 0 <= j < k ==> Aside(Frays(), old(ready)[p][j], p)
    {
      hide SchedOk, Inv, Ok, Stale, TicksOn, Aside, Fairness.Undisturbed;
      Current();
      OneSliceEach(Frays(), p, k);
      TickTimes(ticks);
      Current();
    }

    /** Gives the storage of an unqueued thread back. */
    ghost method Free(thread: Thread)
      requires Shape() && Links() && thread in live && thread.priority <= PRI_MAX && thread !in ready[thread.priority]
      modifies this`live
      ensures Shape() && Links() && live == old(live) - {thread} && Tcbs() == old(Tcbs()) - {thread}
    {
      live := live - {thread};
      forall i | 0 <= i <= PRI_MAX ensures QueueLinked(i) { assert old(QueueLinked(i)); }
    }
  }

  /** Thread `t` runs with `n` ticks left, and nothing else can be dispatched. */
  ghost predicate Alone(f: Frayed<Thread>, t: Thread, n: nat) {
    && Ok(f) && f.s.cur == t && f.s.tcb[t].slice == n && f.s.tcb[t].state == Running
    && f.stale == {} && forall i :: 0 <= i < PRI_MAX ==> f.s.ready[i] == []
  }

  lemma AloneAfterExit(f: Frayed<Thread>, t: Thread)
    requires Ok(f) && (forall i :: 0 <= i <= PRI_MAX ==> f.s.ready[i] == []) && t !in f.s.tcb
    ensures var r := Spawned(f, t); Ok(r) ==> Enabled(r.s, Exit) && Alone(ExitOn(r), t, SLICE)
  {
    var r := Spawned(f, t);
    assert f.stale == {};
    assert r.s.ready[PRI_DEFAULT] == [t];
    assert Highest(r.s.ready, PRI_MAX) == PRI_DEFAULT;
    if Ok(r) { StepOnKeepsOk(r, Exit); }
  }

  lemma AloneTick(f: Frayed<Thread>, t: Thread, n: nat)
    requires Alone(f, t, n)
    ensures n > 0
    ensures var r := TickOn(f);
      if n > 1 then Alone(r, t, n - 1) else r.s.cur == t && t in r.s.tcb && r.s.tcb[t].state == Ready
  {
    StepOnKeepsOk(f, Tick);
    StepAgrees(f.s, Tick);
    ReadyWhileCurrent(f.s, Tick);
  }

  ghost function Dead(q: seq<Thread>): set<Thread> {
    set t | t in q
  }

  /** The next thread of a walk that has destroyed the first `k` of `m`. */
  lemma NextVictim(s: Sched<Thread>, m: seq<Thread>, k: nat)
    requires Inv(s) && k < |m| && NoDup(m)
    requires forall t :: t in m ==> t in s.tcb && t != s.cur && IdleOk(s, t)
    ensures s.tcb[m[k]].state != Running && s.tcb[m[k]].prio <= PRI_MAX
    ensures WithoutThreads(s, Dead(m[..k])).tcb == s.tcb - Dead(m[..k]) && m[k] !in Dead(m[..k])
    ensures DestroyStep(WithoutThreads(s, Dead(m[..k])), m[k]) == WithoutThreads(s, Dead(m[..k + 1]))
    ensures Dead(m[..k]) + {m[k]} == Dead(m[..k + 1])
  {
    var t := m[k];
    assert t in m && t !in Dead(m[..k]);
    assert IdleOk(s, t);
    DestroyOneMore(s, Dead(m[..k]), t);
    assert Dead(m[..k]) + {t} == Dead(m[..k + 1]);
  }

  lemma NoneDeadYet(s: Sched<Thread>)
    ensures WithoutThreads(s, Dead([])) == s && Dead([]) == {}
  {
    assert Dead([]) == {};
    forall i | 0 <= i < |s.ready| ensures Keep(s.ready[i], {}) == s.ready[i] { KeepNone(s.ready[i]); }
    assert WithoutThreads(s, {}).ready == s.ready;
  }

  lemma NoneDead(f: Frayed<Thread>)
    requires Ok(f)
    ensures WithoutOn(f, Dead([])) == f
  {
    NoneDeadYet(f.s);
    assert EndingIn(f.s.ready, {}) == {};
  }

  lemma MembersLeft(q: seq<Thread>, t: Thread)
    requires NoDup(q)
    ensures NoDup(Without<Thread>(q, t)) && forall x :: x in Without<Thread>(q, t) <==> x in q && x != t
  {
    WithoutNoDup<Thread>(q, t);
    forall x ensures x in Without<Thread>(q, t) <==> x in q && x != t { WithoutMember<Thread>(q, t, x); }
  }
}
