/**
 * The monitor protocol of sync_queue and the worker loop of thread_pool
 * (libcom/include/thrdpool.h), as a machine that interleaves the atomic steps of any
 * number of threads.
 *
 * A thread acquires m_lock, changes the deque, sleeps on the condition variable, is
 * notified (or wakes for no reason, as a condition variable allows), re-acquires m_lock
 * and re-tests the predicate, each as a separate step.  Threads below `workers` run the
 * pool's worker loop; all others call put, get, invalidate and stop as they please.
 */
module SyncQueue {

  import opened Options

  datatype Op<T> = Put(elem: T) | Get | Invalidate | Stop

  /** Where a thread stands. */
  datatype Pc<T> =
    | Idle                          // a client, outside the queue
    | Loop                          // a worker about to test m_done
    | Running(job: T)               // a worker executing what it fetched
    | Exited                        // a worker that left its loop
    | Stopping                      // stop() has read m_done as false
    | Joining                       // stop() waits for every worker to exit
    | Locking(op: Op<T>)            // wants m_lock, at the start of an operation
    | Entered(op: Op<T>)            // owns m_lock, nothing done yet
    | Signalling                    // put(): element appended, notify_one is next
    | Testing                       // get(): owns m_lock, about to evaluate the predicate
    | Asleep                        // get(): blocked on the condition variable
    | Notified                      // get(): woken, wants m_lock back
    | Passed                        // get(): the predicate held, still counted as waiting
    | Taking                        // get(): no longer counted, about to take the front
    | Draining(stop: bool)          // invalidate(): m_valid is false, popping elements
    | Waking(stop: bool)            // invalidate(): empty, notify_all is next
    | Leaving(got: Option<T>, stop: bool)   // about to release m_lock

  /** The fields of sync_queue and thread_pool, and the history of the queue. */
  datatype Shared<T> = Shared(
    queue: seq<T>, valid: bool, waiting: int, done: bool,
    accepted: seq<T>, delivered: seq<T>)

  datatype State<T> = State(d: Shared<T>, owner: Option<nat>, pc: seq<Pc<T>>, workers: nat)

  /** One scheduling decision for a thread. */
  datatype Event<T> =
    | Call(op: Op<T>)               // an idle client starts an operation
    | Advance                       // the thread takes its next deterministic step
    | NotifyOne(whom: nat)          // put() signals and the system picks a sleeper
    | Spurious                      // a sleeper wakes without being notified

  predicate Holding<T>(p: Pc<T>) {
    p.Entered? || p.Signalling? || p.Testing? || p.Passed? || p.Taking? ||
    p.Draining? || p.Waking? || p.Leaving?
  }

  /** Classes of program points that the invariants speak of. */
  datatype Kind =
    | Waiting                       // in get(), between m_waiting++ and m_waiting--
    | Woken                         // notified and not yet re-testing
    | Serving                       // owns m_lock with a notification or a take still to come
    | Popping                       // invalidate(), removing elements
    | Emptying                      // invalidate(), before its notify_all

  predicate Is<T>(p: Pc<T>, k: Kind) {
    match k
    case Waiting => p.Testing? || p.Asleep? || p.Notified? || p.Passed?
    case Woken => p.Notified?
    case Serving => p.Signalling? || p.Testing? || p.Passed? || p.Taking?
    case Popping => p.Draining?
    case Emptying => p.Draining? || p.Waking?
  }

  predicate WorkerPc<T>(p: Pc<T>) {
    match p
    case Idle | Stopping | Joining | Signalling | Draining(_) | Waking(_) => false
    case Locking(op) => op.Get?
    case Entered(op) => op.Get?
    case Leaving(_, stop) => !stop
    case _ => true
  }

  predicate ClientPc<T>(p: Pc<T>) { !p.Loop? && !p.Running? && !p.Exited? }

  predicate AllExited<T>(pc: seq<Pc<T>>, workers: nat) {
    forall i :: 0 <= i < |pc| && i < workers ==> pc[i] == Exited
  }

  function Init<T>(threads: nat, workers: nat): (s: State<T>)
    requires workers <= threads
  {
    State(Shared([], true, 0, false, [], []), None,
      seq(threads, i => if i < workers then Loop else Idle), workers)
  }

  predicate Enabled<T>(s: State<T>, t: nat, e: Event<T>) {
    t < |s.pc| &&
    match e
    case Call(op) => s.pc[t].Idle?
    case Spurious => s.pc[t].Asleep?
    case NotifyOne(w) => s.pc[t].Signalling? && w < |s.pc| && s.pc[w].Asleep?
    case Advance =>
      match s.pc[t]
      case Idle | Asleep | Exited => false
      case Locking(_) | Notified => s.owner.None?
      case Signalling => !Sleeper(s.pc)
      case Joining => AllExited(s.pc, s.workers)
      case _ => true
  }

  predicate Sleeper<T>(pc: seq<Pc<T>>) { exists i :: 0 <= i < |pc| && pc[i].Asleep? }

  predicate Sleeps<T>(d: Shared<T>, p: Pc<T>) { p.Testing? && d.valid && d.queue == [] }

  /** Where a thread at p goes next. */
  function Goto<T>(d: Shared<T>, p: Pc<T>, worker: bool): (q: Pc<T>) {
    match p
    case Idle | Asleep | Exited => p
    case Loop => if d.done then Exited else Locking(Get)
    case Running(_) => Loop
    case Stopping => Locking(Stop)
    case Joining => Idle
    case Locking(op) => Entered(op)
    case Entered(Put(_)) => if d.valid then Signalling else Leaving(None, false)
    case Entered(Get) => Testing
    case Entered(Invalidate) => Draining(false)
    case Entered(Stop) => Draining(true)
    case Signalling => Leaving(None, false)
    case Testing => if Sleeps(d, p) then Asleep else Passed
    case Notified => Testing
    case Passed => Taking
    case Taking => Leaving(if d.valid && d.queue != [] then Some(d.queue[0]) else None, false)
    case Draining(stop) => if d.queue != [] then p else Waking(stop)
    case Waking(stop) => Leaving(None, stop)
    case Leaving(got, stop) =>
      if stop then Joining
      else if !worker then Idle
      else if got.Some? then Running(got.value) else Loop
  }

  /** What that step does to the shared fields. */
  function Effect<T>(d: Shared<T>, p: Pc<T>): (r: Shared<T>) {
    match p
    case Stopping => d.(done := true)
    case Entered(Put(x)) =>
      if d.valid then d.(queue := d.queue + [x], accepted := d.accepted + [x]) else d
    case Entered(Get) => d.(waiting := d.waiting + 1)
    case Entered(_) => d.(valid := false)
    case Passed => d.(waiting := d.waiting - 1)
    case Taking =>
      if d.valid && d.queue != [] then
        d.(queue := d.queue[1..], delivered := d.delivered + [d.queue[0]])
      else d
    case Draining(_) => if d.queue != [] then d.(queue := d.queue[..|d.queue| - 1]) else d
    case _ => d
  }

  /** What it does to m_lock; sleeping releases it, re-testing takes it again. */
  function OwnerAfter<T>(d: Shared<T>, owner: Option<nat>, t: nat, p: Pc<T>): (r: Option<nat>) {
    match p
    case Locking(_) | Notified => Some(t)
    case Leaving(_, _) => None
    case Testing => if Sleeps(d, p) then None else owner
    case _ => owner
  }

  function WakeAll<T>(pc: seq<Pc<T>>): (r: seq<Pc<T>>)
    ensures |r| == |pc|
    ensures forall i :: 0 <= i < |pc| ==> r[i] == if pc[i].Asleep? then Notified else pc[i]
  {
    seq(|pc|, i requires 0 <= i < |pc| => if pc[i].Asleep? then Notified else pc[i])
  }

  /** The other threads after a step of t: only notifications touch them. */
  function Others<T>(s: State<T>, t: nat, e: Event<T>): (r: seq<Pc<T>>)
    requires Enabled(s, t, e)
    ensures |r| == |s.pc|
  {
    match e
    case NotifyOne(w) => s.pc[w := Notified]
    case Advance => if s.pc[t].Waking? then WakeAll(s.pc) else s.pc
    case _ => s.pc
  }

  function Target<T>(s: State<T>, t: nat, e: Event<T>): (q: Pc<T>)
    requires Enabled(s, t, e)
  {
    match e
    case Call(op) => if !op.Stop? then Locking(op) else if s.d.done then Idle else Stopping
    case Spurious => Notified
    case _ => Goto(s.d, s.pc[t], t < s.workers)
  }

  /** One atomic step of thread t. */
  function Next<T>(s: State<T>, t: nat, e: Event<T>): (r: State<T>)
    requires Enabled(s, t, e)
  {
    State(
      if e.Advance? then Effect(s.d, s.pc[t]) else s.d,
      if e.Advance? then OwnerAfter(s.d, s.owner, t, s.pc[t]) else s.owner,
      Others(s, t, e)[t := Target(s, t, e)],
      s.workers)
  }

  // ---- counting threads ---------------------------------------------------------------

  function Count<T>(pc: seq<Pc<T>>, k: Kind): (n: nat) {
    if pc == [] then 0 else Count(pc[1..], k) + One(Is(pc[0], k))
  }

  function One(b: bool): (n: nat) { if b then 1 else 0 }

  lemma {:induction false} CountUpdate<T>(pc: seq<Pc<T>>, k: Kind, t: nat, p: Pc<T>)
    requires t < |pc|
    ensures Count(pc[t := p], k) == Count(pc, k) - One(Is(pc[t], k)) + One(Is(p, k))
  {
    if t == 0 {
      assert pc[t := p][1..] == pc[1..];
    } else {
      CountUpdate(pc[1..], k, t - 1, p);
      assert pc[t := p][1..] == pc[1..][t - 1 := p];
    }
  }

  lemma {:induction false} CountSame<T>(pc: seq<Pc<T>>, r: seq<Pc<T>>, k: Kind)
    requires |pc| == |r|
    requires forall i :: 0 <= i < |pc| ==> Is(pc[i], k) == Is(r[i], k)
    ensures Count(pc, k) == Count(r, k)
  {
    if pc != [] { CountSame(pc[1..], r[1..], k); }
  }

  lemma {:induction false} CountNone<T>(pc: seq<Pc<T>>, k: Kind)
    requires forall i :: 0 <= i < |pc| ==> !Is(pc[i], k)
    ensures Count(pc, k) == 0
  {
    if pc != [] { CountNone(pc[1..], k); }
  }

  // ---- the invariant ------------------------------------------------------------------

  predicate OwnerIs(owner: Option<nat>, t: nat) { owner == Some(t) }

  predicate OwnerAt<T>(owner: Option<nat>, pc: seq<Pc<T>>, k: Kind) {
    owner.Some? && owner.value < |pc| && Is(pc[owner.value], k)
  }

  /** m_lock is held by exactly the thread that is inside a critical section. */
  predicate Exclusive<T>(owner: Option<nat>, pc: seq<Pc<T>>) {
    (owner.Some? ==> owner.value < |pc|) &&
    forall i :: 0 <= i < |pc| ==> (Holding(pc[i]) <==> OwnerIs(owner, i))
  }

  predicate Roles<T>(pc: seq<Pc<T>>, workers: nat) {
    workers <= |pc| &&
    forall i :: 0 <= i < |pc| ==> RoleOk(pc[i], i < workers)
  }

  predicate RoleOk<T>(p: Pc<T>, worker: bool) { if worker then WorkerPc(p) else ClientPc(p) }

  /** Delivered, then still queued, is what was accepted; once invalid, a prefix of it. */
  ghost predicate History<T>(d: Shared<T>, popping: bool) {
    (d.valid ==> d.accepted == d.delivered + d.queue) &&
    d.delivered <= d.accepted &&
    (!d.valid ==> d.queue == [] || popping) &&
    (popping ==> !d.valid)
  }

  /** While someone sleeps, every queued element has a wake-up on its way. */
  predicate Covered<T>(d: Shared<T>, owner: Option<nat>, pc: seq<Pc<T>>) {
    Sleeper(pc) ==>
      if d.valid then |d.queue| <= Count(pc, Woken) + One(OwnerAt(owner, pc, Serving))
      else OwnerAt(owner, pc, Emptying)
  }

  ghost predicate Inv<T>(s: State<T>) {
    Exclusive(s.owner, s.pc) && Roles(s.pc, s.workers) &&
    History(s.d, OwnerAt(s.owner, s.pc, Popping)) &&
    Covered(s.d, s.owner, s.pc) &&
    s.d.waiting == Count(s.pc, Waiting)
  }

  lemma InitInv<T>(threads: nat, workers: nat)
    requires workers <= threads
    ensures Inv(Init<T>(threads, workers))
  {
    CountNone(Init<T>(threads, workers).pc, Waiting);
  }

  // ---- one step -----------------------------------------------------------------------

  /** The step of one thread keeps its role and the lock discipline. */
  lemma GotoDiscipline<T>(d: Shared<T>, owner: Option<nat>, t: nat, p: Pc<T>, worker: bool)
    requires Holding(p) <==> OwnerIs(owner, t)
    requires RoleOk(p, worker)
    requires p.Locking? || p.Notified? ==> owner == None
    requires !p.Idle? && !p.Asleep? && !p.Exited?
    ensures RoleOk(Goto(d, p, worker), worker)
    ensures var q, o := Goto(d, p, worker), OwnerAfter(d, owner, t, p);
      (Holding(q) <==> OwnerIs(o, t)) && (o != owner ==> o == None || owner == None)
  {
  }

  lemma StepDiscipline<T>(s: State<T>, t: nat, e: Event<T>)
    requires Enabled(s, t, e) && Exclusive(s.owner, s.pc) && Roles(s.pc, s.workers)
    ensures Exclusive(Next(s, t, e).owner, Next(s, t, e).pc)
    ensures Roles(Next(s, t, e).pc, s.workers)
  {
    assert RoleOk(s.pc[t], t < s.workers) && (Holding(s.pc[t]) <==> OwnerIs(s.owner, t));
    if e.Advance? || e.NotifyOne? {
      GotoDiscipline(s.d, s.owner, t, s.pc[t], t < s.workers);
    }
    hide Goto, Effect;
  }

  /** A step moves a count by its own thread; a notification by the sleeper it wakes. */
  lemma StepCount<T>(s: State<T>, t: nat, e: Event<T>, k: Kind)
    requires Enabled(s, t, e) && (k.Waiting? || k.Woken?)
    requires k.Woken? ==> !(e.Advance? && s.pc[t].Waking?)
    ensures Count(Next(s, t, e).pc, k)
      == Count(s.pc, k) - One(Is(s.pc[t], k)) + One(Is(Target(s, t, e), k))
        + One(k.Woken? && e.NotifyOne?)
  {
    hide Goto, Effect, OwnerAfter;
    CountUpdate(Others(s, t, e), k, t, Target(s, t, e));
    if e.NotifyOne? {
      CountUpdate(s.pc, k, e.whom, Notified);
    } else if e.Advance? && s.pc[t].Waking? {
      CountSame(s.pc, WakeAll(s.pc), k);
    }
  }

  lemma StepWaiting<T>(s: State<T>, t: nat, e: Event<T>)
    requires Enabled(s, t, e) && s.d.waiting == Count(s.pc, Waiting)
    ensures Next(s, t, e).d.waiting == Count(Next(s, t, e).pc, Waiting)
  {
    StepCount(s, t, e, Waiting);
  }

  lemma EffectHistory<T>(d: Shared<T>, p: Pc<T>, popping: bool, worker: bool)
    requires History(d, popping) && (Holding(p) ==> popping == p.Draining?)
    requires !p.Draining? && !p.Taking?
    ensures History(Effect(d, p), if Holding(p) then Goto(d, p, worker).Draining? else popping)
  {
  }

  lemma TakingHistory<T>(d: Shared<T>, worker: bool)
    requires History(d, false)
    ensures History(Effect(d, Taking), false)
  {
    if d.valid && d.queue != [] { assert d.queue == [d.queue[0]] + d.queue[1..]; }
  }

  lemma DrainingHistory<T>(d: Shared<T>, stop: bool, worker: bool)
    requires History(d, true)
    ensures History(Effect(d, Draining(stop)), Goto(d, Draining(stop), worker).Draining?)
  {
  }

  lemma StepHistory<T>(s: State<T>, t: nat, e: Event<T>)
    requires Enabled(s, t, e) && Exclusive(s.owner, s.pc)
    requires History(s.d, OwnerAt(s.owner, s.pc, Popping))
    ensures History(Next(s, t, e).d, OwnerAt(Next(s, t, e).owner, Next(s, t, e).pc, Popping))
  {
    hide Effect, History;
    var p := s.pc[t];
    assert Holding(p) <==> OwnerIs(s.owner, t);
    if e.Advance? {
      if p.Taking? {
        TakingHistory(s.d, t < s.workers);
      } else if p.Draining? {
        DrainingHistory(s.d, p.stop, t < s.workers);
      } else {
        EffectHistory(s.d, p, OwnerAt(s.owner, s.pc, Popping), t < s.workers);
      }
    }
  }

  /** The wake-up account of a thread that owns m_lock throughout its step. */
  lemma HolderCovers<T>(d: Shared<T>, p: Pc<T>, worker: bool, woken: nat)
    requires Holding(p) && !p.Signalling? && !p.Waking? && !Sleeps(d, p)
    requires if d.valid then |d.queue| <= woken + One(Is(p, Serving)) else Is(p, Emptying)
    ensures var q, r := Goto(d, p, worker), Effect(d, p);
      !q.Asleep? && (q.Notified? == p.Notified?) &&
      if r.valid then |r.queue| <= woken + One(Holding(q) && Is(q, Serving))
      else Holding(q) && Is(q, Emptying)
  {
  }

  /** A thread that neither owns nor gains m_lock leaves the queue and the account alone. */
  lemma BystanderCovers<T>(d: Shared<T>, p: Pc<T>, worker: bool)
    requires !Holding(p) && !p.Locking? && !p.Notified? && !p.Asleep?
    ensures var q, r := Goto(d, p, worker), Effect(d, p);
      !q.Asleep? && !q.Notified? && r.valid == d.valid && r.queue == d.queue &&
      forall owner, t :: OwnerAfter(d, owner, t, p) == owner
  {
  }

  /** Taking m_lock, first or again, moves a woken thread to the serving side. */
  lemma AcquireCovers<T>(d: Shared<T>, p: Pc<T>, worker: bool)
    requires p.Locking? || p.Notified?
    ensures var q := Goto(d, p, worker);
      Effect(d, p) == d && !q.Asleep? && !q.Notified? && Is(q, Serving) == p.Notified?
  {
  }

  lemma SleeperKept<T>(s: State<T>, t: nat, e: Event<T>)
    requires Enabled(s, t, e) && Sleeper(Next(s, t, e).pc) && !Target(s, t, e).Asleep?
    ensures Sleeper(s.pc) && !(e.Advance? && s.pc[t].Waking?)
  {
    hide Goto, Effect, OwnerAfter, Target;
    var i :| 0 <= i < |s.pc| && Next(s, t, e).pc[i].Asleep?;
    assert i != t && s.pc[i].Asleep?;
  }

  lemma HolderStep<T>(s: State<T>, t: nat)
    requires Enabled(s, t, Advance) && s.owner == Some(t) && Holding(s.pc[t])
    requires Covered(s.d, s.owner, s.pc)
    ensures var r := Next(s, t, Advance); Covered(r.d, r.owner, r.pc)
  {
    hide Effect, Goto, Count, WakeAll;
    var p, r := s.pc[t], Next(s, t, Advance);
    var q := r.pc[t];
    if Sleeps(s.d, p) {
      SleepsWhenEmpty(s.d, p);
    } else if Sleeper(r.pc) {
      HolderTarget(s.d, p, t < s.workers);
      SleeperKept(s, t, Advance);
      StepCount(s, t, Advance, Woken);
      HolderCovers(s.d, p, t < s.workers, Count(s.pc, Woken));
      HolderOwner(s.d, t, p, t < s.workers);
    }
  }

  lemma SleepsWhenEmpty<T>(d: Shared<T>, p: Pc<T>)
    requires Sleeps(d, p)
    ensures Effect(d, p) == d && d.valid && d.queue == []
  {
  }

  lemma HolderTarget<T>(d: Shared<T>, p: Pc<T>, worker: bool)
    requires Holding(p) && !Sleeps(d, p)
    ensures !Goto(d, p, worker).Asleep?
  {
  }

  /** After a step that does not sleep, m_lock is still held exactly when it must be. */
  lemma HolderOwner<T>(d: Shared<T>, t: nat, p: Pc<T>, worker: bool)
    requires Holding(p) && !Sleeps(d, p)
    ensures OwnerAfter(d, Some(t), t, p) == if Holding(Goto(d, p, worker)) then Some(t) else None
  {
  }

  lemma StepCovered<T>(s: State<T>, t: nat, e: Event<T>)
    requires Enabled(s, t, e) && Exclusive(s.owner, s.pc) && Covered(s.d, s.owner, s.pc)
    ensures var r := Next(s, t, e); Covered(r.d, r.owner, r.pc)
  {
    hide Effect, Goto, Count;
    var p, r := s.pc[t], Next(s, t, e);
    assert Holding(p) <==> OwnerIs(s.owner, t);
    if Holding(p) && e.Advance? {
      HolderStep(s, t);
    } else if Sleeper(r.pc) {
      if e.Advance? && (p.Locking? || p.Notified?) {
        AcquireCovers(s.d, p, t < s.workers);
      } else if e.Advance? {
        BystanderCovers(s.d, p, t < s.workers);
      }
      NotSleeping(s, t, e);
      SleeperKept(s, t, e);
      StepCount(s, t, e, Woken);
    }
  }

  lemma NotSleeping<T>(s: State<T>, t: nat, e: Event<T>)
    requires Enabled(s, t, e) && !(e.Advance? && Holding(s.pc[t]))
    ensures !Target(s, t, e).Asleep?
  {
  }

  lemma StepInv<T>(s: State<T>, t: nat, e: Event<T>)
    requires Inv(s) && Enabled(s, t, e)
    ensures Inv(Next(s, t, e))
  {
    hide Next, Enabled, Exclusive, Roles, History, Covered, Count;
    StepDiscipline(s, t, e);
    StepHistory(s, t, e);
    StepCovered(s, t, e);
    StepWaiting(s, t, e);
    NextWorkers(s, t, e);
  }

  lemma NextWorkers<T>(s: State<T>, t: nat, e: Event<T>)
    requires Enabled(s, t, e)
    ensures Next(s, t, e).workers == s.workers && |Next(s, t, e).pc| == |s.pc|
  {
  }

  /** What a step may do to the history: extend it, and nothing once the queue is invalid. */
  ghost predicate Later<T>(d: Shared<T>, r: Shared<T>) {
    d.accepted <= r.accepted && d.delivered <= r.delivered && (d.done ==> r.done) &&
    (!d.valid ==> !r.valid && r.accepted == d.accepted && r.delivered == d.delivered)
  }

  lemma StepLater<T>(s: State<T>, t: nat, e: Event<T>)
    requires Enabled(s, t, e)
    ensures Later(s.d, Next(s, t, e).d)
  {
    if e.Advance? { EffectLater(s.d, s.pc[t]); }
    hide Effect, Goto, OwnerAfter;
  }

  lemma EffectLater<T>(d: Shared<T>, p: Pc<T>)
    ensures Later(d, Effect(d, p))
  {
  }

  /** get() returns an element exactly when the history records its delivery. */
  lemma DeliveredIsReturned<T>(s: State<T>, t: nat, x: T)
    requires Enabled(s, t, Advance) && s.pc[t].Taking?
    ensures Next(s, t, Advance).pc[t].got == Some(x)
      <==> s.d.valid && s.d.queue != [] && Next(s, t, Advance).d.delivered == s.d.delivered + [x]
  {
    if s.d.valid && s.d.queue != [] && s.d.delivered + [s.d.queue[0]] == s.d.delivered + [x] {
      assert (s.d.delivered + [x])[|s.d.delivered|] == x;
    }
  }

  /** No other step delivers. */
  lemma OnlyTakingDelivers<T>(s: State<T>, t: nat, e: Event<T>)
    requires Enabled(s, t, e) && !(e.Advance? && s.pc[t].Taking?)
    ensures Next(s, t, e).d.delivered == s.d.delivered
  {
  }

  // ---- whole runs ---------------------------------------------------------------------

  datatype Move<T> = Move(thread: nat, event: Event<T>)

  ghost predicate Legal<T>(s: State<T>, run: seq<Move<T>>)
    decreases |run|
  {
    run == [] ||
    (Enabled(s, run[0].thread, run[0].event) &&
     Legal(Next(s, run[0].thread, run[0].event), run[1..]))
  }

  ghost function After<T>(s: State<T>, run: seq<Move<T>>): (r: State<T>)
    requires Legal(s, run)
    decreases |run|
  {
    if run == [] then s else After(Next(s, run[0].thread, run[0].event), run[1..])
  }

  lemma {:induction false} RunKeeps<T>(s: State<T>, run: seq<Move<T>>)
    requires Inv(s) && Legal(s, run)
    ensures Inv(After(s, run)) && Later(s.d, After(s, run).d)
    ensures After(s, run).workers == s.workers
    decreases |run|
  {
    hide Inv, Next, Enabled;
    if run != [] {
      var t, e := run[0].thread, run[0].event;
      StepInv(s, t, e);
      StepLater(s, t, e);
      NextWorkers(s, t, e);
      RunKeeps(Next(s, t, e), run[1..]);
    }
  }

  /**
   * The queue over every interleaving.  Delivered elements are, in order and once each, a
   * prefix of the accepted ones, and nothing accepted is lost while the queue is valid;
   * m_waiting is exact; whenever m_lock is free, a sleeper on a valid queue implies that
   * every queued element has a notified thread coming for it, and nobody sleeps on an
   * invalid queue.
   */
  lemma QueueSafety<T>(threads: nat, workers: nat, run: seq<Move<T>>)
    requires workers <= threads && Legal(Init<T>(threads, workers), run)
    ensures var s := After(Init<T>(threads, workers), run);
      && s.d.delivered <= s.d.accepted
      && (s.d.valid ==> s.d.accepted == s.d.delivered + s.d.queue)
      && s.d.waiting == Count(s.pc, Waiting)
      && (s.owner == None && s.d.valid && Sleeper(s.pc) ==> |s.d.queue| <= Count(s.pc, Woken))
      && (s.owner == None && !s.d.valid ==> !Sleeper(s.pc) && s.d.queue == [])
  {
    InitInv<T>(threads, workers);
    RunKeeps(Init<T>(threads, workers), run);
    hide Legal, After, Exclusive, Roles, Count, Init;
  }

  /** Nothing is accepted or delivered after the queue became invalid. */
  lemma NothingAfterInvalidate<T>(threads: nat, workers: nat, before: seq<Move<T>>, after: seq<Move<T>>)
    requires workers <= threads && Legal(Init<T>(threads, workers), before)
    requires var s := After(Init<T>(threads, workers), before); !s.d.valid && Legal(s, after)
    ensures var s := After(Init<T>(threads, workers), before);
      After(s, after).d.delivered == s.d.delivered && After(s, after).d.accepted == s.d.accepted
  {
    InitInv<T>(threads, workers);
    RunKeeps(Init<T>(threads, workers), before);
    RunKeeps(After(Init<T>(threads, workers), before), after);
    hide Inv, Legal, After, Init;
  }

  // ---- stopping the pool --------------------------------------------------------------

  /** How many steps a worker is from the end of its loop once the pool is stopped. */
  function Rank<T>(p: Pc<T>): (n: nat)
    ensures n <= 8
  {
    match p
    case Loop => 1
    case Running(_) => 2
    case Leaving(_, _) => 3
    case Taking => 4
    case Passed => 5
    case Testing => 6
    case Notified | Entered(_) => 7
    case Asleep | Locking(_) => 8
    case _ => 0
  }

  function Work<T>(pc: seq<Pc<T>>): (n: nat)
    ensures n <= 8 * |pc|
  {
    if pc == [] then 0 else Rank(pc[0]) + Work(pc[1..])
  }

  lemma {:induction false} WorkUpdate<T>(pc: seq<Pc<T>>, t: nat, p: Pc<T>)
    requires t < |pc|
    ensures Work(pc[t := p]) == Work(pc) - Rank(pc[t]) + Rank(p)
  {
    if t == 0 {
      assert pc[t := p][1..] == pc[1..];
    } else {
      WorkUpdate(pc[1..], t - 1, p);
      assert pc[t := p][1..] == pc[1..][t - 1 := p];
    }
  }

  lemma {:induction false} WorkBelow<T>(pc: seq<Pc<T>>, r: seq<Pc<T>>)
    requires |pc| == |r|
    requires forall i :: 0 <= i < |pc| ==> Rank(r[i]) <= Rank(pc[i])
    ensures Work(r) <= Work(pc)
  {
    if pc != [] {
      assert forall i :: 0 <= i < |pc[1..]| ==> Rank(r[1..][i]) <= Rank(pc[1..][i]);
      WorkBelow(pc[1..], r[1..]);
    }
  }

  lemma GotoSinks<T>(d: Shared<T>, p: Pc<T>)
    requires d.done && !d.valid && WorkerPc(p) && !p.Asleep? && !p.Exited?
    ensures Rank(Goto(d, p, true)) < Rank(p)
  {
  }

  /** Once stopped, a worker's step brings it nearer its exit; nobody sends it back. */
  lemma StopSinks<T>(s: State<T>, t: nat, e: Event<T>)
    requires Enabled(s, t, e) && Roles(s.pc, s.workers) && s.d.done && !s.d.valid
    ensures Work(Next(s, t, e).pc[..s.workers]) + One(t < s.workers) <= Work(s.pc[..s.workers])
  {
    var r, w, o := Next(s, t, e), s.workers, Others(s, t, e);
    assert RoleOk(s.pc[t], t < w);
    WorkBelow(s.pc[..w], o[..w]);
    if t < w {
      if e.Advance? { GotoSinks(s.d, s.pc[t]); }
      WorkUpdate(o[..w], t, Target(s, t, e));
      assert r.pc[..w] == o[..w][t := Target(s, t, e)];
      assert o[..w][t] == s.pc[t];
    } else {
      assert r.pc[..w] == o[..w];
    }
  }

  function WorkerMoves<T>(run: seq<Move<T>>, workers: nat): (n: nat) {
    if run == [] then 0 else One(run[0].thread < workers) + WorkerMoves(run[1..], workers)
  }

  /**
   * After stop() has set m_done and invalidated the queue, the workers together take at
   * most eight more steps each, whatever else happens.
   */
  lemma {:induction false} WorkersFinish<T>(s: State<T>, run: seq<Move<T>>)
    requires Inv(s) && s.d.done && !s.d.valid && Legal(s, run)
    ensures s.workers <= |After(s, run).pc|
    ensures WorkerMoves(run, s.workers) + Work(After(s, run).pc[..s.workers])
      <= Work(s.pc[..s.workers]) <= 8 * s.workers
    decreases |run|
  {
    hide Next, Enabled, Exclusive, History, Covered, Work, Count;
    if run != [] {
      var t, e := run[0].thread, run[0].event;
      StepInv(s, t, e);
      StepLater(s, t, e);
      NextWorkers(s, t, e);
      StopSinks(s, t, e);
      WorkersFinish(Next(s, t, e), run[1..]);
    }
  }

  /** With no work left stop() can join every worker. */
  lemma NoWorkLeft<T>(s: State<T>)
    requires Inv(s) && Work(s.pc[..s.workers]) == 0
    ensures AllExited(s.pc, s.workers)
  {
    hide Exclusive, History, Covered, Count;
    forall i | 0 <= i < s.workers
      ensures s.pc[i] == Exited
    {
      WorkUpdate(s.pc[..s.workers], i, Exited);
      assert RoleOk(s.pc[i], true);
    }
  }

  /** The steps left before a critical section releases m_lock. */
  function SectionWork<T>(d: Shared<T>, p: Pc<T>): (n: nat) {
    match p
    case Entered(_) => |d.queue| + 4
    case Draining(_) => |d.queue| + 2
    case Testing => 3
    case Passed => 2
    case Signalling | Waking(_) | Taking => 1
    case _ => 0
  }

  /** Whoever owns m_lock can step, and releases it within SectionWork steps. */
  lemma SectionEnds<T>(s: State<T>, t: nat)
    requires Inv(s) && s.owner == Some(t)
    ensures t < |s.pc| && exists e :: Enabled(s, t, e)
    ensures forall e ::
      Enabled(s, t, e) ==>
        var r := Next(s, t, e);
        r.owner == None ||
        (r.owner == s.owner && SectionWork(r.d, r.pc[t]) < SectionWork(s.d, s.pc[t]))
  {
    hide Count;
    assert OwnerIs(s.owner, t) && Holding(s.pc[t]);
    if s.pc[t].Signalling? && Sleeper(s.pc) {
      var w :| 0 <= w < |s.pc| && s.pc[w].Asleep?;
      assert Enabled(s, t, NotifyOne(w));
    } else {
      assert Enabled(s, t, Advance);
    }
    forall e | Enabled(s, t, e)
      ensures var r := Next(s, t, e);
        r.owner == None ||
        (r.owner == s.owner && SectionWork(r.d, r.pc[t]) < SectionWork(s.d, s.pc[t]))
    {
      GotoWork(s.d, t, s.pc[t], t < s.workers);
      hide Goto, Effect, OwnerAfter;
    }
  }

  lemma GotoWork<T>(d: Shared<T>, t: nat, p: Pc<T>, worker: bool)
    requires Holding(p)
    ensures var r, o := Effect(d, p), OwnerAfter(d, Some(t), t, p);
      o == None || (o == Some(t) && SectionWork(r, Goto(d, p, worker)) < SectionWork(d, p))
    ensures p.Signalling? ==> SectionWork(d, Goto(d, p, worker)) < SectionWork(d, p)
  {
  }

  /**
   * After stop() invalidated the queue no worker is stuck: while one is still in its loop
   * it can step itself, or m_lock is held by a thread that can.
   */
  lemma NoWorkerStuck<T>(s: State<T>, w: nat)
    requires Inv(s) && !s.d.valid && w < s.workers && s.pc[w] != Exited
    ensures Enabled(s, w, Advance) || s.owner.Some?
  {
    hide Count;
    assert RoleOk(s.pc[w], true);
  }
}
