/**
 * The bucket locks of HashTable (librdb/src/hashtable.cpp:62-164) over the pool of
 * read-write locks (librdb/src/rwlock.cpp), as a machine that interleaves any number of
 * sessions.  A session is one use of a bucket: it takes a lock, works, and gives it back.
 *
 * Everything between taking and releasing the table mutex is split into its steps: lend a
 * pooled lock to the entry, block on the underlying lock and raise its count, lower the
 * count and unlock, return the lock to the pool.
 */
module BucketLocks {

  import opened Options

  datatype Mode = Read | Write

  /** RWLock: its own count, and the state of the operating system's lock. */
  datatype RWLock = RWLock(cnt: nat, readers: nat, writer: bool)

  const FRESH := RWLock(0, 0, false)

  datatype Pc =
    | Idle
    | Wants(mode: Mode, b: nat)       // rdlock/wrlock called, wants the table mutex
    | Entered(mode: Mode, b: nat)     // owns the mutex
    | Attached(mode: Mode, b: nat)    // the entry has a lock; blocks on it, mutex held
    | Granted(mode: Mode, b: nat)     // lock held, mutex still held
    | Holds(mode: Mode, b: nat)       // working on the bucket
    | Returns(mode: Mode, b: nat)     // rdunlock/wrunlock called, wants the mutex
    | Reentered(mode: Mode, b: nat)   // owns the mutex, lock still held
    | Dropped(mode: Mode, b: nat)     // lock released, count lowered
    | Left                            // about to release the mutex

  datatype Table = Table(entries: seq<Option<nat>>, locks: seq<RWLock>, pool: seq<nat>)

  datatype State = State(d: Table, owner: Option<nat>, pc: seq<Pc>)

  datatype Event = Call(mode: Mode, b: nat) | Advance

  predicate InMutex(p: Pc) {
    p.Entered? || p.Attached? || p.Granted? || p.Reentered? || p.Dropped? || p.Left?
  }

  predicate HasLock(p: Pc, m: Mode, b: nat) {
    (p.Granted? || p.Holds? || p.Returns? || p.Reentered?) && p.mode == m && p.b == b
  }

  /** How far the critical section of bucket b has come, for the session that is in it. */
  datatype Phase = Away | Lending | ReadDone | WriteDone

  function PhaseAt(p: Pc, b: nat): (h: Phase) {
    if p.Attached? && p.b == b then Lending
    else if p.Dropped? && p.b == b then if p.mode.Read? then ReadDone else WriteDone
    else Away
  }

  function Init(buckets: nat, sessions: nat): (s: State) {
    State(Table(seq(buckets, _ => None), [], []), None, seq(sessions, _ => Idle))
  }

  /** RWLockPool::get, into an entry that has no lock. */
  function Attach(d: Table, b: nat): (r: Table)
    requires b < |d.entries|
  {
    if d.entries[b].Some? then d
    else if d.pool != [] then d.(entries := d.entries[b := Some(d.pool[0])], pool := d.pool[1..])
    else d.(entries := d.entries[b := Some(|d.locks|)], locks := d.locks + [FRESH])
  }

  /** RWLockPool::put, from the entry. */
  function Detach(d: Table, b: nat): (r: Table)
    requires b < |d.entries|
  {
    if d.entries[b].Some?
    then d.(entries := d.entries[b := None], pool := d.pool + [d.entries[b].value])
    else d
  }

  predicate Free(k: RWLock, m: Mode) { !k.writer && (m.Write? ==> k.readers == 0) }

  function Lock(k: RWLock, m: Mode): (r: RWLock) {
    RWLock(k.cnt + 1, if m.Read? then k.readers + 1 else k.readers, k.writer || m.Write?)
  }

  /** rdunlock and wrunlock: nothing on a count of 0, else one unlock of either kind. */
  function Unlock(k: RWLock): (r: RWLock) {
    if k.cnt == 0 then k
    else if k.writer then RWLock(k.cnt - 1, k.readers, false)
    else RWLock(k.cnt - 1, if k.readers > 0 then k.readers - 1 else 0, false)
  }

  /** The entry's lock, if it is a lock there is. */
  predicate Lent(d: Table, b: nat) {
    b < |d.entries| && d.entries[b].Some? && d.entries[b].value < |d.locks|
  }

  function TheLock(d: Table, b: nat): (k: RWLock)
    requires Lent(d, b)
  {
    d.locks[d.entries[b].value]
  }

  function SetLock(d: Table, b: nat, k: RWLock): (r: Table)
    requires Lent(d, b)
  {
    d.(locks := d.locks[d.entries[b].value := k])
  }

  predicate Enabled(s: State, t: nat, e: Event) {
    t < |s.pc| &&
    match e
    case Call(_, b) => s.pc[t].Idle? && b < |s.d.entries|
    case Advance =>
      match s.pc[t]
      case Idle => false
      case Wants(_, b) => s.owner.None? && b < |s.d.entries|
      case Returns(_, b) => s.owner.None? && b < |s.d.entries|
      case Attached(m, b) => Lent(s.d, b) && Free(TheLock(s.d, b), m)
      case Left => true
      case _ => s.pc[t].b < |s.d.entries|
  }

  function Goto(p: Pc): (q: Pc) {
    match p
    case Idle => Idle
    case Wants(m, b) => Entered(m, b)
    case Entered(m, b) => Attached(m, b)
    case Attached(m, b) => Granted(m, b)
    case Granted(m, b) => Holds(m, b)
    case Holds(m, b) => Returns(m, b)
    case Returns(m, b) => Reentered(m, b)
    case Reentered(m, b) => Dropped(m, b)
    case Dropped(m, b) => Left
    case Left => Idle
  }

  function Effect(d: Table, p: Pc): (r: Table) {
    match p
    case Entered(_, b) => if b < |d.entries| then Attach(d, b) else d
    case Attached(m, b) => if Lent(d, b) then SetLock(d, b, Lock(TheLock(d, b), m)) else d
    case Reentered(_, b) => if Lent(d, b) then SetLock(d, b, Unlock(TheLock(d, b))) else d
    case Dropped(m, b) =>
      if Lent(d, b) && (m.Read? ==> TheLock(d, b).cnt == 0) then Detach(d, b) else d
    case _ => d
  }

  function OwnerAfter(owner: Option<nat>, t: nat, p: Pc): (r: Option<nat>) {
    match p
    case Wants(_, _) | Returns(_, _) => Some(t)
    case Granted(_, _) | Left => None
    case _ => owner
  }

  /** One atomic step of session t. */
  function Next(s: State, t: nat, e: Event): (r: State)
    requires Enabled(s, t, e)
  {
    match e
    case Call(m, b) => s.(pc := s.pc[t := Wants(m, b)])
    case Advance =>
      var p := s.pc[t];
      State(Effect(s.d, p), OwnerAfter(s.owner, t, p), s.pc[t := Goto(p)])
  }

  // ---- counting holders ---------------------------------------------------------------

  function One(b: bool): (n: nat) { if b then 1 else 0 }

  function Count(pc: seq<Pc>, m: Mode, b: nat): (n: nat) {
    if pc == [] then 0 else One(HasLock(pc[0], m, b)) + Count(pc[1..], m, b)
  }

  lemma {:induction false} CountUpdate(pc: seq<Pc>, m: Mode, b: nat, t: nat, p: Pc)
    requires t < |pc|
    ensures Count(pc[t := p], m, b)
      == Count(pc, m, b) - One(HasLock(pc[t], m, b)) + One(HasLock(p, m, b))
  {
    if t == 0 {
      assert pc[t := p][1..] == pc[1..];
    } else {
      CountUpdate(pc[1..], m, b, t - 1, p);
      assert pc[t := p][1..] == pc[1..][t - 1 := p];
    }
  }

  lemma {:induction false} CountNone(pc: seq<Pc>, m: Mode, b: nat)
    requires forall i :: 0 <= i < |pc| ==> !HasLock(pc[i], m, b)
    ensures Count(pc, m, b) == 0
  {
    if pc != [] { CountNone(pc[1..], m, b); }
  }

  // ---- the invariant ------------------------------------------------------------------

  predicate OwnerIs(owner: Option<nat>, t: nat) { owner == Some(t) }

  predicate Exclusive(owner: Option<nat>, pc: seq<Pc>) {
    (owner.Some? ==> owner.value < |pc|) &&
    forall i :: 0 <= i < |pc| ==> (InMutex(pc[i]) <==> OwnerIs(owner, i))
  }

  function OwnerPhase(owner: Option<nat>, pc: seq<Pc>, b: nat): (h: Phase) {
    if owner.Some? && owner.value < |pc| then PhaseAt(pc[owner.value], b) else Away
  }

  /** Every lock is lent to exactly one entry or lies in the pool exactly once. */
  predicate Homes(d: Table) {
    (forall i :: 0 <= i < |d.pool| ==> d.pool[i] < |d.locks| && d.locks[d.pool[i]] == FRESH) &&
    (forall b :: 0 <= b < |d.entries| ==> d.entries[b].Some? ==> d.entries[b].value < |d.locks|) &&
    forall k: nat :: k < |d.locks| ==> multiset(d.pool)[k] + multiset(d.entries)[Some(k)] == 1
  }

  /** The entry's lock records exactly the sessions that hold the bucket. */
  predicate BucketOk(d: Table, b: nat, readers: nat, writers: nat, h: Phase)
    requires b < |d.entries|
  {
    if d.entries[b].None? then readers == 0 && writers == 0 && h.Away?
    else
      Lent(d, b) &&
      TheLock(d, b) == RWLock(readers + writers, readers, writers > 0) &&
      writers <= 1 && (writers == 1 ==> readers == 0) &&
      (h.WriteDone? ==> readers + writers == 0) &&
      (readers + writers > 0 || !h.Away?)
  }

  predicate BucketAt(s: State, c: nat)
    requires c < |s.d.entries|
  {
    BucketOk(s.d, c, Count(s.pc, Read, c), Count(s.pc, Write, c), OwnerPhase(s.owner, s.pc, c))
  }

  predicate Buckets(s: State) { forall b :: 0 <= b < |s.d.entries| ==> BucketAt(s, b) }

  predicate InRange(pc: seq<Pc>, n: nat) {
    forall i :: 0 <= i < |pc| ==> pc[i].Idle? || pc[i].Left? || pc[i].b < n
  }

  predicate Inv(s: State) {
    Exclusive(s.owner, s.pc) && Homes(s.d) && Buckets(s) && InRange(s.pc, |s.d.entries|)
  }

  lemma InitInv(buckets: nat, sessions: nat)
    ensures Inv(Init(buckets, sessions))
  {
    var s := Init(buckets, sessions);
    forall b | 0 <= b < buckets
      ensures Count(s.pc, Read, b) == 0 && Count(s.pc, Write, b) == 0
    {
      CountNone(s.pc, Read, b);
      CountNone(s.pc, Write, b);
    }
  }

  // ---- one step -----------------------------------------------------------------------

  lemma StepDiscipline(s: State, t: nat, e: Event)
    requires Enabled(s, t, e) && Exclusive(s.owner, s.pc) && InRange(s.pc, |s.d.entries|)
    ensures Exclusive(Next(s, t, e).owner, Next(s, t, e).pc)
    ensures |Next(s, t, e).d.entries| == |s.d.entries|
    ensures InRange(Next(s, t, e).pc, |s.d.entries|)
  {
    assert InMutex(s.pc[t]) <==> OwnerIs(s.owner, t);
    EffectKeepsSize(s.d, s.pc[t]);
    hide Effect;
  }

  lemma EffectKeepsSize(d: Table, p: Pc)
    ensures |Effect(d, p).entries| == |d.entries|
  {
  }

  /** Two entries never share a lock, and a lent lock is not in the pool. */
  lemma LentOnce(d: Table, b: nat, c: nat)
    requires Homes(d) && b < |d.entries| && c < |d.entries| && d.entries[b].Some?
    ensures b != c ==> d.entries[c] != d.entries[b]
    ensures d.entries[b].value !in d.pool
  {
    var k := d.entries[b].value;
    assert multiset(d.pool)[k] + multiset(d.entries)[Some(k)] == 1;
    assert d.entries[b] in multiset(d.entries);
    assert multiset(d.pool)[k] == 0;
    var without := d.entries[b := None];
    assert multiset(without)[Some(k)] == multiset(d.entries)[Some(k)] - 1 == 0;
    assert without[c] in multiset(without);
  }

  lemma EntrySet(entries: seq<Option<nat>>, b: nat, x: Option<nat>, y: Option<nat>)
    requires b < |entries|
    ensures multiset(entries[b := x])[y]
      == multiset(entries)[y] - One(y == entries[b]) + One(y == x)
  {
    assert entries[b] in multiset(entries);
    assert multiset(entries[b := x]) == multiset(entries) - multiset{entries[b]} + multiset{x};
  }

  lemma AttachPooled(d: Table, b: nat)
    requires Homes(d) && b < |d.entries| && d.entries[b].None? && d.pool != []
    ensures Homes(Attach(d, b))
  {
    var r, k := Attach(d, b), d.pool[0];
    assert d.pool == [k] + r.pool;
    assert multiset(d.pool) == multiset{k} + multiset(r.pool);
    forall i: nat | i < |r.locks|
      ensures multiset(r.pool)[i] + multiset(r.entries)[Some(i)] == 1
    {
      EntrySet(d.entries, b, Some(k), Some(i));
      assert multiset(d.pool)[i] + multiset(d.entries)[Some(i)] == 1;
    }
  }

  lemma AttachNew(d: Table, b: nat)
    requires Homes(d) && b < |d.entries| && d.entries[b].None? && d.pool == []
    ensures Homes(Attach(d, b))
  {
    var r, k: nat := Attach(d, b), |d.locks|;
    assert Some(k) !in d.entries;
    forall i: nat | i < |r.locks|
      ensures multiset(r.pool)[i] + multiset(r.entries)[Some(i)] == 1
    {
      EntrySet(d.entries, b, Some(k), Some(i));
      assert i < k ==> multiset(d.pool)[i] + multiset(d.entries)[Some(i)] == 1;
    }
  }

  lemma AttachHomes(d: Table, b: nat)
    requires Homes(d) && b < |d.entries|
    ensures Homes(Attach(d, b))
  {
    hide Homes;
    if d.entries[b].None? {
      if d.pool != [] { AttachPooled(d, b); } else { AttachNew(d, b); }
    }
  }

  lemma DetachHomes(d: Table, b: nat)
    requires Homes(d) && Lent(d, b) && TheLock(d, b) == FRESH
    ensures Homes(Detach(d, b))
  {
    var r, k := Detach(d, b), d.entries[b].value;
    assert multiset(r.entries) == multiset(d.entries) - multiset{Some(k)} + multiset{None};
    assert d.entries[b] in multiset(d.entries);
    assert multiset(r.pool) == multiset(d.pool) + multiset{k};
  }

  lemma SetLockHomes(d: Table, b: nat, k: RWLock)
    requires Homes(d) && Lent(d, b)
    ensures Homes(SetLock(d, b, k))
  {
    LentOnce(d, b, b);
  }

  /** The lock of bucket p.b when a session at p takes its step. */
  lemma EffectOnBucket(d: Table, p: Pc, b: nat, readers: nat, writers: nat, h: Phase,
    readers': nat, writers': nat)
    requires !p.Idle? && !p.Left? && p.b == b && b < |d.entries|
    requires BucketOk(d, b, readers, writers, h)
    requires InMutex(p) ==> h == PhaseAt(p, b)
    requires HasLock(p, Read, b) ==> readers > 0
    requires HasLock(p, Write, b) ==> writers > 0
    requires p.Attached? ==> Lent(d, b) && Free(TheLock(d, b), p.mode)
    requires p.Wants? || p.Returns? ==> h.Away?
    requires d.pool != [] ==> d.pool[0] < |d.locks| && d.locks[d.pool[0]] == FRESH
    requires readers' == readers - One(HasLock(p, Read, b)) + One(HasLock(Goto(p), Read, b))
    requires writers' == writers - One(HasLock(p, Write, b)) + One(HasLock(Goto(p), Write, b))
    ensures |Effect(d, p).entries| == |d.entries|
    ensures BucketOk(Effect(d, p), b, readers', writers', if InMutex(p) then PhaseAt(Goto(p), b) else h)
  {
  }

  lemma EffectHomes(d: Table, p: Pc, b: nat, readers: nat, writers: nat, h: Phase)
    requires !p.Idle? && !p.Left? && p.b == b && b < |d.entries| && Homes(d)
    requires BucketOk(d, b, readers, writers, h) && (InMutex(p) ==> h == PhaseAt(p, b))
    ensures Homes(Effect(d, p))
  {
    hide Homes;
    match p
    case Entered(_, _) => AttachHomes(d, b);
    case Attached(m, _) => if Lent(d, b) { SetLockHomes(d, b, Lock(TheLock(d, b), m)); }
    case Reentered(_, _) => if Lent(d, b) { SetLockHomes(d, b, Unlock(TheLock(d, b))); }
    case Dropped(m, _) =>
      if Lent(d, b) && (m.Read? ==> TheLock(d, b).cnt == 0) { DetachHomes(d, b); }
    case _ =>
  }

  /** Other buckets keep their lock and its state. */
  lemma EffectElsewhere(d: Table, p: Pc, c: nat)
    requires !p.Idle? && !p.Left? && p.b != c && p.b < |d.entries| && c < |d.entries| && Homes(d)
    ensures var r := Effect(d, p);
      |r.entries| == |d.entries| && r.entries[c] == d.entries[c] &&
      (Lent(d, c) ==> Lent(r, c) && TheLock(r, c) == TheLock(d, c))
  {
    if d.entries[c].Some? { LentOnce(d, c, p.b); }
  }

  lemma {:induction false} CountPositive(pc: seq<Pc>, m: Mode, b: nat, t: nat)
    requires t < |pc| && HasLock(pc[t], m, b)
    ensures Count(pc, m, b) > 0
  {
    if t > 0 { CountPositive(pc[1..], m, b, t - 1); }
  }

  /** The owner's phase at a bucket after t moves from p to q. */
  lemma PhaseMoves(s: State, t: nat, c: nat)
    requires Enabled(s, t, Advance) && Exclusive(s.owner, s.pc)
    ensures var p, r := s.pc[t], Next(s, t, Advance);
      OwnerPhase(r.owner, r.pc, c)
        == if InMutex(p) then PhaseAt(Goto(p), c) else OwnerPhase(s.owner, s.pc, c)
    ensures InMutex(s.pc[t]) ==> OwnerPhase(s.owner, s.pc, c) == PhaseAt(s.pc[t], c)
    ensures s.pc[t].Wants? || s.pc[t].Returns? ==> OwnerPhase(s.owner, s.pc, c) == Away
  {
    hide Effect;
    assert InMutex(s.pc[t]) <==> OwnerIs(s.owner, t);
  }

  lemma HoldersMove(pc: seq<Pc>, b: nat, t: nat, q: Pc)
    requires t < |pc|
    ensures forall m ::
      Count(pc[t := q], m, b) == Count(pc, m, b) - One(HasLock(pc[t], m, b)) + One(HasLock(q, m, b))
    ensures forall m :: HasLock(pc[t], m, b) ==> Count(pc, m, b) > 0
  {
    forall m
      ensures Count(pc[t := q], m, b)
        == Count(pc, m, b) - One(HasLock(pc[t], m, b)) + One(HasLock(q, m, b))
      ensures HasLock(pc[t], m, b) ==> Count(pc, m, b) > 0
    {
      CountUpdate(pc, m, b, t, q);
      if HasLock(pc[t], m, b) { CountPositive(pc, m, b, t); }
    }
  }

  lemma AdvanceElsewhere(s: State, t: nat, c: nat)
    requires Enabled(s, t, Advance) && Inv(s) && c < |s.d.entries| && BucketAt(s, c)
    requires s.pc[t].Left? || s.pc[t].b != c
    ensures |Next(s, t, Advance).d.entries| == |s.d.entries|
    ensures BucketAt(Next(s, t, Advance), c)
  {
    hide Inv, Count;
    var p := s.pc[t];
    PhaseFacts(s, t, c);
    CountUpdate(s.pc, Read, c, t, Goto(p));
    CountUpdate(s.pc, Write, c, t, Goto(p));
    if !p.Left? { EffectElsewhere(s.d, p, c); }
    hide Effect;
  }

  lemma AdvanceHere(s: State, t: nat, b: nat)
    requires Enabled(s, t, Advance) && Inv(s) && !s.pc[t].Left? && s.pc[t].b == b
    requires b < |s.d.entries| && BucketAt(s, b)
    ensures |Effect(s.d, s.pc[t]).entries| == |s.d.entries|
    ensures BucketAt(Next(s, t, Advance), b) && Homes(Effect(s.d, s.pc[t]))
  {
    var p, q, r := s.pc[t], Goto(s.pc[t]), Next(s, t, Advance);
    var readers, writers := Count(s.pc, Read, b), Count(s.pc, Write, b);
    var h := OwnerPhase(s.owner, s.pc, b);
    hide Inv, Count, Effect, Goto, HasLock, InMutex, BucketOk, OwnerPhase, PhaseAt, Homes, Enabled;
    PhaseFacts(s, t, b);
    HoldersMove(s.pc, b, t, q);
    EffectHomes(s.d, p, b, readers, writers, h);
    EffectOnBucket(s.d, p, b, readers, writers, h, Count(s.pc[t := q], Read, b), Count(s.pc[t := q], Write, b));
  }

  lemma PhaseFacts(s: State, t: nat, c: nat)
    requires Enabled(s, t, Advance) && Inv(s)
    ensures var p, r := s.pc[t], Next(s, t, Advance);
      OwnerPhase(r.owner, r.pc, c)
        == if InMutex(p) then PhaseAt(Goto(p), c) else OwnerPhase(s.owner, s.pc, c)
    ensures InMutex(s.pc[t]) ==> OwnerPhase(s.owner, s.pc, c) == PhaseAt(s.pc[t], c)
    ensures s.pc[t].Wants? || s.pc[t].Returns? ==> OwnerPhase(s.owner, s.pc, c) == Away
    ensures Homes(s.d)
    ensures s.d.pool != [] ==> s.d.pool[0] < |s.d.locks| && s.d.locks[s.d.pool[0]] == FRESH
    ensures !s.pc[t].Idle? && (s.pc[t].Left? || s.pc[t].b < |s.d.entries|)
    ensures s.pc[t].Attached? ==> Lent(s.d, s.pc[t].b) && Free(TheLock(s.d, s.pc[t].b), s.pc[t].mode)
  {
    hide Buckets;
    PhaseMoves(s, t, c);
  }

  lemma AdvanceBuckets(s: State, t: nat)
    requires Inv(s) && Enabled(s, t, Advance)
    ensures Homes(Next(s, t, Advance).d) && Buckets(Next(s, t, Advance))
  {
    var p, r := s.pc[t], Next(s, t, Advance);
    EffectKeepsSize(s.d, p);
    if p.Left? { assert r.d == s.d; }
    hide Effect, Goto, Homes, Count, BucketAt, OwnerPhase;
    if !p.Left? { AdvanceHere(s, t, p.b); }
    forall c | 0 <= c < |r.d.entries|
      ensures BucketAt(r, c)
    {
      if p.Left? || p.b != c { AdvanceElsewhere(s, t, c); }
    }
  }

  lemma CallBuckets(s: State, t: nat, e: Event)
    requires Inv(s) && Enabled(s, t, e) && e.Call?
    ensures Homes(Next(s, t, e).d) && Buckets(Next(s, t, e))
  {
    hide Homes, Count, BucketOk;
    var r := Next(s, t, e);
    forall c | 0 <= c < |r.d.entries|
      ensures BucketAt(r, c)
    {
      assert BucketAt(s, c);
      assert InMutex(s.pc[t]) <==> OwnerIs(s.owner, t);
      CountUpdate(s.pc, Read, c, t, r.pc[t]);
      CountUpdate(s.pc, Write, c, t, r.pc[t]);
    }
  }

  lemma StepInv(s: State, t: nat, e: Event)
    requires Inv(s) && Enabled(s, t, e)
    ensures Inv(Next(s, t, e))
  {
    hide Buckets, Homes, Next, Enabled;
    StepDiscipline(s, t, e);
    if e.Advance? { AdvanceBuckets(s, t); } else { CallBuckets(s, t, e); }
  }

  // ---- whole runs ---------------------------------------------------------------------

  datatype Move = Move(session: nat, event: Event)

  ghost predicate Legal(s: State, run: seq<Move>)
    decreases |run|
  {
    run == [] ||
    (Enabled(s, run[0].session, run[0].event) &&
     Legal(Next(s, run[0].session, run[0].event), run[1..]))
  }

  ghost function After(s: State, run: seq<Move>): (r: State)
    requires Legal(s, run)
    decreases |run|
  {
    if run == [] then s else After(Next(s, run[0].session, run[0].event), run[1..])
  }

  lemma {:induction false} RunKeeps(s: State, run: seq<Move>)
    requires Inv(s) && Legal(s, run)
    ensures Inv(After(s, run))
    decreases |run|
  {
    hide Inv, Next, Enabled;
    if run != [] {
      StepInv(s, run[0].session, run[0].event);
      RunKeeps(Next(s, run[0].session, run[0].event), run[1..]);
    }
  }

  /** In every reachable state a bucket has one writer or any number of readers. */
  lemma WriterExcludes(buckets: nat, sessions: nat, run: seq<Move>, b: nat, i: nat, j: nat)
    requires Legal(Init(buckets, sessions), run) && b < buckets
    requires var s := After(Init(buckets, sessions), run);
      i < |s.pc| && j < |s.pc| && i != j && HasLock(s.pc[i], Write, b)
    ensures var s := After(Init(buckets, sessions), run);
      !HasLock(s.pc[j], Read, b) && !HasLock(s.pc[j], Write, b)
  {
    InitInv(buckets, sessions);
    RunKeeps(Init(buckets, sessions), run);
    EntriesKept(Init(buckets, sessions), run);
    var s := After(Init(buckets, sessions), run);
    assert BucketAt(s, b);
    HoldersMove(s.pc, b, i, Idle);
    HoldersMove(s.pc[i := Idle], b, j, Idle);
    hide Legal, After, Init, Homes, OwnerPhase;
  }

  lemma {:induction false} EntriesKept(s: State, run: seq<Move>)
    requires Legal(s, run)
    ensures |After(s, run).d.entries| == |s.d.entries| && |After(s, run).pc| == |s.pc|
    decreases |run|
  {
    if run != [] {
      EffectKeepsSize(s.d, if run[0].session < |s.pc| then s.pc[run[0].session] else Idle);
      hide Effect, Goto;
      EntriesKept(Next(s, run[0].session, run[0].event), run[1..]);
    }
  }

  /**
   * In every reachable state: every lock is lent to exactly one entry or pooled exactly
   * once, pooled locks are free with count 0, and outside the mutex an entry has a lock
   * exactly when some session holds the bucket, the lock's count being their number.
   */
  lemma LockAccounting(buckets: nat, sessions: nat, run: seq<Move>, b: nat)
    requires Legal(Init(buckets, sessions), run) && b < buckets
    ensures var s := After(Init(buckets, sessions), run);
      var readers, writers := Count(s.pc, Read, b), Count(s.pc, Write, b);
      && Homes(s.d)
      && |s.d.entries| == buckets
      && writers <= 1 && (writers == 1 ==> readers == 0)
      && (s.owner == None ==>
            (s.d.entries[b].Some? <==> readers + writers > 0) &&
            (s.d.entries[b].Some? ==> Lent(s.d, b) && TheLock(s.d, b).cnt == readers + writers))
  {
    InitInv(buckets, sessions);
    RunKeeps(Init(buckets, sessions), run);
    EntriesKept(Init(buckets, sessions), run);
    assert BucketAt(After(Init(buckets, sessions), run), b);
    hide Legal, After, Init, Homes;
  }

  /** The assertion after RWLockPool::get cannot fire, nor is an unlock ever skipped. */
  lemma LockIsThere(s: State, t: nat)
    requires Inv(s) && t < |s.pc|
    requires s.pc[t].Attached? || s.pc[t].Reentered? || s.pc[t].Dropped?
    ensures Lent(s.d, s.pc[t].b)
    ensures s.pc[t].Reentered? ==> TheLock(s.d, s.pc[t].b).cnt > 0
  {
    var p := s.pc[t];
    assert BucketAt(s, p.b) && (InMutex(p) <==> OwnerIs(s.owner, t));
    HoldersMove(s.pc, p.b, t, Idle);
    hide Homes;
  }

  // ---- how many locks there ever are --------------------------------------------------

  /** The lock a session holds, by way of its bucket, or -1. */
  function LockOf(d: Table, p: Pc): (k: int)
    ensures k >= -1
  {
    if (p.Granted? || p.Holds? || p.Returns? || p.Reentered?) && p.b < |d.entries| && d.entries[p.b].Some?
    then d.entries[p.b].value else -1
  }

  predicate HeldIn(d: Table, pc: seq<Pc>, among: set<nat>, k: int) {
    exists i :: i in among && i < |pc| && LockOf(d, pc[i]) == k
  }

  /** A session holds one lock, so n held locks need n sessions. */
  lemma {:induction false} Pigeonhole(d: Table, pc: seq<Pc>, among: set<nat>, n: nat)
    requires forall k :: 0 <= k < n ==> HeldIn(d, pc, among, k)
    ensures n <= |among|
  {
    if n > 0 {
      assert HeldIn(d, pc, among, n - 1);
      var i :| i in among && i < |pc| && LockOf(d, pc[i]) == n - 1;
      forall k | 0 <= k < n - 1
        ensures HeldIn(d, pc, among - {i}, k)
      {
        assert HeldIn(d, pc, among, k);
        var j :| j in among && j < |pc| && LockOf(d, pc[j]) == k;
        assert j in among - {i};
      }
      Pigeonhole(d, pc, among - {i}, n - 1);
    }
  }

  lemma {:induction false} Holder(pc: seq<Pc>, m: Mode, b: nat) returns (i: nat)
    requires Count(pc, m, b) > 0
    ensures i < |pc| && HasLock(pc[i], m, b)
  {
    if HasLock(pc[0], m, b) {
      i := 0;
    } else {
      i := Holder(pc[1..], m, b);
      i := i + 1;
    }
  }

  lemma {:induction false} Below(n: nat) returns (all: set<nat>)
    ensures |all| == n && forall i: nat :: i in all <==> i < n
  {
    all := {};
    if n > 0 {
      all := Below(n - 1);
      all := all + {n - 1};
    }
  }

  /** With an empty pool every lock is held by some session other than the one asking. */
  lemma EveryLockHeld(s: State, t: nat, others: set<nat>, k: nat)
    requires Inv(s) && t < |s.pc| && s.pc[t].Entered? && s.d.pool == [] && k < |s.d.locks|
    requires forall i: nat :: i in others <==> i < |s.pc| && i != t
    ensures HeldIn(s.d, s.pc, others, k)
  {
    assert multiset(s.d.pool)[k] + multiset(s.d.entries)[Some(k)] == 1;
    assert Some(k) in s.d.entries;
    var c :| 0 <= c < |s.d.entries| && s.d.entries[c] == Some(k);
    assert BucketAt(s, c) && (InMutex(s.pc[t]) <==> OwnerIs(s.owner, t));
    hide Homes, Count;
    var m := if Count(s.pc, Read, c) > 0 then Read else Write;
    var i := Holder(s.pc, m, c);
    assert i in others && LockOf(s.d, s.pc[i]) == k;
  }

  lemma StepFewLocks(s: State, t: nat, e: Event)
    requires Inv(s) && Enabled(s, t, e) && |s.d.locks| <= |s.pc|
    ensures |Next(s, t, e).d.locks| <= |Next(s, t, e).pc|
  {
    if e.Advance? && s.pc[t].Entered? && s.d.pool == [] {
      var all := Below(|s.pc|);
      var others := all - {t};
      forall k | 0 <= k < |s.d.locks|
        ensures HeldIn(s.d, s.pc, others, k)
      {
        EveryLockHeld(s, t, others, k);
      }
      Pigeonhole(s.d, s.pc, others, |s.d.locks|);
    }
    hide Inv;
  }

  /** Locks are reused so well that there are never more of them than sessions. */
  lemma {:induction false} FewLocks(s: State, run: seq<Move>)
    requires Inv(s) && Legal(s, run) && |s.d.locks| <= |s.pc|
    ensures |After(s, run).d.locks| <= |After(s, run).pc| == |s.pc|
    decreases |run|
  {
    hide Inv, Next, Enabled;
    EntriesKept(s, run);
    if run != [] {
      StepInv(s, run[0].session, run[0].event);
      StepFewLocks(s, run[0].session, run[0].event);
      FewLocks(Next(s, run[0].session, run[0].event), run[1..]);
    }
  }
}
