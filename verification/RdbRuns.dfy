/** Whole runs of the database against a plain finite map, and the runs in which a removal meets a
    record with two children (librdb/src/rdb.cpp). */
module RdbRuns {
  import opened Options
  import opened KeyOrder
  import opened AvlTree
  import opened KeyPages
  import opened KeyChains
  import opened ValueStore
  import opened BareTree
  import opened BucketShapes
  import opened Layouts
  import opened Rdb
  import KI = KeyIndex
  import FP = FreeDiskPages

  datatype Request =
    | GetKey(key: Key, maxLength: int)
    | SetKey(key: Key, value: Value, updater: Option<Value -> Option<Value>>)
    | RemoveKey(key: Key)
    | CloseAndOpen
    | RebuildWith(size: nat, pageSize: int)

  datatype Reply = Reply(status: Status, value: Value)

  /** Every value is one that set accepts; an updater may store others. */
  ghost predicate AllSettable(m: map<Key, Value>) {
    forall k :: k in m ==> ValidArg(m[k])
  }

  /** What a plain finite map answers. */
  ghost function Answer(m: map<Key, Value>, q: Request): (map<Key, Value>, Reply) {
    match q
    case GetKey(k, n) =>
      (m, if !ValidArg(k) || n <= 0 then Reply(InvalidArg, [])
          else if k !in m then Reply(NotFound, [])
          else if |m[k]| > n then Reply(InsufficientBuffer, [])
          else Reply(Ok, m[k]))
    case SetKey(k, v, updater) =>
      if !ValidArg(k) || !ValidArg(v) then (m, Reply(InvalidArg, []))
      else if k in m && updater.Some? then
        var w := updater.value(m[k]);
        if w.None? then (m, Reply(UpdateFailed, [])) else (m[k := w.value], Reply(Ok, []))
      else (m[k := v], Reply(Ok, []))
    case RemoveKey(k) =>
      if !ValidArg(k) then (m, Reply(InvalidArg, []))
      else if k !in m then (m, Reply(NotFound, []))
      else (m - {k}, Reply(Ok, []))
    case CloseAndOpen => (m, Reply(Ok, []))
    case RebuildWith(_, _) => (m, Reply(if AllSettable(m) then Ok else InvalidArg, []))
  }

  ghost function Answers(m: map<Key, Value>, qs: seq<Request>): (map<Key, Value>, seq<Reply>) {
    if qs == [] then (m, [])
    else
      var (m1, rs) := Answers(m, qs[..|qs| - 1]);
      var (m2, r) := Answer(m1, qs[|qs| - 1]);
      (m2, rs + [r])
  }

  /** The map before request i. */
  ghost function MapBefore(qs: seq<Request>, i: nat): map<Key, Value>
    requires i <= |qs|
  {
    Answers(map[], qs[..i]).0
  }

  /** The page sizes a request may ask for: slot numbers are C shorts. */
  predicate PageSizeOk(q: Request) {
    q.RebuildWith? ==> q.size > 0 && q.pageSize > 0 && 1 <= NumOfKeys(q.pageSize) <= MAX_SLOTS
  }

  // ---------- the replies in bytes ----------

  /** A key or a value that is passed as nothing: empty, or beginning with NUL. */
  predicate Void(s: seq<Byte>) { s == [] || s[0] == 0 }

  /** What a run of requests has stored for a key, told from the requests that name it. */
  ghost function StoredFor(qs: seq<Request>, k: Key): (v: Option<Value>) {
    if qs == [] then None
    else
      var q, was := qs[|qs| - 1], StoredFor(qs[..|qs| - 1], k);
      match q
      case SetKey(k', v, updater) =>
        if k' != k || Void(k) || Void(v) then was
        else if was.None? || updater.None? then Some(v)
        else
          var w := updater.value(was.value);
          if w.Some? then w else was
      case RemoveKey(k') => if k' == k && !Void(k) then None else was
      case _ => was
  }

  /** The reply to a request after others. */
  ghost function ReplyAfter(qs: seq<Request>, q: Request): (r: Reply) {
    match q
    case GetKey(k, n) =>
      var v := StoredFor(qs, k);
      if Void(k) || n <= 0 then Reply(InvalidArg, [])
      else if v.None? then Reply(NotFound, [])
      else if |v.value| > n then Reply(InsufficientBuffer, [])
      else Reply(Ok, v.value)
    case SetKey(k, v, updater) =>
      var was := StoredFor(qs, k);
      if Void(k) || Void(v) then Reply(InvalidArg, [])
      else if was.Some? && updater.Some? && updater.value(was.value).None? then Reply(UpdateFailed, [])
      else Reply(Ok, [])
    case RemoveKey(k) =>
      Reply(if Void(k) then InvalidArg else if StoredFor(qs, k).None? then NotFound else Ok, [])
    case CloseAndOpen => Reply(Ok, [])
    case RebuildWith(_, _) =>
      Reply(if NoneVoid(qs) then Ok else InvalidArg, [])
  }

  /** Nothing stored is void; an updater may have stored it. */
  ghost predicate NoneVoid(qs: seq<Request>) {
    forall k :: StoredFor(qs, k).Some? ==> !Void(StoredFor(qs, k).value)
  }

  lemma VoidExactly(s: seq<Byte>)
    ensures Void(s) <==> !ValidArg(s)
  {
  }

  /** The map holds for every key what the requests that name it have stored. */
  lemma {:induction false} MapByKey(qs: seq<Request>, k: Key)
    ensures var m := Answers(map[], qs).0;
      StoredFor(qs, k) == if k in m then Some(m[k]) else None
  {
    if qs != [] {
      MapByKey(qs[..|qs| - 1], k);
      VoidExactly(k);
      var q := qs[|qs| - 1];
      if q.SetKey? {
        VoidExactly(q.value);
        VoidExactly(q.key);
      }
      hide ValidArg, Void;
    }
  }

  /** Every reply of a run is the one that the requests before it determine, key by key. */
  lemma RepliesByKey(qs: seq<Request>, i: nat)
    requires i < |qs|
    ensures |Answers(map[], qs).1| == |qs| && Answers(map[], qs).1[i] == ReplyAfter(qs[..i], qs[i])
  {
    RepliesAt(qs, i);
    var m := MapBefore(qs, i);
    forall k
      ensures StoredFor(qs[..i], k) == if k in m then Some(m[k]) else None
      ensures Void(k) <==> !ValidArg(k)
    {
      MapByKey(qs[..i], k);
      VoidExactly(k);
    }
    var q := qs[i];
    if q.SetKey? { VoidExactly(q.value); }
    hide ValidArg, Void, StoredFor, Answers, AllSettable, NoneVoid;
    SettableByKey(qs[..i], m);
  }

  lemma SettableByKey(qs: seq<Request>, m: map<Key, Value>)
    requires forall k :: StoredFor(qs, k) == if k in m then Some(m[k]) else None
    ensures AllSettable(m) <==> NoneVoid(qs)
  {
    forall k | k in m
      ensures Void(m[k]) <==> !ValidArg(m[k])
    {
      VoidExactly(m[k]);
    }
    hide StoredFor, ValidArg, Void;
    if NoneVoid(qs) {
      forall k | k in m
        ensures ValidArg(m[k])
      {
        assert StoredFor(qs, k) == Some(m[k]);
      }
    }
  }

  lemma {:induction false} RepliesAt(qs: seq<Request>, i: nat)
    requires i < |qs|
    ensures |Answers(map[], qs).1| == |qs| && Answers(map[], qs).1[i] == Answer(MapBefore(qs, i), qs[i]).1
  {
    hide Answer;
    var rest := qs[..|qs| - 1];
    CountReplies(rest);
    if i < |qs| - 1 {
      RepliesAt(rest, i);
      assert rest[..i] == qs[..i];
    }
  }

  lemma {:induction false} CountReplies(qs: seq<Request>)
    ensures |Answers(map[], qs).1| == |qs|
  {
    hide Answer;
    if qs != [] { CountReplies(qs[..|qs| - 1]); }
  }

  /** After any run: what is set is got back until it is removed. */
  lemma SetGetRemove(qs: seq<Request>, k: Key, v: Value, n: int)
    requires k != [] && k[0] != 0 && v != [] && v[0] != 0 && n >= |v|
    ensures var all := qs + [SetKey(k, v, None), GetKey(k, n), RemoveKey(k), GetKey(k, n)];
      |Answers(map[], all).1| == |all| &&
      Answers(map[], all).1[|qs|..] == [Reply(Ok, []), Reply(Ok, v), Reply(Ok, []), Reply(NotFound, [])]
  {
    hide Answers;
    var a, g, r := SetKey(k, v, None), GetKey(k, n), RemoveKey(k);
    var all := qs + [a, g, r, g];
    var rs := Answers(map[], all).1;
    RepliesByKey(all, |qs|);
    RepliesByKey(all, |qs| + 1);
    RepliesByKey(all, |qs| + 2);
    RepliesByKey(all, |qs| + 3);
    assert all[..|qs|] == qs && all[..|qs| + 1] == qs + [a] && all[..|qs| + 2] == qs + [a] + [g];
    assert all[..|qs| + 3] == qs + [a] + [g] + [r];
    StoredOn(qs, a, k);
    StoredOn(qs + [a], g, k);
    StoredOn(qs + [a] + [g], r, k);
    hide StoredFor;
    assert rs[|qs|..] == [rs[|qs|], rs[|qs| + 1], rs[|qs| + 2], rs[|qs| + 3]];
  }

  lemma StoredOn(qs: seq<Request>, q: Request, k: Key)
    ensures q.GetKey? ==> StoredFor(qs + [q], k) == StoredFor(qs, k)
    ensures q.SetKey? && q.key == k && !Void(k) && !Void(q.value) && q.updater.None? ==>
      StoredFor(qs + [q], k) == Some(q.value)
    ensures q.RemoveKey? && q.key == k && !Void(k) ==> StoredFor(qs + [q], k) == None
  {
    assert (qs + [q])[..|qs|] == qs;
  }

  // ---------- what a run does to the database ----------

  /** What a request makes of the database, which held the map m before. */
  ghost function Step(s: Layout, m: map<Key, Value>, q: Request): (u: Layout)
    requires Ready(s)
    ensures Ready(u)
  {
    match q
    case GetKey(_, _) => s
    case SetKey(k, _, _) =>
      var (m', reply) := Answer(m, q);
      if reply.status != Ok || k !in m' then s
      else if k in m then ChangeIn(s, k, m'[k])
      else AddIn(s, k, m'[k])
    case RemoveKey(k) => if ValidArg(k) && k in m then RemoveIn(s, k) else s
    case CloseAndOpen => ReopenIn(s)
    case RebuildWith(size, pageSize) =>
      if AllSettable(m) && size > 0 && NumOfKeys(pageSize) >= 0 then RebuildIn(s, size, NumOfKeys(pageSize)) else s
  }

  /** The request removes a key whose record, in the page that holds it, has two children: the
      assertion of the original fails and the process ends. */
  ghost predicate FailsCheck(s: Layout, m: map<Key, Value>, q: Request)
    requires Ready(s)
  {
    q.RemoveKey? && ValidArg(q.key) && q.key in m && MeetsTwo(BucketOf(s, q.key), Rank(q.key))
  }

  /** The database after the requests. */
  ghost function Laid(size: nat, capacity: nat, qs: seq<Request>): (s: Layout)
    requires size > 0
    ensures Ready(s)
  {
    if qs == [] then Fresh(size, capacity)
    else
      var rest := qs[..|qs| - 1];
      Step(Laid(size, capacity, rest), Answers(map[], rest).0, qs[|qs| - 1])
  }

  /** No removal of the run fails the check. */
  ghost predicate Survives(size: nat, capacity: nat, qs: seq<Request>)
    requires size > 0
  {
    forall i :: 0 <= i < |qs| ==> !FailsCheck(Laid(size, capacity, qs[..i]), MapBefore(qs, i), qs[i])
  }

  /** The files, the hash table and the loaded pages at one moment. */
  datatype Snapshot = Snapshot(capacity: nat, entries: seq<KI.HashEntry>, memory: KeyFile, keyFile: KeyFile,
                               chains: seq<seq<int>>, valueFile: ValueFile, freeValues: seq<int>)

  ghost function Snap(db: Rdb): Snapshot
    reads db.index, db.values, db.values.fdp
  {
    Snapshot(db.index.capacity, db.index.entries, db.index.memory, db.index.keyFile, db.index.chains,
             db.values.file, db.values.fdp.stack)
  }

  /** The snapshot is of a database that holds m and is laid out as s: pages are linked both ways, each
      key is in one page of its bucket, no page in use is empty or outside the chains, and the loaded
      pages are the first ones of their bucket. */
  ghost predicate Shows(x: Snapshot, m: map<Key, Value>, s: Layout) {
    && Represents(x.keyFile, x.chains, x.valueFile, m) && KI.TableOk(x.entries, x.chains, x.memory, x.keyFile)
    && ChainsOk(x.keyFile, x.chains, x.capacity) && LiveOk(x.keyFile, x.chains)
    && ValuesOk(x.valueFile, x.freeValues)
    && s == Layout(x.capacity, KI.Buckets(x.entries, x.memory, x.keyFile, x.chains), x.valueFile, x.freeValues)
  }

  // ---------- runs ----------

  /** One request against the database. */
  method ServeOne(db: Rdb, q: Request) returns (r: Rdb, reply: Reply, kept: bool)
    requires db.Valid() && PageSizeOk(q)
    modifies db.Repr()
    ensures r.Valid()
    ensures (r == db && r.Repr() == old(db.Repr())) || fresh(r.Repr())
    ensures (r.contents, reply) == Answer(old(db.contents), q)
    ensures Ready(old(db.LayoutOf())) && r.LayoutOf() == Step(old(db.LayoutOf()), old(db.contents), q)
    ensures kept <==> !FailsCheck(old(db.LayoutOf()), old(db.contents), q)
  {
    hide Rdb.Valid, Rdb.LayoutOf, IndexFind, FP.Allocated, PageFor, ChangeIn, AddIn, RemoveIn, ReopenIn, RebuildIn,
      MeetsTwo, BucketOf;
    r, kept := db, true;
    LayoutReady(db);
    match q {
      case GetKey(k, n) =>
        var status, value := db.Get(k, n);
        reply := Reply(status, value);
      case SetKey(k, v, updater) =>
        var status := db.Set(k, v, updater);
        reply := Reply(status, []);
      case RemoveKey(k) =>
        var status;
        status, kept := db.Remove(k);
        reply := Reply(status, []);
      case CloseAndOpen =>
        r := Reopen(db);
        reply := Reply(Ok, []);
      case RebuildWith(size, pageSize) =>
        var ok;
        ok, r := Rebuild(db, size, pageSize);
        reply := Reply(if ok then Ok else InvalidArg, []);
    }
  }

  lemma ValidShows(db: Rdb)
    requires db.Valid()
    ensures Shows(Snap(db), db.contents, db.LayoutOf())
  {
    hide Represents, ValuesOk, KI.TableOk, ChainsOk, LiveOk, FreeOk, KI.Buckets;
  }

  lemma NoAnswers(size: nat, capacity: nat, qs: seq<Request>)
    requires size > 0
    ensures Answers(map[], qs[..0]) == (map[], []) && Laid(size, capacity, qs[..0]) == Fresh(size, capacity)
  {
  }

  lemma AnswersStep(size: nat, capacity: nat, qs: seq<Request>, i: nat)
    requires i < |qs| && size > 0
    ensures var (m, rs) := Answers(map[], qs[..i]);
      && Answers(map[], qs[..i + 1]) == (Answer(m, qs[i]).0, rs + [Answer(m, qs[i]).1])
      && Laid(size, capacity, qs[..i + 1]) == Step(Laid(size, capacity, qs[..i]), m, qs[i])
  {
    hide Answer, Step;
    assert qs[..i + 1][..i] == qs[..i];
  }

  /** Over every run of requests on key pages of every size, closing, reopening and rebuilding
      included, the database answers as the map does and is laid out as the requests and the sizes
      determine. The run is one that the original survives, kept, exactly when no removal meets a
      record with two children, which is determined by them too. */
  method Serve(size: nat, pageSize: int, qs: seq<Request>)
    returns (replies: seq<Reply>, kept: bool, ghost trace: seq<Snapshot>)
    requires size > 0 && pageSize > 0 && 1 <= NumOfKeys(pageSize) <= MAX_SLOTS
    requires forall i :: 0 <= i < |qs| ==> PageSizeOk(qs[i])
    ensures replies == Answers(map[], qs).1
    ensures kept <==> Survives(size, NumOfKeys(pageSize), qs)
    ensures |trace| == |qs| + 1 && forall i :: 0 <= i <= |qs| ==>
      Shows(trace[i], MapBefore(qs, i), Laid(size, NumOfKeys(pageSize), qs[..i]))
  {
    hide Rdb.Valid, Rdb.Repr, Rdb.LayoutOf, Answer, Answers, PageSizeOk, FailsCheck, Shows, Snap, Laid, Step, Fresh;
    var db := Create(size, pageSize);
    ghost var capacity := NumOfKeys(pageSize);
    NoAnswers(size, capacity, qs);
    ValidShows(db);
    replies, kept, trace := [], true, [Snap(db)];
    for i := 0 to |qs|
      invariant db.Valid() && fresh(db.Repr())
      invariant (db.contents, replies) == Answers(map[], qs[..i])
      invariant db.LayoutOf() == Laid(size, capacity, qs[..i])
      invariant |trace| == i + 1
      invariant forall j :: 0 <= j <= i ==> Shows(trace[j], MapBefore(qs, j), Laid(size, capacity, qs[..j]))
      invariant kept <==>
        forall j :: 0 <= j < i ==> !FailsCheck(Laid(size, capacity, qs[..j]), MapBefore(qs, j), qs[j])
    {
      AnswersStep(size, capacity, qs, i);
      var reply, ok;
      db, reply, ok := ServeOne(db, qs[i]);
      replies, kept := replies + [reply], kept && ok;
      ValidShows(db);
      trace := trace + [Snap(db)];
    }
    assert qs[..|qs|] == qs;
  }

  // ---------- loaded pages and the file ----------

  /** Every page is met as the file has it. */
  ghost predicate AllInStep(s: Layout) {
    forall h :: 0 <= h < |s.buckets| ==> InStep(s.buckets[h])
  }

  ghost predicate AllCurrent(s: Layout) {
    forall h, i :: 0 <= h < |s.buckets| && 0 <= i < |s.buckets[h]| ==> Current(s.buckets[h][i].met)
  }

  /** The request removes a key that lies behind a page with an unsettled path to it. */
  ghost predicate TurnsPage(s: Layout, m: map<Key, Value>, q: Request)
    requires Ready(s)
  {
    q.RemoveKey? && ValidArg(q.key) && q.key in m && !PassesSettled(BucketOf(s, q.key), Rank(q.key))
  }

  lemma ShowsCurrent(x: Snapshot, m: map<Key, Value>, s: Layout)
    requires Shows(x, m, s)
    ensures AllCurrent(s)
  {
    forall h, i | 0 <= h < |s.buckets| && 0 <= i < |s.buckets[h]|
      ensures Current(s.buckets[h][i].met)
    {
      var p := KI.PageMet(x.entries[h], x.memory, x.keyFile, x.chains[h], i);
      assert s.buckets[h][i] == KI.ShapeAt(x.entries[h], x.memory, x.keyFile, x.chains[h], i);
      if PageOk(p) { StripCurrent(PageTree(p)); }
    }
  }

  lemma AddInStep(s: Layout, k: Key, v: Value)
    requires Ready(s) && AllInStep(s)
    ensures AllInStep(AddIn(s, k, v))
  {
    PutInStep(BucketOf(s, k), Rank(k), s.capacity);
  }

  lemma {:induction false} CopyInStep(vf: ValueFile, offset: int, eof: int, s: Layout)
    requires Ready(s) && AllInStep(s)
    ensures AllInStep(CopyFrom(vf, offset, eof, s))
    decreases eof - offset
  {
    hide AddIn, AllInStep;
    if offset < eof && offset in vf {
      var u := if vf[offset].deleted then s else AddIn(s, vf[offset].key, vf[offset].value);
      if !vf[offset].deleted { AddInStep(s, vf[offset].key, vf[offset].value); }
      CopyInStep(vf, offset + VALUE_PAGE_SIZE, eof, u);
    }
  }

  lemma RemoveAllInStep(s: Layout, k: Key)
    requires Ready(s) && AllInStep(s) && AllCurrent(s)
    ensures AllInStep(RemoveIn(s, k)) <==> PassesSettled(BucketOf(s, k), Rank(k))
  {
    hide RemoveShape, PassesSettled, InStep, Current, OffsetOf, Hash;
    var h := Hash(k, |s.buckets|);
    var b := RemoveShape(s.buckets[h], Rank(k));
    RemoveInStep(s.buckets[h], Rank(k));
    OneInStep(s.buckets, h, b, RemoveIn(s, k).buckets);
  }

  lemma OneInStep(bs: seq<seq<PageShape>>, h: nat, b: seq<PageShape>, bs': seq<seq<PageShape>>)
    requires h < |bs| && bs' == bs[h := b] && forall g :: 0 <= g < |bs| ==> InStep(bs[g])
    ensures (forall g :: 0 <= g < |bs'| ==> InStep(bs'[g])) <==> InStep(b)
  {
    hide InStep;
    assert bs'[h] == b;
  }

  /** As long as loaded pages and file have been in step, a request leaves them so exactly when it is
      not a removal that turns a page which it passes: such a page is not written. */
  lemma StepInStep(s: Layout, m: map<Key, Value>, q: Request)
    requires Ready(s) && AllInStep(s) && AllCurrent(s)
    ensures AllInStep(Step(s, m, q)) <==> !TurnsPage(s, m, q)
  {
    hide RemoveIn, AddIn, CopyFrom, AllCurrent, PassesSettled;
    match q {
      case SetKey(k, _, _) =>
        var m' := Answer(m, q).0;
        if k in m' { AddInStep(s, k, m'[k]); }
      case RemoveKey(k) => RemoveAllInStep(s, k);
      case RebuildWith(size, pageSize) =>
        if size > 0 && NumOfKeys(pageSize) >= 0 {
          CopyInStep(s.values, 0, s.free[0], Fresh(size, NumOfKeys(pageSize)));
        }
      case _ =>
    }
  }

  /** Opening the files again restores it. */
  lemma ReopenInStep(s: Layout)
    requires Ready(s)
    ensures AllInStep(ReopenIn(s))
  {
  }
}
