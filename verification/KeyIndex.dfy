/** The key side of the database: hash table, key file and loaded key pages, with the walk over a
    bucket's pages that every operation makes (librdb/src/rdb.cpp). */
module KeyIndex {
  import opened Options
  import opened KeyOrder
  import opened AvlTree
  import opened AvlBalance
  import opened KeyPages
  import opened KeyChains
  import opened BareTree
  import opened BucketShapes
  import KR = KeyRecords
  import FP = FreeDiskPages

  /** A hash table entry: the offset of the first page of the bucket and the pages loaded so far. */
  datatype HashEntry = HashEntry(offset: int, nodes: seq<int>)

  datatype Op = GET | SET | DEL

  /** Appends a loaded page to an entry's list; the first one also fixes the entry's offset. */
  function AddKeyPageNode(e: HashEntry, off: int): HashEntry {
    HashEntry(if e.nodes == [] then off else e.offset, e.nodes + [off])
  }

  /** Takes the page at position i off an entry's list. */
  function RemoveKeyPageNode(e: HashEntry, i: nat): HashEntry
    requires i < |e.nodes|
  {
    var nodes := e.nodes[..i] + e.nodes[i + 1..];
    HashEntry(if i > 0 then e.offset else Head(nodes), nodes)
  }

  /** A loaded page and its copy in the file: same header, same keys. The trees may differ in shape,
      because a removal that does not find its key can still rotate the loaded page. */
  ghost predicate Agree(m: KeyPage, p: KeyPage) {
    SameHeader(p, m) && PageOk(m) && PageMap(m) == PageMap(p) && m.vcount == p.vcount
  }

  ghost predicate EntryOk(e: HashEntry, c: seq<int>, memory: KeyFile, f: KeyFile) {
    && e.offset == Head(c)
    && e.nodes <= c
    && (forall i :: 0 <= i < |e.nodes| ==>
          e.nodes[i] in memory && e.nodes[i] in f && Agree(memory[e.nodes[i]], f[e.nodes[i]]))
  }

  /** Every entry starts its chain and has loaded a prefix of it. */
  ghost predicate TableOk(entries: seq<HashEntry>, chains: seq<seq<int>>, memory: KeyFile, f: KeyFile) {
    && |entries| == |chains|
    && (forall h :: 0 <= h < |chains| ==> EntryOk(entries[h], chains[h], memory, f))
  }

  /** Every page stores a balanced tree. */
  ghost predicate AllBalanced(f: KeyFile) {
    forall off :: off in f && PageOk(f[off]) ==> Balanced(PageTree(f[off]))
  }

  lemma BalancedUpdate(f: KeyFile, off: int, q: KeyPage)
    requires AllBalanced(f) && (PageOk(q) ==> Balanced(PageTree(q)))
    ensures AllBalanced(f[off := q])
  {
  }

  lemma BalancedLoad(f: KeyFile, memory: KeyFile, off: int)
    requires off in f
    ensures AllBalanced(f) && AllBalanced(memory) ==> AllBalanced(memory[off := f[off]])
  {
  }

  lemma BalancedAppended(f: KeyFile, c: seq<int>, off: int, q: KeyPage)
    requires AllBalanced(f) && (PageOk(q) ==> Balanced(PageTree(q))) && (c != [] ==> c[|c| - 1] in f)
    ensures AllBalanced(Appended(f, c, off, q))
  {
    if c != [] {
      var last := c[|c| - 1];
      HeaderOnly(f[last], f[last].(noff := off));
      BalancedUpdate(f, off, q);
      BalancedUpdate(f[off := q], last, f[last].(noff := off));
    }
  }

  /** What visiting a page does to it. */
  ghost predicate Visited(op: Op, p: KeyPage, q: KeyPage, k: Key, voff: int, hit: bool, kidx: int)
    requires PageOk(p)
  {
    && PageOk(q) && SameHeader(p, q)
    && (hit <==> if op == SET then p.vcount < |p.keys| else k in PageMap(p))
    && match op
       case GET =>
         && q == p
         && (hit ==> kidx == Search(PageTree(p), k) && 0 <= kidx < |p.keys| && p.keys[kidx].voff == PageMap(p)[k])
       case SET =>
         if hit
         then
           && PageMap(q) == PageMap(p)[k := voff]
           && PageTree(q) == Put(PageTree(p), k, voff, KR.FirstFree(p.keys))
           && (Balanced(PageTree(p)) ==> Balanced(PageTree(q)))
         else q == p
       case DEL =>
         && PageMap(q) == PageMap(p) - {k} && PageTree(q) == Remove(PageTree(p), k)
         && (!hit ==> (q == p <==> PathSettled(PageTree(p), k)))
         && (hit ==> (kidx == Search(PageTree(p), k) <==> !HasTwoChildren(PageTree(p), k)))
  }

  /** One page of the walk: search it, add to it if it has room, or remove from it. */
  method VisitPage(op: Op, p: KeyPage, k: Key, voff: int) returns (q: KeyPage, hit: bool, kidx: int)
    requires PageOk(p) && (op == SET ==> k !in PageMap(p))
    ensures Visited(op, p, q, k, voff, hit, kidx)
  {
    q, hit, kidx := p, false, -1;
    if op == SET {
      CountIsKeys(p);
      if p.vcount < |p.keys| {
        q, kidx := PutInPage(p, k, voff);
        hit := true;
      }
    } else if op == GET {
      kidx := GetInPage(p, k);
      hit := kidx >= 0;
    } else {
      q, kidx := RemoveInPage(p, k);
      hit := kidx >= 0;
    }
  }

  /** The first page with room, or the length of the chain. */
  ghost function FirstRoom(f: KeyFile, c: seq<int>): (i: nat)
    ensures i <= |c|
    ensures i < |c| ==> c[i] in f && f[c[i]].vcount < |f[c[i]].keys|
    ensures forall j :: 0 <= j < i && c[j] in f ==> f[c[j]].vcount >= |f[c[j]].keys|
  {
    if c == [] then 0
    else if c[0] in f && f[c[0]].vcount < |f[c[0]].keys| then 0
    else
      var i := FirstRoom(f, c[1..]);
      assert forall j :: 1 <= j < |c| ==> c[j] == c[1..][j - 1];
      1 + i
  }

  /** A bucket gets one more page exactly when none of its pages has room; no other bucket changes. */
  ghost predicate GrownFor(f: KeyFile, chains: seq<seq<int>>, h: int, chains': seq<seq<int>>)
    requires 0 <= h < |chains|
  {
    if FirstRoom(f, chains[h]) < |chains[h]| then chains' == chains
    else |chains'| == |chains| && chains' == chains[h := chains'[h]] && |chains'[h]| == |chains[h]| + 1
  }

  /** Where the walk stops. */
  ghost function Target(op: Op, f: KeyFile, c: seq<int>, k: Key): nat {
    if op == SET then FirstRoom(f, c) else FirstWith(f, c, k)
  }

  /** A visit hits exactly at the target: earlier pages miss. */
  lemma HitIsTarget(op: Op, f: KeyFile, h: int, c: seq<int>, k: Key, pos: nat, m: KeyPage, hit: bool,
                    capacity: nat, size: nat)
    requires size > 0 && ChainOk(f, h, c, capacity, size) && pos < |c| && pos <= Target(op, f, c, k)
    requires c[pos] in f && Agree(m, f[c[pos]])
    requires hit <==> if op == SET then m.vcount < |m.keys| else k in PageMap(m)
    ensures if hit then pos == Target(op, f, c, k) else pos < Target(op, f, c, k)
  {
    assert LinkGood(f, h, c, pos, capacity, size);
    if hit {
      if op == SET {
        assert f[c[pos]].vcount < |f[c[pos]].keys|;
      } else {
        assert k in PageMap(f[c[pos]]);
      }
    }
  }

  /** A page that was visited without a hit still agrees with its copy in the file. */
  lemma MissKeepsAgreement(op: Op, f: KeyPage, p: KeyPage, q: KeyPage, k: Key, voff: int, kidx: int)
    requires Agree(p, f) && Visited(op, p, q, k, voff, false, kidx)
    ensures Agree(q, f)
  {
    if op == DEL {
      assert PageMap(p) - {k} == PageMap(p);
      CountIsKeys(p);
      CountIsKeys(q);
    }
  }

  /** Putting a page that agrees with the file into memory keeps the table. */
  lemma TableMemory(entries: seq<HashEntry>, chains: seq<seq<int>>, memory: KeyFile, f: KeyFile, off: int, q: KeyPage)
    requires TableOk(entries, chains, memory, f) && off in f && Agree(q, f[off])
    ensures TableOk(entries, chains, memory[off := q], f)
  {
    var memory' := memory[off := q];
    forall h | 0 <= h < |chains|
      ensures EntryOk(entries[h], chains[h], memory', f)
    {
      assert EntryOk(entries[h], chains[h], memory, f);
    }
  }

  /** Loading the next page of bucket h. */
  lemma TableLoad(entries: seq<HashEntry>, chains: seq<seq<int>>, memory: KeyFile, f: KeyFile, h: int, capacity: nat)
    requires ChainsOk(f, chains, capacity) && TableOk(entries, chains, memory, f)
    requires 0 <= h < |chains| && |entries[h].nodes| < |chains[h]|
    ensures var off := chains[h][|entries[h].nodes|];
      && off in f
      && AddKeyPageNode(entries[h], off) == HashEntry(entries[h].offset, chains[h][..|entries[h].nodes| + 1])
      && TableOk(entries[h := AddKeyPageNode(entries[h], off)], chains, memory[off := f[off]], f)
  {
    var n := |entries[h].nodes|;
    var c := chains[h];
    var off := c[n];
    assert EntryOk(entries[h], c, memory, f);
    assert ChainOk(f, h, c, capacity, |chains|);
    assert LinkGood(f, h, c, n, capacity, |chains|);
    TableMemory(entries, chains, memory, f, off, f[off]);
    assert EntryOk(entries[h], c, memory[off := f[off]], f);
    var e := AddKeyPageNode(entries[h], off);
    assert e.nodes == c[..n + 1];
    assert EntryOk(e, c, memory[off := f[off]], f);
  }

  lemma SetMisses(f: KeyFile, c: seq<int>, k: Key, pos: nat)
    requires Find(f, c, k) == None && pos < |c| && c[pos] in f
    ensures k !in PageMap(f[c[pos]])
  {
  }

  // ---------- the pages a walk meets ----------

  /** The page a walk over chain c meets at position i: the loaded one, or the one in the file. */
  ghost function PageMet(e: HashEntry, memory: KeyFile, f: KeyFile, c: seq<int>, i: nat): KeyPage {
    if i < |c| && i < |e.nodes| && c[i] in memory then memory[c[i]]
    else if i < |c| && c[i] in f then f[c[i]]
    else InitKeyPage(0)
  }

  /** A walk meets the same pages in both states. */
  ghost predicate SameMet(e: HashEntry, memory: KeyFile, e': HashEntry, memory': KeyFile, f: KeyFile, c: seq<int>) {
    forall i :: 0 <= i < |c| ==> PageMet(e', memory', f, c, i) == PageMet(e, memory, f, c, i)
  }

  /** Loading a page changes none of them. */
  lemma LoadedMet(e: HashEntry, memory: KeyFile, f: KeyFile, c: seq<int>, off: int)
    requires |e.nodes| < |c| && off == c[|e.nodes|] && off in f
    requires forall i, j :: 0 <= i < j < |c| ==> c[i] != c[j]
    ensures SameMet(e, memory, AddKeyPageNode(e, off), memory[off := f[off]], f, c)
  {
  }

  /** What a walk that goes on leaves of a page that it met as p. A removal that does not find its
      key here leaves the page alone exactly when the search path is settled. */
  ghost predicate PassedPage(op: Op, k: Key, p: KeyPage, q: KeyPage) {
    if op == DEL then
      && PageOk(p) && PageOk(q) && SameHeader(p, q) && PageTree(q) == Remove(PageTree(p), k)
      && (q == p <==> PathSettled(PageTree(p), k))
    else q == p
  }

  /** A walk over chain c has passed the first n pages and has not touched those from position rest on. */
  ghost predicate Walked(op: Op, k: Key, e: HashEntry, m: KeyFile, e': HashEntry, m': KeyFile, f: KeyFile, c: seq<int>,
                         n: nat, rest: nat) {
    && (forall i ::
          0 <= i < |c| && i < n ==> PassedPage(op, k, PageMet(e, m, f, c, i), PageMet(e', m', f, c, i)))
    && (forall i :: rest <= i < |c| ==> PageMet(e', m', f, c, i) == PageMet(e, m, f, c, i))
  }

  lemma WalkedLoad(op: Op, k: Key, e: HashEntry, m: KeyFile, e': HashEntry, m': KeyFile, f: KeyFile, c: seq<int>,
                   n: nat, off: int)
    requires Walked(op, k, e, m, e', m', f, c, n, n)
    requires |e'.nodes| < |c| && off == c[|e'.nodes|] && off in f
    requires forall i, j :: 0 <= i < j < |c| ==> c[i] != c[j]
    ensures Walked(op, k, e, m, AddKeyPageNode(e', off), m'[off := f[off]], f, c, n, n)
  {
    hide PageMet, PassedPage;
    var e'', m'' := AddKeyPageNode(e', off), m'[off := f[off]];
    LoadedMet(e', m', f, c, off);
    forall i | 0 <= i < |c|
      ensures PageMet(e'', m'', f, c, i) == PageMet(e', m', f, c, i)
    {
    }
  }

  lemma WalkedVisit(op: Op, k: Key, e: HashEntry, m: KeyFile, e': HashEntry, m': KeyFile, f: KeyFile, c: seq<int>,
                    n: nat, q: KeyPage)
    requires Walked(op, k, e, m, e', m', f, c, n, n) && n < |c| && n < |e'.nodes| && c[n] in m'
    requires forall i, j :: 0 <= i < j < |c| ==> c[i] != c[j]
    ensures PageMet(e, m, f, c, n) == m'[c[n]] && PageMet(e', m'[c[n] := q], f, c, n) == q
    ensures Walked(op, k, e, m, e', m'[c[n] := q], f, c, n, n + 1)
    ensures PassedPage(op, k, m'[c[n]], q) ==> Walked(op, k, e, m, e', m'[c[n] := q], f, c, n + 1, n + 1)
  {
    var m'' := m'[c[n] := q];
    hide PassedPage;
    forall i | 0 <= i < |c| && i != n
      ensures PageMet(e', m'', f, c, i) == PageMet(e', m', f, c, i)
    {
    }
    hide PageMet;
    assert PageMet(e', m', f, c, n) == m'[c[n]];
  }

  /** Memory is the same except at the pages of chain c. */
  ghost predicate Aside(m: KeyFile, m': KeyFile, c: seq<int>) {
    forall x :: x !in c ==> (x in m' <==> x in m) && (x in m ==> m'[x] == m[x])
  }

  // ---------- buckets as shapes ----------

  /** The tree of a page by ranks alone. */
  ghost function Bared(p: KeyPage): (b: Bare) { if PageOk(p) then Strip(PageTree(p)) else Tip }

  ghost function FilePage(f: KeyFile, c: seq<int>, i: nat): KeyPage {
    if i < |c| && c[i] in f then f[c[i]] else InitKeyPage(0)
  }

  ghost function ShapeAt(e: HashEntry, memory: KeyFile, f: KeyFile, c: seq<int>, i: nat): PageShape {
    PageShape(Bared(PageMet(e, memory, f, c, i)), Bared(FilePage(f, c, i)))
  }

  ghost function BucketShape(e: HashEntry, memory: KeyFile, f: KeyFile, c: seq<int>): (b: seq<PageShape>)
    ensures |b| == |c| && forall i :: 0 <= i < |c| ==> b[i] == ShapeAt(e, memory, f, c, i)
  {
    seq(|c|, i requires 0 <= i < |c| => ShapeAt(e, memory, f, c, i))
  }

  /** Every bucket of the hash table. */
  ghost function Buckets(entries: seq<HashEntry>, memory: KeyFile, f: KeyFile, chains: seq<seq<int>>)
    : (bs: seq<seq<PageShape>>)
    ensures |entries| == |chains| ==>
      |bs| == |chains| && forall h :: 0 <= h < |chains| ==> bs[h] == BucketShape(entries[h], memory, f, chains[h])
  {
    if |entries| != |chains| then []
    else seq(|chains|, h requires 0 <= h < |chains| => BucketShape(entries[h], memory, f, chains[h]))
  }

  lemma NewPageBared(p: KeyPage, q: KeyPage, k: Key, voff: int)
    requires PageOk(p) && PageTree(p) == Leaf && p.vcount < |p.keys|
    requires PageOk(q) && PageTree(q) == Put(Leaf, k, voff, KR.FirstFree(p.keys))
    ensures Bared(q) == BarePut(Tip, Rank(k))
  {
    KR.FullPage(p.keys, p.root, p.vcount, PageTree(p));
    StripPut(Leaf, k, voff, KR.FirstFree(p.keys));
  }

  /** What a shape shows of a page. */
  lemma BaredFacts(p: KeyPage, k: Key)
    requires PageOk(p)
    ensures BareSize(Bared(p)) == p.vcount && Current(Bared(p)) && (Bared(p) == Tip <==> p.vcount == 0)
    ensures HasRank(Bared(p), Rank(k)) <==> k in PageMap(p)
    ensures BareTwo(Bared(p), Rank(k)) <==> HasTwoChildren(PageTree(p), k)
  {
    StripMeasures(PageTree(p));
    StripCurrent(PageTree(p));
    StripKeys(PageTree(p), k);
    StripTwo(PageTree(p), k);
  }

  lemma VisitedBared(op: Op, p: KeyPage, q: KeyPage, k: Key, voff: int, hit: bool, kidx: int)
    requires PageOk(p) && Visited(op, p, q, k, voff, hit, kidx)
    ensures op == SET && hit ==> Bared(q) == BarePut(Bared(p), Rank(k))
    ensures op == DEL ==> Bared(q) == BareRemove(Bared(p), Rank(k))
  {
    if op == SET && hit {
      KR.FullPage(p.keys, p.root, p.vcount, PageTree(p));
      StripPut(PageTree(p), k, voff, KR.FirstFree(p.keys));
    }
    StripRemove(PageTree(p), k);
  }

  lemma PassedBared(k: Key, p: KeyPage, q: KeyPage)
    requires PassedPage(DEL, k, p, q)
    ensures Bared(q) == BareRemove(Bared(p), Rank(k))
  {
    StripRemove(PageTree(p), k);
  }

  /** A walk meets a page that agrees with the file. */
  lemma MetAgrees(e: HashEntry, memory: KeyFile, f: KeyFile, h: int, c: seq<int>, i: nat, capacity: nat, size: nat)
    requires size > 0 && EntryOk(e, c, memory, f) && ChainOk(f, h, c, capacity, size) && i < |c|
    ensures c[i] in f && PageOk(f[c[i]]) && |f[c[i]].keys| == capacity && Agree(PageMet(e, memory, f, c, i), f[c[i]])
  {
    assert LinkGood(f, h, c, i, capacity, size);
    if i < |e.nodes| { assert e.nodes[i] == c[i]; }
  }

  /** The shape of a page tells its count and its keys. */
  lemma ShapeFacts(e: HashEntry, memory: KeyFile, f: KeyFile, h: int, c: seq<int>, i: nat, k: Key,
                   capacity: nat, size: nat)
    requires size > 0 && EntryOk(e, c, memory, f) && ChainOk(f, h, c, capacity, size) && i < |c|
    ensures c[i] in f && |f[c[i]].keys| == capacity
    ensures BareSize(ShapeAt(e, memory, f, c, i).met) == f[c[i]].vcount
    ensures HasRank(ShapeAt(e, memory, f, c, i).met, Rank(k)) <==> k in PageMap(f[c[i]])
  {
    MetAgrees(e, memory, f, h, c, i, capacity, size);
    BaredFacts(PageMet(e, memory, f, c, i), k);
  }

  /** Nothing but bucket h has changed. */
  lemma OneBucketChanged(entries: seq<HashEntry>, m: KeyFile, f: KeyFile, chains: seq<seq<int>>,
                         entries': seq<HashEntry>, m': KeyFile, f': KeyFile, chains': seq<seq<int>>, h: int, off: int)
    requires |entries| == |chains| == |entries'| == |chains'| && 0 <= h < |chains|
    requires entries' == entries[h := entries'[h]] && chains' == chains[h := chains'[h]]
    requires forall x :: x !in chains[h] && x != off ==> (x in m' <==> x in m) && (x in m ==> m'[x] == m[x])
    requires forall x :: x !in chains[h] && x != off ==> (x in f' <==> x in f) && (x in f ==> f'[x] == f[x])
    requires forall g, i :: 0 <= g < |chains| && g != h && 0 <= i < |chains[g]| ==>
      chains[g][i] !in chains[h] && chains[g][i] != off
    ensures Buckets(entries', m', f', chains') ==
      Buckets(entries, m, f, chains)[h := BucketShape(entries'[h], m', f', chains'[h])]
  {
    forall g | 0 <= g < |chains| && g != h
      ensures BucketShape(entries'[g], m', f', chains'[g]) == BucketShape(entries[g], m, f, chains[g])
    {
      var e, c := entries[g], chains[g];
      forall i | 0 <= i < |c|
        ensures ShapeAt(e, m', f', c, i) == ShapeAt(e, m, f, c, i)
      {
        var x := chains[g][i];
      }
      hide ShapeAt;
      assert BucketShape(e, m', f', c) == BucketShape(e, m, f, c);
    }
  }

  /** The pages a search passes and stops at are left alone. */
  lemma SearchedMet(op: Op, k: Key, e: HashEntry, m: KeyFile, e': HashEntry, m': KeyFile, f: KeyFile, c: seq<int>,
                    n: nat, rest: nat)
    requires op != DEL && Walked(op, k, e, m, e', m', f, c, n, rest)
    requires rest <= n || (rest == n + 1 && PageMet(e', m', f, c, n) == PageMet(e, m, f, c, n))
    ensures SameMet(e, m, e', m', f, c)
  {
    hide PageMet;
  }

  /** A search changes no bucket. */
  lemma SearchedShapes(entries: seq<HashEntry>, m: KeyFile, entries': seq<HashEntry>, m': KeyFile, f: KeyFile,
                       chains: seq<seq<int>>, h: int, capacity: nat)
    requires ChainsOk(f, chains, capacity) && |entries| == |chains| == |entries'| && 0 <= h < |chains|
    requires entries' == entries[h := entries'[h]] && Aside(m, m', chains[h])
    requires SameMet(entries[h], m, entries'[h], m', f, chains[h])
    ensures Buckets(entries', m', f, chains) == Buckets(entries, m, f, chains)
  {
    hide SameMet, BucketShape, Buckets;
    SameMetShape(entries[h], m, entries'[h], m', f, chains[h]);
    ApartFrom(f, chains, h, capacity);
    OneBucketChanged(entries, m, f, chains, entries', m', f, chains, h, -1);
  }

  lemma ApartFrom(f: KeyFile, chains: seq<seq<int>>, h: int, capacity: nat)
    requires ChainsOk(f, chains, capacity) && 0 <= h < |chains|
    ensures forall g, i :: 0 <= g < |chains| && g != h && 0 <= i < |chains[g]| ==>
      chains[g][i] !in chains[h] && chains[g][i] != -1
  {
    BucketsApart(f, chains, h, capacity);
    forall g, i | 0 <= g < |chains| && g != h && 0 <= i < |chains[g]|
      ensures chains[g][i] != -1
    {
      ChainInFile(f, g, chains[g], capacity, |chains|);
    }
  }

  /** A walk that wrote the page it stopped at, now q: each page of the bucket after it. */
  lemma WrittenAt(op: Op, k: Key, e: HashEntry, m: KeyFile, e': HashEntry, m': KeyFile, f: KeyFile, c: seq<int>,
                  n: nat, q: KeyPage, i: nat)
    requires op == SET || op == DEL
    requires Walked(op, k, e, m, e', m', f, c, n, n + 1) && n < |c| && n < |e'.nodes| && i < |c|
    requires c[n] in m' && m'[c[n]] == q && c[n] in f
    requires forall i, j :: 0 <= i < j < |c| ==> c[i] != c[j]
    ensures var s := ShapeAt(e, m, f, c, i);
      ShapeAt(e', m', f[c[n] := q], c, i) ==
        if i == n then Written(Bared(q))
        else if op == DEL && i < n then PageShape(BareRemove(s.met, Rank(k)), s.disk)
        else s
  {
    hide Bared, BareRemove;
    if op == DEL && i < n { PassedBared(k, PageMet(e, m, f, c, i), PageMet(e', m', f, c, i)); }
  }

  /** What bucket h is then. */
  lemma WrittenShape(op: Op, k: Key, e: HashEntry, m: KeyFile, e': HashEntry, m': KeyFile, f: KeyFile, c: seq<int>,
                     n: nat, q: KeyPage)
    requires op == SET || op == DEL
    requires Walked(op, k, e, m, e', m', f, c, n, n + 1) && n < |c| && n < |e'.nodes|
    requires c[n] in m' && m'[c[n]] == q && c[n] in f
    requires forall i, j :: 0 <= i < j < |c| ==> c[i] != c[j]
    ensures var b := BucketShape(e, m, f, c); var u := BucketShape(e', m', f[c[n] := q], c);
      && (op == SET ==> u == b[n := Written(Bared(q))])
      && (op == DEL ==> u == Passed(b[..n], Rank(k)) + [Written(Bared(q))] + b[n + 1..])
  {
    hide Walked, ShapeAt, Bared, BareRemove, Passed;
    var b, u := BucketShape(e, m, f, c), BucketShape(e', m', f[c[n] := q], c);
    forall i | 0 <= i < |c|
      ensures u[i] ==
        if i == n then Written(Bared(q))
        else if op == DEL && i < n then PageShape(BareRemove(b[i].met, Rank(k)), b[i].disk)
        else b[i]
    {
      WrittenAt(op, k, e, m, e', m', f, c, n, q, i);
    }
    hide BucketShape;
    if op == SET {
      assert u == b[n := Written(Bared(q))];
    } else {
      Assembled(b, u, n, Rank(k), Written(Bared(q)));
    }
  }

  /** The same when the page it stopped at is empty and was not written. */
  lemma EmptiedShape(k: Key, e: HashEntry, m: KeyFile, e': HashEntry, m': KeyFile, f: KeyFile, c: seq<int>, n: nat)
    requires Walked(DEL, k, e, m, e', m', f, c, n, n + 1) && n < |c|
    ensures var b := BucketShape(e, m, f, c); var u := BucketShape(e', m', f, c);
      u[..n] + u[n + 1..] == Passed(b[..n], Rank(k)) + b[n + 1..]
  {
    hide PageMet, PassedPage, Bared, BareRemove, Passed;
    var b, u := BucketShape(e, m, f, c), BucketShape(e', m', f, c);
    forall i | 0 <= i < |c| && i != n
      ensures u[i] == if i < n then PageShape(BareRemove(b[i].met, Rank(k)), b[i].disk) else b[i]
    {
      if i < n { PassedBared(k, PageMet(e, m, f, c, i), PageMet(e', m', f, c, i)); }
    }
    hide BucketShape, Walked;
    Assembled(b, u, n, Rank(k), u[n]);
  }

  lemma PagesApart(f: KeyFile, h: int, c: seq<int>, capacity: nat, size: nat)
    requires size > 0 && ChainOk(f, h, c, capacity, size)
    ensures forall i, j :: 0 <= i < j < |c| ==> c[i] != c[j]
  {
  }

  lemma ShapeMet(e: HashEntry, m: KeyFile, f: KeyFile, c: seq<int>, i: nat)
    requires i < |c|
    ensures BucketShape(e, m, f, c)[i].met == Bared(PageMet(e, m, f, c, i))
  {
  }

  /** Where a new key goes in the shape of its bucket. */
  lemma RoomAt(e: HashEntry, m: KeyFile, f: KeyFile, h: int, c: seq<int>, k: Key, capacity: nat, size: nat)
    requires size > 0 && EntryOk(e, c, m, f) && ChainOk(f, h, c, capacity, size)
    ensures var b := BucketShape(e, m, f, c); var i := FirstRoom(f, c); var r := Rank(k);
      PutShape(b, r, capacity) ==
        if i < |c| then b[i := Written(BarePut(b[i].met, r))] else b + [Written(BarePut(Tip, r))]
  {
    var b, i := BucketShape(e, m, f, c), FirstRoom(f, c);
    forall j | 0 <= j < |c|
      ensures c[j] in f && |f[c[j]].keys| == capacity && BareSize(b[j].met) == f[c[j]].vcount
    {
      ShapeFacts(e, m, f, h, c, j, k, capacity, size);
    }
    hide *;
    PutAt(b, Rank(k), capacity, i);
  }

  /** Where a removal finds its key in the shape of the bucket. */
  lemma KeyIsAt(e: HashEntry, m: KeyFile, f: KeyFile, h: int, c: seq<int>, k: Key, capacity: nat, size: nat)
    requires size > 0 && EntryOk(e, c, m, f) && ChainOk(f, h, c, capacity, size) && FirstWith(f, c, k) < |c|
    ensures var b := BucketShape(e, m, f, c); var i := FirstWith(f, c, k); var t := BareRemove(b[i].met, Rank(k));
      RemoveShape(b, Rank(k)) == Passed(b[..i], Rank(k)) + (if t == Tip then [] else [Written(t)]) + b[i + 1..]
    ensures var p := PageMet(e, m, f, c, FirstWith(f, c, k));
      PageOk(p) && (MeetsTwo(BucketShape(e, m, f, c), Rank(k)) <==> HasTwoChildren(PageTree(p), k))
  {
    var b, i := BucketShape(e, m, f, c), FirstWith(f, c, k);
    forall j | 0 <= j < |c|
      ensures c[j] in f && (HasRank(b[j].met, Rank(k)) <==> k in PageMap(f[c[j]]))
    {
      ShapeFacts(e, m, f, h, c, j, k, capacity, size);
    }
    MetAgrees(e, m, f, h, c, i, capacity, size);
    BaredFacts(PageMet(e, m, f, c, i), k);
    hide BucketShape, EntryOk, ChainOk, Agree, HasRank, BareTwo, HasTwoChildren;
    RemoveAt(b, Rank(k), i);
  }

  lemma BucketOk(entries: seq<HashEntry>, m: KeyFile, f: KeyFile, chains: seq<seq<int>>, h: int, capacity: nat)
    requires ChainsOk(f, chains, capacity) && TableOk(entries, chains, m, f) && 0 <= h < |chains|
    ensures |entries| == |chains| && EntryOk(entries[h], chains[h], m, f)
    ensures ChainOk(f, h, chains[h], capacity, |chains|)
    ensures forall i, j :: 0 <= i < j < |chains[h]| ==> chains[h][i] != chains[h][j]
  {
  }

  /** The page a walk stopped at, in shapes. */
  lemma StopBared(entries: seq<HashEntry>, chains: seq<seq<int>>, memory: KeyFile, f: KeyFile, f': KeyFile,
                  op: Op, h: int, k: Key, voff: int, pos: nat, kidx: int, p: KeyPage)
    requires StopOk(entries, chains, memory, f, f', op, h, k, voff, pos, kidx, p)
    ensures 0 <= h < |chains| && pos < |chains[h]| && pos == Target(op, f, chains[h], k)
    ensures var off := chains[h][pos];
      && off in f && off in memory && PageOk(memory[off])
      && (op == SET ==> Bared(memory[off]) == BarePut(Bared(p), Rank(k)) && f' == f[off := memory[off]])
      && (op == DEL ==>
            && Bared(memory[off]) == BareRemove(Bared(p), Rank(k))
            && f' == if memory[off].vcount > 0 then f[off := memory[off]] else f)
  {
    hide Bared, TableOk;
    VisitedBared(op, p, memory[chains[h][pos]], k, voff, true, kidx);
  }

  /** A key added to a page of bucket h, in shapes. */
  lemma SetShapes(entries: seq<HashEntry>, m: KeyFile, f: KeyFile, chains: seq<seq<int>>, entries': seq<HashEntry>,
                  m': KeyFile, f': KeyFile, capacity: nat, h: int, k: Key, voff: int, pos: nat, kidx: int, p: KeyPage)
    requires ChainsOk(f, chains, capacity) && TableOk(entries, chains, m, f) && 0 <= h < |chains|
    requires |entries'| == |chains| && entries' == entries[h := entries'[h]] && Aside(m, m', chains[h])
    requires Walked(SET, k, entries[h], m, entries'[h], m', f, chains[h], pos, pos + 1) && pos < |entries'[h].nodes|
    requires pos < |chains[h]| && p == PageMet(entries[h], m, f, chains[h], pos)
    requires StopOk(entries', chains, m', f, f', SET, h, k, voff, pos, kidx, p)
    ensures var bs := Buckets(entries, m, f, chains);
      Buckets(entries', m', f', chains) == bs[h := PutShape(bs[h], Rank(k), capacity)]
  {
    hide Walked, PageMet, EntryOk, TableOk, ChainOk, StopOk, ChainsOk, Buckets, BucketShape, PutShape, Bared, BarePut;
    BucketOk(entries, m, f, chains, h, capacity);
    StopBared(entries', chains, m', f, f', SET, h, k, voff, pos, kidx, p);
    var c, q := chains[h], m'[chains[h][pos]];
    ShapeMet(entries[h], m, f, c, pos);
    RoomAt(entries[h], m, f, h, c, k, capacity, |chains|);
    WrittenShape(SET, k, entries[h], m, entries'[h], m', f, c, pos, q);
    ApartFrom(f, chains, h, capacity);
    OneBucketChanged(entries, m, f, chains, entries', m', f', chains, h, -1);
  }

  /** What the removal of a key makes of its bucket: a page that keeps keys is written, an emptied one
      is still there. */
  ghost predicate RemovedFrom(b: seq<PageShape>, b': seq<PageShape>, r: nat, pos: nat, emptied: bool) {
    if emptied then pos < |b'| && b'[..pos] + b'[pos + 1..] == RemoveShape(b, r)
    else b' == RemoveShape(b, r)
  }

  lemma DelReady(e: HashEntry, m: KeyFile, f: KeyFile, h: int, c: seq<int>, capacity: nat, size: nat, k: Key,
                 pos: nat, q: KeyPage)
    requires size > 0 && EntryOk(e, c, m, f) && ChainOk(f, h, c, capacity, size)
    requires pos == FirstWith(f, c, k) && pos < |c|
    requires PageOk(q) && Bared(q) == BareRemove(Bared(PageMet(e, m, f, c, pos)), Rank(k))
    ensures c[pos] in f && forall i, j :: 0 <= i < j < |c| ==> c[i] != c[j]
    ensures var b := BucketShape(e, m, f, c);
      RemoveShape(b, Rank(k)) ==
        Passed(b[..pos], Rank(k)) + (if q.vcount > 0 then [Written(Bared(q))] else []) + b[pos + 1..]
  {
    CountIsKeys(q);
    BaredFacts(q, k);
    KeyIsAt(e, m, f, h, c, k, capacity, size);
    MetAgrees(e, m, f, h, c, pos, capacity, size);
    ShapeMet(e, m, f, c, pos);
    PagesApart(f, h, c, capacity, size);
  }

  lemma DelBucket(e: HashEntry, m: KeyFile, f: KeyFile, e': HashEntry, m': KeyFile, h: int, c: seq<int>,
                  capacity: nat, size: nat, k: Key, pos: nat, q: KeyPage)
    requires size > 0 && EntryOk(e, c, m, f) && ChainOk(f, h, c, capacity, size)
    requires pos == FirstWith(f, c, k) && pos < |c| && pos < |e'.nodes| && c[pos] in m' && q == m'[c[pos]]
    requires Walked(DEL, k, e, m, e', m', f, c, pos, pos + 1)
    requires PageOk(q) && Bared(q) == BareRemove(Bared(PageMet(e, m, f, c, pos)), Rank(k))
    ensures c[pos] in f && var f' := if q.vcount > 0 then f[c[pos] := q] else f;
      RemovedFrom(BucketShape(e, m, f, c), BucketShape(e', m', f', c), Rank(k), pos, q.vcount <= 0)
  {
    hide Walked, PageMet, EntryOk, ChainOk, BucketShape, Bared, BareRemove, RemoveShape, Passed, FirstWith, PageOk;
    DelReady(e, m, f, h, c, capacity, size, k, pos, q);
    if q.vcount > 0 {
      WrittenShape(DEL, k, e, m, e', m', f, c, pos, q);
    } else {
      EmptiedShape(k, e, m, e', m', f, c, pos);
      var b := BucketShape(e, m, f, c);
      assert Passed(b[..pos], Rank(k)) + [] == Passed(b[..pos], Rank(k));
    }
  }

  /** The removal of a key from a page of bucket h, in shapes. */
  lemma DelShapes(entries: seq<HashEntry>, m: KeyFile, f: KeyFile, chains: seq<seq<int>>, entries': seq<HashEntry>,
                  m': KeyFile, f': KeyFile, capacity: nat, h: int, k: Key, pos: nat, kidx: int, p: KeyPage)
    requires ChainsOk(f, chains, capacity) && TableOk(entries, chains, m, f) && 0 <= h < |chains|
    requires |entries'| == |chains| && entries' == entries[h := entries'[h]] && Aside(m, m', chains[h])
    requires Walked(DEL, k, entries[h], m, entries'[h], m', f, chains[h], pos, pos + 1) && pos < |entries'[h].nodes|
    requires pos < |chains[h]| && p == PageMet(entries[h], m, f, chains[h], pos)
    requires StopOk(entries', chains, m', f, f', DEL, h, k, -1, pos, kidx, p)
    ensures chains[h][pos] in m'
    ensures var bs := Buckets(entries, m, f, chains); var bs' := Buckets(entries', m', f', chains);
      && bs' == bs[h := bs'[h]]
      && RemovedFrom(bs[h], bs'[h], Rank(k), pos, m'[chains[h][pos]].vcount <= 0)
  {
    hide Walked, PageMet, EntryOk, TableOk, ChainOk, StopOk, ChainsOk, Buckets, BucketShape, RemovedFrom, Bared;
    BucketOk(entries, m, f, chains, h, capacity);
    StopBared(entries', chains, m', f, f', DEL, h, k, -1, pos, kidx, p);
    var c, q := chains[h], m'[chains[h][pos]];
    DelBucket(entries[h], m, f, entries'[h], m', h, c, capacity, |chains|, k, pos, q);
    ApartFrom(f, chains, h, capacity);
    OneBucketChanged(entries, m, f, chains, entries', m', f', chains, h, -1);
  }

  lemma VisitedPassed(op: Op, p: KeyPage, q: KeyPage, k: Key, voff: int, kidx: int)
    requires PageOk(p) && Visited(op, p, q, k, voff, false, kidx)
    ensures PassedPage(op, k, p, q)
  {
  }

  lemma SameMetShape(e: HashEntry, m: KeyFile, e': HashEntry, m': KeyFile, f: KeyFile, c: seq<int>)
    requires SameMet(e, m, e', m', f, c)
    ensures BucketShape(e', m', f, c) == BucketShape(e, m, f, c)
  {
    hide PageMet, Bared;
  }

  // ---------- the walk over a bucket ----------

  /** The walk over bucket h has passed pos pages without stopping; next is the offset it goes on with. */
  ghost predicate WalkOk(entries: seq<HashEntry>, chains: seq<seq<int>>, memory: KeyFile, f: KeyFile, capacity: nat,
                         op: Op, h: int, k: Key, pos: nat, next: int)
  {
    && ChainsOk(f, chains, capacity) && TableOk(entries, chains, memory, f)
    && 0 <= h < |chains| && pos <= |chains[h]| && pos <= Target(op, f, chains[h], k)
    && next == (if pos < |chains[h]| then chains[h][pos] else -1)
    && (op == SET ==> Find(f, chains[h], k) == None)
  }

  /** Where a walk that stopped at position pos leaves things: memory and file agree as before except
      for the page it stopped at, which was p in memory and is written unless a removal emptied it. */
  ghost predicate StopOk(entries: seq<HashEntry>, chains: seq<seq<int>>, memory: KeyFile, f: KeyFile, f': KeyFile,
                         op: Op, h: int, k: Key, voff: int, pos: nat, kidx: int, p: KeyPage)
  {
    && 0 <= h < |chains| && pos < |chains[h]|
    && var off := chains[h][pos];
    && off in f && off in memory && Agree(p, f[off])
    && Visited(op, p, memory[off], k, voff, true, kidx)
    && TableOk(entries, chains, memory[off := p], f)
    && f' == (if op == SET || (op == DEL && memory[off].vcount > 0) then f[off := memory[off]] else f)
    && pos == Target(op, f, chains[h], k)
  }

  /** The page the walk is about to visit, when it is loaded. */
  lemma WalkPage(entries: seq<HashEntry>, chains: seq<seq<int>>, memory: KeyFile, f: KeyFile, capacity: nat,
                 op: Op, h: int, k: Key, pos: nat, off: int)
    requires WalkOk(entries, chains, memory, f, capacity, op, h, k, pos, off) && pos < |entries[h].nodes|
    ensures pos < |chains[h]| && off == chains[h][pos] == entries[h].nodes[pos]
    ensures off in memory && off in f && Agree(memory[off], f[off])
    ensures op == SET ==> k !in PageMap(memory[off])
    ensures memory[off].noff == After(chains[h], pos)
  {
    assert EntryOk(entries[h], chains[h], memory, f);
    assert entries[h].nodes[pos] == chains[h][pos] == off;
    assert ChainOk(f, h, chains[h], capacity, |chains|);
    assert LinkGood(f, h, chains[h], pos, capacity, |chains|);
    if op == SET {
      SetMisses(f, chains[h], k, pos);
    }
  }

  /** A page without a hit: the walk goes on behind it. */
  lemma WalkMiss(entries: seq<HashEntry>, chains: seq<seq<int>>, memory: KeyFile, f: KeyFile, capacity: nat,
                 op: Op, h: int, k: Key, voff: int, pos: nat, off: int, q: KeyPage, kidx: int)
    requires WalkOk(entries, chains, memory, f, capacity, op, h, k, pos, off) && pos < |entries[h].nodes|
    requires off in memory && PageOk(memory[off]) && Visited(op, memory[off], q, k, voff, false, kidx)
    ensures pos != Target(op, f, chains[h], k)
    ensures WalkOk(entries, chains, memory[off := q], f, capacity, op, h, k, pos + 1, q.noff)
  {
    WalkPage(entries, chains, memory, f, capacity, op, h, k, pos, off);
    assert ChainOk(f, h, chains[h], capacity, |chains|);
    HitIsTarget(op, f, h, chains[h], k, pos, memory[off], false, capacity, |chains|);
    MissKeepsAgreement(op, f[off], memory[off], q, k, voff, kidx);
    TableMemory(entries, chains, memory, f, off, q);
    assert EntryOk(entries[h], chains[h], memory, f);
  }

  lemma WalkFacts(entries: seq<HashEntry>, chains: seq<seq<int>>, memory: KeyFile, f: KeyFile, capacity: nat,
                  op: Op, h: int, k: Key, pos: nat, next: int)
    requires WalkOk(entries, chains, memory, f, capacity, op, h, k, pos, next)
    ensures |entries| == |chains| && 0 <= h < |chains| && pos <= |chains[h]|
    ensures next != -1 ==> pos < |chains[h]| && chains[h][pos] == next
    ensures entries[h].nodes <= chains[h]
    ensures forall i, j :: 0 <= i < j < |chains[h]| ==> chains[h][i] != chains[h][j]
  {
    assert EntryOk(entries[h], chains[h], memory, f);
    assert ChainOk(f, h, chains[h], capacity, |chains|);
  }

  /** A walk with nowhere to go on has passed the whole chain. */
  lemma WalkFinished(entries: seq<HashEntry>, chains: seq<seq<int>>, memory: KeyFile, f: KeyFile, capacity: nat,
                     op: Op, h: int, k: Key, pos: nat)
    requires WalkOk(entries, chains, memory, f, capacity, op, h, k, pos, -1)
    ensures pos == |chains[h]| == Target(op, f, chains[h], k)
    ensures TableOk(entries, chains, memory, f)
  {
    ChainInFile(f, h, chains[h], capacity, |chains|);
  }

  lemma WalkRanOut(entries: seq<HashEntry>, chains: seq<seq<int>>, memory: KeyFile, f: KeyFile, capacity: nat,
                   op: Op, h: int, k: Key, pos: nat, next: int)
    requires WalkOk(entries, chains, memory, f, capacity, op, h, k, pos, next)
    requires pos <= |entries[h].nodes| && (next == -1 || pos == |entries[h].nodes|)
    ensures pos == |entries[h].nodes|
  {
    assert EntryOk(entries[h], chains[h], memory, f);
    if next == -1 {
      WalkFinished(entries, chains, memory, f, capacity, op, h, k, pos);
    }
  }

  lemma Restore(m: KeyFile, off: int, q: KeyPage)
    requires off in m
    ensures m[off := q][off := m[off]] == m && m[off := m[off]] == m
  {
  }

  /** A page with a hit: the walk stops at it. */
  lemma WalkHit(entries: seq<HashEntry>, chains: seq<seq<int>>, memory: KeyFile, f: KeyFile, f': KeyFile, capacity: nat,
                op: Op, h: int, k: Key, voff: int, pos: nat, off: int, q: KeyPage, kidx: int)
    requires WalkOk(entries, chains, memory, f, capacity, op, h, k, pos, off) && pos < |entries[h].nodes|
    requires off in memory && PageOk(memory[off]) && Visited(op, memory[off], q, k, voff, true, kidx)
    requires f' == if op == SET || (op == DEL && q.vcount > 0) then f[off := q] else f
    ensures StopOk(entries, chains, memory[off := q], f, f', op, h, k, voff, pos, kidx, memory[off])
  {
    WalkPage(entries, chains, memory, f, capacity, op, h, k, pos, off);
    assert ChainOk(f, h, chains[h], capacity, |chains|);
    HitIsTarget(op, f, h, chains[h], k, pos, memory[off], true, capacity, |chains|);
    Restore(memory, off, q);
  }

  /** Loading the page the walk is about to visit. */
  lemma WalkLoaded(entries: seq<HashEntry>, chains: seq<seq<int>>, memory: KeyFile, f: KeyFile, capacity: nat,
                   op: Op, h: int, k: Key, pos: nat, off: int)
    requires WalkOk(entries, chains, memory, f, capacity, op, h, k, pos, off) && off != -1 && pos == |entries[h].nodes|
    ensures pos < |chains[h]| && off == chains[h][pos] && off in f
    ensures var e := AddKeyPageNode(entries[h], off);
      && e == HashEntry(entries[h].offset, chains[h][..pos + 1])
      && WalkOk(entries[h := e], chains, memory[off := f[off]], f, capacity, op, h, k, pos, off)
  {
    assert EntryOk(entries[h], chains[h], memory, f);
    TableLoad(entries, chains, memory, f, h, capacity);
  }

  lemma WalkStart(entries: seq<HashEntry>, chains: seq<seq<int>>, memory: KeyFile, f: KeyFile, capacity: nat,
                  op: Op, h: int, k: Key)
    requires ChainsOk(f, chains, capacity) && TableOk(entries, chains, memory, f) && 0 <= h < |chains|
    requires op == SET ==> Find(f, chains[h], k) == None
    ensures |entries| == |chains|
    ensures WalkOk(entries, chains, memory, f, capacity, op, h, k, 0, entries[h].offset)
  {
    assert EntryOk(entries[h], chains[h], memory, f);
  }

  /** A search that stopped has found the recorded value offset. */
  lemma GetStops(entries: seq<HashEntry>, chains: seq<seq<int>>, memory: KeyFile, f: KeyFile, f': KeyFile,
                 h: int, k: Key, pos: nat, kidx: int, p: KeyPage)
    requires StopOk(entries, chains, memory, f, f', GET, h, k, -1, pos, kidx, p)
    ensures var off := chains[h][pos];
      && f' == f && off in memory && memory[off] == p && PageOk(p) && k in PageMap(p) && kidx == Search(PageTree(p), k)
      && 0 <= kidx < |p.keys| && Find(f, chains[h], k) == Some(p.keys[kidx].voff)
      && pos == FirstWith(f, chains[h], k)
      && TableOk(entries, chains, memory, f)
  {
    var off := chains[h][pos];
    assert memory[off := p] == memory;
  }

  // ---------- what a stopped walk leaves to do ----------

  lemma AgreeLinks(m: KeyPage, p: KeyPage, m': KeyPage, p': KeyPage)
    requires Agree(m, p)
    requires m' == m.(poff := m'.poff, noff := m'.noff) && p' == p.(poff := m'.poff, noff := m'.noff)
    ensures Agree(m', p')
  {
    HeaderOnly(m, m');
    HeaderOnly(p, p');
  }

  /** The table after the page a walk stopped at is written to the file. */
  lemma TableWritten(entries: seq<HashEntry>, chains: seq<seq<int>>, memory: KeyFile, f: KeyFile, off: int, p: KeyPage)
    requires off in f && off in memory && PageOk(memory[off]) && SameHeader(f[off], memory[off])
    requires TableOk(entries, chains, memory[off := p], f)
    ensures TableOk(entries, chains, memory, f[off := memory[off]])
  {
    var f' := f[off := memory[off]];
    forall h | 0 <= h < |chains|
      ensures EntryOk(entries[h], chains[h], memory, f')
    {
      assert EntryOk(entries[h], chains[h], memory[off := p], f);
    }
  }

  lemma KeyAdded(a: map<Key, int>, b: map<Key, int>, k: Key, v: int)
    requires a.Keys !! b.Keys && k !in a
    ensures a.Keys !! b[k := v].Keys
  {
  }

  /** The page with the key added may replace the old one. */
  lemma SetReplaces(entries: seq<HashEntry>, chains: seq<seq<int>>, memory: KeyFile, f: KeyFile, f': KeyFile,
                    capacity: nat, h: int, k: Key, voff: int, pos: nat, kidx: int, p: KeyPage)
    requires ChainsOk(f, chains, capacity)
    requires StopOk(entries, chains, memory, f, f', SET, h, k, voff, pos, kidx, p)
    requires h == Hash(k, |chains|) && Find(f, chains[h], k) == None
    ensures 0 <= h < |chains| && pos < |chains[h]|
    ensures var off := chains[h][pos];
      && off in f && off in memory
      && Replaces(f, h, chains[h], pos, memory[off], capacity, |chains|)
      && PageMap(memory[off]) == PageMap(f[off])[k := voff]
      && f' == f[off := memory[off]]
      && TableOk(entries, chains, memory, f')
  {
    var c := chains[h];
    var off := c[pos];
    var q := memory[off];
    assert ChainOk(f, h, c, capacity, |chains|);
    assert LinkGood(f, h, c, pos, capacity, |chains|);
    CountIsKeys(q);
    forall j | 0 <= j < |c| && j != pos && c[j] in f
      ensures PageMap(f[c[j]]).Keys !! PageMap(q).Keys
    {
      assert k !in PageMap(f[c[j]]);
      KeyAdded(PageMap(f[c[j]]), PageMap(f[off]), k, voff);
    }
    TableWritten(entries, chains, memory, f, off, p);
  }

  lemma FileChains(f: KeyFile, chains: seq<seq<int>>, stack: seq<int>, capacity: nat, pageSize: int)
    requires FileOk(f, chains, stack, capacity, pageSize)
    ensures ChainsOk(f, chains, capacity)
  {
  }

  /** A key added to an existing page. */
  lemma SetDone(entries: seq<HashEntry>, chains: seq<seq<int>>, memory: KeyFile, f: KeyFile, f': KeyFile,
                stack: seq<int>, capacity: nat, pageSize: int, h: int, k: Key, voff: int, pos: nat, kidx: int,
                p: KeyPage)
    requires FileOk(f, chains, stack, capacity, pageSize)
    requires StopOk(entries, chains, memory, f, f', SET, h, k, voff, pos, kidx, p)
    requires h == Hash(k, |chains|) && Find(f, chains[h], k) == None
    ensures FileOk(f', chains, stack, capacity, pageSize) && TableOk(entries, chains, memory, f')
    ensures forall x :: IndexFind(f', chains, x) == if x == k then Some(voff) else IndexFind(f, chains, x)
  {
    hide FileOk, StopOk, TableOk, Replaces, Find, PageMap, IndexFind;
    FileChains(f, chains, stack, capacity, pageSize);
    SetReplaces(entries, chains, memory, f, f', capacity, h, k, voff, pos, kidx, p);
    var off := chains[h][pos];
    var q := memory[off];
    ReplaceInFile(f, chains, stack, h, pos, q, capacity, pageSize);
    forall x
      ensures IndexFind(f', chains, x) == if x == k then Some(voff) else IndexFind(f, chains, x)
    {
      if x != k && x in PageMap(f[off]) {
        IndexFoundAt(f, chains, h, pos, x, capacity, stack, pageSize);
      }
    }
  }

  lemma SetStopped(entries: seq<HashEntry>, chains: seq<seq<int>>, memory: KeyFile, f: KeyFile, f': KeyFile,
                   h: int, k: Key, voff: int, pos: nat, kidx: int, p: KeyPage)
    requires StopOk(entries, chains, memory, f, f', SET, h, k, voff, pos, kidx, p)
    ensures pos == FirstRoom(f, chains[h]) < |chains[h]|
  {
  }

  lemma IndexFoundAt(f: KeyFile, chains: seq<seq<int>>, h: int, pos: nat, x: Key, capacity: nat,
                     stack: seq<int>, pageSize: int)
    requires FileOk(f, chains, stack, capacity, pageSize) && 0 <= h < |chains| && pos < |chains[h]|
    requires chains[h][pos] in f && x in PageMap(f[chains[h][pos]])
    ensures IndexFind(f, chains, x) == Some(PageMap(f[chains[h][pos]])[x])
  {
    assert ChainOk(f, h, chains[h], capacity, |chains|);
    assert LinkGood(f, h, chains[h], pos, capacity, |chains|);
    FoundAt(f, chains[h], x, pos);
  }

  /** The page with the key removed may replace the old one, unless it is empty now. */
  lemma DelReplaces(entries: seq<HashEntry>, chains: seq<seq<int>>, memory: KeyFile, f: KeyFile, f': KeyFile,
                    capacity: nat, h: int, k: Key, voff: int, pos: nat, kidx: int, p: KeyPage)
    requires ChainsOk(f, chains, capacity)
    requires StopOk(entries, chains, memory, f, f', DEL, h, k, voff, pos, kidx, p)
    ensures var off := chains[h][pos]; var q := memory[off];
      && PageMap(q) == PageMap(f[off]) - {k}
      && (q.vcount > 0 ==>
            && Replaces(f, h, chains[h], pos, q, capacity, |chains|)
            && f' == f[off := q]
            && TableOk(entries, chains, memory, f'))
      && (q.vcount <= 0 ==> f' == f && forall x :: x in PageMap(f[off]) ==> x == k)
      && k in PageMap(f[off])
  {
    var c := chains[h];
    var off := c[pos];
    var q := memory[off];
    assert ChainOk(f, h, c, capacity, |chains|);
    assert LinkGood(f, h, c, pos, capacity, |chains|);
    CountIsKeys(q);
    if q.vcount > 0 {
      forall j | 0 <= j < |c| && j != pos && c[j] in f
        ensures PageMap(f[c[j]]).Keys !! PageMap(q).Keys
      {
        assert PageMap(f[c[j]]).Keys !! PageMap(f[off]).Keys;
        assert PageMap(q).Keys <= PageMap(f[off]).Keys;
      }
      TableWritten(entries, chains, memory, f, off, p);
    } else {
      assert |PageMap(q)| == 0;
      forall x | x in PageMap(f[off])
        ensures x == k
      {
        assert x != k ==> x in PageMap(q);
      }
    }
  }

  lemma LastIsLast(f: KeyFile, h: int, c: seq<int>, last: int, capacity: nat, size: nat)
    requires size > 0 && ChainOk(f, h, c, capacity, size) && last == Before(c, |c|)
    ensures last != -1 <==> c != []
    ensures c != [] ==> last == c[|c| - 1]
  {
    ChainInFile(f, h, c, capacity, size);
  }

  lemma NewPageAppends(f: KeyFile, chains: seq<seq<int>>, stack: seq<int>, h: int, k: Key, q: KeyPage,
                       capacity: nat, pageSize: int)
    requires FileOk(f, chains, stack, capacity, pageSize) && 0 <= h < |chains|
    requires PageGood(q, h, capacity, |chains|) && PageMap(q).Keys == {k}
    requires q.poff == Before(chains[h], |chains[h]|) && q.noff == -1
    requires Find(f, chains[h], k) == None
    ensures Appends(f, h, chains[h], stack[|stack| - 1], q, capacity, |chains|)
  {
    var c, off := chains[h], stack[|stack| - 1];
    FreePageInNoChain(f, chains, stack, capacity, pageSize);
    forall j | 0 <= j < |c| && c[j] in f
      ensures PageMap(f[c[j]]).Keys !! PageMap(q).Keys
    {
      assert k !in PageMap(f[c[j]]);
    }
  }

  /** The table after a new page is linked behind a bucket whose pages are all loaded. */
  lemma TableAppended(entries: seq<HashEntry>, chains: seq<seq<int>>, memory: KeyFile, f: KeyFile, h: int,
                      off: int, q: KeyPage, capacity: nat)
    requires ChainsOk(f, chains, capacity) && TableOk(entries, chains, memory, f)
    requires 0 <= h < |chains| && entries[h].nodes == chains[h] && PageOk(q)
    requires forall g, i :: 0 <= g < |chains| && 0 <= i < |chains[g]| ==> chains[g][i] != off
    ensures forall m :: 0 <= m < |chains[h]| ==> chains[h][m] in f && chains[h][m] in memory
    ensures TableOk(entries[h := AddKeyPageNode(entries[h], off)], chains[h := chains[h] + [off]],
                    Appended(memory, chains[h], off, q), Appended(f, chains[h], off, q))
  {
    var c := chains[h];
    var entries' := entries[h := AddKeyPageNode(entries[h], off)];
    var chains' := chains[h := c + [off]];
    assert EntryOk(entries[h], c, memory, f);
    BucketsApart(f, chains, h, capacity);
    var memory', f' := Appended(memory, c, off, q), Appended(f, c, off, q);
    forall g | 0 <= g < |chains'|
      ensures EntryOk(entries'[g], chains'[g], memory', f')
    {
      assert EntryOk(entries[g], chains[g], memory, f);
      if g == h {
        forall i | 0 <= i < |c|
          ensures c[i] in memory' && c[i] in f' && Agree(memory'[c[i]], f'[c[i]])
        {
          assert entries[h].nodes[i] == c[i];
          AgreeLinks(memory[c[i]], f[c[i]], memory[c[i]].(noff := off), f[c[i]].(noff := off));
        }
        assert Agree(q, q);
      } else {
        EntryFrame(entries[g], chains[g], memory, f, memory', f');
      }
    }
  }

  lemma EntryFrame(e: HashEntry, c: seq<int>, memory: KeyFile, f: KeyFile, memory': KeyFile, f': KeyFile)
    requires EntryOk(e, c, memory, f)
    requires forall i :: 0 <= i < |c| && c[i] in f ==> c[i] in f' && f'[c[i]] == f[c[i]]
    requires forall i :: 0 <= i < |c| && c[i] in memory ==> c[i] in memory' && memory'[c[i]] == memory[c[i]]
    ensures EntryOk(e, c, memory', f')
  {
    forall i | 0 <= i < |e.nodes|
      ensures e.nodes[i] in memory' && e.nodes[i] in f' && Agree(memory'[e.nodes[i]], f'[e.nodes[i]])
    {
      assert e.nodes[i] == c[i];
    }
  }

  /** A key added in a new page at the top free offset. */
  lemma NewPageDone(entries: seq<HashEntry>, chains: seq<seq<int>>, memory: KeyFile, f: KeyFile, stack: seq<int>,
                    capacity: nat, pageSize: int, h: int, k: Key, voff: int, q: KeyPage)
    requires FileOk(f, chains, stack, capacity, pageSize) && TableOk(entries, chains, memory, f)
    requires 0 <= h < |chains| && entries[h].nodes == chains[h] && Find(f, chains[h], k) == None
    requires PageGood(q, h, capacity, |chains|) && PageMap(q) == map[k := voff]
    requires q.poff == Before(chains[h], |chains[h]|) && q.noff == -1
    ensures |entries| == |chains|
    ensures q.poff != -1 <==> chains[h] != []
    ensures chains[h] != [] ==> q.poff == chains[h][|chains[h]| - 1]
    ensures var off := stack[|stack| - 1]; var c := chains[h];
      && (forall m :: 0 <= m < |c| ==> c[m] in f && c[m] in memory && c[m] != off)
      && var f' := Appended(f, c, off, q); var chains' := chains[h := c + [off]];
      && FileOk(f', chains', FP.Popped(stack, pageSize), capacity, pageSize)
      && TableOk(entries[h := AddKeyPageNode(entries[h], off)], chains', Appended(memory, c, off, q), f')
      && (forall x :: IndexFind(f', chains', x) == if x == k then Some(voff) else IndexFind(f, chains, x))
  {
    var off := stack[|stack| - 1];
    LastIsLast(f, h, chains[h], q.poff, capacity, |chains|);
    NewPageAppends(f, chains, stack, h, k, q, capacity, pageSize);
    AppendToFile(f, chains, stack, h, q, capacity, pageSize);
    FreePageInNoChain(f, chains, stack, capacity, pageSize);
    TableAppended(entries, chains, memory, f, h, off, q, capacity);
  }

  /** Loaded pages after the page at position i is dropped and its neighbours are linked. */
  function Dropped(memory: KeyFile, c: seq<int>, i: nat): KeyFile
    requires i < |c| && (i > 0 ==> c[i - 1] in memory) && (i < |c| - 1 ==> c[i + 1] in memory)
  {
    var m1 := if i > 0 then memory[c[i - 1] := memory[c[i - 1]].(noff := After(c, i))] else memory;
    var m2 := if i < |c| - 1 then m1[c[i + 1] := memory[c[i + 1]].(poff := Before(c, i))] else m1;
    m2 - {c[i]}
  }

  /** Loaded pages agree with their copies in the file everywhere except at position i of bucket h. */
  ghost predicate AgreeBut(e: HashEntry, c: seq<int>, memory: KeyFile, f: KeyFile, i: nat) {
    && e.offset == Head(c) && e.nodes <= c && i < |e.nodes|
    && (i + 1 < |c| ==> i + 1 < |e.nodes|)
    && (forall j :: 0 <= j < |e.nodes| && j != i ==>
          c[j] in memory && c[j] in f && Agree(memory[c[j]], f[c[j]]))
  }

  lemma DroppedAt(memory: KeyFile, f: KeyFile, c: seq<int>, i: nat, j: nat)
    requires i < |c| && j < |c| && i != j && (forall m :: 0 <= m < |c| ==> c[m] in f)
    requires forall a, b :: 0 <= a < b < |c| ==> c[a] != c[b]
    requires (i > 0 ==> c[i - 1] in memory) && (i < |c| - 1 ==> c[i + 1] in memory)
    requires c[j] in memory && Agree(memory[c[j]], f[c[j]])
    ensures c[j] in Dropped(memory, c, i) && c[j] in Unlinked(f, c, i)
    ensures Agree(Dropped(memory, c, i)[c[j]], Unlinked(f, c, i)[c[j]])
  {
    var m, p := memory[c[j]], f[c[j]];
    UnlinkedAt(f, c, i, j);
    AgreeLinks(m, p, m.(noff := After(c, i)), p.(noff := After(c, i)));
    AgreeLinks(m, p, m.(poff := Before(c, i)), p.(poff := Before(c, i)));
  }

  /** The entry after its page at position i is taken out. */
  lemma EntryDropped(e: HashEntry, c: seq<int>, memory: KeyFile, f: KeyFile, i: nat)
    requires AgreeBut(e, c, memory, f, i) && (forall m :: 0 <= m < |c| ==> c[m] in f)
    requires forall a, b :: 0 <= a < b < |c| ==> c[a] != c[b]
    ensures (i > 0 ==> c[i - 1] in memory) && (i < |c| - 1 ==> c[i + 1] in memory)
    ensures EntryOk(RemoveKeyPageNode(e, i), Without(c, i), Dropped(memory, c, i), Unlinked(f, c, i))
  {
    var e' := RemoveKeyPageNode(e, i);
    var c' := Without(c, i);
    assert e'.nodes <= c';
    forall m | 0 <= m < |e'.nodes|
      ensures var x := e'.nodes[m];
        x in Dropped(memory, c, i) && x in Unlinked(f, c, i) && Agree(Dropped(memory, c, i)[x], Unlinked(f, c, i)[x])
    {
      var j := OldPosition(i, m);
      assert e'.nodes[m] == c[j];
      DroppedAt(memory, f, c, i, j);
    }
  }

  lemma OtherEntryDropped(e: HashEntry, d: seq<int>, c: seq<int>, memory: KeyFile, f: KeyFile, i: nat)
    requires EntryOk(e, d, memory, f) && i < |c| && (forall m :: 0 <= m < |c| ==> c[m] in f)
    requires (i > 0 ==> c[i - 1] in memory) && (i < |c| - 1 ==> c[i + 1] in memory)
    requires forall a, b :: 0 <= a < |d| && 0 <= b < |c| ==> d[a] != c[b]
    ensures EntryOk(e, d, Dropped(memory, c, i), Unlinked(f, c, i))
  {
    EntryFrame(e, d, memory, f, Dropped(memory, c, i), Unlinked(f, c, i));
  }

  lemma TableDropped(entries: seq<HashEntry>, chains: seq<seq<int>>, memory: KeyFile, f: KeyFile, h: int,
                     i: nat, capacity: nat)
    requires ChainsOk(f, chains, capacity) && |entries| == |chains| && 0 <= h < |chains|
    requires AgreeBut(entries[h], chains[h], memory, f, i)
    requires forall g :: 0 <= g < |chains| && g != h ==> EntryOk(entries[g], chains[g], memory, f)
    ensures forall m :: 0 <= m < |chains[h]| ==> chains[h][m] in f
    ensures (i > 0 ==> chains[h][i - 1] in memory) && (i < |chains[h]| - 1 ==> chains[h][i + 1] in memory)
    ensures TableOk(entries[h := RemoveKeyPageNode(entries[h], i)], chains[h := Without(chains[h], i)],
                    Dropped(memory, chains[h], i), Unlinked(f, chains[h], i))
  {
    var c := chains[h];
    assert ChainOk(f, h, c, capacity, |chains|);
    ChainInFile(f, h, c, capacity, |chains|);
    EntryDropped(entries[h], c, memory, f, i);
    BucketsApart(f, chains, h, capacity);
    hide EntryOk, AgreeBut, ChainOk, Dropped, Unlinked, RemoveKeyPageNode, Without;
    forall g | 0 <= g < |chains| && g != h
      ensures EntryOk(entries[g], chains[g], Dropped(memory, c, i), Unlinked(f, c, i))
    {
      OtherEntryDropped(entries[g], chains[g], c, memory, f, i);
    }
  }

  lemma NothingFound(f: KeyFile, c: seq<int>, k: Key)
    requires Target(DEL, f, c, k) == |c|
    ensures Find(f, c, k) == None
  {
  }

  /** A removal that stopped: which page, which slot, and that the page now lacks the key. */
  lemma DelStops(entries: seq<HashEntry>, chains: seq<seq<int>>, memory: KeyFile, f: KeyFile, f': KeyFile,
                 capacity: nat, h: int, k: Key, pos: nat, kidx: int, p: KeyPage)
    requires ChainsOk(f, chains, capacity) && |entries| == |chains|
    requires StopOk(entries, chains, memory, f, f', DEL, h, k, -1, pos, kidx, p)
    requires pos < |entries[h].nodes|
    ensures pos == FirstWith(f, chains[h], k) && pos < |chains[h]| && entries[h].nodes[pos] == chains[h][pos]
    ensures chains[h][pos] in memory
    ensures PageOk(p) && k in PageMap(p) && (kidx == Search(PageTree(p), k) <==> !HasTwoChildren(PageTree(p), k))
  {
    assert EntryOk(entries[h], chains[h], memory[chains[h][pos] := p], f);
  }

  lemma DelFound(entries: seq<HashEntry>, m: KeyFile, f: KeyFile, chains: seq<seq<int>>, entries': seq<HashEntry>,
                 m': KeyFile, f': KeyFile, capacity: nat, h: int, k: Key, pos: nat, kidx: int, p: KeyPage)
    requires ChainsOk(f, chains, capacity) && TableOk(entries, chains, m, f) && 0 <= h < |chains|
    requires |entries'| == |chains| && entries' == entries[h := entries'[h]] && Aside(m, m', chains[h])
    requires Walked(DEL, k, entries[h], m, entries'[h], m', f, chains[h], pos, pos + 1) && pos < |entries'[h].nodes|
    requires pos < |chains[h]| && p == PageMet(entries[h], m, f, chains[h], pos)
    requires StopOk(entries', chains, m', f, f', DEL, h, k, -1, pos, kidx, p)
    ensures pos == FirstWith(f, chains[h], k) && entries'[h].nodes[pos] == chains[h][pos] && chains[h][pos] in m'
    ensures PageOk(p) && k in PageMap(p) && (kidx == Search(PageTree(p), k) <==> !HasTwoChildren(PageTree(p), k))
    ensures var bs := Buckets(entries, m, f, chains); var bs' := Buckets(entries', m', f', chains);
      && |bs| == |chains| == |bs'| && bs' == bs[h := bs'[h]]
      && RemovedFrom(bs[h], bs'[h], Rank(k), pos, m'[chains[h][pos]].vcount <= 0)
      && (MeetsTwo(bs[h], Rank(k)) <==> HasTwoChildren(PageTree(p), k))
  {
    hide StopOk, TableOk, ChainsOk, FirstWith, Walked, EntryOk, ChainOk, RemovedFrom, PageMet, MeetsTwo, BucketShape,
      HasTwoChildren, Search, PageMap;
    DelStops(entries', chains, m', f, f', capacity, h, k, pos, kidx, p);
    DelShapes(entries, m, f, chains, entries', m', f', capacity, h, k, pos, kidx, p);
    BucketOk(entries, m, f, chains, h, capacity);
    KeyIsAt(entries[h], m, f, h, chains[h], k, capacity, |chains|);
  }

  /** A key removed from a page that keeps others. */
  lemma DelDone(entries: seq<HashEntry>, chains: seq<seq<int>>, memory: KeyFile, f: KeyFile, f': KeyFile,
                stack: seq<int>, capacity: nat, pageSize: int, h: int, k: Key, pos: nat, kidx: int, p: KeyPage)
    requires FileOk(f, chains, stack, capacity, pageSize)
    requires StopOk(entries, chains, memory, f, f', DEL, h, k, -1, pos, kidx, p)
    requires 0 <= h < |chains| && pos < |chains[h]| && chains[h][pos] in memory && memory[chains[h][pos]].vcount > 0
    ensures FileOk(f', chains, stack, capacity, pageSize) && TableOk(entries, chains, memory, f')
    ensures forall x :: IndexFind(f', chains, x) == if x == k then None else IndexFind(f, chains, x)
  {
    hide FileOk, StopOk, TableOk, Replaces, Find, PageMap, IndexFind;
    FileChains(f, chains, stack, capacity, pageSize);
    DelReplaces(entries, chains, memory, f, f', capacity, h, k, -1, pos, kidx, p);
    var off := chains[h][pos];
    var q := memory[off];
    ReplaceInFile(f, chains, stack, h, pos, q, capacity, pageSize);
    forall x
      ensures IndexFind(f', chains, x) == if x == k then None else IndexFind(f, chains, x)
    {
      if x != k && x in PageMap(f[off]) {
        IndexFoundAt(f, chains, h, pos, x, capacity, stack, pageSize);
      }
    }
  }

  /** Every loaded page agrees with the file except the one at position i of bucket h. */
  ghost predicate TableBut(entries: seq<HashEntry>, chains: seq<seq<int>>, memory: KeyFile, f: KeyFile, h: int,
                           i: nat) {
    && |entries| == |chains| && 0 <= h < |chains|
    && (forall g :: 0 <= g < |chains| && g != h ==> EntryOk(entries[g], chains[g], memory, f))
    && var e, c := entries[h], chains[h];
    && e.offset == Head(c) && e.nodes <= c && i < |e.nodes|
    && (forall j :: 0 <= j < |e.nodes| && j != i ==> c[j] in memory && c[j] in f && Agree(memory[c[j]], f[c[j]]))
    && c[i] in memory && c[i] in f && SameHeader(f[c[i]], memory[c[i]])
  }

  /** A removal that emptied its page has not written it; the file still has its last key. */
  lemma EmptiedDone(entries: seq<HashEntry>, chains: seq<seq<int>>, memory: KeyFile, f: KeyFile, f': KeyFile,
                    stack: seq<int>, capacity: nat, pageSize: int, h: int, k: Key, pos: nat, kidx: int,
                    p: KeyPage)
    requires FileOk(f, chains, stack, capacity, pageSize) && |entries| == |chains|
    requires StopOk(entries, chains, memory, f, f', DEL, h, k, -1, pos, kidx, p)
    requires 0 <= h < |chains| && pos < |entries[h].nodes| && pos < |chains[h]|
    requires chains[h][pos] in memory && memory[chains[h][pos]].vcount <= 0
    ensures f' == f && TableBut(entries, chains, memory, f, h, pos)
    ensures chains[h][pos] in f && forall x :: x in PageMap(f[chains[h][pos]]) <==> x == k
  {
    FileChains(f, chains, stack, capacity, pageSize);
    DelReplaces(entries, chains, memory, f, f', capacity, h, k, -1, pos, kidx, p);
    EmptiedTable(entries, chains, memory, f, capacity, h, pos, p);
  }

  lemma EmptiedTable(entries: seq<HashEntry>, chains: seq<seq<int>>, memory: KeyFile, f: KeyFile,
                     capacity: nat, h: int, pos: nat, p: KeyPage)
    requires ChainsOk(f, chains, capacity) && 0 <= h < |chains| && pos < |chains[h]|
    requires chains[h][pos] in memory && chains[h][pos] in f
    requires TableOk(entries, chains, memory[chains[h][pos] := p], f) && pos < |entries[h].nodes|
    requires SameHeader(f[chains[h][pos]], memory[chains[h][pos]])
    ensures TableBut(entries, chains, memory, f, h, pos)
  {
    var c, off := chains[h], chains[h][pos];
    BucketsApart(f, chains, h, capacity);
    assert ChainOk(f, h, c, capacity, |chains|);
    assert EntryOk(entries[h], c, memory[off := p], f);
    forall j | 0 <= j < |entries[h].nodes| && j != pos
      ensures c[j] in memory && c[j] in f && Agree(memory[c[j]], f[c[j]])
    {
      assert entries[h].nodes[j] == c[j] != off;
    }
    forall g | 0 <= g < |chains| && g != h
      ensures EntryOk(entries[g], chains[g], memory, f)
    {
      assert EntryOk(entries[g], chains[g], memory[off := p], f);
      EntryFrame(entries[g], chains[g], memory[off := p], f, memory, f);
    }
  }

  lemma LinksOf(entries: seq<HashEntry>, chains: seq<seq<int>>, memory: KeyFile, f: KeyFile, stack: seq<int>,
                capacity: nat, pageSize: int, h: int, i: nat)
    requires FileOk(f, chains, stack, capacity, pageSize) && TableBut(entries, chains, memory, f, h, i)
    ensures i < |chains[h]| && i < |entries[h].nodes| && |entries| == |chains|
    ensures var off := chains[h][i];
      && off in memory && off in f
      && memory[off].poff == Before(chains[h], i) && memory[off].noff == After(chains[h], i)
    ensures After(chains[h], i) != -1 <==> i + 1 < |chains[h]|
    ensures After(chains[h], i) != -1 ==> After(chains[h], i) in f
    ensures forall m :: 0 <= m < |chains[h]| ==> chains[h][m] in f && chains[h][m] >= 0
    ensures forall a, b :: 0 <= a < b < |chains[h]| ==> chains[h][a] != chains[h][b]
  {
    assert ChainOk(f, h, chains[h], capacity, |chains|);
    ChainInFile(f, h, chains[h], capacity, |chains|);
    assert LinkGood(f, h, chains[h], i, capacity, |chains|);
  }

  lemma TableButLoad(entries: seq<HashEntry>, chains: seq<seq<int>>, memory: KeyFile, f: KeyFile, stack: seq<int>,
                     capacity: nat, pageSize: int, h: int, i: nat)
    requires FileOk(f, chains, stack, capacity, pageSize) && TableBut(entries, chains, memory, f, h, i)
    requires i + 1 == |entries[h].nodes| < |chains[h]|
    ensures var next := After(chains[h], i);
      && next in f
      && TableBut(entries[h := AddKeyPageNode(entries[h], next)], chains, memory[next := f[next]], f, h, i)
      && |AddKeyPageNode(entries[h], next).nodes| == i + 2
  {
    var c := chains[h];
    var next := After(c, i);
    assert ChainOk(f, h, c, capacity, |chains|);
    assert LinkGood(f, h, c, i + 1, capacity, |chains|);
    BucketsApart(f, chains, h, capacity);
    var memory' := memory[next := f[next]];
    assert Agree(f[next], f[next]);
    hide Agree, ChainOk;
    forall g | 0 <= g < |chains| && g != h
      ensures EntryOk(entries[g], chains[g], memory', f)
    {
      EntryFrame(entries[g], chains[g], memory, f, memory', f);
    }
    assert entries[h].nodes + [next] <= c;
  }

  /** The emptied page is out of the file, out of the table and back among the free pages. */
  lemma PageRemoved(entries: seq<HashEntry>, chains: seq<seq<int>>, memory: KeyFile, f: KeyFile, stack: seq<int>,
                    capacity: nat, pageSize: int, h: int, i: nat)
    requires FileOk(f, chains, stack, capacity, pageSize) && TableBut(entries, chains, memory, f, h, i)
    requires i + 1 < |chains[h]| ==> i + 1 < |entries[h].nodes|
    ensures i < |chains[h]| && i < |entries[h].nodes| && chains[h][i] in FP.Allocated(stack, pageSize)
    ensures forall m :: 0 <= m < |chains[h]| ==> chains[h][m] in f
    ensures (i > 0 ==> chains[h][i - 1] in memory) && (i < |chains[h]| - 1 ==> chains[h][i + 1] in memory)
    ensures var off := chains[h][i];
      var f' := Unlinked(f, chains[h], i); var chains' := chains[h := Without(chains[h], i)];
      && FileOk(f', chains', stack + [off], capacity, pageSize)
      && TableOk(entries[h := RemoveKeyPageNode(entries[h], i)], chains', Dropped(memory, chains[h], i), f')
      && (forall x :: IndexFind(f', chains', x) == if x in PageMap(f[off]) then None else IndexFind(f, chains, x))
  {
    FileChains(f, chains, stack, capacity, pageSize);
    UnlinkFromFile(f, chains, stack, h, i, capacity, pageSize);
    TableDropped(entries, chains, memory, f, h, i, capacity);
  }

  // ---------- a page more or less, in shapes ----------

  lemma BaredLinks(p: KeyPage, poff: int, noff: int)
    ensures Bared(p.(poff := poff)) == Bared(p) == Bared(p.(noff := noff))
  {
    HeaderOnly(p, p.(poff := poff));
    HeaderOnly(p, p.(noff := noff));
  }

  lemma AppendedShapeAt(e: HashEntry, m: KeyFile, f: KeyFile, c: seq<int>, off: int, q: KeyPage, i: nat)
    requires e.nodes == c && off !in c && i <= |c| && forall j :: 0 <= j < |c| ==> c[j] in m && c[j] in f
    requires forall i, j :: 0 <= i < j < |c| ==> c[i] != c[j]
    ensures ShapeAt(AddKeyPageNode(e, off), Appended(m, c, off, q), Appended(f, c, off, q), c + [off], i) ==
      if i < |c| then ShapeAt(e, m, f, c, i) else Written(Bared(q))
  {
    hide Bared;
    if i < |c| {
      AppendedAt(m, c, off, q, i);
      AppendedAt(f, c, off, q, i);
      BaredLinks(m[c[i]], 0, off);
      BaredLinks(f[c[i]], 0, off);
    }
  }

  lemma AppendedShape(e: HashEntry, m: KeyFile, f: KeyFile, c: seq<int>, off: int, q: KeyPage)
    requires e.nodes == c && off !in c && forall j :: 0 <= j < |c| ==> c[j] in m && c[j] in f
    requires forall i, j :: 0 <= i < j < |c| ==> c[i] != c[j]
    ensures BucketShape(AddKeyPageNode(e, off), Appended(m, c, off, q), Appended(f, c, off, q), c + [off]) ==
      BucketShape(e, m, f, c) + [Written(Bared(q))]
  {
    hide ShapeAt, Appended, AddKeyPageNode, Bared;
    var b := BucketShape(e, m, f, c);
    var u := BucketShape(AddKeyPageNode(e, off), Appended(m, c, off, q), Appended(f, c, off, q), c + [off]);
    forall i | 0 <= i <= |c|
      ensures u[i] == if i < |c| then b[i] else Written(Bared(q))
    {
      AppendedShapeAt(e, m, f, c, off, q, i);
    }
    hide BucketShape;
    assert u == b + [Written(Bared(q))];
  }

  /** A new page behind bucket h. */
  lemma AppendedShapes(entries: seq<HashEntry>, m: KeyFile, f: KeyFile, chains: seq<seq<int>>, h: int, off: int,
                       q: KeyPage, capacity: nat)
    requires ChainsOk(f, chains, capacity) && TableOk(entries, chains, m, f) && 0 <= h < |chains|
    requires entries[h].nodes == chains[h]
    requires forall g, i :: 0 <= g < |chains| && 0 <= i < |chains[g]| ==> chains[g][i] != off
    ensures forall i :: 0 <= i < |chains[h]| ==> chains[h][i] in m && chains[h][i] in f
    ensures var bs := Buckets(entries, m, f, chains); var c := chains[h];
      Buckets(entries[h := AddKeyPageNode(entries[h], off)], Appended(m, c, off, q), Appended(f, c, off, q),
              chains[h := c + [off]]) == bs[h := bs[h] + [Written(Bared(q))]]
  {
    var c := chains[h];
    BucketOk(entries, m, f, chains, h, capacity);
    assert forall i :: 0 <= i < |c| ==> entries[h].nodes[i] == c[i];
    hide ChainsOk, TableOk, ChainOk, BucketShape, Bared, Buckets;
    AppendedShape(entries[h], m, f, c, off, q);
    ApartFrom(f, chains, h, capacity);
    OneBucketChanged(entries, m, f, chains, entries[h := AddKeyPageNode(entries[h], off)], Appended(m, c, off, q),
                     Appended(f, c, off, q), chains[h := c + [off]], h, off);
  }

  lemma UnlinkedShapeAt(e: HashEntry, m: KeyFile, f: KeyFile, c: seq<int>, i: nat, n: nat)
    requires e.nodes <= c && i < |e.nodes| && n < |c| - 1 && forall j :: 0 <= j < |c| ==> c[j] in f
    requires forall j :: 0 <= j < |e.nodes| ==> c[j] in m
    requires (i > 0 ==> c[i - 1] in m) && (i < |c| - 1 ==> c[i + 1] in m)
    requires forall i, j :: 0 <= i < j < |c| ==> c[i] != c[j]
    ensures ShapeAt(RemoveKeyPageNode(e, i), Dropped(m, c, i), Unlinked(f, c, i), Without(c, i), n) ==
      ShapeAt(e, m, f, c, OldPosition(i, n))
  {
    hide Bared;
    var j := OldPosition(i, n);
    WithoutNeighbours(c, i, n);
    UnlinkedAt(f, c, i, j);
    BaredLinks(f[c[j]], Before(c, i), After(c, i));
    if j < |e.nodes| {
      BaredLinks(m[c[j]], Before(c, i), After(c, i));
    }
  }

  lemma UnlinkedShape(e: HashEntry, m: KeyFile, f: KeyFile, c: seq<int>, i: nat)
    requires e.nodes <= c && i < |e.nodes| && forall j :: 0 <= j < |c| ==> c[j] in f
    requires forall j :: 0 <= j < |e.nodes| ==> c[j] in m
    requires (i > 0 ==> c[i - 1] in m) && (i < |c| - 1 ==> c[i + 1] in m)
    requires forall i, j :: 0 <= i < j < |c| ==> c[i] != c[j]
    ensures var b := BucketShape(e, m, f, c);
      BucketShape(RemoveKeyPageNode(e, i), Dropped(m, c, i), Unlinked(f, c, i), Without(c, i)) ==
      b[..i] + b[i + 1..]
  {
    hide ShapeAt, Dropped, Unlinked, RemoveKeyPageNode;
    var b := BucketShape(e, m, f, c);
    var u := BucketShape(RemoveKeyPageNode(e, i), Dropped(m, c, i), Unlinked(f, c, i), Without(c, i));
    forall n | 0 <= n < |c| - 1
      ensures u[n] == b[OldPosition(i, n)]
    {
      UnlinkedShapeAt(e, m, f, c, i, n);
    }
    assert |u| == |b| - 1;
    hide BucketShape;
    assert u == b[..i] + b[i + 1..];
  }

  /** The page at position i of bucket h is gone. */
  lemma UnlinkedShapes(entries: seq<HashEntry>, m: KeyFile, f: KeyFile, chains: seq<seq<int>>, h: int, i: nat,
                       capacity: nat)
    requires ChainsOk(f, chains, capacity) && TableBut(entries, chains, m, f, h, i)
    requires forall j :: 0 <= j < |chains[h]| ==> chains[h][j] in f
    requires (i > 0 ==> chains[h][i - 1] in m) && (i < |chains[h]| - 1 ==> chains[h][i + 1] in m)
    ensures i < |entries[h].nodes| && i < |chains[h]| && |entries| == |chains|
    ensures var bs := Buckets(entries, m, f, chains); var c := chains[h];
      Buckets(entries[h := RemoveKeyPageNode(entries[h], i)], Dropped(m, c, i), Unlinked(f, c, i),
              chains[h := Without(c, i)]) == bs[h := bs[h][..i] + bs[h][i + 1..]]
  {
    var c := chains[h];
    assert ChainOk(f, h, c, capacity, |chains|);
    hide ChainOk, ChainsOk, BucketShape, Buckets;
    UnlinkedShape(entries[h], m, f, c, i);
    ApartFrom(f, chains, h, capacity);
    hide TableBut;
    OneBucketChanged(entries, m, f, chains, entries[h := RemoveKeyPageNode(entries[h], i)], Dropped(m, c, i),
                     Unlinked(f, c, i), chains[h := Without(c, i)], h, -1);
  }

  /** Loading the successor of the emptied page changes no bucket. */
  lemma TableButShapes(entries: seq<HashEntry>, m: KeyFile, f: KeyFile, chains: seq<seq<int>>, h: int, i: nat,
                       capacity: nat)
    requires ChainsOk(f, chains, capacity) && TableBut(entries, chains, m, f, h, i)
    requires i + 1 == |entries[h].nodes| < |chains[h]| && chains[h][i + 1] in f
    ensures |entries| == |chains| && var off := chains[h][i + 1];
      Buckets(entries[h := AddKeyPageNode(entries[h], off)], m[off := f[off]], f, chains) ==
      Buckets(entries, m, f, chains)
  {
    var c, off := chains[h], chains[h][i + 1];
    var e := AddKeyPageNode(entries[h], off);
    assert ChainOk(f, h, c, capacity, |chains|);
    LoadedMet(entries[h], m, f, c, off);
    SameMetShape(entries[h], m, e, m[off := f[off]], f, c);
    hide ChainOk, TableBut;
    SearchedShapes(entries, m, entries[h := e], m[off := f[off]], f, chains, h, capacity);
  }

  // ---------- reopening ----------

  /** The file has a page at every aligned offset below eof and nowhere else. */
  ghost predicate Extent(f: KeyFile, eof: int, pageSize: int)
    requires pageSize > 0
  {
    FP.Aligned(eof, pageSize) && forall off :: off in f <==> off < eof && FP.Aligned(off, pageSize)
  }

  /** The head of a chain once the scan has passed it. */
  ghost function HeadBelow(c: seq<int>, offset: int): int {
    if c != [] && c[0] < offset then c[0] else -1
  }

  /** Below the scan position the stack tells pages in use from the others. */
  ghost predicate ScannedFree(f: KeyFile, stack: seq<int>, offset: int, pageSize: int)
    requires pageSize > 0 && |stack| >= 1
  {
    forall off :: off in f ==> (off in FP.Allocated(stack, pageSize) <==> off >= offset || Live(f[off]))
  }

  ghost predicate ScannedHeads(entries: seq<HashEntry>, chains: seq<seq<int>>, offset: int) {
    && |entries| == |chains|
    && (forall h :: 0 <= h < |chains| ==> entries[h] == HashEntry(HeadBelow(chains[h], offset), []))
  }

  lemma ScanStart(f: KeyFile, chains: seq<seq<int>>, capacity: nat)
    requires ChainsOk(f, chains, capacity)
    ensures forall h :: 0 <= h < |chains| ==> HeadBelow(chains[h], 0) == -1
  {
    forall h | 0 <= h < |chains|
      ensures HeadBelow(chains[h], 0) == -1
    {
      ChainInFile(f, h, chains[h], capacity, |chains|);
    }
  }

  /** Pages not in use are pushed, the others stay counted as in use. */
  lemma ScanFree(f: KeyFile, stack: seq<int>, offset: int, eof: int, pageSize: int)
    requires pageSize > 0 && FP.GoodStack(stack, pageSize) && Extent(f, eof, pageSize) && stack[0] == eof
    requires offset in f && ScannedFree(f, stack, offset, pageSize)
    ensures offset in FP.Allocated(stack, pageSize)
    ensures Live(f[offset]) ==> ScannedFree(f, stack, offset + pageSize, pageSize)
    ensures !Live(f[offset]) ==> ScannedFree(f, stack + [offset], offset + pageSize, pageSize)
  {
    FP.NextAligned(offset, pageSize);
    FP.FreeSafe(stack, pageSize, offset);
  }

  lemma ScanDead(f: KeyFile, chains: seq<seq<int>>, offset: int, capacity: nat, pageSize: int)
    requires ChainsOk(f, chains, capacity) && pageSize > 0 && offset in f && !Live(f[offset])
    requires forall p :: offset < p < offset + pageSize ==> p !in f
    ensures forall h :: 0 <= h < |chains| ==> HeadBelow(chains[h], offset + pageSize) == HeadBelow(chains[h], offset)
  {
    forall h | 0 <= h < |chains|
      ensures HeadBelow(chains[h], offset + pageSize) == HeadBelow(chains[h], offset)
    {
      ChainInFile(f, h, chains[h], capacity, |chains|);
    }
  }

  /** A page in use without a predecessor is the first of its bucket, and only that one is. */
  lemma ScanLive(f: KeyFile, chains: seq<seq<int>>, offset: int, capacity: nat, pageSize: int)
    requires ChainsOk(f, chains, capacity) && LiveOk(f, chains) && pageSize > 0 && offset in f && Live(f[offset])
    requires forall p :: offset < p < offset + pageSize ==> p !in f
    ensures var g := f[offset].hash;
      && 0 <= g < |chains|
      && (f[offset].poff == -1 <==> Head(chains[g]) == offset)
      && (f[offset].poff == -1 ==> HeadBelow(chains[g], offset) == -1)
      && (forall h :: 0 <= h < |chains| ==>
            HeadBelow(chains[h], offset + pageSize) ==
            (if h == g && f[offset].poff == -1 then offset else HeadBelow(chains[h], offset)))
  {
    hide PageMap, PageOk, Hash;
    var g := f[offset].hash;
    var c := chains[g];
    assert ChainOk(f, g, c, capacity, |chains|);
    var i :| 0 <= i < |c| && c[i] == offset;
    assert LinkGood(f, g, c, i, capacity, |chains|);
    if i > 0 { assert LinkGood(f, g, c, i - 1, capacity, |chains|); }
    forall h | 0 <= h < |chains|
      ensures HeadBelow(chains[h], offset + pageSize) ==
        if h == g && f[offset].poff == -1 then offset else HeadBelow(chains[h], offset)
    {
      ChainInFile(f, h, chains[h], capacity, |chains|);
    }
  }

  lemma ScanEnd(f: KeyFile, chains: seq<seq<int>>, offset: int, eof: int, capacity: nat, pageSize: int)
    requires ChainsOk(f, chains, capacity) && pageSize > 0 && Extent(f, eof, pageSize)
    requires FP.Aligned(offset, pageSize) && offset !in f
    ensures offset >= eof
    ensures forall h :: 0 <= h < |chains| ==> HeadBelow(chains[h], offset) == Head(chains[h])
  {
    forall h | 0 <= h < |chains|
      ensures HeadBelow(chains[h], offset) == Head(chains[h])
    {
      ChainInFile(f, h, chains[h], capacity, |chains|);
    }
  }

  class KeyIndex {
    const size: nat
    const capacity: nat
    const pageSize: int
    var keyFile: KeyFile
    var memory: KeyFile
    var entries: seq<HashEntry>
    var fdp: FP.FreeDiskPageMgr
    /** The pages of each bucket, in chain order. */
    ghost var chains: seq<seq<int>>

    ghost predicate Sized()
      reads this
    {
      && size > 0 && |chains| == size
      && pageSize > 0 && capacity == NumOfKeys(pageSize) && 1 <= capacity <= MAX_SLOTS
    }

    ghost predicate Valid()
      reads this, fdp
    {
      && Sized()
      && fdp.Valid() && fdp.pageSize == pageSize
      && FileOk(keyFile, chains, fdp.stack, capacity, pageSize)
      && TableOk(entries, chains, memory, keyFile)
    }

    /** The value offset recorded for a key. */
    ghost function Lookup(k: Key): Option<int>
      requires size > 0 && |chains| == size
      reads this
    {
      IndexFind(keyFile, chains, k)
    }

    ghost function Shapes(): (bs: seq<seq<PageShape>>)
      reads this
    {
      Buckets(entries, memory, keyFile, chains)
    }

    /** Balanced pages have stayed balanced. */
    ghost predicate KeepsBalance(f: KeyFile, m: KeyFile)
      reads this
    {
      AllBalanced(f) && AllBalanced(m) ==> AllBalanced(keyFile) && AllBalanced(memory)
    }

    /** Opens a key file of the given extent. Nothing but the page headers is read. */
    constructor (size: nat, pageSize: int, f: KeyFile, eof: int, ghost chains: seq<seq<int>>)
      requires size > 0 && |chains| == size && pageSize > 0 && 1 <= NumOfKeys(pageSize) <= MAX_SLOTS
      requires Extent(f, eof, pageSize) && ChainsOk(f, chains, NumOfKeys(pageSize)) && LiveOk(f, chains)
      ensures Valid() && fresh(fdp)
      ensures this.size == size && this.pageSize == pageSize && keyFile == f && this.chains == chains
      ensures memory == map[] && forall h :: 0 <= h < size ==> entries[h].nodes == []
    {
      this.size, this.pageSize, capacity := size, pageSize, NumOfKeys(pageSize);
      keyFile, memory := f, map[];
      entries := seq(size, _ => HashEntry(-1, []));
      fdp := new FP.FreeDiskPageMgr(pageSize, false, []);
      this.chains := chains;
      new;
      PopulateHashTable(eof);
    }

    /** Scans the headers: pages not in use go to the free stack, and the first page of each bucket
        goes to the hash table. */
    method PopulateHashTable(eof: int)
      requires Sized() && fdp.pageSize == pageSize && fdp.stack == [] && fdp.Mirrors()
      requires Extent(keyFile, eof, pageSize) && ChainsOk(keyFile, chains, capacity) && LiveOk(keyFile, chains)
      requires memory == map[] && entries == seq(size, _ => HashEntry(-1, []))
      modifies this`entries, fdp
      ensures Valid() && fdp.stack[0] == eof
      ensures forall h :: 0 <= h < size ==> entries[h].nodes == []
    {
      fdp.Free(eof);
      var offset := 0;
      ScanStart(keyFile, chains, capacity);
      while offset in keyFile
        invariant FP.Aligned(offset, pageSize) && offset <= eof
        invariant fdp.Valid() && fdp.stack[0] == eof
        invariant ScannedFree(keyFile, fdp.stack, offset, pageSize)
        invariant ScannedHeads(entries, chains, offset)
        decreases eof - offset
      {
        FP.NextAligned(offset, pageSize);
        ScanPage(offset, eof);
        offset := offset + pageSize;
      }
      ScanEnd(keyFile, chains, offset, eof, capacity, pageSize);
    }

    method ScanPage(offset: int, ghost eof: int)
      requires Sized() && fdp.pageSize == pageSize && fdp.Valid() && fdp.stack[0] == eof
      requires Extent(keyFile, eof, pageSize) && ChainsOk(keyFile, chains, capacity) && LiveOk(keyFile, chains)
      requires offset in keyFile && ScannedFree(keyFile, fdp.stack, offset, pageSize)
      requires ScannedHeads(entries, chains, offset)
      modifies this`entries, fdp
      ensures fdp.Valid() && fdp.stack[0] == eof
      ensures ScannedFree(keyFile, fdp.stack, offset + pageSize, pageSize)
      ensures ScannedHeads(entries, chains, offset + pageSize)
    {
      var kp := keyFile[offset];
      FP.NextAligned(offset, pageSize);
      ScanFree(keyFile, fdp.stack, offset, eof, pageSize);
      if kp.deleted || kp.vcount <= 0 {
        ScanDead(keyFile, chains, offset, capacity, pageSize);
        fdp.Free(offset);
      } else {
        ScanLive(keyFile, chains, offset, capacity, pageSize);
        if kp.poff == -1 && entries[kp.hash].offset == -1 {
          entries := entries[kp.hash := entries[kp.hash].(offset := offset)];
        }
      }
    }

    /** The walk's visit to one loaded page, with the write it makes. */
    method VisitAt(off: int, k: Key, voff: int, op: Op) returns (hit: bool, kidx: int)
      requires off in memory && PageOk(memory[off])
      requires op == SET ==> k !in PageMap(memory[off])
      modifies this`memory, this`keyFile
      ensures off in memory && memory == old(memory)[off := memory[off]]
      ensures Visited(op, old(memory)[off], memory[off], k, voff, hit, kidx)
      ensures keyFile == if hit && (op == SET || (op == DEL && memory[off].vcount > 0))
                         then old(keyFile)[off := memory[off]] else old(keyFile)
      ensures op == GET ==> memory == old(memory)
      ensures op != DEL ==> KeepsBalance(old(keyFile), old(memory))
    {
      var q;
      q, hit, kidx := VisitPage(op, memory[off], k, voff);
      if op != DEL && AllBalanced(memory) && AllBalanced(keyFile) {
        BalancedUpdate(memory, off, q);
        BalancedUpdate(keyFile, off, q);
      }
      memory := memory[off := q];
      if hit && (op == SET || (op == DEL && q.vcount > 0)) {
        keyFile := keyFile[off := q];
      }
    }

    ghost predicate Walking(op: Op, h: int, k: Key, pos: nat, next: int)
      reads this
    {
      WalkOk(entries, chains, memory, keyFile, capacity, op, h, k, pos, next)
    }

    /** How the walk that began with file f has ended at position pos. */
    ghost predicate Stopped(op: Op, h: int, k: Key, voff: int, pos: nat, kidx: int, p: KeyPage, f: KeyFile)
      reads this
    {
      StopOk(entries, chains, memory, f, keyFile, op, h, k, voff, pos, kidx, p)
    }

    /** One page of the walk: either it stops here, or it goes on with the next page. */
    method WalkAt(op: Op, h: int, k: Key, voff: int, pos: nat, off: int)
      returns (hit: bool, kidx: int, next: int, ghost p: KeyPage)
      requires Walking(op, h, k, pos, off) && pos < |entries[h].nodes|
      modifies this`memory, this`keyFile
      ensures !hit ==> keyFile == old(keyFile) && Walking(op, h, k, pos + 1, next)
      ensures hit ==> Stopped(op, h, k, voff, pos, kidx, p, old(keyFile))
      ensures off in old(memory) && p == old(memory)[off] && off in memory
      ensures memory == old(memory)[off := memory[off]]
      ensures !hit ==> PassedPage(op, k, p, memory[off])
      ensures op != DEL ==> KeepsBalance(old(keyFile), old(memory))
    {
      hide WalkOk, StopOk, Target, Visited, AllBalanced, PassedPage;
      ghost var f, m := keyFile, memory;
      WalkPage(entries, chains, memory, keyFile, capacity, op, h, k, pos, off);
      p := memory[off];
      hit, kidx := VisitAt(off, k, voff, op);
      next := memory[off].noff;
      if hit {
        WalkHit(entries, chains, m, f, keyFile, capacity, op, h, k, voff, pos, off, memory[off], kidx);
      } else {
        WalkMiss(entries, chains, m, f, capacity, op, h, k, voff, pos, off, memory[off], kidx);
        VisitedPassed(op, p, memory[off], k, voff, kidx);
      }
    }

    /** How far the walk that began with entry e and memory m has come. */
    ghost predicate HasWalked(op: Op, h: int, k: Key, e: HashEntry, m: KeyFile, f: KeyFile, n: nat, rest: nat)
      reads this
    {
      && 0 <= h < |chains| == |entries|
      && Walked(op, k, e, m, entries[h], memory, f, chains[h], n, rest) && Aside(m, memory, chains[h])
    }

    /** A page of the walk that is loaded. */
    method WalkOn(op: Op, h: int, k: Key, voff: int, pos: nat, off: int, ghost e: HashEntry, ghost m: KeyFile)
      returns (hit: bool, kidx: int, next: int, ghost p: KeyPage)
      requires Walking(op, h, k, pos, off) && pos < |entries[h].nodes|
      requires HasWalked(op, h, k, e, m, keyFile, pos, pos)
      modifies this`memory, this`keyFile
      ensures pos < |chains[h]| && off == chains[h][pos]
      ensures !hit ==> keyFile == old(keyFile) && Walking(op, h, k, pos + 1, next)
      ensures hit ==> Stopped(op, h, k, voff, pos, kidx, p, old(keyFile))
      ensures p == PageMet(e, m, old(keyFile), chains[h], pos)
      ensures HasWalked(op, h, k, e, m, old(keyFile), if hit then pos else pos + 1, pos + 1)
      ensures op != DEL ==> KeepsBalance(old(keyFile), old(memory))
    {
      hide WalkOk, StopOk, AllBalanced, Walked, PassedPage, PageMet;
      WalkFacts(entries, chains, memory, keyFile, capacity, op, h, k, pos, off);
      WalkPage(entries, chains, memory, keyFile, capacity, op, h, k, pos, off);
      ghost var was := memory;
      hit, kidx, next, p := WalkAt(op, h, k, voff, pos, off);
      WalkedVisit(op, k, e, m, entries[h], was, old(keyFile), chains[h], pos, memory[off]);
    }

    /** The same for a page that is still on disk: it is loaded first. */
    method WalkNext(op: Op, h: int, k: Key, voff: int, pos: nat, off: int, ghost e: HashEntry, ghost m: KeyFile)
      returns (hit: bool, kidx: int, next: int, ghost p: KeyPage)
      requires Walking(op, h, k, pos, off) && off != -1 && pos == |entries[h].nodes|
      requires HasWalked(op, h, k, e, m, keyFile, pos, pos)
      modifies this`memory, this`entries, this`keyFile
      ensures pos < |chains[h]| && |entries| == |chains| && entries[h].nodes == chains[h][..pos + 1]
      ensures off == chains[h][pos] && entries == old(entries)[h := entries[h]]
      ensures !hit ==> keyFile == old(keyFile) && Walking(op, h, k, pos + 1, next)
      ensures hit ==> Stopped(op, h, k, voff, pos, kidx, p, old(keyFile))
      ensures p == PageMet(e, m, old(keyFile), chains[h], pos)
      ensures HasWalked(op, h, k, e, m, old(keyFile), if hit then pos else pos + 1, pos + 1)
      ensures op != DEL ==> KeepsBalance(old(keyFile), old(memory))
    {
      hide WalkOk, StopOk, AllBalanced, Walked, PageMet;
      WalkFacts(entries, chains, memory, keyFile, capacity, op, h, k, pos, off);
      WalkLoaded(entries, chains, memory, keyFile, capacity, op, h, k, pos, off);
      WalkedLoad(op, k, e, m, entries[h], memory, keyFile, chains[h], pos, off);
      BalancedLoad(keyFile, memory, off);
      memory := memory[off := keyFile[off]];
      entries := entries[h := AddKeyPageNode(entries[h], off)];
      hit, kidx, next, p := WalkOn(op, h, k, voff, pos, off, e, m);
    }

    /** The walk over the loaded pages of a bucket. */
    method WalkResident(op: Op, h: int, k: Key, voff: int)
      returns (hit: bool, kidx: int, pos: nat, last: int, next: int, ghost p: KeyPage)
      requires |entries| == |chains| && 0 <= h < |chains| && Walking(op, h, k, 0, entries[h].offset)
      modifies this`memory, this`keyFile
      ensures hit ==> pos < |entries[h].nodes| && Stopped(op, h, k, voff, pos, kidx, p, old(keyFile))
      ensures hit ==> pos < |chains[h]| && p == PageMet(entries[h], old(memory), old(keyFile), chains[h], pos)
      ensures HasWalked(op, h, k, entries[h], old(memory), old(keyFile), pos, if hit then pos + 1 else pos)
      ensures !hit ==> keyFile == old(keyFile) && Walking(op, h, k, pos, next) && last == Before(chains[h], pos)
      ensures !hit ==> pos == |entries[h].nodes|
      ensures op != DEL ==> KeepsBalance(old(keyFile), old(memory))
    {
      hide WalkOk, StopOk, AllBalanced, PageMet;
      hit, kidx, pos, last, next := false, -1, 0, -1, entries[h].offset;
      p := InitKeyPage(capacity);
      while next != -1 && pos < |entries[h].nodes|
        invariant Walking(op, h, k, pos, next) && keyFile == old(keyFile)
        invariant op != DEL ==> KeepsBalance(old(keyFile), old(memory))
        invariant pos <= |entries[h].nodes| && last == Before(chains[h], pos)
        invariant HasWalked(op, h, k, entries[h], old(memory), keyFile, pos, pos)
        decreases |entries[h].nodes| - pos
      {
        var after;
        hit, kidx, after, p := WalkOn(op, h, k, voff, pos, next, entries[h], old(memory));
        if hit {
          return;
        }
        last, pos, next := next, pos + 1, after;
      }
      hit := false;
      WalkRanOut(entries, chains, memory, keyFile, capacity, op, h, k, pos, next);
    }

    /** The walk over the pages still on disk. */
    method WalkDisk(op: Op, h: int, k: Key, voff: int, from: nat, offset: int, before: int,
                    ghost e: HashEntry, ghost m: KeyFile)
      returns (hit: bool, kidx: int, pos: nat, last: int, ghost p: KeyPage)
      requires Walking(op, h, k, from, offset) && before == Before(chains[h], from)
      requires from == |entries[h].nodes| && HasWalked(op, h, k, e, m, keyFile, from, from)
      modifies this`memory, this`entries, this`keyFile
      ensures |entries| == |chains| && from <= pos <= |chains[h]| && entries == old(entries)[h := entries[h]]
      ensures hit ==> pos < |chains[h]| && Stopped(op, h, k, voff, pos, kidx, p, old(keyFile))
      ensures entries[h].nodes == chains[h][..if hit then pos + 1 else pos]
      ensures hit ==> p == PageMet(e, m, old(keyFile), chains[h], pos)
      ensures HasWalked(op, h, k, e, m, old(keyFile), pos, if hit then pos + 1 else pos)
      ensures !hit ==> keyFile == old(keyFile) && Walking(op, h, k, pos, -1) && last == Before(chains[h], pos)
      ensures op != DEL ==> KeepsBalance(old(keyFile), old(memory))
    {
      hide WalkOk, StopOk, AllBalanced, PageMet, Walked;
      WalkFacts(entries, chains, memory, keyFile, capacity, op, h, k, from, offset);
      var next := offset;
      hit, kidx, pos, last := false, -1, from, before;
      p := InitKeyPage(capacity);
      while next != -1
        invariant Walking(op, h, k, pos, next) && keyFile == old(keyFile)
        invariant op != DEL ==> KeepsBalance(old(keyFile), old(memory))
        invariant |entries| == |chains| && from <= pos <= |chains[h]| && entries == old(entries)[h := entries[h]]
        invariant last == Before(chains[h], pos) && entries[h].nodes == chains[h][..pos]
        invariant HasWalked(op, h, k, e, m, keyFile, pos, pos)
        decreases |chains[h]| - pos
      {
        var after;
        hit, kidx, after, p := WalkNext(op, h, k, voff, pos, next, e, m);
        if hit {
          return;
        }
        last, pos, next := next, pos + 1, after;
      }
      hit := false;
    }

    /** Walks over the pages of the key's bucket, the loaded ones first and then those still on disk,
        until one has the key (GET, DEL) or has room for it (SET). */
    method ProcessKeyPages(op: Op, h: int, k: Key, voff: int)
      returns (ok: bool, kidx: int, pos: nat, last: int, ghost p: KeyPage)
      requires |entries| == |chains| && 0 <= h < |chains| && Walking(op, h, k, 0, entries[h].offset)
      modifies this`memory, this`entries, this`keyFile
      ensures |entries| == |chains| && pos <= |chains[h]| && entries == old(entries)[h := entries[h]]
      ensures ok ==> pos < |entries[h].nodes| && Stopped(op, h, k, voff, pos, kidx, p, old(keyFile))
      ensures ok ==> pos < |chains[h]| && p == PageMet(old(entries)[h], old(memory), old(keyFile), chains[h], pos)
      ensures HasWalked(op, h, k, old(entries)[h], old(memory), old(keyFile), pos, if ok then pos + 1 else pos)
      ensures !ok ==> keyFile == old(keyFile) && Walking(op, h, k, pos, -1) && last == Before(chains[h], pos)
      ensures !ok ==> entries[h].nodes == chains[h]
      ensures op != DEL ==> KeepsBalance(old(keyFile), old(memory))
    {
      hide WalkOk, StopOk, AllBalanced, PageMet, Walked, Aside;
      ghost var e, m := entries[h], memory;
      var next;
      ok, kidx, pos, last, next, p := WalkResident(op, h, k, voff);
      if !ok {
        ok, kidx, pos, last, p := WalkDisk(op, h, k, voff, pos, next, last, e, m);
        if !ok {
          WalkFinished(entries, chains, memory, keyFile, capacity, op, h, k, pos);
        }
      }
    }

    /** Finds the value offset recorded for a key. Pages are loaded on the way, nothing else changes. */
    method Locate(h: int, k: Key) returns (found: bool, kidx: int, voff: int, pos: nat)
      requires Valid() && h == Hash(k, size)
      modifies this`memory, this`entries, this`keyFile
      ensures Valid() && keyFile == old(keyFile) && chains == old(chains)
      ensures |entries| == size == |old(entries)|
      ensures SameMet(old(entries)[h], old(memory), entries[h], memory, keyFile, chains[h])
      ensures Shapes() == old(Shapes())
      ensures KeepsBalance(old(keyFile), old(memory))
      ensures found <==> Lookup(k).Some?
      ensures found ==> Lookup(k) == Some(voff)
      ensures found ==> pos == FirstWith(keyFile, chains[h], k) && pos < |chains[h]| && chains[h][pos] in memory
      ensures found ==> |entries| == size && pos < |entries[h].nodes| && k in PageMap(memory[chains[h][pos]])
      ensures found ==> PageOk(memory[chains[h][pos]]) && kidx == Search(PageTree(memory[chains[h][pos]]), k)
    {
      hide WalkOk, StopOk, FileOk, ChainsOk, FirstWith, AllBalanced, SameMet, Walked;
      FileChains(keyFile, chains, fdp.stack, capacity, pageSize);
      WalkStart(entries, chains, memory, keyFile, capacity, GET, h, k);
      var last;
      ghost var p;
      found, kidx, pos, last, p := ProcessKeyPages(GET, h, k, -1);
      voff := -1;
      if found {
        GetStops(entries, chains, memory, old(keyFile), keyFile, h, k, pos, kidx, p);
        assert EntryOk(entries[h], chains[h], memory, keyFile);
        var off := entries[h].nodes[pos];
        voff := memory[off].keys[kidx].voff;
      } else {
        WalkFinished(entries, chains, memory, keyFile, capacity, GET, h, k, pos);
      }
      SearchedMet(GET, k, old(entries)[h], old(memory), entries[h], memory, keyFile, chains[h], pos,
                  if found then pos + 1 else pos);
      SearchedShapes(old(entries), old(memory), entries, memory, keyFile, chains, h, capacity);
    }

    /** Records a value offset for a new key: in the first page of the bucket with room, or in a
        new page. */
    method Insert(h: int, k: Key, voff: int)
      requires Valid() && h == Hash(k, size) && Lookup(k) == None
      modifies this, fdp
      ensures Valid() && fdp == old(fdp)
      ensures |chains| == size && forall x ::
        IndexFind(keyFile, chains, x) == if x == k then Some(voff) else IndexFind(old(keyFile), old(chains), x)
      ensures GrownFor(old(keyFile), old(chains), h, chains)
      ensures |old(Shapes())| == size
      ensures Shapes() == old(Shapes())[h := PutShape(old(Shapes())[h], Rank(k), capacity)]
      ensures KeepsBalance(old(keyFile), old(memory))
    {
      hide WalkOk, StopOk, FileOk, TableOk, ChainsOk, Find, AllBalanced, Walked, EntryOk, ChainOk, PutShape, PageMet;
      FileChains(keyFile, chains, fdp.stack, capacity, pageSize);
      WalkStart(entries, chains, memory, keyFile, capacity, SET, h, k);
      var ok, kidx, pos, last;
      ghost var p;
      ghost var f := keyFile;
      ok, kidx, pos, last, p := ProcessKeyPages(SET, h, k, voff);
      if ok {
        SetStopped(entries, chains, memory, f, keyFile, h, k, voff, pos, kidx, p);
        SetShapes(old(entries), old(memory), f, chains, entries, memory, keyFile, capacity, h, k, voff, pos, kidx, p);
        SetDone(entries, chains, memory, f, keyFile, fdp.stack, capacity, pageSize, h, k, voff, pos, kidx, p);
      } else {
        WalkFinished(entries, chains, memory, keyFile, capacity, SET, h, k, pos);
        SearchedMet(SET, k, old(entries)[h], old(memory), entries[h], memory, f, chains[h], pos, pos);
        SearchedShapes(old(entries), old(memory), entries, memory, f, chains, h, capacity);
        BucketOk(old(entries), old(memory), f, chains, h, capacity);
        RoomAt(old(entries)[h], old(memory), f, h, chains[h], k, capacity, size);
        AddNewPage(h, k, voff, last);
      }
    }

    /** Starts a new page for a key, at a free offset, and links it behind the last page. */
    method AddNewPage(h: int, k: Key, voff: int, last: int)
      requires Valid() && h == Hash(k, size) && Lookup(k) == None
      requires entries[h].nodes == chains[h] && last == Before(chains[h], |chains[h]|)
      modifies this, fdp
      ensures Valid() && fdp == old(fdp)
      ensures |chains| == size && forall x ::
        IndexFind(keyFile, chains, x) == if x == k then Some(voff) else IndexFind(old(keyFile), old(chains), x)
      ensures chains == old(chains)[h := chains[h]] && |chains[h]| == |old(chains)[h]| + 1
      ensures |old(Shapes())| == size
      ensures Shapes() == old(Shapes())[h := old(Shapes())[h] + [Written(BarePut(Tip, Rank(k)))]]
      ensures KeepsBalance(old(keyFile), old(memory))
    {
      hide FileOk, TableOk, Find, PageGood, Appended, PageMap, Before, AllBalanced, BarePut, Bared;
      var q := NewPage(h, k, voff, last);
      NewPageDone(entries, chains, memory, keyFile, fdp.stack, capacity, pageSize, h, k, voff, q);
      FileChains(keyFile, chains, fdp.stack, capacity, pageSize);
      FreePageInNoChain(keyFile, chains, fdp.stack, capacity, pageSize);
      AppendedShapes(entries, memory, keyFile, chains, h, fdp.stack[|fdp.stack| - 1], q, capacity);
      var off := fdp.Get();
      LinkNewPage(h, q, off, last);
    }

    /** Writes the new page and links it in the file, in memory and in the hash table. */
    method LinkNewPage(h: int, q: KeyPage, off: int, last: int)
      requires 0 <= h < |chains| && |entries| == |chains|
      requires forall m ::
        0 <= m < |chains[h]| ==> chains[h][m] in keyFile && chains[h][m] in memory && chains[h][m] != off
      requires last != -1 <==> chains[h] != []
      requires chains[h] != [] ==> last == chains[h][|chains[h]| - 1]
      modifies this`keyFile, this`memory, this`entries, this`chains
      ensures keyFile == Appended(old(keyFile), old(chains)[h], off, q)
      ensures memory == Appended(old(memory), old(chains)[h], off, q)
      ensures entries == old(entries)[h := AddKeyPageNode(old(entries)[h], off)]
      ensures chains == old(chains)[h := old(chains)[h] + [off]]
      ensures PageOk(q) && Balanced(PageTree(q)) ==> KeepsBalance(old(keyFile), old(memory))
    {
      if PageOk(q) && Balanced(PageTree(q)) && AllBalanced(keyFile) && AllBalanced(memory) {
        BalancedAppended(keyFile, chains[h], off, q);
        BalancedAppended(memory, chains[h], off, q);
      }
      keyFile := keyFile[off := q];
      memory := memory[off := q];
      if last != -1 {
        keyFile := keyFile[last := keyFile[last].(noff := off)];
        memory := memory[last := memory[last].(noff := off)];
      }
      entries := entries[h := AddKeyPageNode(entries[h], off)];
      chains := chains[h := chains[h] + [off]];
    }

    method NewPage(h: int, k: Key, voff: int, last: int) returns (q: KeyPage)
      requires 1 <= capacity <= MAX_SLOTS && size > 0 && h == Hash(k, size)
      ensures PageGood(q, h, capacity, size) && PageMap(q) == map[k := voff]
      ensures PageOk(q) && Balanced(PageTree(q)) && Bared(q) == BarePut(Tip, Rank(k))
      ensures q.poff == last && q.noff == -1
    {
      var kp := InitKeyPage(capacity).(hash := h, poff := last);
      InitialPageOk(kp, capacity);
      var kidx;
      q, kidx := PutInPage(kp, k, voff);
      CountIsKeys(q);
      NewPageBared(kp, q, k, voff);
    }

    /** Removes a key that is recorded. A page that loses its last key is unlinked and its offset
        given back. */
    method Delete(h: int, k: Key) returns (kidx: int, ghost p: KeyPage, ghost pos: nat)
      requires Valid() && h == Hash(k, size) && Lookup(k).Some?
      modifies this, fdp
      ensures Valid() && fdp == old(fdp)
      ensures |chains| == size && forall x ::
        IndexFind(keyFile, chains, x) == if x == k then None else IndexFind(old(keyFile), old(chains), x)
      ensures pos == FirstWith(old(keyFile), old(chains)[h], k) && pos < |old(chains)[h]|
      ensures p == PageMet(old(entries)[h], old(memory), old(keyFile), old(chains)[h], pos) && k in PageMap(p)
      ensures PageOk(p) && (kidx == Search(PageTree(p), k) <==> !HasTwoChildren(PageTree(p), k))
      ensures |old(Shapes())| == size
      ensures Shapes() == old(Shapes())[h := RemoveShape(old(Shapes())[h], Rank(k))]
      ensures MeetsTwo(old(Shapes())[h], Rank(k)) <==> HasTwoChildren(PageTree(p), k)
    {
      hide WalkOk, StopOk, FileOk, TableOk, ChainsOk, Find, Unlinked, Dropped, FirstWith, Walked, EntryOk, ChainOk,
        RemoveShape, PageMet, MeetsTwo, Buckets, Aside, HasTwoChildren, Search, PageMap, PageOk, LiveOk;
      FileChains(keyFile, chains, fdp.stack, capacity, pageSize);
      WalkStart(entries, chains, memory, keyFile, capacity, DEL, h, k);
      var ok, i, last;
      ghost var f := keyFile;
      ok, kidx, i, last, p := ProcessKeyPages(DEL, h, k, -1);
      pos := i;
      if ok {
        DelFound(old(entries), old(memory), f, chains, entries, memory, keyFile, capacity, h, k, pos, kidx, p);
        var off := entries[h].nodes[i];
        if memory[off].vcount <= 0 {
          EmptiedDone(entries, chains, memory, f, keyFile, fdp.stack, capacity, pageSize, h, k, pos, kidx, p);
          RemovePage(h, i, off);
        } else {
          DelDone(entries, chains, memory, f, keyFile, fdp.stack, capacity, pageSize, h, k, pos, kidx, p);
        }
      } else {
        WalkFinished(entries, chains, memory, keyFile, capacity, DEL, h, k, pos);
        NothingFound(f, chains[h], k);
        assert false;
      }
    }

    /** Unlinks the emptied page at position i of bucket h. Its successor is loaded first, because its
        link back has to change too. */
    method RemovePage(h: int, i: nat, off: int)
      requires Sized() && 0 <= h < size && fdp.Valid() && fdp.pageSize == pageSize
      requires FileOk(keyFile, chains, fdp.stack, capacity, pageSize)
      requires |entries| == size && TableBut(entries, chains, memory, keyFile, h, i) && off == chains[h][i]
      modifies this, fdp
      ensures Valid() && fdp == old(fdp)
      ensures |chains| == size && off in old(keyFile)
      ensures forall x ::
        IndexFind(keyFile, chains, x) ==
        if x in PageMap(old(keyFile)[off]) then None else IndexFind(old(keyFile), old(chains), x)
      ensures |old(Shapes())| == size && i < |old(Shapes())[h]|
      ensures Shapes() == old(Shapes())[h := old(Shapes())[h][..i] + old(Shapes())[h][i + 1..]]
    {
      hide FileOk, TableBut, IndexFind, AgreeBut, TableOk, ChainsOk, Buckets;
      FileChains(keyFile, chains, fdp.stack, capacity, pageSize);
      LinksOf(entries, chains, memory, keyFile, fdp.stack, capacity, pageSize, h, i);
      var kp := memory[off];
      var prev, next := kp.poff, kp.noff;
      if next != -1 && i + 1 == |entries[h].nodes| {
        TableButLoad(entries, chains, memory, keyFile, fdp.stack, capacity, pageSize, h, i);
        TableButShapes(entries, memory, keyFile, chains, h, i, capacity);
        memory := memory[next := keyFile[next]];
        entries := entries[h := AddKeyPageNode(entries[h], next)];
      }
      PageRemoved(entries, chains, memory, keyFile, fdp.stack, capacity, pageSize, h, i);
      UnlinkedShapes(entries, memory, keyFile, chains, h, i, capacity);
      Unlink(h, i, off, prev, next);
      fdp.Free(off);
    }

    /** The writes that unlink a page. */
    method Unlink(h: int, i: nat, off: int, prev: int, next: int)
      requires 0 <= h < |chains| == |entries| && i < |chains[h]| && off == chains[h][i] && i < |entries[h].nodes|
      requires prev == Before(chains[h], i) && next == After(chains[h], i)
      requires forall m :: 0 <= m < |chains[h]| ==> chains[h][m] in keyFile && chains[h][m] >= 0
      requires forall a, b :: 0 <= a < b < |chains[h]| ==> chains[h][a] != chains[h][b]
      requires (i > 0 ==> chains[h][i - 1] in memory) && (i < |chains[h]| - 1 ==> chains[h][i + 1] in memory)
      modifies this`keyFile, this`memory, this`entries, this`chains
      ensures keyFile == Unlinked(old(keyFile), old(chains)[h], i)
      ensures memory == Dropped(old(memory), old(chains)[h], i)
      ensures entries == old(entries)[h := RemoveKeyPageNode(old(entries)[h], i)]
      ensures chains == old(chains)[h := Without(old(chains)[h], i)]
    {
      // The flag field is written as four bytes and clears the count behind it.
      keyFile := keyFile[off := keyFile[off].(deleted := true, vcount := 0)];
      if prev != -1 {
        keyFile := keyFile[prev := keyFile[prev].(noff := next)];
        memory := memory[prev := memory[prev].(noff := next)];
      }
      if next != -1 {
        keyFile := keyFile[next := keyFile[next].(poff := prev)];
        memory := memory[next := memory[next].(poff := prev)];
      }
      memory := memory - {off};
      entries := entries[h := RemoveKeyPageNode(entries[h], i)];
      chains := chains[h := Without(chains[h], i)];
    }
  }
}
