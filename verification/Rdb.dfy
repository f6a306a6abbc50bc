/** The embedded key/value database (librdb/src/rdb.cpp): get, set, remove, reopen and rebuild over
    the key index and the value store, against a finite map. */
module Rdb {
  import opened Options
  import opened KeyOrder
  import opened AvlTree
  import opened KeyPages
  import opened KeyChains
  import opened ValueStore
  import opened BucketShapes
  import opened Layouts
  import KI = KeyIndex
  import FP = FreeDiskPages

  datatype Status = Ok | NotFound | InvalidArg | InsufficientBuffer | UpdateFailed

  /** What a caller may pass for a key or a value: at least one byte, and the first is not NUL. */
  predicate ValidArg(s: seq<Byte>) {
    |s| > 0 && s[0] != 0
  }

  /** Key file and value file together hold the map m: every key is recorded with the offset of an
      undeleted value page that holds it, and every undeleted value page is recorded that way. */
  ghost predicate Represents(f: KeyFile, chains: seq<seq<int>>, vf: ValueFile, m: map<Key, Value>) {
    && |chains| > 0
    && (forall k :: k in m <==> IndexFind(f, chains, k).Some?)
    && (forall k :: k in m ==>
          var off := IndexFind(f, chains, k).value;
          off in vf && vf[off] == ValuePage(false, k, m[k]))
    && (forall off :: off in vf && !vf[off].deleted ==>
          vf[off].key in m && IndexFind(f, chains, vf[off].key) == Some(off))
  }

  /** Both files determine the map. */
  lemma RepresentsUnique(f: KeyFile, chains: seq<seq<int>>, vf: ValueFile, m: map<Key, Value>, n: map<Key, Value>)
    requires Represents(f, chains, vf, m) && Represents(f, chains, vf, n)
    ensures m == n
  {
    hide IndexFind;
    forall k | k in m
      ensures k in n && n[k] == m[k]
    {
    }
  }

  /** Value offsets are not shared. */
  lemma OffsetsDistinct(f: KeyFile, chains: seq<seq<int>>, vf: ValueFile, m: map<Key, Value>, j: Key, k: Key)
    requires Represents(f, chains, vf, m) && j in m && k in m && j != k
    ensures IndexFind(f, chains, j) != IndexFind(f, chains, k)
  {
    var a, b := IndexFind(f, chains, j).value, IndexFind(f, chains, k).value;
    assert vf[a].key == j && vf[b].key == k;
  }

  lemma Recorded(f: KeyFile, chains: seq<seq<int>>, vf: ValueFile, m: map<Key, Value>, k: Key)
    requires Represents(f, chains, vf, m)
    ensures |chains| > 0 && (k in m <==> IndexFind(f, chains, k).Some?)
    ensures k in m ==> var off := IndexFind(f, chains, k).value; off in vf && vf[off] == ValuePage(false, k, m[k])
  {
  }

  lemma Overwritten(f: KeyFile, chains: seq<seq<int>>, vf: ValueFile, m: map<Key, Value>, k: Key, v: Value)
    requires Represents(f, chains, vf, m) && k in m
    ensures Represents(f, chains, vf[IndexFind(f, chains, k).value := ValuePage(false, k, v)], m[k := v])
  {
    hide IndexFind;
    var off := IndexFind(f, chains, k).value;
    var vf', m' := vf[off := ValuePage(false, k, v)], m[k := v];
    forall x | x in m'
      ensures IndexFind(f, chains, x).Some?
        && var o := IndexFind(f, chains, x).value; o in vf' && vf'[o] == ValuePage(false, x, m'[x])
    {
      if x != k { OffsetsDistinct(f, chains, vf, m, x, k); }
    }
  }

  lemma Added(f: KeyFile, chains: seq<seq<int>>, vf: ValueFile, m: map<Key, Value>,
              f': KeyFile, chains': seq<seq<int>>, k: Key, v: Value, off: int)
    requires Represents(f, chains, vf, m) && k !in m && |chains'| > 0
    requires off in vf ==> vf[off].deleted
    requires forall x :: IndexFind(f', chains', x) == if x == k then Some(off) else IndexFind(f, chains, x)
    ensures Represents(f', chains', vf[off := ValuePage(false, k, v)], m[k := v])
  {
    hide IndexFind;
  }

  lemma Removed(f: KeyFile, chains: seq<seq<int>>, vf: ValueFile, m: map<Key, Value>,
                f': KeyFile, chains': seq<seq<int>>, k: Key)
    requires Represents(f, chains, vf, m) && k in m && |chains'| > 0
    requires forall x :: IndexFind(f', chains', x) == if x == k then None else IndexFind(f, chains, x)
    ensures var off := IndexFind(f, chains, k).value;
      off in vf && Represents(f', chains', vf[off := vf[off].(deleted := true)], m - {k})
  {
    hide IndexFind;
    var off := IndexFind(f, chains, k).value;
    var vf' := vf[off := vf[off].(deleted := true)];
    var m' := m - {k};
    forall x | x in m'
      ensures IndexFind(f', chains', x).Some?
        && var o := IndexFind(f', chains', x).value; o in vf' && vf'[o] == ValuePage(false, x, m'[x])
    {
      OffsetsDistinct(f, chains, vf, m, x, k);
    }
    forall o | o in vf' && !vf'[o].deleted
      ensures vf'[o].key in m' && IndexFind(f', chains', vf'[o].key) == Some(o)
    {
      assert o != off;
    }
  }

  /** The page that holds k in its bucket, the loaded copy if there is one. */
  ghost function PageFor(entries: seq<KI.HashEntry>, memory: KeyFile, f: KeyFile, chains: seq<seq<int>>,
                         k: Key): KeyPage {
    if |chains| == 0 || |entries| != |chains| then InitKeyPage(0)
    else
      var h := Hash(k, |chains|);
      KI.PageMet(entries[h], memory, f, chains[h], FirstWith(f, chains[h], k))
  }

  lemma MetIs(entries: seq<KI.HashEntry>, memory: KeyFile, f: KeyFile, chains: seq<seq<int>>, k: Key, h: int)
    requires |chains| > 0 && |entries| == |chains| && h == Hash(k, |chains|)
    ensures PageFor(entries, memory, f, chains, k)
      == KI.PageMet(entries[h], memory, f, chains[h], FirstWith(f, chains[h], k))
  {
  }

  lemma EntriesSized(index: KI.KeyIndex)
    requires index.Valid()
    ensures |index.entries| == |index.chains| == index.size > 0
  {
  }

  /** The value page of a key is the one that the key file records. */
  lemma OffsetIs(f: KeyFile, chains: seq<seq<int>>, vf: ValueFile, m: map<Key, Value>, k: Key)
    requires Represents(f, chains, vf, m) && k in m
    ensures OffsetOf(vf, k) == IndexFind(f, chains, k).value
  {
    hide IndexFind;
    assert HoldsKey(vf, IndexFind(f, chains, k).value, k);
  }

  class Rdb {
    const index: KI.KeyIndex
    const values: ValueStore
    /** The abstract database. */
    ghost var contents: map<Key, Value>

    ghost predicate Valid()
      reads this, index, values, index.fdp, values.fdp
    {
      && index.Valid() && values.Valid() && index.fdp != values.fdp
      && Represents(index.keyFile, index.chains, values.file, contents)
      && (forall k :: k in contents ==> ValidArg(k))
    }

    /** Every page is balanced, as it is as long as no key is removed. */
    ghost predicate PagesBalanced()
      reads index
    {
      KI.AllBalanced(index.keyFile) && KI.AllBalanced(index.memory)
    }

    /** The page that a walk for key k stops at when the key is there. */
    ghost function Met(k: Key): KeyPage
      reads index
    {
      PageFor(index.entries, index.memory, index.keyFile, index.chains, k)
    }

    /** The database as a value. */
    ghost function LayoutOf(): (s: Layout)
      reads index, values, values.fdp
    {
      Layout(index.capacity, index.Shapes(), values.file, values.fdp.stack)
    }

    ghost function Repr(): set<object>
      reads this, index
    {
      {this, index, values, index.fdp, values.fdp}
    }

    /** Opens the files of a database that held the map m. */
    constructor Open(size: nat, pageSize: int, f: KeyFile, keyEof: int, vf: ValueFile, valueEof: int,
                     freePages: seq<int>, ghost chains: seq<seq<int>>, ghost m: map<Key, Value>)
      requires size > 0 && |chains| == size && pageSize > 0 && 1 <= NumOfKeys(pageSize) <= MAX_SLOTS
      requires KI.Extent(f, keyEof, pageSize) && ChainsOk(f, chains, NumOfKeys(pageSize)) && LiveOk(f, chains)
      requires Extent(vf, valueEof) && Represents(f, chains, vf, m) && forall k :: k in m ==> ValidArg(k)
      ensures Valid() && fresh(index) && fresh(values) && fresh(index.fdp) && fresh(values.fdp)
      ensures contents == m && index.size == size && index.pageSize == pageSize
      ensures index.keyFile == f && index.chains == chains && values.file == vf && index.memory == map[]
      ensures forall h :: 0 <= h < size ==> index.entries[h].nodes == []
      ensures values.fdp.stack == [valueEof] + DeletedFrom(vf, 0, valueEof)
    {
      index := new KI.KeyIndex(size, pageSize, f, keyEof, chains);
      values := new ValueStore(vf, valueEof, freePages);
      contents := m;
    }

    /** Looks a key up. */
    method Get(k: Key, maxLength: int) returns (status: Status, value: Value)
      requires Valid()
      modifies index
      ensures Valid() && contents == old(contents)
      ensures index.keyFile == old(index.keyFile) && index.chains == old(index.chains) && index.fdp == old(index.fdp)
      ensures old(PagesBalanced()) ==> PagesBalanced()
      ensures LayoutOf() == old(LayoutOf())
      ensures status == if !ValidArg(k) || maxLength <= 0 then InvalidArg
                        else if k !in contents then NotFound
                        else if |contents[k]| > maxLength then InsufficientBuffer
                        else Ok
      ensures value == if status == Ok then contents[k] else []
    {
      value := [];
      if !ValidArg(k) || maxLength <= 0 {
        return InvalidArg, [];
      }
      hide IndexFind, FileOk, KI.TableOk, ValuesOk, KI.AllBalanced;
      var h := ComputeHash(k, index.size);
      var found, kidx, voff, pos := index.Locate(h, k);
      if !found {
        return NotFound, [];
      }
      var vp := values.file[voff];
      if |vp.value| > maxLength {
        return InsufficientBuffer, [];
      }
      return Ok, vp.value;
    }

    /** Adds a key or changes its value; for a key that is there an updater computes the new value
        from the old one. */
    method Set(k: Key, v: Value, updater: Option<Value -> Option<Value>>) returns (status: Status)
      requires Valid()
      modifies this, index, values, index.fdp, values.fdp
      ensures Valid() && index.fdp == old(index.fdp)
      ensures status == InvalidArg <==> !ValidArg(k) || !ValidArg(v)
      ensures status != InvalidArg && k in old(contents) && updater.Some? ==>
        match updater.value(old(contents)[k])
        case None => status == UpdateFailed && contents == old(contents)
        case Some(w) => status == Ok && contents == old(contents)[k := w]
      ensures status != InvalidArg && (k !in old(contents) || updater.None?) ==>
        status == Ok && contents == old(contents)[k := v]
      ensures status == InvalidArg ==> contents == old(contents)
      ensures old(PagesBalanced()) ==> PagesBalanced()
      ensures index.size > 0 && |old(index.chains)| == index.size
      ensures status == Ok && k !in old(contents) ==>
        KI.GrownFor(old(index.keyFile), old(index.chains), Hash(k, index.size), index.chains)
      ensures Ready(old(LayoutOf())) && LayoutOf() ==
        if status != Ok then old(LayoutOf())
        else if k in old(contents) then ChangeIn(old(LayoutOf()), k, contents[k])
        else AddIn(old(LayoutOf()), k, contents[k])
    {
      hide IndexFind, FileOk, KI.TableOk, ValuesOk, KI.AllBalanced, Represents, KI.Buckets, ChangeIn, AddIn;
      LayoutReady(this);
      if !ValidArg(k) || !ValidArg(v) {
        return InvalidArg;
      }
      var h := ComputeHash(k, index.size);
      var found, kidx, voff, pos := index.Locate(h, k);
      Recorded(index.keyFile, index.chains, values.file, contents, k);
      if found {
        status := ChangeValue(k, v, updater, voff);
      } else {
        status := AddKey(h, k, v);
      }
    }

    /** A key that is there: its value page is overwritten. */
    method ChangeValue(k: Key, v: Value, updater: Option<Value -> Option<Value>>, voff: int) returns (status: Status)
      requires Valid() && k in contents && IndexFind(index.keyFile, index.chains, k) == Some(voff)
      modifies this, values
      ensures Valid()
      ensures updater.Some? ==>
        match updater.value(old(contents)[k])
        case None => status == UpdateFailed && contents == old(contents)
        case Some(w) => status == Ok && contents == old(contents)[k := w]
      ensures updater.None? ==> status == Ok && contents == old(contents)[k := v]
      ensures Ready(old(LayoutOf())) && LayoutOf() ==
        if status != Ok then old(LayoutOf()) else ChangeIn(old(LayoutOf()), k, contents[k])
    {
      hide IndexFind, FileOk, KI.TableOk, ValuesOk, KI.Buckets, OffsetOf;
      OffsetIs(index.keyFile, index.chains, values.file, contents, k);
      EntriesSized(index);
      var vp := ValuePage(false, k, v);
      if updater.Some? {
        match updater.value(values.file[voff].value) {
          case None => return UpdateFailed;
          case Some(w) => vp := values.file[voff].(value := w);
        }
      }
      Overwritten(index.keyFile, index.chains, values.file, contents, k, vp.value);
      values.Overwrite(voff, vp);
      contents := contents[k := vp.value];
      status := Ok;
    }

    /** A new key: its value page is written first, then the key is recorded. */
    method AddKey(h: int, k: Key, v: Value) returns (status: Status)
      requires Valid() && h == Hash(k, index.size) && k !in contents && ValidArg(k)
      modifies this, index, values, index.fdp, values.fdp
      ensures Valid() && index.fdp == old(index.fdp)
      ensures status == Ok && contents == old(contents)[k := v]
      ensures old(PagesBalanced()) ==> PagesBalanced()
      ensures 0 <= h < |old(index.chains)| && KI.GrownFor(old(index.keyFile), old(index.chains), h, index.chains)
      ensures Ready(old(LayoutOf())) && LayoutOf() == AddIn(old(LayoutOf()), k, v)
    {
      hide IndexFind, FileOk, KI.TableOk, ValuesOk, KI.AllBalanced, KI.Buckets, PutShape;
      ghost var vf := values.file;
      var voff := values.WriteNewPage(ValuePage(false, k, v));
      index.Insert(h, k, voff);
      Added(old(index.keyFile), old(index.chains), vf, contents, index.keyFile, index.chains, k, v, voff);
      contents := contents[k := v];
      status := Ok;
    }

    /** Removes a key. The original aborts unless the slot found by the search is the slot freed by the
        removal; sameSlot tells whether that is so, and it is exactly when the key's node in the page
        that holds it does not have two children. */
    method Remove(k: Key) returns (status: Status, sameSlot: bool)
      requires Valid()
      modifies this, index, values, index.fdp, values.fdp
      ensures Valid() && index.fdp == old(index.fdp)
      ensures status == if !ValidArg(k) then InvalidArg else if k !in old(contents) then NotFound else Ok
      ensures contents == if status == Ok then old(contents) - {k} else old(contents)
      ensures status == Ok ==> PageOk(old(Met(k))) && k in PageMap(old(Met(k)))
      ensures status == Ok ==> (sameSlot <==> !HasTwoChildren(PageTree(old(Met(k))), k))
      ensures status != Ok ==> sameSlot
      ensures Ready(old(LayoutOf())) && LayoutOf() ==
        if status == Ok then RemoveIn(old(LayoutOf()), k) else old(LayoutOf())
      ensures status == Ok ==> (sameSlot <==> !MeetsTwo(BucketOf(old(LayoutOf()), k), Rank(k)))
    {
      hide IndexFind, FileOk, KI.TableOk, ValuesOk, KI.AllBalanced, FirstWith, Represents, KI.Buckets, RemoveIn,
        MeetsTwo;
      LayoutReady(this);
      if !ValidArg(k) {
        return InvalidArg, true;
      }
      ghost var met := Met(k);
      var h := ComputeHash(k, index.size);
      var found, kidx, voff, pos := index.Locate(h, k);
      Recorded(index.keyFile, index.chains, values.file, contents, k);
      if !found {
        return NotFound, true;
      }
      assert Met(k) == met == index.memory[index.chains[h][pos]];
      var didx := Forget(h, k, voff);
      sameSlot := kidx == didx;
      status := Ok;
    }

    /** Marks the value page of a recorded key deleted, removes the key and gives the page back. */
    method Forget(h: int, k: Key, voff: int) returns (kidx: int)
      requires Valid() && h == Hash(k, index.size) && k in contents
      requires IndexFind(index.keyFile, index.chains, k) == Some(voff)
      modifies this, index, values, index.fdp, values.fdp
      ensures Valid() && index.fdp == old(index.fdp) && contents == old(contents) - {k}
      ensures PageOk(old(Met(k))) && k in PageMap(old(Met(k)))
      ensures kidx == Search(PageTree(old(Met(k))), k) <==> !HasTwoChildren(PageTree(old(Met(k))), k)
      ensures Ready(old(LayoutOf())) && LayoutOf() == RemoveIn(old(LayoutOf()), k)
      ensures MeetsTwo(BucketOf(old(LayoutOf()), k), Rank(k)) <==> HasTwoChildren(PageTree(old(Met(k))), k)
    {
      hide IndexFind, FileOk, KI.TableOk, ValuesOk, KI.AllBalanced, FirstWith, Represents, KI.PageMet, PageFor,
        KI.Buckets, RemoveShape, MeetsTwo, OffsetOf, HasTwoChildren, Search;
      OffsetIs(index.keyFile, index.chains, values.file, contents, k);
      ghost var vf := values.file;
      EntriesSized(index);
      MetIs(index.entries, index.memory, index.keyFile, index.chains, k, h);
      Recorded(index.keyFile, index.chains, values.file, contents, k);
      values.MarkDeleted(voff);
      ghost var page, pos;
      kidx, page, pos := index.Delete(h, k);
      values.FreePage(voff, vf);
      Removed(old(index.keyFile), old(index.chains), vf, contents, index.keyFile, index.chains, k);
      contents := contents - {k};
    }
  }

  lemma LayoutReady(db: Rdb)
    requires db.Valid()
    ensures Ready(db.LayoutOf()) && |db.index.entries| == |db.index.chains| == |db.LayoutOf().buckets| == db.index.size
  {
  }

  /** With nothing loaded a walk meets the pages of the file. */
  lemma NothingLoaded(entries: seq<KI.HashEntry>, m: KeyFile, f: KeyFile, chains: seq<seq<int>>,
                      entries': seq<KI.HashEntry>, m': KeyFile, h: int)
    requires |entries| == |chains| == |entries'| && 0 <= h < |chains| && entries'[h].nodes == []
    ensures KI.Buckets(entries', m', f, chains)[h] == Reloaded(KI.Buckets(entries, m, f, chains)[h])
  {
    hide KI.Bared;
  }

  /** Two free stacks of one key file name the same pages. */
  lemma SameFreePages(f: KeyFile, s: seq<int>, t: seq<int>, pageSize: int)
    requires FreeOk(f, s, pageSize) && FreeOk(f, t, pageSize)
    ensures FP.Allocated(s, pageSize) == FP.Allocated(t, pageSize)
    ensures FP.Allocated(s, pageSize) == set off | off in f && Live(f[off])
  {
  }

  lemma SameFreeValues(f: ValueFile, s: seq<int>, t: seq<int>)
    requires ValuesOk(f, s) && ValuesOk(f, t)
    ensures FP.Allocated(s, VALUE_PAGE_SIZE) == FP.Allocated(t, VALUE_PAGE_SIZE)
    ensures FP.Allocated(s, VALUE_PAGE_SIZE) == set off | off in f && !f[off].deleted
  {
  }

  /** Closes a database and opens its files again: the same map, and the same pages in use. The ends
      of the files are where their free stacks begin. */
  method Reopen(db: Rdb) returns (r: Rdb)
    requires db.Valid()
    ensures r.Valid() && fresh(r.Repr())
    ensures r.contents == db.contents
    ensures r.index.size == db.index.size && r.index.pageSize == db.index.pageSize
    ensures r.index.capacity == db.index.capacity
    ensures r.index.fdp.InUse() == db.index.fdp.InUse() ==
      set off | off in db.index.keyFile && Live(db.index.keyFile[off])
    ensures r.values.fdp.InUse() == db.values.fdp.InUse() ==
      set off | off in db.values.file && !db.values.file[off].deleted
    ensures db.PagesBalanced() ==> r.PagesBalanced()
    ensures Ready(db.LayoutOf()) && r.LayoutOf() == ReopenIn(db.LayoutOf())
  {
    hide IndexFind, ChainsOk, LiveOk, KI.TableOk, KI.Buckets, Reloaded;
    LayoutReady(db);
    r := new Rdb.Open(db.index.size, db.index.pageSize, db.index.keyFile, db.index.fdp.stack[0],
                      db.values.file, db.values.fdp.stack[0], db.values.fdp.file, db.index.chains, db.contents);
    SameFreePages(r.index.keyFile, r.index.fdp.stack, db.index.fdp.stack, db.index.pageSize);
    SameFreeValues(r.values.file, r.values.fdp.stack, db.values.fdp.stack);
    LayoutReady(r);
    forall h | 0 <= h < db.index.size
      ensures r.index.Shapes()[h] == Reloaded(db.index.Shapes()[h])
    {
      NothingLoaded(db.index.entries, db.index.memory, db.index.keyFile, db.index.chains, r.index.entries,
                    r.index.memory, h);
    }
    assert r.LayoutOf().buckets == ReopenIn(db.LayoutOf()).buckets;
  }

  // ---------- rebuilding ----------

  lemma EmptyFiles(chains: seq<seq<int>>, capacity: nat)
    requires |chains| > 0 && forall h :: 0 <= h < |chains| ==> chains[h] == []
    ensures ChainsOk(map[], chains, capacity) && LiveOk(map[], chains)
    ensures Represents(map[], chains, map[], map[])
  {
  }

  /** Opens a database on files that do not exist yet. */
  method Create(size: nat, pageSize: int) returns (r: Rdb)
    requires size > 0 && pageSize > 0 && 1 <= NumOfKeys(pageSize) <= MAX_SLOTS
    ensures r.Valid() && fresh(r.Repr()) && r.contents == map[] && r.PagesBalanced()
    ensures r.index.size == size && r.index.pageSize == pageSize
    ensures |r.index.chains| == size && forall h :: 0 <= h < size ==> r.index.chains[h] == []
    ensures r.LayoutOf() == Fresh(size, NumOfKeys(pageSize))
  {
    ghost var chains := seq(size, _ => []);
    EmptyFiles(chains, NumOfKeys(pageSize));
    r := new Rdb.Open(size, pageSize, map[], 0, map[], 0, [], chains, map[]);
    LayoutReady(r);
    assert r.LayoutOf().buckets == seq(size, _ => []);
  }

  /** The part of map m whose value pages lie below offset. */
  ghost predicate CopiedBelow(f: KeyFile, chains: seq<seq<int>>, m: map<Key, Value>, n: map<Key, Value>, offset: int)
    requires |chains| > 0
  {
    && (forall k :: k in n <==> k in m && IndexFind(f, chains, k).Some? && IndexFind(f, chains, k).value < offset)
    && (forall k :: k in n && k in m ==> n[k] == m[k])
  }

  /** Copying one undeleted value page; no page before it had its key. */
  lemma CopyPage(f: KeyFile, chains: seq<seq<int>>, vf: ValueFile, m: map<Key, Value>, n: map<Key, Value>,
                 offset: int, eof: int)
    requires Represents(f, chains, vf, m) && CopiedBelow(f, chains, m, n, offset) && Extent(vf, eof) && offset in vf
    ensures vf[offset].deleted ==> CopiedBelow(f, chains, m, n, offset + VALUE_PAGE_SIZE)
    ensures !vf[offset].deleted ==>
      && vf[offset].key in m && vf[offset].key !in n && m[vf[offset].key] == vf[offset].value
      && CopiedBelow(f, chains, m, n[vf[offset].key := vf[offset].value], offset + VALUE_PAGE_SIZE)
  {
    hide IndexFind;
    FP.NextAligned(offset, VALUE_PAGE_SIZE);
    forall k | k in m
      ensures var off := IndexFind(f, chains, k).value;
        off < offset + VALUE_PAGE_SIZE ==> off < offset || (off == offset && !vf[offset].deleted && vf[offset].key == k)
    {
      assert IndexFind(f, chains, k).value in vf;
    }
  }

  lemma CopyDone(f: KeyFile, chains: seq<seq<int>>, vf: ValueFile, m: map<Key, Value>, n: map<Key, Value>,
                 offset: int, eof: int)
    requires Represents(f, chains, vf, m) && CopiedBelow(f, chains, m, n, offset) && Extent(vf, eof) && offset >= eof
    ensures n == m
  {
    hide IndexFind;
    forall k | k in m
      ensures k in n
    {
      assert IndexFind(f, chains, k).value in vf;
    }
  }

  /** Builds the database anew, with other sizes, from the undeleted pages of the value file alone.
      It succeeds exactly when every stored value is one that set accepts, and then holds the same map. */
  method Rebuild(db: Rdb, size: nat, pageSize: int) returns (ok: bool, r: Rdb)
    requires db.Valid() && size > 0 && pageSize > 0 && 1 <= NumOfKeys(pageSize) <= MAX_SLOTS
    ensures ok <==> forall k :: k in db.contents ==> ValidArg(db.contents[k])
    ensures ok ==> r.Valid() && fresh(r.Repr()) && r.contents == db.contents && r.PagesBalanced()
    ensures ok ==> r.index.size == size && r.index.pageSize == pageSize
    ensures !ok ==> r == db
    ensures Ready(db.LayoutOf()) && (ok ==> r.LayoutOf() == RebuildIn(db.LayoutOf(), size, NumOfKeys(pageSize)))
  {
    hide Rdb.Valid, Rdb.PagesBalanced, Rdb.Repr, CopiedBelow, Represents, Extent, ValidArg, AddIn, CopyFrom, KI.Buckets;
    LayoutReady(db);
    var copy := Create(size, pageSize);
    ok := true;
    var offset := 0;
    ghost var f, chains, vf := db.index.keyFile, db.index.chains, db.values.file;
    ghost var eof := FilesOf(db);
    CopyNothing(f, chains, vf, db.contents, eof);
    while offset in db.values.file
      invariant fresh(copy.Repr()) && copy.Valid() && copy.PagesBalanced()
      invariant copy.index.size == size && copy.index.pageSize == pageSize
      invariant FP.Aligned(offset, VALUE_PAGE_SIZE) && offset <= eof
      invariant CopiedBelow(f, chains, db.contents, copy.contents, offset)
      invariant forall k :: k in copy.contents ==> ValidArg(copy.contents[k])
      invariant Ready(copy.LayoutOf()) && Ready(db.LayoutOf())
      invariant CopyFrom(vf, offset, eof, copy.LayoutOf()) == RebuildIn(db.LayoutOf(), size, NumOfKeys(pageSize))
      decreases eof - offset
    {
      NextPage(vf, offset, eof);
      CopyStep(vf, offset, eof, copy.LayoutOf());
      CopyPage(f, chains, vf, db.contents, copy.contents, offset, eof);
      var vp := db.values.file[offset];
      if !vp.deleted {
        var status := AddCopy(copy, vp.key, vp.value);
        if status != Ok {
          return false, db;
        }
      }
      offset := offset + VALUE_PAGE_SIZE;
    }
    NoPage(vf, offset, eof);
    CopyDone(f, chains, vf, db.contents, copy.contents, offset, eof);
    CopyEnds(vf, offset, eof, copy.LayoutOf());
    r := copy;
  }

  method AddCopy(copy: Rdb, k: Key, v: Value) returns (status: Status)
    requires copy.Valid() && copy.PagesBalanced() && ValidArg(k) && k !in copy.contents
    modifies copy.Repr()
    ensures copy.Valid() && copy.PagesBalanced() && copy.Repr() == old(copy.Repr())
    ensures status == Ok <==> ValidArg(v)
    ensures copy.contents == if status == Ok then old(copy.contents)[k := v] else old(copy.contents)
    ensures Ready(old(copy.LayoutOf())) && Ready(copy.LayoutOf())
    ensures status == Ok ==> copy.LayoutOf() == AddIn(old(copy.LayoutOf()), k, v)
  {
    hide AddIn, ChangeIn, KI.Buckets, Represents, FileOk, KI.TableOk, ValuesOk;
    status := copy.Set(k, v, None);
  }

  lemma CopyStep(vf: ValueFile, offset: int, eof: int, s: Layout)
    requires Extent(vf, eof) && offset in vf && Ready(s)
    ensures CopyFrom(vf, offset, eof, s) ==
      CopyFrom(vf, offset + VALUE_PAGE_SIZE, eof,
               if vf[offset].deleted then s else AddIn(s, vf[offset].key, vf[offset].value))
  {
  }

  lemma CopyEnds(vf: ValueFile, offset: int, eof: int, s: Layout)
    requires offset !in vf && Ready(s)
    ensures CopyFrom(vf, offset, eof, s) == s
  {
  }

  lemma NextPage(vf: ValueFile, offset: int, eof: int)
    requires Extent(vf, eof) && offset in vf
    ensures FP.Aligned(offset + VALUE_PAGE_SIZE, VALUE_PAGE_SIZE) && offset + VALUE_PAGE_SIZE <= eof
  {
    FP.NextAligned(offset, VALUE_PAGE_SIZE);
  }

  lemma NoPage(vf: ValueFile, offset: int, eof: int)
    requires Extent(vf, eof) && FP.Aligned(offset, VALUE_PAGE_SIZE) && offset !in vf
    ensures offset >= eof
  {
  }

  lemma FilesOf(db: Rdb) returns (eof: int)
    requires db.Valid()
    ensures Represents(db.index.keyFile, db.index.chains, db.values.file, db.contents)
    ensures Extent(db.values.file, eof) && eof >= 0
    ensures forall k :: k in db.contents ==> ValidArg(k)
    ensures db.values.fdp.stack != [] && eof == db.values.fdp.stack[0]
  {
    eof := db.values.fdp.stack[0];
  }

  lemma CopyNothing(f: KeyFile, chains: seq<seq<int>>, vf: ValueFile, m: map<Key, Value>, eof: int)
    requires Represents(f, chains, vf, m) && Extent(vf, eof)
    ensures |chains| > 0 && CopiedBelow(f, chains, m, map[], 0)
  {
    hide IndexFind;
    forall k | k in m
      ensures IndexFind(f, chains, k).value >= 0
    {
      assert IndexFind(f, chains, k).value in vf;
    }
  }
}
