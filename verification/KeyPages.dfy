/** Key pages as they lie in the key file: a header and the records (librdb/include/dbstruct.h),
    with the operations of KeyRecords seen from outside. */
module KeyPages {
  import opened KeyOrder
  import opened AvlTree
  import opened AvlBalance
  import KR = KeyRecords

  datatype KeyPage = KeyPage(deleted: bool, vcount: int, root: int, hash: int, poff: int, noff: int,
                             keys: seq<KR.KeyRec>)

  const PAGE_HEADER_SIZE := 64
  const KEY_RECORD_SIZE := 64

  /** The smallest page that setKeyPageSize accepts. */
  const MIN_KEY_PAGE_SIZE := 1024

  /** The number of records a key page of the given size has room for. */
  function NumOfKeys(pageSize: int): int {
    (pageSize - PAGE_HEADER_SIZE) / KEY_RECORD_SIZE
  }

  /** A page filled with zeros has no used record, an empty tree and no neighbours. */
  function InitKeyPage(capacity: nat): KeyPage {
    KeyPage(false, 0, -1, 0, -1, -1, seq(capacity, _ => KR.KeyRec(false, 0, 0, 0, [], 0)))
  }

  ghost predicate Stores(p: KeyPage, t: Tree) {
    KR.Holds(p.keys, p.root, p.vcount, t)
  }

  ghost predicate PageOk(p: KeyPage) {
    exists t :: Stores(p, t)
  }

  ghost function PageTree(p: KeyPage): (t: Tree)
    requires PageOk(p)
    ensures Stores(p, t)
  {
    var t :| Stores(p, t); t
  }

  /** The keys of a page with their value offsets. */
  ghost function PageMap(p: KeyPage): map<Key, int> {
    if PageOk(p) then Entries(PageTree(p)) else map[]
  }

  lemma StoresUnique(p: KeyPage, t: Tree)
    requires Stores(p, t)
    ensures PageOk(p) && PageTree(p) == t
  {
    KR.ShapeUnique(p.keys, p.root, t, PageTree(p));
  }

  lemma PageSize(p: KeyPage)
    requires PageOk(p)
    ensures Height(PageTree(p)) <= Size(PageTree(p)) <= |p.keys| <= MAX_SLOTS
  {
    var t := PageTree(p);
    KR.ShapeSlots(p.keys, p.root, t);
    KR.SlotsBoundHeight(t, |p.keys|);
  }

  /** In pages of at most 127 records, as 8192-byte pages are, every stored height is true. */
  lemma SmallPagesTrue(p: KeyPage)
    requires PageOk(p) && |p.keys| <= MAX_CHAR
    ensures HeightsTrue(PageTree(p))
  {
    PageSize(p);
    HeightsTrueExactly(PageTree(p));
  }

  /** So it is in balanced pages of any size, and they are at most 21 records high. */
  lemma BalancedPagesTrue(p: KeyPage)
    requires PageOk(p) && Balanced(PageTree(p))
    ensures HeightsTrue(PageTree(p)) && Height(PageTree(p)) <= 21
  {
    PageSize(p);
    BalancedHeightBound(PageTree(p));
    HeightsTrueExactly(PageTree(p));
  }

  /** The count in the header is the number of keys in the page. */
  lemma CountIsKeys(p: KeyPage)
    requires PageOk(p)
    ensures p.vcount == |PageMap(p)| && 0 <= p.vcount <= |p.keys|
  {
    var t := PageTree(p);
    var hi :| Within(t, -1, hi);
    SizeIsKeyCount(t, -1, hi);
    PageSize(p);
  }

  lemma InitialPageOk(p: KeyPage, capacity: nat)
    requires p.root == -1 && p.vcount == 0 && p.keys == InitKeyPage(capacity).keys && capacity <= MAX_SLOTS
    ensures PageOk(p) && PageMap(p) == map[] && PageTree(p) == Leaf
  {
    assert Within(Leaf, -1, 0);
    assert Stores(p, Leaf);
    StoresUnique(p, Leaf);
  }

  /** Same header apart from the tree's root and count. */
  ghost predicate SameHeader(p: KeyPage, q: KeyPage) {
    q == p.(vcount := q.vcount, root := q.root, keys := q.keys) && |q.keys| == |p.keys|
  }

  method GetInPage(p: KeyPage, k: Key) returns (idx: int)
    requires PageOk(p)
    ensures idx == Search(PageTree(p), k)
    ensures idx == -1 <==> k !in PageMap(p)
    ensures idx != -1 ==> 0 <= idx < |p.keys| && p.keys[idx].voff == PageMap(p)[k]
  {
    var records := new KR.KeyRecords(p.keys, p.root, p.vcount, PageTree(p));
    ghost var steps;
    idx, steps := records.Get(k);
  }

  method PutInPage(p: KeyPage, k: Key, v: int) returns (q: KeyPage, idx: int)
    requires PageOk(p)
    ensures PageOk(q) && SameHeader(p, q)
    ensures idx == -1 <==> p.vcount == |p.keys| && k !in PageMap(p)
    ensures PageMap(q) == if idx == -1 then PageMap(p) else PageMap(p)[k := v]
    ensures idx != -1 ==> 0 <= idx < |q.keys| && q.keys[idx].voff == v
    ensures PageTree(q) == Put(PageTree(p), k, v, KR.FirstFree(p.keys))
    ensures Balanced(PageTree(p)) ==> Balanced(PageTree(q))
  {
    var records := new KR.KeyRecords(p.keys, p.root, p.vcount, PageTree(p));
    idx := records.Put(k, v);
    q := p.(vcount := records.vcount, root := records.root, keys := records.keys[..]);
    StoresUnique(q, records.tree);
  }

  method RemoveInPage(p: KeyPage, k: Key) returns (q: KeyPage, idx: int)
    requires PageOk(p)
    ensures PageOk(q) && SameHeader(p, q)
    ensures idx >= -1 && (idx == -1 <==> k !in PageMap(p))
    ensures PageMap(q) == PageMap(p) - {k}
    ensures idx == Search(PageTree(p), k) <==> !HasTwoChildren(PageTree(p), k)
    ensures PageTree(q) == Remove(PageTree(p), k)
    ensures Balanced(PageTree(p)) ==> (Balanced(PageTree(q)) <==> RemoveEffect(PageTree(p), k) != Stuck)
    ensures idx == -1 ==> (q == p <==> PathSettled(PageTree(p), k))
  {
    var records := new KR.KeyRecords(p.keys, p.root, p.vcount, PageTree(p));
    idx := records.Remove(k);
    q := p.(vcount := records.vcount, root := records.root, keys := records.keys[..]);
    StoresUnique(q, records.tree);
  }
}
