/** The key file: hash buckets as chains of key pages linked both ways through the file. */
module KeyChains {
  import opened Options
  import opened KeyOrder
  import opened AvlTree
  import opened KeyPages
  import opened Arith
  import FP = FreeDiskPages

  type KeyFile = map<int, KeyPage>

  const TWO_64 := 0x1_0000_0000_0000_0000

  /** A key byte as the signed character the hash adds up. */
  function SignedChar(b: Byte): int {
    if b < 128 then b as int else b as int - 256
  }

  /** One round of the hash, in unsigned 64-bit arithmetic. */
  function HashStep(ih: nat, b: Byte): nat {
    (SignedChar(b) + ih * 64 + ih * 65536 - ih) % TWO_64
  }

  function Sdbm(k: Key): nat {
    if k == [] then 0 else HashStep(Sdbm(k[..|k| - 1]), k[|k| - 1])
  }

  function Hash(k: Key, size: nat): (h: nat)
    requires size > 0
    ensures h < size
  {
    Sdbm(k) % size
  }

  // ---------- the hash as a polynomial ----------

  function Power(base: nat, n: nat): (p: nat) {
    if n == 0 then 1 else base * Power(base, n - 1)
  }

  /** The first n bytes as signed characters, each times a power of 65599 that falls to the right. */
  function HashSum(k: Key, n: nat): (h: int)
    requires n <= |k|
  {
    if n == 0 then 0
    else
      var b := k[n - 1] as int;
      HashSum(k, n - 1) + (if b < 128 then b else b - 256) * Power(65599, |k| - n)
  }

  lemma {:induction false} HashSumSnoc(k: Key, b: Byte, n: nat)
    requires n <= |k|
    ensures HashSum(k + [b], n) == 65599 * HashSum(k, n)
  {
    if n > 0 {
      HashSumSnoc(k, b, n - 1);
      var c := SignedChar(k[n - 1]);
      var p := Power(65599, |k| - n);
      assert Power(65599, |k| + 1 - n) == 65599 * p;
      Scaled(c, p);
      assert (k + [b])[n - 1] == k[n - 1];
    }
  }

  lemma Scaled(c: int, p: int)
    ensures c * (65599 * p) == 65599 * (c * p)
  {
  }

  lemma ModStep(h: int, c: int)
    ensures (c + h % TWO_64 * 65599) % TWO_64 == (c + h * 65599) % TWO_64
  {
    var q := h / TWO_64;
    assert c + h * 65599 == (q * 65599) * TWO_64 + (c + h % TWO_64 * 65599);
    ModShift(c + h % TWO_64 * 65599, q * 65599);
  }

  lemma ModShift(x: int, q: int)
    ensures (q * TWO_64 + x) % TWO_64 == x % TWO_64
  {
    var r := x % TWO_64;
    assert q * TWO_64 + x == (q + x / TWO_64) * TWO_64 + r;
    DivModUnique(q * TWO_64 + x, TWO_64, q + x / TWO_64, r);
  }

  lemma {:induction false} SdbmIsSum(k: Key)
    ensures Sdbm(k) == HashSum(k, |k|) % TWO_64
  {
    if k != [] {
      var front, b := k[..|k| - 1], k[|k| - 1];
      assert front + [b] == k;
      SdbmIsSum(front);
      HashSumSnoc(front, b, |front|);
      var h := HashSum(front, |front|);
      assert HashSum(k, |k|) == 65599 * h + SignedChar(b) * Power(65599, 0);
      ModStep(h, SignedChar(b));
      assert HashStep(Sdbm(front), b) == (SignedChar(b) + Sdbm(front) * 65599) % TWO_64;
    }
  }

  /** The bucket of a key: the polynomial in 65599, modulo 2^64 and then modulo the size. */
  lemma HashIsPolynomial(k: Key, size: nat)
    requires size > 0
    ensures Hash(k, size) == HashSum(k, |k|) % 0x1_0000_0000_0000_0000 % size
  {
    SdbmIsSum(k);
  }

  method ComputeHash(k: Key, size: nat) returns (h: nat)
    requires size > 0
    ensures h == Hash(k, size)
  {
    var ih := 0;
    for i := 0 to |k|
      invariant ih == Sdbm(k[..i])
    {
      assert k[..i + 1][..i] == k[..i];
      ih := (SignedChar(k[i]) + ih * 64 + ih * 65536 - ih) % TWO_64;
    }
    assert k[..|k|] == k;
    h := ih % size;
  }

  // ---------- chains ----------

  /** What the scan at start-up takes for a page in use. */
  predicate Live(p: KeyPage) {
    !p.deleted && p.vcount > 0
  }

  function Head(c: seq<int>): int {
    if c == [] then -1 else c[0]
  }

  function Before(c: seq<int>, i: int): int {
    if 0 < i <= |c| then c[i - 1] else -1
  }

  function After(c: seq<int>, i: int): int {
    if 0 <= i < |c| - 1 then c[i + 1] else -1
  }

  /** A page of bucket h: in use, not empty, full-size, and only with keys of that bucket. */
  ghost predicate PageGood(p: KeyPage, h: int, capacity: nat, size: nat)
    requires size > 0
  {
    && Live(p) && p.hash == h && PageOk(p) && |p.keys| == capacity
    && (forall k :: k in PageMap(p) ==> Hash(k, size) == h)
  }

  ghost predicate LinkGood(f: KeyFile, h: int, c: seq<int>, i: int, capacity: nat, size: nat)
    requires size > 0 && 0 <= i < |c|
  {
    && c[i] >= 0 && c[i] in f
    && PageGood(f[c[i]], h, capacity, size)
    && f[c[i]].poff == Before(c, i) && f[c[i]].noff == After(c, i)
  }

  ghost predicate DisjointPages(f: KeyFile, c: seq<int>) {
    && (forall i, j :: 0 <= i < j < |c| ==> c[i] != c[j])
    && (forall i, j :: 0 <= i < j < |c| && c[i] in f && c[j] in f ==> PageMap(f[c[i]]).Keys !! PageMap(f[c[j]]).Keys)
  }

  /** Bucket h is the chain c: good pages, linked both ways, no key in two of them. */
  ghost predicate ChainOk(f: KeyFile, h: int, c: seq<int>, capacity: nat, size: nat)
    requires size > 0
  {
    && (forall i :: 0 <= i < |c| ==> LinkGood(f, h, c, i, capacity, size))
    && DisjointPages(f, c)
  }

  /** The position of the first page of the chain that has the key, or the length of the chain. */
  ghost function FirstWith(f: KeyFile, c: seq<int>, k: Key): (i: nat)
    ensures i <= |c|
    ensures i < |c| ==> c[i] in f && k in PageMap(f[c[i]])
    ensures forall j :: 0 <= j < i && c[j] in f ==> k !in PageMap(f[c[j]])
  {
    if c == [] then 0
    else if c[0] in f && k in PageMap(f[c[0]]) then 0
    else
      var i := FirstWith(f, c[1..], k);
      assert forall j :: 1 <= j < |c| ==> c[j] == c[1..][j - 1];
      1 + i
  }

  /** What the chain says about a key: its value offset. */
  ghost function Find(f: KeyFile, c: seq<int>, k: Key): Option<int> {
    var i := FirstWith(f, c, k);
    if i < |c| then Some(PageMap(f[c[i]])[k]) else None
  }

  lemma FoundAt(f: KeyFile, c: seq<int>, k: Key, i: nat)
    requires i < |c| && c[i] in f && k in PageMap(f[c[i]]) && DisjointPages(f, c)
    ensures FirstWith(f, c, k) == i && Find(f, c, k) == Some(PageMap(f[c[i]])[k])
  {
    var j := FirstWith(f, c, k);
    assert j <= i;
  }

  lemma NotFound(f: KeyFile, c: seq<int>, k: Key)
    requires forall i :: 0 <= i < |c| && c[i] in f ==> k !in PageMap(f[c[i]])
    ensures FirstWith(f, c, k) == |c| && Find(f, c, k) == None
  {
  }

  /** The pages of the chain are the same in both files. */
  ghost predicate SamePages(f: KeyFile, f': KeyFile, c: seq<int>) {
    forall i :: 0 <= i < |c| ==> c[i] in f && c[i] in f' && f'[c[i]] == f[c[i]]
  }

  /** A bucket depends only on the pages of its chain. */
  lemma ChainFrame(f: KeyFile, f': KeyFile, h: int, c: seq<int>, capacity: nat, size: nat)
    requires size > 0 && ChainOk(f, h, c, capacity, size) && SamePages(f, f', c)
    ensures ChainOk(f', h, c, capacity, size)
  {
    forall i | 0 <= i < |c|
      ensures LinkGood(f', h, c, i, capacity, size)
    {
      assert LinkGood(f, h, c, i, capacity, size);
    }
  }

  lemma FindFrame(f: KeyFile, f': KeyFile, c: seq<int>, k: Key)
    requires SamePages(f, f', c)
    ensures Find(f', c, k) == Find(f, c, k) && FirstWith(f', c, k) == FirstWith(f, c, k)
  {
  }

  // ---------- changing one page of a chain ----------

  /** Page i of the chain is replaced by q, which keeps its header and takes no key from the others. */
  ghost predicate Replaces(f: KeyFile, h: int, c: seq<int>, i: nat, q: KeyPage, capacity: nat, size: nat)
    requires size > 0
  {
    && ChainOk(f, h, c, capacity, size) && i < |c|
    && c[i] in f && SameHeader(f[c[i]], q) && PageGood(q, h, capacity, size)
    && (forall j :: 0 <= j < |c| && j != i && c[j] in f ==> PageMap(f[c[j]]).Keys !! PageMap(q).Keys)
  }

  lemma ReplacePage(f: KeyFile, h: int, c: seq<int>, i: nat, q: KeyPage, capacity: nat, size: nat)
    requires size > 0 && Replaces(f, h, c, i, q, capacity, size)
    ensures ChainOk(f[c[i] := q], h, c, capacity, size)
  {
    var f' := f[c[i] := q];
    forall j | 0 <= j < |c|
      ensures LinkGood(f', h, c, j, capacity, size)
    {
      assert LinkGood(f, h, c, j, capacity, size);
      assert LinkGood(f, h, c, i, capacity, size);
    }
  }

  lemma ReplacedFind(f: KeyFile, h: int, c: seq<int>, i: nat, q: KeyPage, k: Key, capacity: nat, size: nat)
    requires size > 0 && Replaces(f, h, c, i, q, capacity, size)
    ensures Find(f[c[i] := q], c, k) ==
      if k in PageMap(q) then Some(PageMap(q)[k])
      else if k in PageMap(f[c[i]]) then None
      else Find(f, c, k)
  {
    var f' := f[c[i] := q];
    ReplacePage(f, h, c, i, q, capacity, size);
    if k in PageMap(q) {
      FoundAt(f', c, k, i);
    } else {
      var j := FirstWith(f, c, k);
      if k in PageMap(f[c[i]]) {
        FoundAt(f, c, k, i);
        forall m | 0 <= m < |c| && c[m] in f'
          ensures k !in PageMap(f'[c[m]])
        {
          assert LinkGood(f, h, c, m, capacity, size);
          assert m != i ==> PageMap(f[c[m]]).Keys !! PageMap(f[c[i]]).Keys;
        }
        NotFound(f', c, k);
      } else if j == |c| {
        forall m | 0 <= m < |c| && c[m] in f'
          ensures k !in PageMap(f'[c[m]])
        {
          assert LinkGood(f, h, c, m, capacity, size);
        }
        NotFound(f', c, k);
      } else {
        FoundAt(f', c, k, j);
      }
    }
  }

  // ---------- growing and shrinking a chain ----------

  /** Links and flags play no part in what a page stores. */
  lemma HeaderOnly(p: KeyPage, q: KeyPage)
    requires q.keys == p.keys && q.root == p.root && q.vcount == p.vcount
    ensures PageOk(p) <==> PageOk(q)
    ensures PageMap(p) == PageMap(q)
    ensures PageOk(p) ==> PageTree(p) == PageTree(q)
  {
    if PageOk(p) {
      assert Stores(q, PageTree(p));
      StoresUnique(q, PageTree(p));
    } else if PageOk(q) {
      assert Stores(p, PageTree(q));
    }
  }

  /** A new page q written at off and linked behind the last page of the chain. */
  function Appended(f: KeyFile, c: seq<int>, off: int, q: KeyPage): KeyFile
    requires c != [] ==> c[|c| - 1] in f
  {
    if c == [] then f[off := q]
    else f[off := q][c[|c| - 1] := f[c[|c| - 1]].(noff := off)]
  }

  ghost predicate Appends(f: KeyFile, h: int, c: seq<int>, off: int, q: KeyPage, capacity: nat, size: nat)
    requires size > 0
  {
    && ChainOk(f, h, c, capacity, size)
    && off >= 0 && off !in c && PageGood(q, h, capacity, size)
    && q.poff == Before(c, |c|) && q.noff == -1
    && (forall j :: 0 <= j < |c| && c[j] in f ==> PageMap(f[c[j]]).Keys !! PageMap(q).Keys)
  }

  lemma AppendedAt(f: KeyFile, c: seq<int>, off: int, q: KeyPage, j: nat)
    requires j < |c| && off !in c && forall m :: 0 <= m < |c| ==> c[m] in f
    requires forall a, b :: 0 <= a < b < |c| ==> c[a] != c[b]
    ensures var f' := Appended(f, c, off, q);
      && c[j] in f' && f'[c[j]] == (if j == |c| - 1 then f[c[j]].(noff := off) else f[c[j]])
      && off in f' && f'[off] == q
      && Before(c + [off], j) == Before(c, j)
      && After(c + [off], j) == (if j == |c| - 1 then off else After(c, j))
  {
  }

  /** Every page of the old chain stores the same keys after a page is appended. */
  lemma AppendedPage(f: KeyFile, h: int, c: seq<int>, off: int, q: KeyPage, j: nat, capacity: nat, size: nat)
    requires size > 0 && Appends(f, h, c, off, q, capacity, size) && j < |c|
    requires forall m :: 0 <= m < |c| ==> c[m] in f
    ensures var f' := Appended(f, c, off, q);
      && c[j] in f' && PageMap(f'[c[j]]) == PageMap(f[c[j]])
      && LinkGood(f', h, c + [off], j, capacity, size)
  {
    assert LinkGood(f, h, c, j, capacity, size);
    AppendedAt(f, c, off, q, j);
    HeaderOnly(f[c[j]], f[c[j]].(noff := off));
  }

  lemma ChainInFile(f: KeyFile, h: int, c: seq<int>, capacity: nat, size: nat)
    requires size > 0 && ChainOk(f, h, c, capacity, size)
    ensures forall j :: 0 <= j < |c| ==> c[j] >= 0 && c[j] in f && f[c[j]].hash == h && Live(f[c[j]])
  {
    forall j | 0 <= j < |c|
      ensures c[j] >= 0 && c[j] in f && f[c[j]].hash == h && Live(f[c[j]])
    {
      assert LinkGood(f, h, c, j, capacity, size);
    }
  }

  lemma AppendPage(f: KeyFile, h: int, c: seq<int>, off: int, q: KeyPage, capacity: nat, size: nat)
    requires size > 0 && Appends(f, h, c, off, q, capacity, size)
    ensures c != [] ==> c[|c| - 1] in f
    ensures ChainOk(Appended(f, c, off, q), h, c + [off], capacity, size)
  {
    ChainInFile(f, h, c, capacity, size);
    var f' := Appended(f, c, off, q);
    var c' := c + [off];
    forall i | 0 <= i < |c'|
      ensures LinkGood(f', h, c', i, capacity, size)
    {
      if i < |c| { AppendedPage(f, h, c, off, q, i, capacity, size); }
    }
    forall i, j | 0 <= i < j < |c'|
      ensures c'[i] != c'[j] && c'[i] in f' && c'[j] in f' && PageMap(f'[c'[i]]).Keys !! PageMap(f'[c'[j]]).Keys
    {
      AppendedPage(f, h, c, off, q, i, capacity, size);
      if j < |c| { AppendedPage(f, h, c, off, q, j, capacity, size); }
    }
  }

  lemma AppendedFind(f: KeyFile, h: int, c: seq<int>, off: int, q: KeyPage, k: Key, capacity: nat, size: nat)
    requires size > 0 && Appends(f, h, c, off, q, capacity, size)
    ensures c != [] ==> c[|c| - 1] in f
    ensures Find(Appended(f, c, off, q), c + [off], k) ==
      if k in PageMap(q) then Some(PageMap(q)[k]) else Find(f, c, k)
  {
    ChainInFile(f, h, c, capacity, size);
    var f' := Appended(f, c, off, q);
    var c' := c + [off];
    AppendPage(f, h, c, off, q, capacity, size);
    if k in PageMap(q) {
      FoundAt(f', c', k, |c|);
    } else {
      var j := FirstWith(f, c, k);
      if j < |c| {
        AppendedPage(f, h, c, off, q, j, capacity, size);
        FoundAt(f', c', k, j);
      } else {
        forall m | 0 <= m < |c'| && c'[m] in f'
          ensures k !in PageMap(f'[c'[m]])
        {
          if m < |c| { AppendedPage(f, h, c, off, q, m, capacity, size); }
        }
        NotFound(f', c', k);
      }
    }
  }

  /** The chain without position i. */
  function Without(c: seq<int>, i: nat): seq<int>
    requires i < |c|
  {
    c[..i] + c[i + 1..]
  }

  /** Page i is flagged deleted and its neighbours are linked to each other. Writing the flag field
      writes four bytes, so the count beside it becomes 0 in the file. */
  function Unlinked(f: KeyFile, c: seq<int>, i: nat): KeyFile
    requires i < |c| && forall j :: 0 <= j < |c| ==> c[j] in f
  {
    var f1 := f[c[i] := f[c[i]].(deleted := true, vcount := 0)];
    var f2 := if i > 0 then f1[c[i - 1] := f[c[i - 1]].(noff := After(c, i))] else f1;
    if i < |c| - 1 then f2[c[i + 1] := f[c[i + 1]].(poff := Before(c, i))] else f2
  }

  /** Position in the old chain of the page at position m of the shortened one. */
  function OldPosition(i: nat, m: nat): nat {
    if m < i then m else m + 1
  }

  /** The pages that stay, with their new links. */
  lemma UnlinkedAt(f: KeyFile, c: seq<int>, i: nat, j: nat)
    requires i < |c| && j < |c| && i != j && forall m :: 0 <= m < |c| ==> c[m] in f
    requires forall a, b :: 0 <= a < b < |c| ==> c[a] != c[b]
    ensures var f' := Unlinked(f, c, i);
      c[j] in f' && f'[c[j]] ==
        if j + 1 == i then f[c[j]].(noff := After(c, i))
        else if j == i + 1 then f[c[j]].(poff := Before(c, i))
        else f[c[j]]
  {
  }

  /** Neighbours in the shortened chain. */
  lemma WithoutNeighbours(c: seq<int>, i: nat, m: nat)
    requires i < |c| && m < |c| - 1
    ensures var c' := Without(c, i); var j := OldPosition(i, m);
      && |c'| == |c| - 1 && c'[m] == c[j]
      && Before(c', m) == (if j == i + 1 then Before(c, i) else Before(c, j))
      && After(c', m) == (if j + 1 == i then After(c, i) else After(c, j))
  {
  }

  lemma UnlinkedPage(f: KeyFile, h: int, c: seq<int>, i: nat, m: nat, capacity: nat, size: nat)
    requires size > 0 && ChainOk(f, h, c, capacity, size) && i < |c| && m < |c| - 1
    requires forall j :: 0 <= j < |c| ==> c[j] in f
    ensures var f' := Unlinked(f, c, i); var c' := Without(c, i); var j := OldPosition(i, m);
      && c'[m] == c[j] && c'[m] in f' && PageMap(f'[c'[m]]) == PageMap(f[c[j]])
      && LinkGood(f', h, c', m, capacity, size)
  {
    var j := OldPosition(i, m);
    assert LinkGood(f, h, c, j, capacity, size);
    WithoutNeighbours(c, i, m);
    UnlinkedAt(f, c, i, j);
    HeaderOnly(f[c[j]], f[c[j]].(noff := After(c, i)));
    HeaderOnly(f[c[j]], f[c[j]].(poff := Before(c, i)));
  }

  lemma UnlinkPage(f: KeyFile, h: int, c: seq<int>, i: nat, capacity: nat, size: nat)
    requires size > 0 && ChainOk(f, h, c, capacity, size) && i < |c|
    ensures forall j :: 0 <= j < |c| ==> c[j] in f
    ensures ChainOk(Unlinked(f, c, i), h, Without(c, i), capacity, size)
  {
    ChainInFile(f, h, c, capacity, size);
    var f' := Unlinked(f, c, i);
    var c' := Without(c, i);
    forall m | 0 <= m < |c'|
      ensures LinkGood(f', h, c', m, capacity, size)
    {
      UnlinkedPage(f, h, c, i, m, capacity, size);
    }
    forall a, b | 0 <= a < b < |c'|
      ensures c'[a] != c'[b] && c'[a] in f' && c'[b] in f' && PageMap(f'[c'[a]]).Keys !! PageMap(f'[c'[b]]).Keys
    {
      UnlinkedPage(f, h, c, i, a, capacity, size);
      UnlinkedPage(f, h, c, i, b, capacity, size);
    }
  }

  lemma UnlinkedFind(f: KeyFile, h: int, c: seq<int>, i: nat, k: Key, capacity: nat, size: nat)
    requires size > 0 && ChainOk(f, h, c, capacity, size) && i < |c|
    ensures forall j :: 0 <= j < |c| ==> c[j] in f
    ensures Find(Unlinked(f, c, i), Without(c, i), k) == if k in PageMap(f[c[i]]) then None else Find(f, c, k)
  {
    UnlinkPage(f, h, c, i, capacity, size);
    var f' := Unlinked(f, c, i);
    var c' := Without(c, i);
    var j := FirstWith(f, c, k);
    if k in PageMap(f[c[i]]) || j == |c| {
      if k in PageMap(f[c[i]]) { FoundAt(f, c, k, i); }
      forall m | 0 <= m < |c'| && c'[m] in f'
        ensures k !in PageMap(f'[c'[m]])
      {
        UnlinkedPage(f, h, c, i, m, capacity, size);
        UnlinkedMisses(f, c, i, m, k);
      }
      NotFound(f', c', k);
    } else {
      var m := if j < i then j else j - 1;
      UnlinkedPage(f, h, c, i, m, capacity, size);
      FoundAt(f', c', k, m);
    }
  }

  lemma UnlinkedMisses(f: KeyFile, c: seq<int>, i: nat, m: nat, k: Key)
    requires i < |c| && m < |c| - 1 && DisjointPages(f, c) && forall j :: 0 <= j < |c| ==> c[j] in f
    requires k in PageMap(f[c[i]]) || FirstWith(f, c, k) == |c|
    ensures k !in PageMap(f[c[OldPosition(i, m)]])
  {
    var j := OldPosition(i, m);
    if j < i {
      assert PageMap(f[c[j]]).Keys !! PageMap(f[c[i]]).Keys;
    } else {
      assert PageMap(f[c[i]]).Keys !! PageMap(f[c[j]]).Keys;
    }
  }

  // ---------- the whole key file ----------

  ghost predicate ChainsOk(f: KeyFile, chains: seq<seq<int>>, capacity: nat) {
    |chains| > 0 && forall h :: 0 <= h < |chains| ==> ChainOk(f, h, chains[h], capacity, |chains|)
  }

  /** Every page in use belongs to the chain of its hash. */
  ghost predicate LiveOk(f: KeyFile, chains: seq<seq<int>>) {
    forall off :: off in f && Live(f[off]) ==>
      0 <= f[off].hash < |chains| && off in chains[f[off].hash]
  }

  /** The file has a page at every aligned offset below the end; the stack of free pages holds
      exactly those not in use. */
  ghost predicate FreeOk(f: KeyFile, stack: seq<int>, pageSize: int) {
    && pageSize > 0 && FP.GoodStack(stack, pageSize)
    && (forall off :: off in f <==> off < stack[0] && FP.Aligned(off, pageSize))
    && (forall off :: off in f ==> (off in FP.Allocated(stack, pageSize) <==> Live(f[off])))
  }

  ghost predicate FileOk(f: KeyFile, chains: seq<seq<int>>, stack: seq<int>, capacity: nat, pageSize: int) {
    ChainsOk(f, chains, capacity) && LiveOk(f, chains) && FreeOk(f, stack, pageSize)
  }

  /** The value offset the key file records for a key. */
  ghost function IndexFind(f: KeyFile, chains: seq<seq<int>>, k: Key): Option<int>
    requires |chains| > 0
  {
    Find(f, chains[Hash(k, |chains|)], k)
  }

  /** The file changed only at offsets that belong to bucket h or to no bucket. */
  ghost predicate OnlyBucket(f: KeyFile, f': KeyFile, chains: seq<seq<int>>, h: int, touched: set<int>) {
    && 0 <= h < |chains|
    && (forall off :: off in f && off !in touched ==> off in f' && f'[off] == f[off])
    && (forall g, i :: 0 <= g < |chains| && g != h && 0 <= i < |chains[g]| ==> chains[g][i] !in touched)
  }

  lemma OtherBucketsKeep(f: KeyFile, f': KeyFile, chains: seq<seq<int>>, h: int, touched: set<int>, g: int,
                         capacity: nat)
    requires ChainsOk(f, chains, capacity) && OnlyBucket(f, f', chains, h, touched)
    requires 0 <= g < |chains| && g != h
    ensures ChainOk(f', g, chains[g], capacity, |chains|)
    ensures forall k :: Find(f', chains[g], k) == Find(f, chains[g], k)
  {
    ChainInFile(f, g, chains[g], capacity, |chains|);
    var c := chains[g];
    forall i | 0 <= i < |c|
      ensures c[i] in f && c[i] in f' && f'[c[i]] == f[c[i]]
    {
      var off := chains[g][i];
      assert off in f && off !in touched;
    }
    ChainFrame(f, f', g, chains[g], capacity, |chains|);
    forall k
      ensures Find(f', chains[g], k) == Find(f, chains[g], k)
    {
      FindFrame(f, f', chains[g], k);
    }
  }

  /** A change to one bucket leaves the others as they were. */
  lemma BucketStep(f: KeyFile, f': KeyFile, chains: seq<seq<int>>, h: int, c: seq<int>, touched: set<int>,
                   capacity: nat)
    requires ChainsOk(f, chains, capacity) && OnlyBucket(f, f', chains, h, touched)
    requires ChainOk(f', h, c, capacity, |chains|)
    ensures ChainsOk(f', chains[h := c], capacity)
    ensures forall k :: Hash(k, |chains|) != h ==> IndexFind(f', chains[h := c], k) == IndexFind(f, chains, k)
  {
    var chains' := chains[h := c];
    forall g | 0 <= g < |chains'|
      ensures ChainOk(f', g, chains'[g], capacity, |chains'|)
    {
      if g != h { OtherBucketsKeep(f, f', chains, h, touched, g, capacity); }
    }
    forall k | Hash(k, |chains|) != h
      ensures IndexFind(f', chains', k) == IndexFind(f, chains, k)
    {
      OtherBucketsKeep(f, f', chains, h, touched, Hash(k, |chains|), capacity);
    }
  }

  /** Pages of one bucket are in no other. */
  lemma BucketsApart(f: KeyFile, chains: seq<seq<int>>, h: int, capacity: nat)
    requires ChainsOk(f, chains, capacity) && 0 <= h < |chains|
    ensures forall g, i, j :: 0 <= g < |chains| && g != h && 0 <= i < |chains[g]| && 0 <= j < |chains[h]| ==>
      chains[g][i] != chains[h][j]
  {
    forall g, i, j | 0 <= g < |chains| && g != h && 0 <= i < |chains[g]| && 0 <= j < |chains[h]|
      ensures chains[g][i] != chains[h][j]
    {
      ChainInFile(f, g, chains[g], capacity, |chains|);
      ChainInFile(f, h, chains[h], capacity, |chains|);
    }
  }

  // ---------- the three changes to the key file ----------

  /** Replacing a page of bucket h by one with other keys. */
  lemma ReplaceInFile(f: KeyFile, chains: seq<seq<int>>, stack: seq<int>, h: int, i: nat, q: KeyPage,
                      capacity: nat, pageSize: int)
    requires FileOk(f, chains, stack, capacity, pageSize) && 0 <= h < |chains|
    requires Replaces(f, h, chains[h], i, q, capacity, |chains|)
    ensures var f' := f[chains[h][i] := q];
      && FileOk(f', chains, stack, capacity, pageSize)
      && (forall k :: IndexFind(f', chains, k) ==
            if k in PageMap(q) then Some(PageMap(q)[k])
            else if k in PageMap(f[chains[h][i]]) then None
            else IndexFind(f, chains, k))
  {
    var off := chains[h][i];
    var f' := f[off := q];
    ChainInFile(f, h, chains[h], capacity, |chains|);
    BucketsApart(f, chains, h, capacity);
    ReplacePage(f, h, chains[h], i, q, capacity, |chains|);
    assert OnlyBucket(f, f', chains, h, {off});
    BucketStep(f, f', chains, h, chains[h], {off}, capacity);
    assert chains[h := chains[h]] == chains;
    forall k
      ensures IndexFind(f', chains, k) ==
        if k in PageMap(q) then Some(PageMap(q)[k])
        else if k in PageMap(f[off]) then None
        else IndexFind(f, chains, k)
    {
      ReplacedFind(f, h, chains[h], i, q, k, capacity, |chains|);
      assert LinkGood(f, h, chains[h], i, capacity, |chains|);
    }
  }

  /** Writing a new page at the top free offset and linking it behind the last page of bucket h. */
  lemma AppendToFile(f: KeyFile, chains: seq<seq<int>>, stack: seq<int>, h: int, q: KeyPage, capacity: nat,
                     pageSize: int)
    requires FileOk(f, chains, stack, capacity, pageSize) && 0 <= h < |chains|
    requires Appends(f, h, chains[h], stack[|stack| - 1], q, capacity, |chains|)
    ensures forall m :: 0 <= m < |chains[h]| ==> chains[h][m] in f
    ensures var off := stack[|stack| - 1];
      var f' := Appended(f, chains[h], off, q); var chains' := chains[h := chains[h] + [off]];
      && FileOk(f', chains', FP.Popped(stack, pageSize), capacity, pageSize)
      && (forall k :: IndexFind(f', chains', k) ==
            if k in PageMap(q) then Some(PageMap(q)[k]) else IndexFind(f, chains, k))
  {
    var off := stack[|stack| - 1];
    var c := chains[h];
    ChainInFile(f, h, c, capacity, |chains|);
    var f' := Appended(f, c, off, q);
    var chains' := chains[h := c + [off]];
    AppendPage(f, h, c, off, q, capacity, |chains|);
    AppendOnlyBucket(f, chains, stack, h, off, q, capacity, pageSize);
    BucketStep(f, f', chains, h, c + [off], Touched(c, off), capacity);
    forall k
      ensures IndexFind(f', chains', k) == if k in PageMap(q) then Some(PageMap(q)[k]) else IndexFind(f, chains, k)
    {
      AppendedFind(f, h, c, off, q, k, capacity, |chains|);
    }
    AppendLive(f, chains, h, off, q);
    AppendFree(f, chains, stack, h, q, capacity, pageSize);
  }

  ghost function Touched(c: seq<int>, off: int): set<int> {
    (set x | x in c) + {off}
  }

  lemma FreePageInNoChain(f: KeyFile, chains: seq<seq<int>>, stack: seq<int>, capacity: nat, pageSize: int)
    requires FileOk(f, chains, stack, capacity, pageSize)
    ensures forall g, i :: 0 <= g < |chains| && 0 <= i < |chains[g]| ==> chains[g][i] != stack[|stack| - 1]
  {
    var off := stack[|stack| - 1];
    forall g, i | 0 <= g < |chains| && 0 <= i < |chains[g]|
      ensures chains[g][i] != off
    {
      ChainInFile(f, g, chains[g], capacity, |chains|);
      assert off in stack;
    }
  }

  lemma AppendOnlyBucket(f: KeyFile, chains: seq<seq<int>>, stack: seq<int>, h: int, off: int, q: KeyPage,
                         capacity: nat, pageSize: int)
    requires FileOk(f, chains, stack, capacity, pageSize) && 0 <= h < |chains| && off == stack[|stack| - 1]
    requires forall m :: 0 <= m < |chains[h]| ==> chains[h][m] in f
    ensures OnlyBucket(f, Appended(f, chains[h], off, q), chains, h, Touched(chains[h], off))
  {
    BucketsApart(f, chains, h, capacity);
    FreePageInNoChain(f, chains, stack, capacity, pageSize);
  }

  lemma AppendLive(f: KeyFile, chains: seq<seq<int>>, h: int, off: int, q: KeyPage)
    requires LiveOk(f, chains) && 0 <= h < |chains| && q.hash == h
    requires forall m ::
      0 <= m < |chains[h]| ==> chains[h][m] in f && f[chains[h][m]].hash == h && Live(f[chains[h][m]])
    ensures LiveOk(Appended(f, chains[h], off, q), chains[h := chains[h] + [off]])
  {
  }

  lemma AppendFree(f: KeyFile, chains: seq<seq<int>>, stack: seq<int>, h: int, q: KeyPage, capacity: nat, pageSize: int)
    requires FileOk(f, chains, stack, capacity, pageSize) && 0 <= h < |chains| && Live(q)
    requires forall m :: 0 <= m < |chains[h]| ==> chains[h][m] in f && Live(f[chains[h][m]])
    ensures FreeOk(Appended(f, chains[h], stack[|stack| - 1], q), FP.Popped(stack, pageSize), pageSize)
  {
    hide FP.Allocated, FP.Aligned, FP.Popped, ChainsOk, LiveOk;
    var off, c := stack[|stack| - 1], chains[h];
    FP.GetSafe(stack, pageSize);
    FP.PoppedExtent(stack, pageSize);
    FreePageInNoChain(f, chains, stack, capacity, pageSize);
    assert c != [] ==> c[|c| - 1] in f && Live(f[c[|c| - 1]]) && c[|c| - 1] != off;
  }

  /** Unlinking a page of bucket h and giving its offset back. */
  lemma UnlinkFromFile(f: KeyFile, chains: seq<seq<int>>, stack: seq<int>, h: int, i: nat, capacity: nat, pageSize: int)
    requires FileOk(f, chains, stack, capacity, pageSize) && 0 <= h < |chains| && i < |chains[h]|
    ensures forall m :: 0 <= m < |chains[h]| ==> chains[h][m] in f
    ensures var off := chains[h][i];
      var f' := Unlinked(f, chains[h], i); var chains' := chains[h := Without(chains[h], i)];
      && off in FP.Allocated(stack, pageSize)
      && FileOk(f', chains', stack + [off], capacity, pageSize)
      && (forall k :: IndexFind(f', chains', k) == if k in PageMap(f[off]) then None else IndexFind(f, chains, k))
  {
    var c := chains[h];
    var off := c[i];
    ChainInFile(f, h, c, capacity, |chains|);
    var f' := Unlinked(f, c, i);
    var chains' := chains[h := Without(c, i)];
    BucketsApart(f, chains, h, capacity);
    UnlinkPage(f, h, c, i, capacity, |chains|);
    assert OnlyBucket(f, f', chains, h, Touched(c, off));
    BucketStep(f, f', chains, h, Without(c, i), Touched(c, off), capacity);
    forall k
      ensures IndexFind(f', chains', k) == if k in PageMap(f[off]) then None else IndexFind(f, chains, k)
    {
      UnlinkedFind(f, h, c, i, k, capacity, |chains|);
      assert LinkGood(f, h, c, i, capacity, |chains|);
    }
    UnlinkLive(f, chains, h, i, capacity);
    UnlinkFree(f, chains, stack, h, i, capacity, pageSize);
  }

  lemma UnlinkLive(f: KeyFile, chains: seq<seq<int>>, h: int, i: nat, capacity: nat)
    requires ChainsOk(f, chains, capacity) && LiveOk(f, chains) && 0 <= h < |chains| && i < |chains[h]|
    requires forall m :: 0 <= m < |chains[h]| ==> chains[h][m] in f
    ensures LiveOk(Unlinked(f, chains[h], i), chains[h := Without(chains[h], i)])
  {
    var c := chains[h];
    var f' := Unlinked(f, c, i);
    var chains' := chains[h := Without(c, i)];
    assert ChainOk(f, h, c, capacity, |chains|);
    ChainInFile(f, h, c, capacity, |chains|);
    forall off | off in f' && Live(f'[off])
      ensures 0 <= f'[off].hash < |chains'| && off in chains'[f'[off].hash]
    {
      assert off != c[i];
      assert f'[off].hash == f[off].hash && Live(f[off]);
      if f[off].hash == h {
        var j :| 0 <= j < |c| && c[j] == off;
        assert Without(c, i)[if j < i then j else j - 1] == off;
      }
    }
  }

  lemma UnlinkFree(f: KeyFile, chains: seq<seq<int>>, stack: seq<int>, h: int, i: nat, capacity: nat, pageSize: int)
    requires FileOk(f, chains, stack, capacity, pageSize) && 0 <= h < |chains| && i < |chains[h]|
    requires forall m :: 0 <= m < |chains[h]| ==> chains[h][m] in f && Live(f[chains[h][m]])
    ensures chains[h][i] in FP.Allocated(stack, pageSize)
    ensures FreeOk(Unlinked(f, chains[h], i), stack + [chains[h][i]], pageSize)
  {
    var c := chains[h];
    assert ChainOk(f, h, c, capacity, |chains|);
    FP.FreeSafe(stack, pageSize, c[i]);
  }
}
