/** The search tree a key page stores, as a value: its rotations, insertion and removal.
    A node also names the record slot it lives in, so that the tree determines the page. */
module AvlTree {
  import opened Options
  import opened KeyOrder

  datatype Tree = Leaf | Node(left: Tree, slot: nat, key: Key, voff: int, right: Tree)

  function Max(a: int, b: int): int { if a < b then b else a }

  function Height(t: Tree): nat {
    if t.Leaf? then 0 else 1 + Max(Height(t.left), Height(t.right))
  }

  function Size(t: Tree): nat {
    if t.Leaf? then 0 else Size(t.left) + 1 + Size(t.right)
  }

  function BalanceFactor(t: Tree): int {
    if t.Leaf? then 0 else Height(t.left) - Height(t.right)
  }

  /** The largest height a record can store: the field is a signed character. */
  const MAX_CHAR := 127

  /** The most records a page can have: slot numbers are C shorts. */
  const MAX_SLOTS := 32767

  /** Conversion to a signed character. */
  function ToChar(h: int): (c: int)
    ensures -128 <= c <= 127
    ensures -128 <= h <= 127 ==> c == h
    ensures h == 128 ==> c == -128
  {
    (h + 128) % 256 - 128
  }

  /** The height a record stores, from the heights its children store. It is the true height only
      as long as that fits a character. */
  function Stored(t: Tree): (h: int)
    ensures -128 <= h <= 127
  {
    if t.Leaf? then 0 else ToChar(1 + Max(Stored(t.left), Stored(t.right)))
  }

  /** The balance factor as the records show it. */
  function StoredFactor(t: Tree): int {
    if t.Leaf? then 0 else Stored(t.left) - Stored(t.right)
  }

  function Slots(t: Tree): set<nat> {
    if t.Leaf? then {} else Slots(t.left) + {t.slot} + Slots(t.right)
  }

  /** The keys of the tree with their value offsets. */
  function Entries(t: Tree): map<Key, int> {
    if t.Leaf? then map[] else Entries(t.left)[t.key := t.voff] + Entries(t.right)
  }

  /** No slot is used twice. */
  ghost predicate Distinct(t: Tree) {
    |Slots(t)| == Size(t)
  }

  /** The tree is in search order and its keys lie strictly between two positions. */
  ghost predicate Within(t: Tree, lo: int, hi: int) {
    t.Node? ==>
      && lo < Rank(t.key) < hi
      && Within(t.left, lo, Rank(t.key))
      && Within(t.right, Rank(t.key), hi)
  }

  ghost predicate Ordered(t: Tree) {
    exists hi :: Within(t, -1, hi)
  }

  /** Every balance factor is at most one in magnitude. */
  ghost predicate Balanced(t: Tree) {
    t.Node? ==>
      && Balanced(t.left) && Balanced(t.right)
      && -1 <= BalanceFactor(t) <= 1
  }

  // ---------- rotations ----------

  function RotateLeft(t: Tree): Tree
    requires t.Node? && t.right.Node?
  {
    var p := t.right;
    Node(Node(t.left, t.slot, t.key, t.voff, p.left), p.slot, p.key, p.voff, p.right)
  }

  function RotateRight(t: Tree): Tree
    requires t.Node? && t.left.Node?
  {
    var p := t.left;
    Node(p.left, p.slot, p.key, p.voff, Node(p.right, t.slot, t.key, t.voff, t.right))
  }

  function RotateLeftRight(t: Tree): Tree
    requires t.Node? && t.left.Node? && t.left.right.Node?
  {
    RotateRight(t.(left := RotateLeft(t.left)))
  }

  function RotateRightLeft(t: Tree): Tree
    requires t.Node? && t.right.Node? && t.right.left.Node?
  {
    RotateLeft(t.(right := RotateRight(t.right)))
  }

  /** One balancing step, decided from the stored heights. A child that leans neither way is left
      alone, even at factor 2. The inner child of a double rotation is always there in a tree that a
      page has room for (PivotsExist). */
  function Balance(t: Tree): Tree {
    var bf := StoredFactor(t);
    if bf == -2 then
      var cf := StoredFactor(t.right);
      if cf == -1 then RotateLeft(t)
      else if cf == 1 && t.right.left.Node? then RotateRightLeft(t)
      else t
    else if bf == 2 then
      var cf := StoredFactor(t.left);
      if cf == -1 && t.left.right.Node? then RotateLeftRight(t)
      else if cf == 1 then RotateRight(t)
      else t
    else t
  }

  // ---------- search, insertion, removal ----------

  /** The slot where a search for k ends, or -1. */
  function Search(t: Tree, k: Key): int {
    if t.Leaf? then -1
    else
      var cmp := KeyCmp(k, t.key);
      if cmp < 0 then Search(t.left, k)
      else if cmp == 0 then t.slot
      else Search(t.right, k)
  }

  /** The value offset a search for k ends at. */
  function Lookup(t: Tree, k: Key): Option<int> {
    if t.Leaf? then None
    else
      var cmp := KeyCmp(k, t.key);
      if cmp < 0 then Lookup(t.left, k)
      else if cmp == 0 then Some(t.voff)
      else Lookup(t.right, k)
  }

  /** Insertion; free is the slot a new node may take, -1 when the page is full. */
  function Put(t: Tree, k: Key, v: int, free: int): Tree
    requires free >= -1
  {
    if t.Leaf? then
      if free == -1 then Leaf else Node(Leaf, free, k, v, Leaf)
    else
      var cmp := KeyCmp(k, t.key);
      if cmp < 0 then Balance(t.(left := Put(t.left, k, v, free)))
      else if cmp == 0 then Balance(t.(voff := v))
      else Balance(t.(right := Put(t.right, k, v, free)))
  }

  /** The rightmost node. */
  function MaxNode(t: Tree): (m: Tree)
    requires t.Node?
    ensures m.Node?
  {
    if t.right.Leaf? then t else MaxNode(t.right)
  }

  function RemoveMax(t: Tree): Tree
    requires t.Node?
  {
    if t.right.Leaf? then Balance(t.left)
    else Balance(t.(right := RemoveMax(t.right)))
  }

  function Remove(t: Tree, k: Key): Tree {
    if t.Leaf? then Leaf
    else
      var cmp := KeyCmp(k, t.key);
      if cmp < 0 then Balance(t.(left := Remove(t.left, k)))
      else if cmp > 0 then Balance(t.(right := Remove(t.right, k)))
      else if t.left.Leaf? then Balance(t.right)
      else if t.right.Leaf? then Balance(t.left)
      else
        var m := MaxNode(t.left);
        Balance(Node(RemoveMax(t.left), t.slot, m.key, m.voff, t.right))
  }

  /** The slot that removal frees, or -1. */
  function FreedSlot(t: Tree, k: Key): int {
    if t.Leaf? then -1
    else
      var cmp := KeyCmp(k, t.key);
      if cmp < 0 then FreedSlot(t.left, k)
      else if cmp > 0 then FreedSlot(t.right, k)
      else if t.left.Leaf? || t.right.Leaf? then t.slot
      else MaxNode(t.left).slot
  }

  /** The node holding k has both children. */
  predicate HasTwoChildren(t: Tree, k: Key) {
    t.Node? &&
    var cmp := KeyCmp(k, t.key);
    if cmp < 0 then HasTwoChildren(t.left, k)
    else if cmp > 0 then HasTwoChildren(t.right, k)
    else t.left.Node? && t.right.Node?
  }

  // ---------- slots ----------

  lemma {:induction false} SlotsAtMostSize(t: Tree)
    ensures |Slots(t)| <= Size(t)
  {
    if t.Node? {
      SlotsAtMostSize(t.left);
      SlotsAtMostSize(t.right);
      UnionSize(Slots(t.left), t.slot, Slots(t.right));
    }
  }

  lemma {:induction false} UnionSize<T>(a: set<T>, x: T, b: set<T>)
    ensures |a + {x} + b| <= |a| + 1 + |b|
    ensures |a + {x} + b| == |a| + 1 + |b| <==> x !in a && x !in b && a !! b
  {
    assert |a + {x}| == |a| + 1 - |a * {x}|;
    assert |a + {x} + b| == |a + {x}| + |b| - |(a + {x}) * b|;
    assert a * {x} == if x in a then {x} else {};
    if x !in a && x !in b && a !! b {
      assert (a + {x}) * b == {};
    } else if x !in a {
      var y :| y in (a + {x}) * b;
      assert |(a + {x}) * b| >= 1 by {
        assert {y} <= (a + {x}) * b;
      }
    }
  }

  /** Slots are distinct in a tree exactly when they are in both halves and the halves do not meet. */
  lemma {:induction false} DistinctParts(t: Tree)
    requires t.Node?
    ensures Distinct(t) <==>
      && Distinct(t.left) && Distinct(t.right)
      && t.slot !in Slots(t.left) && t.slot !in Slots(t.right)
      && Slots(t.left) !! Slots(t.right)
  {
    SlotsAtMostSize(t.left);
    SlotsAtMostSize(t.right);
    UnionSize(Slots(t.left), t.slot, Slots(t.right));
  }

  // ---------- balancing keeps the contents ----------

  lemma {:induction false} RotateLeftKeeps(t: Tree)
    requires t.Node? && t.right.Node?
    ensures Slots(RotateLeft(t)) == Slots(t) && Size(RotateLeft(t)) == Size(t)
  {
    var p := t.right;
    var a := Node(t.left, t.slot, t.key, t.voff, p.left);
    assert Slots(a) == Slots(t.left) + {t.slot} + Slots(p.left);
  }

  lemma {:induction false} RotateRightKeeps(t: Tree)
    requires t.Node? && t.left.Node?
    ensures Slots(RotateRight(t)) == Slots(t) && Size(RotateRight(t)) == Size(t)
  {
    var p := t.left;
    var b := Node(p.right, t.slot, t.key, t.voff, t.right);
    assert Slots(b) == Slots(p.right) + {t.slot} + Slots(t.right);
  }

  /** Balancing keeps the slots. */
  lemma {:induction false} BalanceKeepsSlots(t: Tree)
    ensures Slots(Balance(t)) == Slots(t) && Size(Balance(t)) == Size(t)
    ensures Distinct(t) ==> Distinct(Balance(t))
  {
    var bf := StoredFactor(t);
    if bf == -2 {
      var cf := StoredFactor(t.right);
      if cf == -1 {
        RotateLeftKeeps(t);
      } else if cf == 1 && t.right.left.Node? {
        RotateRightKeeps(t.right);
        RotateLeftKeeps(t.(right := RotateRight(t.right)));
      }
    } else if bf == 2 {
      var cf := StoredFactor(t.left);
      if cf == 1 {
        RotateRightKeeps(t);
      } else if cf == -1 && t.left.right.Node? {
        RotateLeftKeeps(t.left);
        RotateRightKeeps(t.(left := RotateLeft(t.left)));
      }
    }
  }

  lemma {:induction false} RotateLeftOrder(t: Tree, lo: int, hi: int)
    requires t.Node? && t.right.Node? && Within(t, lo, hi)
    ensures Within(RotateLeft(t), lo, hi)
  {
  }

  lemma {:induction false} RotateRightOrder(t: Tree, lo: int, hi: int)
    requires t.Node? && t.left.Node? && Within(t, lo, hi)
    ensures Within(RotateRight(t), lo, hi)
  {
  }

  /** Balancing keeps the search order. */
  lemma {:induction false} BalanceKeepsOrder(t: Tree, lo: int, hi: int)
    requires Within(t, lo, hi)
    ensures Within(Balance(t), lo, hi)
  {
    var bf := StoredFactor(t);
    if bf == -2 {
      var cf := StoredFactor(t.right);
      if cf == -1 {
        RotateLeftOrder(t, lo, hi);
      } else if cf == 1 && t.right.left.Node? {
        RotateRightOrder(t.right, Rank(t.key), hi);
        RotateLeftOrder(t.(right := RotateRight(t.right)), lo, hi);
      }
    } else if bf == 2 {
      var cf := StoredFactor(t.left);
      if cf == 1 {
        RotateRightOrder(t, lo, hi);
      } else if cf == -1 && t.left.right.Node? {
        RotateLeftOrder(t.left, lo, Rank(t.key));
        RotateRightOrder(t.(left := RotateLeft(t.left)), lo, hi);
      }
    }
  }

  lemma {:induction false} RotateLeftLookup(t: Tree, x: Key, lo: int, hi: int)
    requires t.Node? && t.right.Node? && Within(t, lo, hi)
    ensures Lookup(RotateLeft(t), x) == Lookup(t, x)
  {
    KeyCmpIsRankOrder(x, t.key);
    KeyCmpIsRankOrder(x, t.right.key);
  }

  lemma {:induction false} RotateRightLookup(t: Tree, x: Key, lo: int, hi: int)
    requires t.Node? && t.left.Node? && Within(t, lo, hi)
    ensures Lookup(RotateRight(t), x) == Lookup(t, x)
  {
    KeyCmpIsRankOrder(x, t.key);
    KeyCmpIsRankOrder(x, t.left.key);
  }

  /** Balancing changes no search result. */
  lemma {:induction false} BalanceLookup(t: Tree, x: Key, lo: int, hi: int)
    requires Within(t, lo, hi)
    ensures Lookup(Balance(t), x) == Lookup(t, x)
  {
    var bf := StoredFactor(t);
    if bf == -2 {
      var cf := StoredFactor(t.right);
      if cf == -1 {
        RotateLeftLookup(t, x, lo, hi);
      } else if cf == 1 && t.right.left.Node? {
        RotateRightLookup(t.right, x, Rank(t.key), hi);
        RotateRightOrder(t.right, Rank(t.key), hi);
        RotateLeftLookup(t.(right := RotateRight(t.right)), x, lo, hi);
      }
    } else if bf == 2 {
      var cf := StoredFactor(t.left);
      if cf == 1 {
        RotateRightLookup(t, x, lo, hi);
      } else if cf == -1 && t.left.right.Node? {
        RotateLeftLookup(t.left, x, lo, Rank(t.key));
        RotateLeftOrder(t.left, lo, Rank(t.key));
        RotateRightLookup(t.(left := RotateLeft(t.left)), x, lo, hi);
      }
    }
  }

  // ---------- the tree refines a map ----------

  lemma {:induction false} WithinWider(t: Tree, lo: int, hi: int, lo': int, hi': int)
    requires Within(t, lo, hi) && lo' <= lo && hi <= hi'
    ensures Within(t, lo', hi')
  {
    if t.Node? {
      WithinWider(t.left, lo, Rank(t.key), lo', Rank(t.key));
      WithinWider(t.right, Rank(t.key), hi, Rank(t.key), hi');
    }
  }

  lemma {:induction false} LookupWithin(t: Tree, x: Key, lo: int, hi: int)
    requires Within(t, lo, hi) && Lookup(t, x).Some?
    ensures lo < Rank(x) < hi
  {
    KeyCmpIsRankOrder(x, t.key);
    if KeyCmp(x, t.key) < 0 {
      LookupWithin(t.left, x, lo, Rank(t.key));
    } else if KeyCmp(x, t.key) > 0 {
      LookupWithin(t.right, x, Rank(t.key), hi);
    }
  }

  /** Searching finds exactly the entries. */
  lemma {:induction false} EntryIsLookup(t: Tree, x: Key, lo: int, hi: int)
    requires Within(t, lo, hi)
    ensures Lookup(t, x) == if x in Entries(t) then Some(Entries(t)[x]) else None
  {
    if t.Node? {
      KeyCmpIsRankOrder(x, t.key);
      EntryIsLookup(t.left, x, lo, Rank(t.key));
      EntryIsLookup(t.right, x, Rank(t.key), hi);
      if x in Entries(t.left) {
        LookupWithin(t.left, x, lo, Rank(t.key));
      }
      if x in Entries(t.right) {
        LookupWithin(t.right, x, Rank(t.key), hi);
      }
    }
  }

  /** A search ends in a slot of the tree exactly when the key is there. */
  lemma {:induction false} SearchFinds(t: Tree, k: Key)
    ensures Lookup(t, k).Some? <==> Search(t, k) != -1
    ensures Lookup(t, k).Some? <==> Search(t, k) in Slots(t)
  {
    if t.Node? {
      SearchFinds(t.left, k);
      SearchFinds(t.right, k);
    }
  }

  lemma {:induction false} PutOrder(t: Tree, k: Key, v: int, free: int, lo: int, hi: int)
    requires Within(t, lo, hi) && lo < Rank(k) < hi && free >= -1
    ensures Within(Put(t, k, v, free), lo, hi)
  {
    if t.Node? {
      KeyCmpIsRankOrder(k, t.key);
      if KeyCmp(k, t.key) < 0 {
        PutOrder(t.left, k, v, free, lo, Rank(t.key));
        BalanceKeepsOrder(t.(left := Put(t.left, k, v, free)), lo, hi);
      } else if KeyCmp(k, t.key) == 0 {
        BalanceKeepsOrder(t.(voff := v), lo, hi);
      } else {
        PutOrder(t.right, k, v, free, Rank(t.key), hi);
        BalanceKeepsOrder(t.(right := Put(t.right, k, v, free)), lo, hi);
      }
    }
  }

  lemma {:induction false} PutLookup(t: Tree, k: Key, v: int, free: int, x: Key, lo: int, hi: int)
    requires Within(t, lo, hi) && lo < Rank(k) < hi && free >= -1
    ensures Lookup(Put(t, k, v, free), x) ==
      if x == k && (free != -1 || Lookup(t, k).Some?) then Some(v) else Lookup(t, x)
  {
    KeyCmpIsRankOrder(x, k);
    if t.Node? {
      KeyCmpIsRankOrder(k, t.key);
      KeyCmpIsRankOrder(x, t.key);
      if KeyCmp(k, t.key) < 0 {
        PutOrder(t.left, k, v, free, lo, Rank(t.key));
        PutLookup(t.left, k, v, free, x, lo, Rank(t.key));
        BalanceLookup(t.(left := Put(t.left, k, v, free)), x, lo, hi);
      } else if KeyCmp(k, t.key) == 0 {
        BalanceLookup(t.(voff := v), x, lo, hi);
      } else {
        PutOrder(t.right, k, v, free, Rank(t.key), hi);
        PutLookup(t.right, k, v, free, x, Rank(t.key), hi);
        BalanceLookup(t.(right := Put(t.right, k, v, free)), x, lo, hi);
      }
    }
  }

  /** The slot an insertion adds, as a set. */
  function NewSlot(t: Tree, k: Key, free: int): set<int> {
    if free != -1 && Lookup(t, k).None? then {free} else {}
  }

  lemma MoveOut(a: set<int>, x: int, b: set<int>, n: set<int>)
    ensures (a + n) + {x} + b == (a + {x} + b) + n && a + {x} + (b + n) == (a + {x} + b) + n
  {
  }

  lemma {:induction false} PutNodes(t: Tree, k: Key, v: int, free: int)
    requires free >= -1
    ensures Slots(Put(t, k, v, free)) == Slots(t) + NewSlot(t, k, free)
    ensures Size(Put(t, k, v, free)) == Size(t) + |NewSlot(t, k, free)|
  {
    hide Balance;
    if t.Node? {
      var cmp := KeyCmp(k, t.key);
      MoveOut(Slots(t.left), t.slot, Slots(t.right), NewSlot(t, k, free));
      if cmp < 0 {
        PutNodes(t.left, k, v, free);
        BalanceKeepsSlots(t.(left := Put(t.left, k, v, free)));
        assert NewSlot(t, k, free) == NewSlot(t.left, k, free);
      } else if cmp == 0 {
        BalanceKeepsSlots(t.(voff := v));
        assert NewSlot(t, k, free) == {};
      } else {
        PutNodes(t.right, k, v, free);
        BalanceKeepsSlots(t.(right := Put(t.right, k, v, free)));
        assert NewSlot(t, k, free) == NewSlot(t.right, k, free);
      }
      hide NewSlot, Lookup;
    }
  }

  /** Only a new key on a page with room takes a slot, and it takes the free one. */
  lemma PutSlots(t: Tree, k: Key, v: int, free: int)
    requires free >= -1
    ensures var grows := free != -1 && Lookup(t, k).None?;
      && Slots(Put(t, k, v, free)) == (if grows then Slots(t) + {free} else Slots(t))
      && Size(Put(t, k, v, free)) == Size(t) + (if grows then 1 else 0)
    ensures Distinct(t) && free !in Slots(t) ==> Distinct(Put(t, k, v, free))
  {
    hide Put, Slots, Size, Lookup;
    PutNodes(t, k, v, free);
  }

  lemma {:induction false} RotateSearch(t: Tree, k: Key, lo: int, hi: int)
    requires t.Node? && Within(t, lo, hi)
    ensures t.right.Node? ==> Search(RotateLeft(t), k) == Search(t, k)
    ensures t.left.Node? ==> Search(RotateRight(t), k) == Search(t, k)
  {
    KeyCmpIsRankOrder(k, t.key);
    if t.right.Node? { KeyCmpIsRankOrder(k, t.right.key); }
    if t.left.Node? { KeyCmpIsRankOrder(k, t.left.key); }
  }

  /** Balancing moves no key to another slot. */
  lemma {:induction false} BalanceSearch(t: Tree, k: Key, lo: int, hi: int)
    requires Within(t, lo, hi)
    ensures Search(Balance(t), k) == Search(t, k)
  {
    var bf := StoredFactor(t);
    if bf == -2 {
      RotateSearch(t, k, lo, hi);
      if StoredFactor(t.right) == 1 && t.right.left.Node? {
        RotateRightOrder(t.right, Rank(t.key), hi);
        RotateSearch(t.right, k, Rank(t.key), hi);
        RotateSearch(t.(right := RotateRight(t.right)), k, lo, hi);
      }
    } else if bf == 2 {
      RotateSearch(t, k, lo, hi);
      if StoredFactor(t.left) == -1 && t.left.right.Node? {
        RotateLeftOrder(t.left, lo, Rank(t.key));
        RotateSearch(t.left, k, lo, Rank(t.key));
        RotateSearch(t.(left := RotateLeft(t.left)), k, lo, hi);
      }
    }
  }

  /** After an insertion the key is found where it was, or else in the free slot. */
  lemma {:induction false} PutSearch(t: Tree, k: Key, v: int, free: int, lo: int, hi: int)
    requires Within(t, lo, hi) && lo < Rank(k) < hi && free >= -1
    ensures Search(Put(t, k, v, free), k) == if Lookup(t, k).Some? then Search(t, k) else free
  {
    KeyCmpIsRankOrder(k, k);
    if t.Node? {
      KeyCmpIsRankOrder(k, t.key);
      if KeyCmp(k, t.key) < 0 {
        PutOrder(t.left, k, v, free, lo, Rank(t.key));
        PutSearch(t.left, k, v, free, lo, Rank(t.key));
        BalanceSearch(t.(left := Put(t.left, k, v, free)), k, lo, hi);
      } else if KeyCmp(k, t.key) == 0 {
        BalanceSearch(t.(voff := v), k, lo, hi);
      } else {
        PutOrder(t.right, k, v, free, Rank(t.key), hi);
        PutSearch(t.right, k, v, free, Rank(t.key), hi);
        BalanceSearch(t.(right := Put(t.right, k, v, free)), k, lo, hi);
      }
    }
  }

  lemma {:induction false} PutSlot(t: Tree, k: Key, v: int, free: int)
    requires Ordered(t) && free >= -1
    ensures Search(Put(t, k, v, free), k) == if Lookup(t, k).Some? then Search(t, k) else free
  {
    var h :| Within(t, -1, h);
    var hi := Max(h, Rank(k) + 1);
    WithinWider(t, -1, h, -1, hi);
    PutSearch(t, k, v, free, -1, hi);
  }

  /** Insertion is map update; only a new key on a full page leaves the map alone. */
  lemma {:induction false} PutRefines(t: Tree, k: Key, v: int, free: int)
    requires Ordered(t) && free >= -1
    ensures Ordered(Put(t, k, v, free))
    ensures Entries(Put(t, k, v, free)) ==
      if free == -1 && k !in Entries(t) then Entries(t) else Entries(t)[k := v]
  {
    hide Put, Lookup, Entries, Within;
    var h :| Within(t, -1, h);
    var hi := Max(h, Rank(k) + 1);
    WithinWider(t, -1, h, -1, hi);
    var u := Put(t, k, v, free);
    PutOrder(t, k, v, free, -1, hi);
    EntryIsLookup(t, k, -1, hi);
    var want := if free == -1 && k !in Entries(t) then Entries(t) else Entries(t)[k := v];
    forall x
      ensures x in Entries(u) <==> x in want
      ensures x in want ==> Entries(u)[x] == want[x]
    {
      EntryIsLookup(t, x, -1, hi);
      EntryIsLookup(u, x, -1, hi);
      PutLookup(t, k, v, free, x, -1, hi);
    }
    assert Entries(u) == want;
  }

  lemma {:induction false} RemoveMaxOrder(t: Tree, lo: int, hi: int)
    requires t.Node? && Within(t, lo, hi)
    ensures lo < Rank(MaxNode(t).key) < hi
    ensures Within(RemoveMax(t), lo, Rank(MaxNode(t).key))
    ensures Lookup(t, MaxNode(t).key) == Some(MaxNode(t).voff)
  {
    KeyCmpIsRankOrder(MaxNode(t).key, t.key);
    if t.right.Leaf? {
      BalanceKeepsOrder(t.left, lo, Rank(t.key));
    } else {
      RemoveMaxOrder(t.right, Rank(t.key), hi);
      BalanceKeepsOrder(t.(right := RemoveMax(t.right)), lo, Rank(MaxNode(t).key));
    }
  }

  lemma {:induction false} RemoveMaxLookup(t: Tree, x: Key, lo: int, hi: int)
    requires t.Node? && Within(t, lo, hi)
    ensures Lookup(RemoveMax(t), x) == if x == MaxNode(t).key then None else Lookup(t, x)
  {
    KeyCmpIsRankOrder(x, t.key);
    KeyCmpIsRankOrder(x, MaxNode(t).key);
    if t.right.Leaf? {
      BalanceLookup(t.left, x, lo, Rank(t.key));
      if Lookup(t.left, x).Some? {
        LookupWithin(t.left, x, lo, Rank(t.key));
      }
    } else {
      RemoveMaxOrder(t.right, Rank(t.key), hi);
      RemoveMaxLookup(t.right, x, Rank(t.key), hi);
      BalanceLookup(t.(right := RemoveMax(t.right)), x, lo, Rank(MaxNode(t).key));
    }
  }

  lemma {:induction false} RemoveMaxSlots(t: Tree)
    requires t.Node? && Distinct(t)
    ensures MaxNode(t).slot in Slots(t)
    ensures Slots(RemoveMax(t)) == Slots(t) - {MaxNode(t).slot}
    ensures Size(RemoveMax(t)) + 1 == Size(t)
    ensures Distinct(RemoveMax(t))
  {
    DistinctParts(t);
    if t.right.Leaf? {
      BalanceKeepsSlots(t.left);
    } else {
      RemoveMaxSlots(t.right);
      BalanceKeepsSlots(t.(right := RemoveMax(t.right)));
    }
  }

  lemma {:induction false} RemoveOrder(t: Tree, k: Key, lo: int, hi: int)
    requires Within(t, lo, hi)
    ensures Within(Remove(t, k), lo, hi)
  {
    if t.Node? {
      KeyCmpIsRankOrder(k, t.key);
      if KeyCmp(k, t.key) < 0 {
        RemoveOrder(t.left, k, lo, Rank(t.key));
        BalanceKeepsOrder(t.(left := Remove(t.left, k)), lo, hi);
      } else if KeyCmp(k, t.key) > 0 {
        RemoveOrder(t.right, k, Rank(t.key), hi);
        BalanceKeepsOrder(t.(right := Remove(t.right, k)), lo, hi);
      } else if t.left.Leaf? {
        WithinWider(t.right, Rank(t.key), hi, lo, hi);
        BalanceKeepsOrder(t.right, lo, hi);
      } else if t.right.Leaf? {
        WithinWider(t.left, lo, Rank(t.key), lo, hi);
        BalanceKeepsOrder(t.left, lo, hi);
      } else {
        RemoveMaxOrder(t.left, lo, Rank(t.key));
        var m := MaxNode(t.left);
        WithinWider(t.right, Rank(t.key), hi, Rank(m.key), hi);
        BalanceKeepsOrder(Node(RemoveMax(t.left), t.slot, m.key, m.voff, t.right), lo, hi);
      }
    }
  }

  lemma {:induction false} RemoveLookup(t: Tree, k: Key, x: Key, lo: int, hi: int)
    requires Within(t, lo, hi)
    ensures Lookup(Remove(t, k), x) == if x == k then None else Lookup(t, x)
  {
    KeyCmpIsRankOrder(x, k);
    if t.Node? {
      KeyCmpIsRankOrder(k, t.key);
      KeyCmpIsRankOrder(x, t.key);
      if KeyCmp(k, t.key) < 0 {
        RemoveOrder(t.left, k, lo, Rank(t.key));
        RemoveLookup(t.left, k, x, lo, Rank(t.key));
        BalanceLookup(t.(left := Remove(t.left, k)), x, lo, hi);
      } else if KeyCmp(k, t.key) > 0 {
        RemoveOrder(t.right, k, Rank(t.key), hi);
        RemoveLookup(t.right, k, x, Rank(t.key), hi);
        BalanceLookup(t.(right := Remove(t.right, k)), x, lo, hi);
      } else {
        RemoveRootLookup(t, x, lo, hi);
      }
    }
  }

  lemma {:induction false} RemoveRootLookup(t: Tree, x: Key, lo: int, hi: int)
    requires t.Node? && Within(t, lo, hi)
    ensures Lookup(Remove(t, t.key), x) == if x == t.key then None else Lookup(t, x)
  {
    KeyCmpIsRankOrder(t.key, t.key);
    KeyCmpIsRankOrder(x, t.key);
    if Lookup(t.left, x).Some? {
      LookupWithin(t.left, x, lo, Rank(t.key));
    }
    if Lookup(t.right, x).Some? {
      LookupWithin(t.right, x, Rank(t.key), hi);
    }
    if t.left.Leaf? {
      BalanceLookup(t.right, x, Rank(t.key), hi);
    } else if t.right.Leaf? {
      BalanceLookup(t.left, x, lo, Rank(t.key));
    } else {
      var m := MaxNode(t.left);
      KeyCmpIsRankOrder(x, m.key);
      RemoveMaxOrder(t.left, lo, Rank(t.key));
      RemoveMaxLookup(t.left, x, lo, Rank(t.key));
      if Lookup(RemoveMax(t.left), x).Some? {
        LookupWithin(RemoveMax(t.left), x, lo, Rank(m.key));
      }
      WithinWider(t.right, Rank(t.key), hi, Rank(m.key), hi);
      BalanceLookup(Node(RemoveMax(t.left), t.slot, m.key, m.voff, t.right), x, lo, hi);
    }
  }

  lemma DropOne(a: set<nat>, x: nat, b: set<nat>, freed: int)
    requires freed != x && freed !in b
    ensures (a - {freed}) + {x} + b == (a + {x} + b) - {freed}
    ensures b + {x} + (a - {freed}) == (b + {x} + a) - {freed}
  {
  }

  lemma {:induction false} ShrunkLeftSlots(t: Tree, l: Tree, freed: int)
    requires t.Node? && Distinct(t)
    requires freed == -1 || freed in Slots(t.left)
    requires Slots(l) == Slots(t.left) - {freed}
    ensures Slots(Balance(t.(left := l))) == Slots(t) - {freed}
    ensures Size(Balance(t.(left := l))) == Size(t) - Size(t.left) + Size(l)
  {
    hide Balance;
    DistinctParts(t);
    DropOne(Slots(t.left), t.slot, Slots(t.right), freed);
    var m := t.(left := l);
    assert Slots(m) == Slots(l) + {t.slot} + Slots(t.right);
    BalanceKeepsSlots(m);
  }

  lemma {:induction false} ShrunkRightSlots(t: Tree, r: Tree, freed: int)
    requires t.Node? && Distinct(t)
    requires freed == -1 || freed in Slots(t.right)
    requires Slots(r) == Slots(t.right) - {freed}
    ensures Slots(Balance(t.(right := r))) == Slots(t) - {freed}
    ensures Size(Balance(t.(right := r))) == Size(t) - Size(t.right) + Size(r)
  {
    hide Balance;
    DistinctParts(t);
    DropOne(Slots(t.right), t.slot, Slots(t.left), freed);
    var m := t.(right := r);
    assert Slots(m) == Slots(t.left) + {t.slot} + Slots(r);
    BalanceKeepsSlots(m);
  }

  /** Removing a key frees exactly one slot of the tree; removing an absent key frees none. */
  lemma {:induction false} RemoveSlots(t: Tree, k: Key)
    requires Distinct(t)
    ensures Lookup(t, k).Some? <==> FreedSlot(t, k) != -1
    ensures Lookup(t, k).Some? ==> FreedSlot(t, k) in Slots(t)
    ensures Slots(Remove(t, k)) == Slots(t) - {FreedSlot(t, k)}
    ensures Size(Remove(t, k)) == Size(t) - (if Lookup(t, k).Some? then 1 else 0)
  {
    if t.Node? {
      DistinctParts(t);
      var cmp := KeyCmp(k, t.key);
      if cmp < 0 {
        RemoveSlots(t.left, k);
        ShrunkLeftSlots(t, Remove(t.left, k), FreedSlot(t.left, k));
      } else if cmp > 0 {
        RemoveSlots(t.right, k);
        ShrunkRightSlots(t, Remove(t.right, k), FreedSlot(t.right, k));
      } else {
        RemoveRootSlots(t, k);
      }
    }
  }

  lemma {:induction false} RemoveDistinct(t: Tree, k: Key)
    requires Distinct(t)
    ensures Distinct(Remove(t, k))
  {
    RemoveSlots(t, k);
  }

  lemma {:induction false} RemoveRootSlots(t: Tree, k: Key)
    requires t.Node? && Distinct(t) && KeyCmp(k, t.key) == 0
    ensures FreedSlot(t, k) in Slots(t)
    ensures Slots(Remove(t, k)) == Slots(t) - {FreedSlot(t, k)}
    ensures Size(Remove(t, k)) + 1 == Size(t)
  {
    hide Balance;
    DistinctParts(t);
    if t.left.Leaf? {
      BalanceKeepsSlots(t.right);
    } else if t.right.Leaf? {
      BalanceKeepsSlots(t.left);
    } else {
      hide Distinct, RemoveMax, MaxNode;
      RemoveMaxSlots(t.left);
      var l, x := RemoveMax(t.left), MaxNode(t.left);
      BalanceKeepsSlots(Node(l, t.slot, x.key, x.voff, t.right));
      DropOne(Slots(t.left), t.slot, Slots(t.right), x.slot);
    }
  }

  /** Removal deletes the key from the map and touches nothing else. */
  lemma {:induction false} RemoveRefines(t: Tree, k: Key)
    requires Ordered(t)
    ensures Ordered(Remove(t, k))
    ensures Entries(Remove(t, k)) == Entries(t) - {k}
  {
    hide Remove, Lookup, Entries, Within;
    var hi :| Within(t, -1, hi);
    var u := Remove(t, k);
    RemoveOrder(t, k, -1, hi);
    forall x
      ensures x in Entries(u) <==> x in Entries(t) && x != k
      ensures x in Entries(u) ==> Entries(u)[x] == Entries(t)[x]
    {
      EntryIsLookup(t, x, -1, hi);
      EntryIsLookup(u, x, -1, hi);
      RemoveLookup(t, k, x, -1, hi);
    }
    assert Entries(u) == Entries(t) - {k};
  }

  /** Removal frees the very slot that a search finds unless the node has two children:
      then the predecessor's slot is freed and reported instead. */
  lemma {:induction false} FreedSlotIsSearchSlot(t: Tree, k: Key)
    requires Distinct(t)
    ensures FreedSlot(t, k) == Search(t, k) <==> !HasTwoChildren(t, k)
  {
    if t.Node? {
      DistinctParts(t);
      FreedSlotIsSearchSlot(t.left, k);
      FreedSlotIsSearchSlot(t.right, k);
      if t.left.Node? {
        RemoveMaxSlots(t.left);
      }
    }
  }

  // ---------- size ----------

  lemma {:induction false} HeightAtMostSize(t: Tree)
    ensures Height(t) <= Size(t)
  {
    if t.Node? {
      HeightAtMostSize(t.left);
      HeightAtMostSize(t.right);
    }
  }

  /** The two halves of an ordered tree share no key with each other or the root. */
  lemma EntriesApart(t: Tree, lo: int, hi: int)
    requires t.Node? && Within(t, lo, hi)
    ensures t.key !in Entries(t.left).Keys && t.key !in Entries(t.right).Keys
    ensures Entries(t.left).Keys !! Entries(t.right).Keys
  {
    hide Entries, Lookup;
    var l, r := Entries(t.left), Entries(t.right);
    forall x
      ensures x in l ==> x !in r && x != t.key
      ensures x in r ==> x != t.key
    {
      EntryIsLookup(t.left, x, lo, Rank(t.key));
      EntryIsLookup(t.right, x, Rank(t.key), hi);
      if x in l { LookupWithin(t.left, x, lo, Rank(t.key)); }
      if x in r { LookupWithin(t.right, x, Rank(t.key), hi); }
    }
  }

  lemma {:induction false} KeysCount(t: Tree, lo: int, hi: int)
    requires Within(t, lo, hi)
    ensures Size(t) == |Entries(t).Keys|
  {
    if t.Node? {
      KeysCount(t.left, lo, Rank(t.key));
      KeysCount(t.right, Rank(t.key), hi);
      EntriesApart(t, lo, hi);
      KeysUnfold(t);
      hide Within, Entries;
      UnionSize(Entries(t.left).Keys, t.key, Entries(t.right).Keys);
    }
  }

  lemma KeysUnfold(t: Tree)
    requires t.Node?
    ensures Entries(t).Keys == Entries(t.left).Keys + {t.key} + Entries(t.right).Keys
  {
  }

  lemma SizeIsKeyCount(t: Tree, lo: int, hi: int)
    requires Within(t, lo, hi)
    ensures Size(t) == |Entries(t)|
  {
    hide Entries, Size;
    KeysCount(t, lo, hi);
    assert |Entries(t)| == |Entries(t).Keys|;
  }
}
