/** The tree of a key page without its slots and value offsets: ranks of keys alone. What the page
    operations do to it can be computed, which is how the runs of PageRuns are followed. */
module BareTree {
  import opened KeyOrder
  import opened AvlTree
  import opened AvlBalance

  /** A record shows its rank and the height it stores. */
  datatype Bare = Tip | Fork(left: Bare, rank: nat, stored: int, right: Bare)

  function Shown(b: Bare): (h: int) { if b.Tip? then 0 else b.stored }

  /** A record whose stored height is up to date. */
  function Join(l: Bare, rank: nat, r: Bare): (b: Bare) {
    Fork(l, rank, ToChar(1 + Max(Shown(l), Shown(r))), r)
  }

  function Strip(t: Tree): (b: Bare) {
    if t.Leaf? then Tip else Join(Strip(t.left), Rank(t.key), Strip(t.right))
  }

  function BareHeight(b: Bare): (h: nat) {
    if b.Tip? then 0 else 1 + Max(BareHeight(b.left), BareHeight(b.right))
  }

  function BareSize(b: Bare): (n: nat) {
    if b.Tip? then 0 else BareSize(b.left) + 1 + BareSize(b.right)
  }

  function BareFactor(b: Bare): (f: int) {
    if b.Tip? then 0 else Shown(b.left) - Shown(b.right)
  }

  function TurnLeft(b: Bare): (r: Bare)
    requires b.Fork? && b.right.Fork?
  {
    Join(Join(b.left, b.rank, b.right.left), b.right.rank, b.right.right)
  }

  function TurnRight(b: Bare): (r: Bare)
    requires b.Fork? && b.left.Fork?
  {
    Join(b.left.left, b.left.rank, Join(b.left.right, b.rank, b.right))
  }

  function BareBalance(b: Bare): (r: Bare) {
    var bf := BareFactor(b);
    if bf == -2 then
      var cf := BareFactor(b.right);
      if cf == -1 then TurnLeft(b)
      else if cf == 1 && b.right.left.Fork? then TurnLeft(Join(b.left, b.rank, TurnRight(b.right)))
      else b
    else if bf == 2 then
      var cf := BareFactor(b.left);
      if cf == -1 && b.left.right.Fork? then TurnRight(Join(TurnLeft(b.left), b.rank, b.right))
      else if cf == 1 then TurnRight(b)
      else b
    else b
  }

  function BarePut(b: Bare, r: nat): (u: Bare) {
    if b.Tip? then Join(Tip, r, Tip)
    else if r < b.rank then BareBalance(Join(BarePut(b.left, r), b.rank, b.right))
    else if r == b.rank then BareBalance(b)
    else BareBalance(Join(b.left, b.rank, BarePut(b.right, r)))
  }

  function BareMax(b: Bare): (r: nat)
    requires b.Fork?
  {
    if b.right.Tip? then b.rank else BareMax(b.right)
  }

  function BareRemoveMax(b: Bare): (u: Bare)
    requires b.Fork?
  {
    if b.right.Tip? then BareBalance(b.left) else BareBalance(Join(b.left, b.rank, BareRemoveMax(b.right)))
  }

  function BareRemove(b: Bare, r: nat): (u: Bare) {
    if b.Tip? then Tip
    else if r < b.rank then BareBalance(Join(BareRemove(b.left, r), b.rank, b.right))
    else if r > b.rank then BareBalance(Join(b.left, b.rank, BareRemove(b.right, r)))
    else if b.left.Tip? then BareBalance(b.right)
    else if b.right.Tip? then BareBalance(b.left)
    else BareBalance(Join(BareRemoveMax(b.left), BareMax(b.left), b.right))
  }

  predicate BareSettled(b: Bare, r: nat) {
    b.Fork? ==>
      && BareBalance(b) == b
      && (r < b.rank ==> BareSettled(b.left, r))
      && (r > b.rank ==> BareSettled(b.right, r))
  }

  predicate HasRank(b: Bare, r: nat) { b.Fork? && (b.rank == r || HasRank(b.left, r) || HasRank(b.right, r)) }

  /** A search for r finds it. */
  predicate Finds(b: Bare, r: nat) {
    b.Fork? && if r < b.rank then Finds(b.left, r) else r > b.rank ==> Finds(b.right, r)
  }

  /** The record a search for r ends at has both children. */
  predicate BareTwo(b: Bare, r: nat) {
    b.Fork? &&
    if r < b.rank then BareTwo(b.left, r)
    else if r > b.rank then BareTwo(b.right, r)
    else b.left.Fork? && b.right.Fork?
  }

  /** Every record stores the height that follows from those of its children. */
  predicate Current(b: Bare) {
    b.Fork? ==> b == Join(b.left, b.rank, b.right) && Current(b.left) && Current(b.right)
  }

  // ---------- stripping commutes ----------

  lemma {:induction false} StripMeasures(t: Tree)
    ensures BareHeight(Strip(t)) == Height(t) && BareSize(Strip(t)) == Size(t) && Shown(Strip(t)) == Stored(t)
  {
    if t.Node? {
      StripMeasures(t.left);
      StripMeasures(t.right);
    }
  }

  lemma StripFactor(t: Tree)
    ensures BareFactor(Strip(t)) == StoredFactor(t)
  {
    if t.Node? {
      StripMeasures(t.left);
      StripMeasures(t.right);
    }
  }

  lemma StripTurnLeft(t: Tree)
    requires t.Node? && t.right.Node?
    ensures Strip(t).right.Fork? && Strip(RotateLeft(t)) == TurnLeft(Strip(t))
  {
  }

  lemma StripTurnRight(t: Tree)
    requires t.Node? && t.left.Node?
    ensures Strip(t).left.Fork? && Strip(RotateRight(t)) == TurnRight(Strip(t))
  {
  }

  lemma StripParts(t: Tree)
    requires t.Node?
    ensures Strip(t) == Join(Strip(t.left), Rank(t.key), Strip(t.right))
    ensures (t.left.Node? <==> Strip(t).left.Fork?) && (t.right.Node? <==> Strip(t).right.Fork?)
  {
  }

  lemma StripLeansRight(t: Tree)
    requires t.Node? && StoredFactor(t) == -2
    ensures Strip(Balance(t)) == BareBalance(Strip(t))
  {
    hide Strip, StoredFactor, BareFactor, RotateLeft, RotateRight, RotateLeftRight, TurnLeft, TurnRight, Join;
    StripFactor(t);
    StripParts(t);
    StripFactor(t.right);
    JoinParts(Strip(t.left), Rank(t.key), Strip(t.right));
    FactorNode(t.right);
    if StoredFactor(t.right) == -1 {
      StripTurnLeft(t);
    } else if StoredFactor(t.right) == 1 && t.right.left.Node? {
      StripParts(t.right);
      JoinParts(Strip(t.right.left), Rank(t.right.key), Strip(t.right.right));
      StripTurnRight(t.right);
      var m := t.(right := RotateRight(t.right));
      RotatedNodes(t.right);
      StripParts(m);
      StripTurnLeft(m);
    } else if t.right.Node? {
      StripParts(t.right);
      JoinParts(Strip(t.right.left), Rank(t.right.key), Strip(t.right.right));
    }
  }

  lemma StripLeansLeft(t: Tree)
    requires t.Node? && StoredFactor(t) == 2
    ensures Strip(Balance(t)) == BareBalance(Strip(t))
  {
    hide Strip, StoredFactor, BareFactor, RotateLeft, RotateRight, RotateRightLeft, TurnLeft, TurnRight, Join;
    StripFactor(t);
    StripParts(t);
    StripFactor(t.left);
    JoinParts(Strip(t.left), Rank(t.key), Strip(t.right));
    FactorNode(t.left);
    if StoredFactor(t.left) == 1 {
      StripTurnRight(t);
    } else if StoredFactor(t.left) == -1 && t.left.right.Node? {
      StripParts(t.left);
      JoinParts(Strip(t.left.left), Rank(t.left.key), Strip(t.left.right));
      StripTurnLeft(t.left);
      var m := t.(left := RotateLeft(t.left));
      RotatedNodes(t.left);
      StripParts(m);
      StripTurnRight(m);
    } else if t.left.Node? {
      StripParts(t.left);
      JoinParts(Strip(t.left.left), Rank(t.left.key), Strip(t.left.right));
    }
  }

  lemma FactorNode(t: Tree)
    ensures StoredFactor(t) != 0 ==> t.Node?
  {
  }

  lemma JoinParts(l: Bare, rank: nat, r: Bare)
    ensures Join(l, rank, r).Fork? && Join(l, rank, r).left == l && Join(l, rank, r).rank == rank
    ensures Join(l, rank, r).right == r
  {
  }

  lemma StripBalance(t: Tree)
    ensures Strip(Balance(t)) == BareBalance(Strip(t))
  {
    StripFactor(t);
    hide Strip;
    if t.Leaf? {
      StripLeaf();
    } else if StoredFactor(t) == -2 {
      StripLeansRight(t);
    } else if StoredFactor(t) == 2 {
      StripLeansLeft(t);
    }
  }

  lemma StripLeaf()
    ensures Strip(Leaf) == Tip
  {
  }

  lemma RotatedNodes(t: Tree)
    requires t.Node?
    ensures t.right.Node? ==> RotateLeft(t).Node?
    ensures t.left.Node? ==> RotateRight(t).Node?
  {
  }

  lemma {:induction false} StripPut(t: Tree, k: Key, v: int, free: int)
    requires free >= 0
    ensures Strip(Put(t, k, v, free)) == BarePut(Strip(t), Rank(k))
  {
    hide Balance, BareBalance;
    if t.Node? {
      KeyCmpIsRankOrder(k, t.key);
      if KeyCmp(k, t.key) < 0 {
        StripPut(t.left, k, v, free);
        StripBalance(t.(left := Put(t.left, k, v, free)));
      } else if KeyCmp(k, t.key) == 0 {
        StripBalance(t.(voff := v));
      } else {
        StripPut(t.right, k, v, free);
        StripBalance(t.(right := Put(t.right, k, v, free)));
      }
    }
  }

  lemma {:induction false} StripRemoveMax(t: Tree)
    requires t.Node?
    ensures BareMax(Strip(t)) == Rank(MaxNode(t).key) && Strip(RemoveMax(t)) == BareRemoveMax(Strip(t))
  {
    hide Balance, BareBalance;
    if t.right.Leaf? {
      StripBalance(t.left);
    } else {
      StripRemoveMax(t.right);
      StripBalance(t.(right := RemoveMax(t.right)));
    }
  }

  lemma {:induction false} StripRemove(t: Tree, k: Key)
    ensures Strip(Remove(t, k)) == BareRemove(Strip(t), Rank(k))
  {
    hide Balance, BareBalance;
    if t.Node? {
      KeyCmpIsRankOrder(k, t.key);
      if KeyCmp(k, t.key) < 0 {
        StripRemove(t.left, k);
        StripBalance(t.(left := Remove(t.left, k)));
      } else if KeyCmp(k, t.key) > 0 {
        StripRemove(t.right, k);
        StripBalance(t.(right := Remove(t.right, k)));
      } else if t.left.Leaf? {
        StripBalance(t.right);
      } else if t.right.Leaf? {
        StripBalance(t.left);
      } else {
        StripRemoveMax(t.left);
        StripBalance(Node(RemoveMax(t.left), t.slot, MaxNode(t.left).key, MaxNode(t.left).voff, t.right));
      }
    }
  }

  lemma {:induction false} StripCurrent(t: Tree)
    ensures Current(Strip(t))
  {
    if t.Node? {
      StripCurrent(t.left);
      StripCurrent(t.right);
    }
  }

  lemma {:induction false} StripTwo(t: Tree, k: Key)
    ensures BareTwo(Strip(t), Rank(k)) <==> HasTwoChildren(t, k)
  {
    if t.Node? {
      KeyCmpIsRankOrder(k, t.key);
      StripTwo(t.left, k);
      StripTwo(t.right, k);
    }
  }

  lemma {:induction false} StripKeys(t: Tree, k: Key)
    ensures HasRank(Strip(t), Rank(k)) <==> k in Entries(t)
  {
    if t.Node? {
      KeysUnfold(t);
      KeyCmpIsRankOrder(k, t.key);
      StripKeys(t.left, k);
      StripKeys(t.right, k);
    }
  }

  lemma {:induction false} StripSettled(t: Tree, k: Key)
    requires PathSettled(t, k)
    ensures BareSettled(Strip(t), Rank(k))
  {
    hide Balance, BareBalance;
    if t.Node? {
      StripBalance(t);
      KeyCmpIsRankOrder(k, t.key);
      if KeyCmp(k, t.key) < 0 {
        StripSettled(t.left, k);
      } else if KeyCmp(k, t.key) > 0 {
        StripSettled(t.right, k);
      }
    }
  }

  // ---------- a removal that does not find its rank ----------

  lemma TurnSizes(b: Bare)
    requires b.Fork?
    ensures b.right.Fork? ==>
      var u := TurnLeft(b); u.Fork? && BareSize(u) == BareSize(b) && BareSize(u.left) > BareSize(b.left)
    ensures b.left.Fork? ==>
      var u := TurnRight(b); u.Fork? && BareSize(u) == BareSize(b) && BareSize(u.left) < BareSize(b.left)
  {
  }

  lemma BareLeans(b: Bare)
    ensures BareFactor(b) != 0 ==> b.Fork?
  {
  }

  lemma TurnedSize(b: Bare)
    requires BareBalance(b) != b
    ensures b.Fork? && BareBalance(b).Fork? && BareSize(BareBalance(b).left) != BareSize(b.left)
    ensures BareSize(BareBalance(b)) == BareSize(b)
  {
    hide TurnLeft, TurnRight, BareFactor;
    BareLeans(b);
    BareLeans(b.left);
    BareLeans(b.right);
    TurnSizes(b);
    if b.right.Fork? {
      TurnSizes(b.right);
      if b.right.left.Fork? { TurnSizes(Join(b.left, b.rank, TurnRight(b.right))); }
    }
    if b.left.Fork? {
      TurnSizes(b.left);
      if b.left.right.Fork? { TurnSizes(Join(TurnLeft(b.left), b.rank, b.right)); }
    }
  }

  lemma BalancedSize(b: Bare)
    ensures BareSize(BareBalance(b)) == BareSize(b)
  {
    hide BareBalance;
    if BareBalance(b) != b { TurnedSize(b); }
  }

  lemma {:induction false} PutSize(b: Bare, r: nat)
    ensures BareSize(BarePut(b, r)) <= BareSize(b) + 1
  {
    hide BareBalance;
    if b.Fork? {
      PutSize(b.left, r);
      PutSize(b.right, r);
      BalancedSize(b);
      BalancedSize(Join(BarePut(b.left, r), b.rank, b.right));
      BalancedSize(Join(b.left, b.rank, BarePut(b.right, r)));
    }
  }

  lemma {:induction false} RemoveMaxSize(b: Bare)
    requires b.Fork?
    ensures BareSize(BareRemoveMax(b)) == BareSize(b) - 1
  {
    hide BareBalance;
    if b.right.Tip? {
      BalancedSize(b.left);
    } else {
      RemoveMaxSize(b.right);
      BalancedSize(Join(b.left, b.rank, BareRemoveMax(b.right)));
    }
  }

  lemma {:induction false} RemoveSize(b: Bare, r: nat)
    requires Finds(b, r)
    ensures BareSize(BareRemove(b, r)) == BareSize(b) - 1 && HasRank(b, r)
  {
    hide BareBalance;
    if r < b.rank {
      RemoveSize(b.left, r);
      BalancedSize(Join(BareRemove(b.left, r), b.rank, b.right));
    } else if r > b.rank {
      RemoveSize(b.right, r);
      BalancedSize(Join(b.left, b.rank, BareRemove(b.right, r)));
    } else if b.left.Tip? {
      BalancedSize(b.right);
    } else if b.right.Tip? {
      BalancedSize(b.left);
    } else {
      RemoveMaxSize(b.left);
      BalancedSize(Join(BareRemoveMax(b.left), BareMax(b.left), b.right));
    }
  }

  lemma {:induction false} MissedSize(b: Bare, r: nat)
    requires !HasRank(b, r)
    ensures BareSize(BareRemove(b, r)) == BareSize(b)
  {
    hide BareBalance;
    if b.Fork? {
      var m := if r < b.rank then Join(BareRemove(b.left, r), b.rank, b.right)
               else Join(b.left, b.rank, BareRemove(b.right, r));
      MissedSize(b.left, r);
      MissedSize(b.right, r);
      if BareBalance(m) != m { TurnedSize(m); }
    }
  }

  /** It changes nothing exactly when the search path is settled. */
  lemma {:induction false} MissedRemove(b: Bare, r: nat)
    requires Current(b) && !HasRank(b, r)
    ensures BareRemove(b, r) == b <==> BareSettled(b, r)
  {
    hide BareBalance;
    if b.Fork? {
      var m := if r < b.rank then Join(BareRemove(b.left, r), b.rank, b.right)
               else Join(b.left, b.rank, BareRemove(b.right, r));
      MissedSize(b.left, r);
      MissedRemove(b.left, r);
      MissedRemove(b.right, r);
      if BareBalance(m) != m { TurnedSize(m); }
    }
  }

  // ---------- keys by rank ----------

  /** The key at a position of the page order. */
  function KeyAt(n: nat): (k: Key)
    ensures Rank(k) == n
  {
    if n == 0 then []
    else
      var front, last := KeyAt((n - 1) / 256), ((n - 1) % 256) as Byte;
      assert (front + [last])[..|front|] == front;
      front + [last]
  }
}
