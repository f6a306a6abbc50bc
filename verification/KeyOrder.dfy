/** Database keys and the order the key pages use: shorter keys first, then byte by byte. */
module KeyOrder {

  newtype Byte = x: int | 0 <= x < 256

  type Key = seq<Byte>

  /** The sign of the C library's byte comparison of two buffers of one length. */
  function Memcmp(a: Key, b: Key): int
    requires |a| == |b|
  {
    if a == [] then 0
    else if a[0] != b[0] then a[0] as int - b[0] as int
    else Memcmp(a[1..], b[1..])
  }

  function KeyCmp(a: Key, b: Key): int {
    if |a| != |b| then |a| - |b| else Memcmp(a, b)
  }

  /** The number of keys shorter than n bytes. */
  function Shorter(n: nat): nat {
    if n == 0 then 0 else 256 * Shorter(n - 1) + 1
  }

  /** The position of a key in the page order: keys count upwards in bijective base 256. */
  function Rank(k: Key): nat {
    if k == [] then 0 else 256 * Rank(k[..|k| - 1]) + k[|k| - 1] as nat + 1
  }

  /** Keys of n bytes occupy exactly the positions from Shorter(n) up to Shorter(n + 1). */
  lemma {:induction false} RankRange(k: Key)
    ensures Shorter(|k|) <= Rank(k) < Shorter(|k| + 1)
  {
    if k != [] {
      RankRange(k[..|k| - 1]);
    }
  }

  lemma {:induction false} ShorterMonotone(m: nat, n: nat)
    requires m <= n
    ensures Shorter(m) <= Shorter(n)
    decreases n
  {
    if m < n {
      ShorterMonotone(m, n - 1);
    }
  }

  lemma {:induction false} MemcmpSnoc(a: Key, b: Key, x: Byte, y: Byte)
    requires |a| == |b|
    ensures Memcmp(a + [x], b + [y]) == if Memcmp(a, b) != 0 then Memcmp(a, b) else x as int - y as int
  {
    if a == [] {
      assert a + [x] == [x] && b + [y] == [y];
    } else {
      assert (a + [x])[1..] == a[1..] + [x] && (b + [y])[1..] == b[1..] + [y];
      MemcmpSnoc(a[1..], b[1..], x, y);
    }
  }

  lemma {:induction false} MemcmpRank(a: Key, b: Key)
    requires |a| == |b|
    ensures Memcmp(a, b) < 0 <==> Rank(a) < Rank(b)
    ensures Memcmp(a, b) == 0 <==> Rank(a) == Rank(b)
    ensures Memcmp(a, b) == 0 <==> a == b
  {
    if a != [] {
      var n := |a| - 1;
      assert a == a[..n] + [a[n]] && b == b[..n] + [b[n]];
      MemcmpSnoc(a[..n], b[..n], a[n], b[n]);
      MemcmpRank(a[..n], b[..n]);
    }
  }

  /** The comparison is a strict total order: its sign is the sign of the difference of ranks,
      and only a key itself compares equal to it. */
  lemma KeyCmpIsRankOrder(a: Key, b: Key)
    ensures KeyCmp(a, b) < 0 <==> Rank(a) < Rank(b)
    ensures KeyCmp(a, b) == 0 <==> Rank(a) == Rank(b)
    ensures KeyCmp(a, b) == 0 <==> a == b
  {
    if |a| == |b| {
      MemcmpRank(a, b);
    } else {
      RankRange(a);
      RankRange(b);
      if |a| < |b| {
        ShorterMonotone(|a| + 1, |b|);
      } else {
        ShorterMonotone(|b| + 1, |a|);
      }
    }
  }
}
