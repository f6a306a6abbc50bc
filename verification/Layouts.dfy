/** The database as a value: the buckets of its hash table as bare trees, its value file and the free
    pages of that file. Every operation is a function on it, so that what a run of requests does to
    the trees depends on the requests and the sizes alone (librdb/src/rdb.cpp). */
module Layouts {
  import opened KeyOrder
  import opened KeyChains
  import opened ValueStore
  import opened BucketShapes
  import FP = FreeDiskPages

  datatype Layout = Layout(capacity: nat, buckets: seq<seq<PageShape>>, values: ValueFile, free: seq<int>)

  predicate Ready(s: Layout) { s.buckets != [] && s.free != [] }

  /** A database on files that do not exist yet. */
  ghost function Fresh(size: nat, capacity: nat): (s: Layout)
    requires size > 0
    ensures Ready(s)
  {
    Layout(capacity, seq(size, _ => []), map[], [0])
  }

  ghost predicate HoldsKey(vf: ValueFile, off: int, k: Key) {
    off in vf && !vf[off].deleted && vf[off].key == k
  }

  /** The value page of a key, or -1. */
  ghost function OffsetOf(vf: ValueFile, k: Key): (off: int) {
    if exists off :: HoldsKey(vf, off, k) then
      var off :| HoldsKey(vf, off, k); off
    else -1
  }

  /** The bucket of a key. */
  function BucketOf(s: Layout, k: Key): (b: seq<PageShape>)
    requires Ready(s)
  {
    s.buckets[Hash(k, |s.buckets|)]
  }

  function WithBucket(s: Layout, k: Key, b: seq<PageShape>): (u: Layout)
    requires Ready(s)
    ensures Ready(u)
  {
    s.(buckets := s.buckets[Hash(k, |s.buckets|) := b])
  }

  /** Another value for a key that is there: its page is overwritten. */
  ghost function ChangeIn(s: Layout, k: Key, v: Value): (u: Layout)
    requires Ready(s)
    ensures Ready(u)
  {
    s.(values := s.values[OffsetOf(s.values, k) := ValuePage(false, k, v)])
  }

  /** A new key: its value page goes to the top free page. */
  ghost function AddIn(s: Layout, k: Key, v: Value): (u: Layout)
    requires Ready(s)
    ensures Ready(u)
  {
    WithBucket(s, k, PutShape(BucketOf(s, k), Rank(k), s.capacity)).(
      values := s.values[s.free[|s.free| - 1] := ValuePage(false, k, v)],
      free := FP.Popped(s.free, VALUE_PAGE_SIZE))
  }

  /** A key that is there is removed, and its value page goes on top of the free ones. */
  ghost function RemoveIn(s: Layout, k: Key): (u: Layout)
    requires Ready(s)
    ensures Ready(u)
  {
    var off := OffsetOf(s.values, k);
    WithBucket(s, k, RemoveShape(BucketOf(s, k), Rank(k))).(
      values := if off in s.values then s.values[off := s.values[off].(deleted := true)] else s.values,
      free := s.free + [off])
  }

  /** The files are opened again: nothing is loaded, and the free value pages are in file order. */
  ghost function ReopenIn(s: Layout): (u: Layout)
    requires Ready(s)
    ensures Ready(u)
  {
    s.(buckets := seq(|s.buckets|, h requires 0 <= h < |s.buckets| => Reloaded(s.buckets[h])),
       free := [s.free[0]] + DeletedFrom(s.values, 0, s.free[0]))
  }

  /** The undeleted value pages from offset on are added one after the other. */
  ghost function CopyFrom(vf: ValueFile, offset: int, eof: int, s: Layout): (u: Layout)
    requires Ready(s)
    ensures Ready(u)
    decreases eof - offset
  {
    if offset >= eof || offset !in vf then s
    else
      CopyFrom(vf, offset + VALUE_PAGE_SIZE, eof,
               if vf[offset].deleted then s else AddIn(s, vf[offset].key, vf[offset].value))
  }

  ghost function RebuildIn(s: Layout, size: nat, capacity: nat): (u: Layout)
    requires Ready(s) && size > 0
    ensures Ready(u)
  {
    CopyFrom(s.values, 0, s.free[0], Fresh(size, capacity))
  }
}
