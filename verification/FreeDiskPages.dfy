/** The free-page stack of a database file (librdb/src/fdpmgr.cpp). The bottom element is the
    first offset never handed out; everything above it was freed. */
module FreeDiskPages {
  import opened Arith

  datatype Status = Ok | EofDetected

  /** Bytes one offset takes in the mirror file. */
  const OFFSET_SIZE := 8

  ghost predicate Aligned(o: int, pageSize: int)
    requires pageSize > 0
  {
    o >= 0 && o % pageSize == 0
  }

  ghost predicate Distinct(s: seq<int>) {
    forall i, j :: 0 <= i < j < |s| ==> s[i] != s[j]
  }

  /** The bottom of the stack bounds the file; the offsets above it are distinct free pages. */
  ghost predicate GoodStack(s: seq<int>, pageSize: int)
    requires pageSize > 0
  {
    && |s| >= 1
    && Distinct(s)
    && (forall i :: 0 <= i < |s| ==> Aligned(s[i], pageSize))
    && (forall i :: 1 <= i < |s| ==> s[i] < s[0])
  }

  /** The pages in use: aligned, below the bottom element, and not on the stack. */
  ghost function Allocated(s: seq<int>, pageSize: int): set<int>
    requires pageSize > 0 && |s| >= 1
  {
    set o | 0 <= o < s[0] && Aligned(o, pageSize) && o !in s
  }

  /** The stack after its top page is handed out. */
  function Popped(s: seq<int>, pageSize: int): seq<int>
    requires |s| >= 1
  {
    if |s| == 1 then [s[0] + pageSize] else s[..|s| - 1]
  }

  lemma NextAligned(o: int, pageSize: int)
    requires pageSize > 0 && Aligned(o, pageSize)
    ensures Aligned(o + pageSize, pageSize)
    ensures forall p :: o < p < o + pageSize ==> !Aligned(p, pageSize)
  {
    var q := o / pageSize;
    assert o == q * pageSize + o % pageSize;
    Distribute(q, 1, pageSize);
    DivModUnique(o + pageSize, pageSize, q + 1, 0);
    forall p | o < p < o + pageSize
      ensures !Aligned(p, pageSize)
    {
      DivModUnique(p, pageSize, q, p - o);
    }
  }

  /** Handing out the top page: it was not in use, it becomes the one new page in use, and the
      stack stays good. */
  lemma GetSafe(s: seq<int>, pageSize: int)
    requires pageSize > 0 && GoodStack(s, pageSize)
    ensures var next := s[|s| - 1]; var s' := Popped(s, pageSize);
      && GoodStack(s', pageSize)
      && next !in Allocated(s, pageSize)
      && Allocated(s', pageSize) == Allocated(s, pageSize) + {next}
      && Aligned(next, pageSize) && next < s'[0]
  {
    var next := s[|s| - 1];
    var s' := Popped(s, pageSize);
    if |s| == 1 {
      NextAligned(next, pageSize);
      assert Allocated(s', pageSize) == Allocated(s, pageSize) + {next};
    } else {
      assert s == s' + [next];
      assert Allocated(s', pageSize) == Allocated(s, pageSize) + {next};
    }
  }

  /** The pages below the bottom element after a page is handed out: the same and that one. */
  lemma PoppedExtent(s: seq<int>, pageSize: int)
    requires pageSize > 0 && GoodStack(s, pageSize)
    ensures forall o ::
      (o < Popped(s, pageSize)[0] && Aligned(o, pageSize)
       <==> (o < s[0] && Aligned(o, pageSize)) || o == s[|s| - 1])
  {
    if |s| == 1 { NextAligned(s[0], pageSize); }
  }

  /** Freeing a page in use removes it, and only it, from the pages in use. */
  lemma FreeSafe(s: seq<int>, pageSize: int, o: int)
    requires pageSize > 0 && GoodStack(s, pageSize) && o in Allocated(s, pageSize)
    ensures GoodStack(s + [o], pageSize)
    ensures Allocated(s + [o], pageSize) == Allocated(s, pageSize) - {o}
  {
  }

  class FreeDiskPageMgr {
    const pageSize: int
    const mirrored: bool
    var stack: seq<int>
    var file: seq<int>
    var fsize: int

    /** Without I/O failures the file lists the stack from the bottom up. */
    ghost predicate Mirrors()
      reads this
    {
      mirrored ==> file == stack && fsize == OFFSET_SIZE * |stack|
    }

    ghost predicate Valid()
      reads this
    {
      pageSize > 0 && GoodStack(stack, pageSize) && Mirrors()
    }

    ghost function InUse(): set<int>
      requires Valid()
      reads this
    {
      Allocated(stack, pageSize)
    }

    /** A manager without a file, or with the file left by an earlier one. */
    constructor (pageSize: int, mirrored: bool, file: seq<int>)
      ensures this.pageSize == pageSize && this.mirrored == mirrored && this.file == file
      ensures stack == [] && fsize == 0
    {
      this.pageSize, this.mirrored, this.file := pageSize, mirrored, file;
      stack, fsize := [], 0;
    }

    method AddOffsetToFile(o: int)
      modifies this`file, this`fsize
      ensures mirrored ==> file == old(file) + [o] && fsize == old(fsize) + OFFSET_SIZE
      ensures !mirrored ==> file == old(file) && fsize == old(fsize)
    {
      if mirrored {
        file := file + [o];
        fsize := fsize + OFFSET_SIZE;
      }
    }

    method RemoveOffsetFromFile()
      requires mirrored ==> |file| >= 1 && fsize == OFFSET_SIZE * |file|
      modifies this`file, this`fsize
      ensures mirrored ==> file == old(file)[..|old(file)| - 1] && fsize == old(fsize) - OFFSET_SIZE
      ensures !mirrored ==> file == old(file) && fsize == old(fsize)
    {
      if mirrored {
        fsize := fsize - OFFSET_SIZE;
        file := file[..fsize / OFFSET_SIZE];
      }
    }

    /** Pushes every offset of the file. A complete read ends by meeting the end of the file, and
        that is also what is reported. */
    method Init() returns (status: Status)
      modifies this
      ensures file == old(file)
      ensures mirrored ==> stack == old(stack) + file && fsize == old(fsize) + OFFSET_SIZE * |file|
      ensures !mirrored ==> stack == old(stack) && fsize == old(fsize)
      ensures status == if mirrored then EofDetected else Ok
    {
      status := Ok;
      if mirrored {
        var pos := 0;
        while status == Ok
          invariant 0 <= pos <= |file| && file == old(file)
          invariant stack == old(stack) + file[..pos] && fsize == old(fsize) + OFFSET_SIZE * pos
          invariant status != Ok ==> pos == |file|
          decreases |file| - pos, if status == Ok then 1 else 0
        {
          if pos == |file| {
            status := EofDetected;
          } else {
            fsize := fsize + OFFSET_SIZE;
            stack := stack + [file[pos]];
            pos := pos + 1;
          }
        }
        assert file[..pos] == file;
      }
    }

    /** Hands out a page that is not in use. */
    method Get() returns (next: int)
      requires Valid()
      modifies this
      ensures Valid()
      ensures next !in old(InUse()) && InUse() == old(InUse()) + {next}
      ensures Aligned(next, pageSize)
      ensures next == old(stack)[|old(stack)| - 1] && stack == Popped(old(stack), pageSize)
    {
      GetSafe(stack, pageSize);
      next := stack[|stack| - 1];
      stack := stack[..|stack| - 1];
      RemoveOffsetFromFile();
      if stack == [] {
        stack := [next + pageSize];
        AddOffsetToFile(next + pageSize);
      }
    }

    /** Takes back a page in use; on a fresh manager, tells it where the file ends. */
    method Free(o: int)
      requires if stack == [] then pageSize > 0 && Aligned(o, pageSize) && Mirrors() else Valid() && o in InUse()
      modifies this
      ensures Valid()
      ensures stack == old(stack) + [o]
      ensures old(stack) != [] ==> InUse() == Allocated(old(stack), pageSize) - {o}
      ensures old(stack) == [] ==> forall p :: 0 <= p < o && Aligned(p, pageSize) ==> p in InUse()
    {
      if stack != [] {
        FreeSafe(stack, pageSize, o);
      }
      stack := stack + [o];
      AddOffsetToFile(o);
    }

    method Reset()
      modifies this
      ensures stack == [] && (mirrored ==> file == [] && fsize == 0)
      ensures !mirrored ==> file == old(file) && fsize == old(fsize)
    {
      if mirrored {
        file := [];
        fsize := 0;
      }
      while stack != []
        invariant mirrored ==> file == [] && fsize == 0
        invariant !mirrored ==> file == old(file) && fsize == old(fsize)
        decreases |stack|
      {
        stack := stack[..|stack| - 1];
      }
    }
  }

  /** A new manager reading the file another one left has the same stack, hence the same pages in
      use. */
  method Reload(m: FreeDiskPageMgr) returns (n: FreeDiskPageMgr)
    requires m.Valid() && m.mirrored
    ensures n.Valid() && n.stack == m.stack && n.InUse() == m.InUse() && n.file == m.file
  {
    n := new FreeDiskPageMgr(m.pageSize, true, m.file);
    var _ := n.Init();
  }
}
