/** The value side of the database: the value file and its free pages
    (librdb/src/dbfiles.cpp, Rdb::populateFreePages). */
module ValueStore {
  import opened KeyOrder
  import FP = FreeDiskPages

  type Value = seq<Byte>

  datatype ValuePage = ValuePage(deleted: bool, key: Key, value: Value)

  type ValueFile = map<int, ValuePage>

  const VALUE_PAGE_SIZE := 256

  /** The file has a page at every aligned offset below the end; the stack of free pages holds
      exactly the deleted ones. */
  ghost predicate ValuesOk(f: ValueFile, stack: seq<int>) {
    && FP.GoodStack(stack, VALUE_PAGE_SIZE)
    && (forall off :: off in f <==> off < stack[0] && FP.Aligned(off, VALUE_PAGE_SIZE))
    && (forall off :: off in f ==> (off in FP.Allocated(stack, VALUE_PAGE_SIZE) <==> !f[off].deleted))
  }

  lemma WriteNew(f: ValueFile, stack: seq<int>, page: ValuePage)
    requires ValuesOk(f, stack) && !page.deleted
    ensures var off := stack[|stack| - 1];
      && (off in f ==> f[off].deleted)
      && ValuesOk(f[off := page], FP.Popped(stack, VALUE_PAGE_SIZE))
  {
    FP.GetSafe(stack, VALUE_PAGE_SIZE);
    FP.NextAligned(stack[|stack| - 1], VALUE_PAGE_SIZE);
  }

  lemma DeleteAndFree(f: ValueFile, stack: seq<int>, off: int)
    requires ValuesOk(f, stack) && off in f && !f[off].deleted
    ensures off in FP.Allocated(stack, VALUE_PAGE_SIZE)
    ensures ValuesOk(f[off := f[off].(deleted := true)], stack + [off])
  {
    FP.FreeSafe(stack, VALUE_PAGE_SIZE, off);
  }

  /** Below the scan position the stack tells pages in use from deleted ones. */
  ghost predicate Scanned(f: ValueFile, stack: seq<int>, offset: int)
    requires |stack| >= 1
  {
    forall off :: off in f ==> (off in FP.Allocated(stack, VALUE_PAGE_SIZE) <==> off >= offset || !f[off].deleted)
  }

  ghost predicate Extent(f: ValueFile, eof: int) {
    FP.Aligned(eof, VALUE_PAGE_SIZE) && forall off :: off in f <==> off < eof && FP.Aligned(off, VALUE_PAGE_SIZE)
  }

  lemma ScanStep(f: ValueFile, stack: seq<int>, offset: int, eof: int)
    requires FP.GoodStack(stack, VALUE_PAGE_SIZE) && Extent(f, eof) && stack[0] == eof && offset in f
    requires Scanned(f, stack, offset)
    ensures offset in FP.Allocated(stack, VALUE_PAGE_SIZE)
    ensures f[offset].deleted ==> Scanned(f, stack + [offset], offset + VALUE_PAGE_SIZE)
    ensures !f[offset].deleted ==> Scanned(f, stack, offset + VALUE_PAGE_SIZE)
  {
    FP.NextAligned(offset, VALUE_PAGE_SIZE);
    FP.FreeSafe(stack, VALUE_PAGE_SIZE, offset);
  }

  /** The deleted pages from offset on, in file order. */
  function DeletedFrom(f: ValueFile, offset: int, eof: int): (s: seq<int>)
    decreases eof - offset
  {
    if offset >= eof || offset !in f then []
    else (if f[offset].deleted then [offset] else []) + DeletedFrom(f, offset + VALUE_PAGE_SIZE, eof)
  }

  lemma DeletedStep(f: ValueFile, offset: int, eof: int, stack: seq<int>)
    requires Extent(f, eof) && offset in f
    ensures stack + DeletedFrom(f, offset, eof) ==
      (if f[offset].deleted then stack + [offset] else stack) + DeletedFrom(f, offset + VALUE_PAGE_SIZE, eof)
  {
  }

  class ValueStore {
    var file: ValueFile
    const fdp: FP.FreeDiskPageMgr

    ghost predicate Valid()
      reads this, fdp
    {
      fdp.Valid() && fdp.pageSize == VALUE_PAGE_SIZE && fdp.mirrored && ValuesOk(file, fdp.stack)
    }

    /** Opens a value file of the given extent with the free-page file left beside it. Reading that
        file through reports its end as a failure, so the free pages are always found by scanning the
        flags of the value pages. */
    constructor (f: ValueFile, eof: int, freePages: seq<int>)
      requires Extent(f, eof)
      ensures Valid() && fresh(fdp) && file == f
      ensures fdp.stack == [eof] + DeletedFrom(f, 0, eof)
    {
      file := f;
      fdp := new FP.FreeDiskPageMgr(VALUE_PAGE_SIZE, true, freePages);
      new;
      PopulateFreePages(eof);
    }

    method PopulateFreePages(eof: int)
      requires Extent(file, eof) && fdp.pageSize == VALUE_PAGE_SIZE && fdp.mirrored && fdp.stack == [] && fdp.fsize == 0
      modifies fdp
      ensures Valid() && fdp.stack[0] == eof
      ensures fdp.stack == [eof] + DeletedFrom(file, 0, eof)
    {
      var status := fdp.Init();
      if status != FP.Ok {
        fdp.Reset();
        fdp.Free(eof);
        var offset := 0;
        while offset in file
          invariant FP.Aligned(offset, VALUE_PAGE_SIZE) && offset <= eof
          invariant fdp.Valid() && fdp.stack[0] == eof
          invariant Scanned(file, fdp.stack, offset)
          invariant fdp.stack + DeletedFrom(file, offset, eof) == [eof] + DeletedFrom(file, 0, eof)
          decreases eof - offset
        {
          FP.NextAligned(offset, VALUE_PAGE_SIZE);
          ScanStep(file, fdp.stack, offset, eof);
          DeletedStep(file, offset, eof, fdp.stack);
          if file[offset].deleted {
            fdp.Free(offset);
          }
          offset := offset + VALUE_PAGE_SIZE;
        }
      }
    }

    /** Writes a page at the next free offset. */
    method WriteNewPage(page: ValuePage) returns (off: int)
      requires Valid() && !page.deleted
      modifies this, fdp
      ensures Valid()
      ensures off in old(file) ==> old(file)[off].deleted
      ensures file == old(file)[off := page]
      ensures old(fdp.stack) != [] && off == old(fdp.stack)[|old(fdp.stack)| - 1]
      ensures fdp.stack == FP.Popped(old(fdp.stack), VALUE_PAGE_SIZE)
    {
      WriteNew(file, fdp.stack, page);
      off := fdp.Get();
      file := file[off := page];
    }

    method Overwrite(off: int, page: ValuePage)
      requires Valid() && !page.deleted && off in file && !file[off].deleted
      modifies this`file
      ensures Valid()
      ensures file == old(file)[off := page]
    {
      file := file[off := page];
    }

    /** Sets the deleted flag of a page; the page stays counted as in use until it is freed. */
    method MarkDeleted(off: int)
      requires off in file
      modifies this`file
      ensures file == old(file)[off := old(file)[off].(deleted := true)]
    {
      file := file[off := file[off].(deleted := true)];
    }

    /** Frees a page whose flag is set. */
    method FreePage(off: int, ghost before: ValueFile)
      requires fdp.Valid() && fdp.pageSize == VALUE_PAGE_SIZE && fdp.mirrored
      requires ValuesOk(before, fdp.stack) && off in before && !before[off].deleted
      requires file == before[off := before[off].(deleted := true)]
      modifies fdp
      ensures Valid() && fdp.stack == old(fdp.stack) + [off]
    {
      DeleteAndFree(before, fdp.stack, off);
      fdp.Free(off);
    }
  }
}
