/** A heap file: a table stored as consecutive fixed-size pages, and the
    iterator that walks them through the buffer pool. The buffer pool is a
    parameter: a function from a page id to the tuples that page's
    iterator yields (its occupied slots in slot order, as `HeapPages`
    proves of `HeapPage.iterator()`). */
module HeapFiles {
  import opened Util
  import opened Schema
  import opened PageFormat

  /** The buffer pool, read only: the tuples `getPage(pid).iterator()`
      yields for each page id. */
  type Pool = HeapPageId -> seq<Tuple>

  /** `file.length() / pageSize`: whole pages only, a trailing partial
      page is not counted. */
  function PageCount(fileLength: nat, pageSize: nat): (n: nat)
    requires pageSize > 0
    ensures n * pageSize <= fileLength < (n + 1) * pageSize
  {
    fileLength / pageSize
  }

  /** The byte offset `readPage` seeks to for page `pageNo`. */
  function PageOffset(pageNo: nat, pageSize: nat): nat {
    pageNo * pageSize
  }

  /** Every counted page lies wholly inside the file, and the next one
      starts where it ends. */
  lemma PageInFile(fileLength: nat, pageSize: nat, pageNo: nat)
    requires pageSize > 0 && pageNo < PageCount(fileLength, pageSize)
    ensures PageOffset(pageNo, pageSize) + pageSize <= fileLength
    ensures PageOffset(pageNo, pageSize) + pageSize == PageOffset(pageNo + 1, pageSize)
  {
    var n := PageCount(fileLength, pageSize);
    assert (pageNo + 1) * pageSize <= n * pageSize by {
      MulMonotone(pageNo + 1, n, pageSize);
    }
  }

  /** The state of a `HeapFileIterator`: the page it is on and what its
      current page iterator has still to yield (`None` stands for null:
      never opened, or closed). */
  datatype Cursor = Cursor(pagePos: int, tuplesInPage: Option<seq<Tuple>>)

  /** The tuples of page `n` of table `id`. */
  function PageTuples(pool: Pool, id: int, n: int): seq<Tuple> {
    pool(HeapPageId(id, n))
  }

  /** `open()`: back to page 0, with page 0's tuples loaded. */
  function Opened(pool: Pool, id: int): Cursor {
    Cursor(0, Some(PageTuples(pool, id, 0)))
  }

  /** `hasNext()`: the answer and the state it leaves. When the current
      page is used up it looks at most one page ahead. */
  function Advance(numPages: int, id: int, pool: Pool, c: Cursor): (r: (bool, Cursor))
    ensures r.0 <==> r.1.tuplesInPage.Some? && r.1.tuplesInPage.value != []
    ensures r.1.pagePos == c.pagePos || r.1.pagePos == c.pagePos + 1
    ensures r.1.pagePos == c.pagePos + 1 ==> c.tuplesInPage == Some([]) && c.pagePos < numPages - 1
  {
    match c.tuplesInPage
    case None => (false, c)
    case Some(rest) =>
      if rest != [] then (true, c)
      else if c.pagePos < numPages - 1 then
        var page := PageTuples(pool, id, c.pagePos + 1);
        (page != [], Cursor(c.pagePos + 1, Some(page)))
      else (false, c)
  }

  /** `next()`: `hasNext()`, then the current page's next tuple, or
      NoSuchElementException. */
  function NextStep(numPages: int, id: int, pool: Pool, c: Cursor): (r: (Result<Tuple>, Cursor))
    ensures r.0.Err? <==> !Advance(numPages, id, pool, c).0
    ensures r.0.Err? ==> r.0.error == NoSuchElement
  {
    var (more, c') := Advance(numPages, id, pool, c);
    if !more then (Err(NoSuchElement), c')
    else (Ok(c'.tuplesInPage.value[0]), Cursor(c'.pagePos, Some(c'.tuplesInPage.value[1..])))
  }

  /** What a drain yields once the pages before `n` are done: page `n`
      and on, stopping at the last page or at the first empty one. */
  function RestFrom(numPages: int, id: int, pool: Pool, n: int): seq<Tuple>
    decreases numPages - n
  {
    if n >= numPages then []
    else
      var page := PageTuples(pool, id, n);
      if page == [] then [] else page + RestFrom(numPages, id, pool, n + 1)
  }

  /** Everything `while (hasNext()) next()` yields from state `c`. */
  function Yield(numPages: int, id: int, pool: Pool, c: Cursor): seq<Tuple> {
    match c.tuplesInPage
    case None => []
    case Some(rest) => rest + RestFrom(numPages, id, pool, c.pagePos + 1)
  }

  /** Everything a scan yields from `open()` to the first false `hasNext()`. */
  function Drained(numPages: int, id: int, pool: Pool): seq<Tuple> {
    Yield(numPages, id, pool, Opened(pool, id))
  }

  /** `hasNext()` is true exactly when something is left to yield, and
      a true answer loses nothing. */
  lemma AdvanceYield(numPages: int, id: int, pool: Pool, c: Cursor)
    ensures Advance(numPages, id, pool, c).0 <==> Yield(numPages, id, pool, c) != []
    ensures Advance(numPages, id, pool, c).0 ==>
      Yield(numPages, id, pool, Advance(numPages, id, pool, c).1) == Yield(numPages, id, pool, c)
  {
    if c.tuplesInPage.Some? && c.tuplesInPage.value == [] {
      assert Yield(numPages, id, pool, c) == RestFrom(numPages, id, pool, c.pagePos + 1);
    }
  }

  /** `next()` returns the first tuple left to yield and leaves the rest;
      it throws exactly when nothing is left. */
  lemma NextYield(numPages: int, id: int, pool: Pool, c: Cursor)
    ensures NextStep(numPages, id, pool, c).0.Err? <==> Yield(numPages, id, pool, c) == []
    ensures Yield(numPages, id, pool, c) != [] ==>
      NextStep(numPages, id, pool, c).0 == Ok(Yield(numPages, id, pool, c)[0]) &&
      Yield(numPages, id, pool, NextStep(numPages, id, pool, c).1) == Yield(numPages, id, pool, c)[1..]
  {
    AdvanceYield(numPages, id, pool, c);
    var c' := Advance(numPages, id, pool, c).1;
    if c'.tuplesInPage.Some? && c'.tuplesInPage.value != [] {
      var rest := c'.tuplesInPage.value;
      var tail := RestFrom(numPages, id, pool, c'.pagePos + 1);
      assert Yield(numPages, id, pool, c') == rest + tail;
      assert (rest + tail)[1..] == rest[1..] + tail;
    }
  }

  /** Pages `from` up to `to` (exclusive), back to back. */
  function Pages(pool: Pool, id: int, from: int, to: int): seq<Tuple>
    decreases to - from
  {
    if from >= to then [] else PageTuples(pool, id, from) + Pages(pool, id, from + 1, to)
  }

  /** A drain from page `n` runs through the non-empty pages up to `m`,
      the last page or the first empty one. */
  lemma {:induction false} RestFromUpTo(numPages: int, id: int, pool: Pool, n: int, m: int)
    requires n <= m <= numPages
    requires forall k :: n <= k < m ==> PageTuples(pool, id, k) != []
    requires m == numPages || PageTuples(pool, id, m) == []
    ensures RestFrom(numPages, id, pool, n) == Pages(pool, id, n, m)
    decreases m - n
  {
    if n < m {
      RestFromUpTo(numPages, id, pool, n + 1, m);
    }
  }

  /** With no empty page after page 0, a drain yields every tuple of
      every page, page after page and slot after slot within a page. */
  lemma DrainedAllPages(numPages: int, id: int, pool: Pool)
    requires forall k :: 1 <= k < numPages ==> PageTuples(pool, id, k) != []
    ensures numPages <= 1 ==> Drained(numPages, id, pool) == PageTuples(pool, id, 0)
    ensures numPages >= 1 ==> Drained(numPages, id, pool) == Pages(pool, id, 0, numPages)
  {
    if numPages <= 1 {
      assert RestFrom(numPages, id, pool, 1) == [];
    } else {
      RestFromUpTo(numPages, id, pool, 1, numPages);
    }
  }

  /** An empty page `e` after page 0 ends a drain there: the pages after
      it are never reached, whatever they hold. */
  lemma DrainedStopsAtEmpty(numPages: int, id: int, pool: Pool, e: int)
    requires 1 <= e < numPages && PageTuples(pool, id, e) == []
    requires forall k :: 1 <= k < e ==> PageTuples(pool, id, k) != []
    ensures Drained(numPages, id, pool) == Pages(pool, id, 0, e)
  {
    RestFromUpTo(numPages, id, pool, 1, e);
  }

  /** A file of no whole page is still scanned from page 0: `open()`
      requests it whatever `numPages` is, so the scan yields what the pool
      holds for that page, and nothing when that page is empty. */
  lemma EmptyFileScan(id: int, pool: Pool)
    ensures Drained(0, id, pool) == PageTuples(pool, id, 0)
    ensures Advance(0, id, pool, Opened(pool, id)).0 <==> PageTuples(pool, id, 0) != []
    ensures PageTuples(pool, id, 0) == [] ==> Drained(0, id, pool) == [] && !Advance(0, id, pool, Opened(pool, id)).0
  {
    assert RestFrom(0, id, pool, 1) == [];
  }

  /** Three pages of two tuples each drain to six tuples, in page order. */
  lemma ThreePagesOfTwo(id: int, pool: Pool)
    requires forall k :: 0 <= k < 3 ==> |PageTuples(pool, id, k)| == 2
    ensures Drained(3, id, pool)
         == PageTuples(pool, id, 0) + PageTuples(pool, id, 1) + PageTuples(pool, id, 2)
    ensures |Drained(3, id, pool)| == 6
  {
    DrainedAllPages(3, id, pool);
    assert Pages(pool, id, 3, 3) == [];
  }

  /** A heap file over a file of `fileLength` bytes. The table id stands
      for `getId()` and the page size for `BufferPool.getPageSize()`. */
  class HeapFile {
    const id: int
    const td: TupleDesc
    const numberOfPages: int
    ghost const fileLength: nat
    ghost const pageSize: nat

    ghost predicate Valid() {
      pageSize > 0 && numberOfPages == PageCount(fileLength, pageSize)
    }

    /** `HeapFile(file, td)`: the page count is fixed once, here. */
    constructor(id: int, td: TupleDesc, fileLength: nat, pageSize: nat)
      requires pageSize > 0
      ensures Valid()
      ensures this.id == id && this.td == td
      ensures this.fileLength == fileLength && this.pageSize == pageSize
    {
      this.id := id;
      this.td := td;
      this.fileLength := fileLength;
      this.pageSize := pageSize;
      numberOfPages := fileLength / pageSize;
    }

    /** `numPages()`: the number of whole pages in the file. */
    function NumPages(): (n: int)
      requires Valid()
      ensures n >= 0 && n * pageSize <= fileLength < (n + 1) * pageSize
    {
      numberOfPages
    }

    /** `iterator(tid)`: a closed iterator over this file. */
    method Iterator(pool: Pool) returns (it: HeapFileIterator)
      requires Valid()
      ensures fresh(it) && it.Valid() && it.file == this && it.pool == pool
      ensures it.State() == Cursor(0, None) && it.requests == []
    {
      it := new HeapFileIterator(this, pool);
    }
  }

  /** `HeapFile.HeapFileIterator`: walks the pages of `file` through the
      buffer pool. `requests` logs the page ids asked of the pool. */
  class HeapFileIterator {
    const file: HeapFile
    const pool: Pool
    var pagePos: int
    var tuplesInPage: Option<seq<Tuple>>
    ghost var requests: seq<HeapPageId>

    function State(): Cursor
      reads this
    {
      Cursor(pagePos, tuplesInPage)
    }

    /** The iterator stays on a page of the file (page 0 even when the
      file has none) and asks the pool only for pages of its own table. */
    ghost predicate Valid()
      reads this
    {
      file.Valid() && 0 <= pagePos && (pagePos == 0 || pagePos < file.numberOfPages) &&
      forall k :: 0 <= k < |requests| ==> InFile(requests[k])
    }

    /** A page id of this file: its table, and page 0 or a counted page. */
    ghost predicate InFile(pid: HeapPageId) {
      pid.tableId == file.id && 0 <= pid.pageNo && (pid.pageNo == 0 || pid.pageNo < file.numberOfPages)
    }

    constructor(file: HeapFile, pool: Pool)
      requires file.Valid()
      ensures Valid() && this.file == file && this.pool == pool
      ensures State() == Cursor(0, None) && requests == []
    {
      this.file := file;
      this.pool := pool;
      pagePos := 0;
      tuplesInPage := None;
      requests := [];
    }

    /** `getTuplesInPage(pid)`: a read-only `getPage` through the pool. */
    method GetTuplesInPage(pid: HeapPageId) returns (ts: seq<Tuple>)
      modifies this`requests
      ensures ts == pool(pid) && requests == old(requests) + [pid]
    {
      requests := requests + [pid];
      ts := pool(pid);
    }

    method Open()
      requires Valid()
      modifies this
      ensures Valid() && State() == Opened(pool, file.id)
      ensures requests == old(requests) + [HeapPageId(file.id, 0)]
    {
      pagePos := 0;
      var pid := HeapPageId(file.id, pagePos);
      var ts := GetTuplesInPage(pid);
      tuplesInPage := Some(ts);
    }

    method HasNext() returns (b: bool)
      requires Valid()
      modifies this
      ensures Valid() && (b, State()) == Advance(file.numberOfPages, file.id, pool, old(State()))
      ensures pagePos == old(pagePos) ==> requests == old(requests)
      ensures pagePos != old(pagePos) ==> requests == old(requests) + [HeapPageId(file.id, pagePos)]
    {
      if tuplesInPage.None? {
        return false;
      }
      if tuplesInPage.value != [] {
        return true;
      }
      if pagePos < file.numberOfPages - 1 {
        pagePos := pagePos + 1;
        var pid := HeapPageId(file.id, pagePos);
        var ts := GetTuplesInPage(pid);
        tuplesInPage := Some(ts);
        return ts != [];
      }
      return false;
    }

    method Next() returns (r: Result<Tuple>)
      requires Valid()
      modifies this
      ensures Valid() && (r, State()) == NextStep(file.numberOfPages, file.id, pool, old(State()))
      ensures pagePos == old(pagePos) ==> requests == old(requests)
      ensures pagePos != old(pagePos) ==> requests == old(requests) + [HeapPageId(file.id, pagePos)]
    {
      var more := HasNext();
      if !more {
        return Err(NoSuchElement);
      }
      r := Ok(tuplesInPage.value[0]);
      tuplesInPage := Some(tuplesInPage.value[1..]);
    }

    /** `rewind()`: exactly `open()`. */
    method Rewind()
      requires Valid()
      modifies this
      ensures Valid() && State() == Opened(pool, file.id)
      ensures requests == old(requests) + [HeapPageId(file.id, 0)]
    {
      Open();
    }

    method Close()
      requires Valid()
      modifies this
      ensures Valid() && State() == Cursor(0, None) && requests == old(requests)
    {
      pagePos := 0;
      tuplesInPage := None;
    }

    /** `open()`, then `while (hasNext()) next()`: the scan of the whole
      file a caller sees. */
    method Drain() returns (out: seq<Tuple>)
      requires Valid()
      modifies this
      ensures Valid() && out == Drained(file.numberOfPages, file.id, pool)
    {
      ghost var all := Drained(file.numberOfPages, file.id, pool);
      Open();
      out := [];
      ghost var c := State();
      AdvanceYield(file.numberOfPages, file.id, pool, c);
      var more := HasNext();
      while more
        invariant Valid()
        invariant more ==> Yield(file.numberOfPages, file.id, pool, State()) != []
        invariant more ==> out + Yield(file.numberOfPages, file.id, pool, State()) == all
        invariant !more ==> out == all
        decreases if more then |Yield(file.numberOfPages, file.id, pool, State())| + 1 else 0
      {
        ghost var ys := Yield(file.numberOfPages, file.id, pool, State());
        ghost var before := out;
        NextYield(file.numberOfPages, file.id, pool, State());
        var t := Next();
        HeadTail(ys);
        out := out + [t.value];
        ghost var rest := Yield(file.numberOfPages, file.id, pool, State());
        assert out + rest == all by {
          AppendOne(before, ys[0], rest);
        }
        AdvanceYield(file.numberOfPages, file.id, pool, State());
        more := HasNext();
      }
    }
  }
}
