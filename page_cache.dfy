/**
 * `PageCacheImpl`: the database file seen as numbered pages of PAGE_SIZE bytes, read through the
 * reference-counted cache and written back when a dirty page is evicted. The file is a byte sequence.
 */
module PageCache {
  import opened Wrappers
  import opened Bytes
  import opened Pages
  import opened Cache

  /** The smallest number of cached pages the page cache accepts. */
  const MEM_MIN_LIM: int := 10

  /** Byte offset of page `pgno` in the file; pages are numbered from 1. */
  function PageOffset(pgno: int): int
  {
    (pgno - 1) * 8192   // PAGE_SIZE, written out so that the product stays linear
  }

  /** Consecutive pages are adjacent PAGE_SIZE blocks, so page `p` covers exactly the offsets that map back to it. */
  lemma PageOffsetBlocks(pgno: int, off: int)
    requires pgno >= 1
    ensures PageOffset(pgno) >= 0 && PageOffset(pgno + 1) == PageOffset(pgno) + PAGE_SIZE
    ensures PageOffset(pgno) <= off < PageOffset(pgno) + PAGE_SIZE <==> off >= 0 && off / PAGE_SIZE + 1 == pgno
  {
  }

  /** The number of whole pages in a file of `length` bytes. */
  function PageCount(length: nat): nat
  {
    length / 8192   // PAGE_SIZE, written out as in PageOffset
  }

  /** The pages a file of `length` bytes holds are exactly those whose block ends inside it. */
  lemma PageCountCovers(length: nat, pgno: int)
    requires pgno >= 1
    ensures pgno <= PageCount(length) <==> PageOffset(pgno) + PAGE_SIZE <= length
  {
  }

  /** `pageOffset` as written: `(pgno-1) * PAGE_SIZE` is computed in 32-bit `int` before widening. */
  function PageOffsetAsWritten(pgno: int): int
    requires IsInt(pgno)
  {
    JavaInt(JavaInt(pgno - 1) * PAGE_SIZE)
  }

  /** The constructor's page count as written: `(int)length / PAGE_SIZE` narrows the length first. */
  function PageCountAsWritten(length: nat): int
    requires IsLong(length)
  {
    JavaDiv(JavaInt(length), PAGE_SIZE)
  }

  /** Both formulas agree with the intended ones while the file stays under 2 GiB. */
  lemma AsWrittenAgreesBelow2GiB(pgno: int, length: nat)
    requires 1 <= pgno && PageOffset(pgno) < TWO_31 && length < TWO_31
    ensures PageOffsetAsWritten(pgno) == PageOffset(pgno)
    ensures PageCountAsWritten(length) == PageCount(length)
  {
    JavaIntInRange(pgno - 1);
    JavaIntInRange((pgno - 1) * PAGE_SIZE);
    JavaIntInRange(length);
  }

  /** Page 262145 starts at byte 2^31: as written its offset wraps to a negative number. */
  lemma PageOffsetOverflows()
    ensures PageOffset(262145) == TWO_31
    ensures PageOffsetAsWritten(262145) == -TWO_31
  {
  }

  /** A file of exactly 2 GiB is counted as -262144 pages instead of 262144. */
  lemma PageCountOverflows()
    ensures PageCount(TWO_31) == 262144
    ensures PageCountAsWritten(TWO_31) == -262144
  {
  }

  /** What a page looks like at one moment: the part of it a write-back depends on. */
  datatype PageImage = PageImage(pgno: int, dirty: bool, data: seq<byte>)

  /** The file after `releaseForCache` of each image in turn: only dirty pages are written. */
  function WriteBack(f: seq<byte>, images: seq<PageImage>): seq<byte>
  {
    if images == [] then f
    else
      var last := images[|images| - 1];
      var g := WriteBack(f, images[..|images| - 1]);
      if last.dirty && last.pgno >= 1 then WriteAt(g, PageOffset(last.pgno), last.data) else g
  }

  /** One more image written back: the file so far, with that page's bytes written if it is dirty. */
  lemma WriteBackStep(f: seq<byte>, images: seq<PageImage>, i: nat)
    requires i < |images|
    ensures var g := WriteBack(f, images[..i]);
      WriteBack(f, images[..i + 1]) ==
        if images[i].dirty && images[i].pgno >= 1 then WriteAt(g, PageOffset(images[i].pgno), images[i].data) else g
  {
    assert images[..i + 1][..i] == images[..i];
  }

  /** Writing back only clean pages leaves the file as it was. */
  lemma {:induction false} WriteBackClean(f: seq<byte>, images: seq<PageImage>)
    requires forall i | 0 <= i < |images| :: !images[i].dirty
    ensures WriteBack(f, images) == f
  {
    if images != [] {
      WriteBackClean(f, images[..|images| - 1]);
    }
  }

  /** A write-back changes no byte outside the blocks of the dirty pages written. */
  lemma {:induction false} WriteBackElsewhere(f: seq<byte>, images: seq<PageImage>, i: nat)
    requires i < |f|
    requires forall j | 0 <= j < |images| && images[j].dirty && images[j].pgno >= 1 ::
      !(PageOffset(images[j].pgno) <= i < PageOffset(images[j].pgno) + |images[j].data|)
    ensures i < |WriteBack(f, images)| && WriteBack(f, images)[i] == f[i]
  {
    if images != [] {
      WriteBackElsewhere(f, images[..|images| - 1], i);
    }
  }

  class PageCacheImpl {
    var file: seq<byte>
    var pageNumbers: int
    const cache: AbstractCache<Page>
    ghost var Repr: set<object>

    /** The cache holds page `k` under key `k`, with a PAGE_SIZE buffer; Repr covers every cached page. */
    ghost predicate Valid()
      reads this, cache
    {
      && cache.Valid()
      && cache.maxResource >= MEM_MIN_LIM
      && pageNumbers >= 0
      && cache in Repr
      && (forall k | k in cache.cache ::
            && k >= 1
            && cache.cache[k].pageNumber == k
            && cache.cache[k].data.Length == PAGE_SIZE
            && cache.cache[k] in Repr
            && cache.cache[k].data in Repr)
    }

    ghost function Image(pg: Page): PageImage
      reads pg, pg.data
    {
      PageImage(pg.pageNumber, pg.dirty, pg.data[..])
    }

    constructor (file: seq<byte>, maxResource: int)
      requires maxResource >= MEM_MIN_LIM
      ensures Valid() && fresh(Repr)
      ensures this.file == file && pageNumbers == PageCount(|file|)
      ensures cache.maxResource == maxResource && cache.cache == map[] && cache.getting == {}
    {
      this.file := file;
      pageNumbers := PageCount(|file|);
      cache := new AbstractCache(maxResource);
      new;
      Repr := {cache};
    }

    /** The constructor with its failure: fewer than MEM_MIN_LIM pages of memory is MemTooSmall. */
    static method Open(file: seq<byte>, maxResource: int) returns (r: Result<PageCacheImpl>)
      ensures maxResource < MEM_MIN_LIM <==> r == Err(MemTooSmall)
      ensures r.Ok? ==>
        && fresh(r.value) && fresh(r.value.Repr) && r.value.Valid()
        && r.value.file == file && r.value.pageNumbers == PageCount(|file|)
        && r.value.cache.maxResource == maxResource && r.value.cache.cache == map[]
    {
      if maxResource < MEM_MIN_LIM {
        return Err(MemTooSmall);
      }
      var pc := new PageCacheImpl(file, maxResource);
      r := Ok(pc);
    }

    function GetPageNumber(): int
      reads this
    {
      pageNumbers
    }

    /** `flush`: the page's bytes go to its offset; no other byte of the file changes. */
    method Flush(pg: Page)
      requires pg.pageNumber >= 1
      modifies this
      ensures file == WriteAt(old(file), PageOffset(pg.pageNumber), pg.data[..])
      ensures pageNumbers == old(pageNumbers) && Repr == old(Repr)
    {
      file := WriteAt(file, PageOffset(pg.pageNumber), pg.data[..]);
    }

    method FlushPage(pg: Page)
      requires pg.pageNumber >= 1
      modifies this
      ensures file == WriteAt(old(file), PageOffset(pg.pageNumber), pg.data[..])
      ensures pageNumbers == old(pageNumbers) && Repr == old(Repr)
    {
      Flush(pg);
    }

    /** `newPage`: the next page number, whose initial bytes are written to the file at once. */
    method NewPage(initData: seq<byte>) returns (pgno: int)
      requires Valid()
      modifies this
      ensures Valid() && Repr == old(Repr)
      ensures pgno == old(pageNumbers) + 1 && pageNumbers == pgno
      ensures file == WriteAt(old(file), PageOffset(pgno), initData)
    {
      pageNumbers := pageNumbers + 1;
      pgno := pageNumbers;
      var data := NewBuffer(initData);
      var pg := new Page(pgno, data);
      Flush(pg);
    }

    /** `getForCache`: a fresh page holding the PAGE_SIZE bytes at the page's offset. */
    method GetForCache(pgno: int) returns (pg: Page)
      requires pgno >= 1
      ensures fresh(pg) && fresh(pg.data)
      ensures pg.pageNumber == pgno && !pg.dirty && pg.data.Length == PAGE_SIZE
      ensures pg.data[..] == ReadAt(file, PageOffset(pgno), PAGE_SIZE)
    {
      var buf := ReadAt(file, PageOffset(pgno), PAGE_SIZE);
      var data := NewBuffer(buf);
      pg := new Page(pgno, data);
    }

    /**
     * `getPage`: the cached page, or one loaded from the file; fails while another caller loads it
     * or when the cache is full.
     */
    method GetPage(pgno: int) returns (r: Result<Page>)
      requires Valid() && pgno >= 1
      modifies this, cache
      ensures Valid()
      ensures file == old(file) && pageNumbers == old(pageNumbers)
      ensures old(Repr) <= Repr && fresh(Repr - old(Repr))
      ensures cache.getting == old(cache.getting)
      ensures r.Ok? ==> pgno in cache.cache && r.value == cache.cache[pgno]
      ensures old(pgno in cache.getting) ==> r == Err(Busy) && unchanged(cache)
      ensures old(pgno !in cache.getting && pgno in cache.cache) ==>
        && r == Ok(old(cache.cache[pgno]))
        && cache.references == old(cache.references)[pgno := old(cache.references[pgno]) + 1]
        && cache.cache == old(cache.cache) && cache.count == old(cache.count)
      ensures old(pgno !in cache.getting && pgno !in cache.cache && cache.count == cache.maxResource) ==>
        r == Err(CacheFull) && unchanged(cache)
      ensures old(pgno !in cache.getting && pgno !in cache.cache && cache.count != cache.maxResource) ==>
        && r.Ok? && fresh(r.value) && fresh(r.value.data) && !r.value.dirty
        && r.value.data[..] == ReadAt(file, PageOffset(pgno), PAGE_SIZE)
        && cache.cache == old(cache.cache)[pgno := r.value]
        && cache.references == old(cache.references)[pgno := 1]
        && cache.count == old(cache.count) + 1
    {
      var step := cache.BeginGet(pgno);
      match step {
        case Wait => r := Err(Busy);
        case Full => r := Err(CacheFull);
        case Hit(pg) => r := Ok(pg);
        case Load =>
          var pg := GetForCache(pgno);
          cache.EndGet(pgno, pg);
          Repr := Repr + {pg, pg.data};
          r := Ok(pg);
      }
    }

    /** `releaseForCache`: a dirty page is written back and becomes clean; a clean page causes no write. */
    method ReleaseForCache(pg: Page)
      requires pg.pageNumber >= 1
      modifies this, pg
      ensures old(pg.dirty) ==> file == WriteAt(old(file), PageOffset(pg.pageNumber), pg.data[..])
      ensures !old(pg.dirty) ==> file == old(file)
      ensures !pg.dirty
      ensures pageNumbers == old(pageNumbers) && Repr == old(Repr)
    {
      if pg.dirty {
        Flush(pg);
        pg.dirty := false;
      }
    }

    /** `release`: drops one reference; the last one evicts the page, writing it back if dirty. */
    method Release(pg: Page)
      requires Valid() && pg.pageNumber in cache.references
      modifies this, cache, cache.cache[pg.pageNumber]
      ensures Valid() && Repr == old(Repr) && pageNumbers == old(pageNumbers)
      ensures cache.getting == old(cache.getting)
      ensures old(cache.references[pg.pageNumber]) > 1 ==>
        && cache.references == old(cache.references)[pg.pageNumber := old(cache.references[pg.pageNumber]) - 1]
        && cache.cache == old(cache.cache) && file == old(file)
        && unchanged(old(cache.cache[pg.pageNumber]))
      ensures old(cache.references[pg.pageNumber]) == 1 ==>
        && cache.cache == old(cache.cache) - {pg.pageNumber}
        && cache.references == old(cache.references) - {pg.pageNumber}
        && cache.count == old(cache.count) - 1
        && file == WriteBack(old(file), [old(Image(cache.cache[pg.pageNumber]))])
        && !old(cache.cache[pg.pageNumber]).dirty
    {
      ghost var p := cache.cache[pg.pageNumber];
      var evicted := cache.Release(pg.pageNumber);
      if evicted.Some? {
        ReleaseForCache(evicted.value);
        assert [old(Image(p))][..0] == [];
      }
    }

    /** `truncateByBgno`: the file keeps exactly pages 1..maxPgno, and the page count becomes maxPgno. */
    method TruncateByBgno(maxPgno: int)
      requires Valid() && maxPgno >= 0
      modifies this
      ensures Valid() && Repr == old(Repr)
      ensures |file| == maxPgno * PAGE_SIZE && pageNumbers == maxPgno
      ensures forall i | 0 <= i < |file| :: file[i] == if i < |old(file)| then old(file)[i] else 0
    {
      file := SetLength(file, PageOffset(maxPgno + 1));
      pageNumbers := maxPgno;
    }

    /** `releaseForCache` on each page in turn; the pages are distinct, so each is written back as it was. */
    method WriteBackAll(pages: seq<Page>, ghost images: seq<PageImage>)
      requires |pages| == |images|
      requires forall j | 0 <= j < |pages| :: pages[j].pageNumber >= 1 && Image(pages[j]) == images[j]
      requires forall i, j | 0 <= i < j < |pages| :: pages[i].pageNumber != pages[j].pageNumber
      modifies this, set p | p in pages
      ensures file == WriteBack(old(file), images)
      ensures forall j | 0 <= j < |pages| :: !pages[j].dirty
      ensures pageNumbers == old(pageNumbers) && Repr == old(Repr)
    {
      assert forall i, j | 0 <= i < j < |pages| :: pages[i] != pages[j];
      var i := 0;
      while i < |pages|
        invariant 0 <= i <= |pages|
        invariant file == WriteBack(old(file), images[..i])
        invariant forall j | i <= j < |pages| :: Image(pages[j]) == images[j]
        invariant forall j | 0 <= j < i :: !pages[j].dirty
        invariant pageNumbers == old(pageNumbers) && Repr == old(Repr)
      {
        WriteBackStep(old(file), images, i);
        ReleaseForCache(pages[i]);
        i := i + 1;
      }
      assert images[..|pages|] == images;
    }

    /** `close`: every cached page is evicted, whatever its reference count, and written back if dirty. */
    method Close() returns (ghost order: seq<int>, ghost images: seq<PageImage>)
      requires Valid()
      modifies this, cache, Repr
      ensures cache.cache == map[] && cache.references == map[]
      ensures forall k | k in old(cache.cache) :: k in order
      ensures forall i | 0 <= i < |order| :: order[i] in old(cache.cache)
      ensures forall i, j | 0 <= i < j < |order| :: order[i] != order[j]
      ensures |images| == |order|
      ensures forall i | 0 <= i < |order| :: images[i] == old(Image(cache.cache[order[i]]))
      ensures file == WriteBack(old(file), images)
      ensures forall k | k in old(cache.cache) :: !old(cache.cache[k]).dirty
    {
      ghost var snapshot := map k | k in cache.cache :: Image(cache.cache[k]);
      ghost var c0 := cache.cache;
      var evicted;
      evicted, order := cache.Close();
      images := seq(|order|, i requires 0 <= i < |order| => if order[i] in snapshot then snapshot[order[i]] else PageImage(0, false, []));
      assert forall j | 0 <= j < |evicted| :: evicted[j] == c0[order[j]];
      WriteBackAll(evicted, images);
      forall k | k in c0
        ensures !c0[k].dirty
      {
        var j :| 0 <= j < |order| && order[j] == k;
        assert evicted[j] == c0[k];
      }
    }
  }
}
