/**
 * A page of the database file (`PageImpl`, with its `Page` interface), and the free-space layout of
 * ordinary pages. `PageX`, which owns that layout, is not part of this model: it is assumed to keep
 * a 2-byte free-space offset (FSO) at bytes 0..1, to start the data area at byte 2, to append a record
 * at the FSO and move the FSO past it, and to report PAGE_SIZE - FSO as the free space.
 */
module Pages {
  import opened Bytes

  /** `PageCache.PAGE_SIZE`, 1 << 13. */
  const PAGE_SIZE: int := 8192

  /** A cached page: its number, its bytes (shared with whoever holds the page) and its dirty flag. */
  class Page {
    const pageNumber: int
    const data: array<byte>
    var dirty: bool

    constructor (pageNumber: int, data: array<byte>)
      ensures this.pageNumber == pageNumber && this.data == data && !dirty
    {
      this.pageNumber := pageNumber;
      this.data := data;
      dirty := false;
    }
  }

  // The assumed `PageX` layout.
  const OF_FREE: int := 0
  const OF_DATA: int := 2
  const MAX_FREE_SPACE: int := PAGE_SIZE - OF_DATA

  /** The free-space offset stored in a page. */
  function FSO(raw: seq<byte>): (fso: int)
    requires |raw| >= OF_DATA
    ensures IsShort(fso)
  {
    ParseShort(raw[OF_FREE..OF_DATA])
  }

  function SetFSO(raw: seq<byte>, fso: int): (r: seq<byte>)
    requires |raw| >= OF_DATA && IsShort(fso)
    ensures |r| == |raw| && FSO(r) == fso
    ensures forall i | OF_DATA <= i < |raw| :: r[i] == raw[i]
  {
    ShortRoundTrip(fso);
    Overwrite(raw, OF_FREE, Short2Byte(fso))
  }

  /** `PageX.initRaw`: an empty page, all of whose data area is free. */
  function InitRaw(): (r: seq<byte>)
    ensures |r| == PAGE_SIZE && FSO(r) == OF_DATA
    ensures PAGE_SIZE - FSO(r) == MAX_FREE_SPACE
  {
    SetFSO(Zeros(PAGE_SIZE), OF_DATA)
  }

  function FreeSpace(raw: seq<byte>): int
    requires |raw| >= OF_DATA
  {
    PAGE_SIZE - FSO(raw)
  }

  /** Where `PageX.insert` puts `d`, when `d` fits between the FSO and the end of the page. */
  predicate InsertFits(raw: seq<byte>, d: seq<byte>)
    requires |raw| >= OF_DATA
  {
    0 <= FSO(raw) && FSO(raw) + |d| <= |raw|
  }

  /** The page after `PageX.insert` of `d`: `d` at the old FSO, and the FSO moved past it. */
  function Inserted(raw: seq<byte>, d: seq<byte>): (r: seq<byte>)
    requires |raw| >= OF_DATA && InsertFits(raw, d) && IsShort(FSO(raw) + |d|)
  {
    SetFSO(Overwrite(raw, FSO(raw), d), FSO(raw) + |d|)
  }

  /** Inserting shrinks the free space by exactly the record's length. */
  lemma InsertedFreeSpace(raw: seq<byte>, d: seq<byte>)
    requires |raw| >= OF_DATA && InsertFits(raw, d) && IsShort(FSO(raw) + |d|)
    ensures FreeSpace(Inserted(raw, d)) == FreeSpace(raw) - |d|
  {
  }

  /** An insert that does not touch the FSO itself leaves `d` readable where it was put. */
  lemma InsertedHolds(raw: seq<byte>, d: seq<byte>)
    requires |raw| >= OF_DATA && InsertFits(raw, d) && IsShort(FSO(raw) + |d|)
    requires FSO(raw) >= OF_DATA
    ensures Inserted(raw, d)[FSO(raw)..FSO(raw) + |d|] == d
  {
    var w := Overwrite(raw, FSO(raw), d);
    var r := Inserted(raw, d);
    assert forall i | FSO(raw) <= i < FSO(raw) + |d| :: r[i] == w[i];
  }

  /**
   * `PageX.insert`: marks the page dirty, then copies `d` in at the FSO and moves the FSO, returning
   * the offset used; a record that does not fit makes the copy throw (after the page was marked dirty).
   */
  method Insert(pg: Page, d: seq<byte>) returns (offset: int, ok: bool)
    requires pg.data.Length == PAGE_SIZE
    modifies pg, pg.data
    ensures pg.dirty
    ensures offset == FSO(old(pg.data[..]))
    ensures ok <==> InsertFits(old(pg.data[..]), d)
    ensures ok ==> pg.data[..] == Inserted(old(pg.data[..]), d)
    ensures !ok ==> pg.data[..] == old(pg.data[..])
  {
    pg.dirty := true;
    offset := FSO(pg.data[..]);
    ok := 0 <= offset && offset + |d| <= pg.data.Length;
    if ok {
      WriteBytes(pg.data, offset, d);
      var fso := SetFSO(pg.data[..], offset + |d|);
      WriteBytes(pg.data, OF_FREE, fso[OF_FREE..OF_DATA]);
      assert pg.data[..] == fso;
    }
  }
}
