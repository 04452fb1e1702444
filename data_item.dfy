/**
 * The uid of a data item: its page number in bits 32..63 and its offset in the page in the low bits.
 * `Types.addressToUid` is not part of this model; it is assumed to compute `pgno << 32 | offset` on
 * `long`s, which for a non-negative page number and offset is pgno * 2^32 + offset.
 */
module Types {
  import opened Bytes

  function AddressToUid(pgno: int, offset: int): (uid: int)
    requires 0 <= pgno < TWO_31 && 0 <= offset < TWO_15
    ensures 0 <= uid < TWO_63
  {
    pgno * 0x1_0000_0000 + offset
  }

  /** The offset a uid names: `(short)(uid & ((1L << 16) - 1))`. */
  function UidOffset(uid: int): (offset: int)
    requires IsLong(uid)
    ensures IsShort(offset)
  {
    Pow256Values();
    JavaShort(UnsignedOf(uid, 8) % 0x1_0000)
  }

  /** The page number a uid names: `(int)((uid >>> 32) & ((1L << 32) - 1))`. */
  function UidPgno(uid: int): (pgno: int)
    requires IsLong(uid)
    ensures IsInt(pgno)
  {
    Pow256Values();
    JavaInt(UnsignedOf(uid, 8) / 0x1_0000_0000 % 0x1_0000_0000)
  }

  /** Decoding a uid gives back the page number and the offset it was made of. */
  lemma UidRoundTrip(pgno: int, offset: int)
    requires 0 <= pgno < TWO_31 && 0 <= offset < TWO_15
    ensures UidPgno(AddressToUid(pgno, offset)) == pgno
    ensures UidOffset(AddressToUid(pgno, offset)) == offset
  {
    Pow256Values();
    var uid := AddressToUid(pgno, offset);
    assert UnsignedOf(uid, 8) == uid;
    assert uid % 0x1_0000 == offset by {
      assert uid == (pgno * 0x1_0000) * 0x1_0000 + offset;
    }
    assert uid / 0x1_0000_0000 % 0x1_0000_0000 == pgno;
    JavaShortInRange(offset);
    JavaIntInRange(pgno);
  }
}

/**
 * The static part of `DataItem`: the on-page layout of a data item, `[valid:1][size:2][data]`, where
 * a valid flag of 0 means valid and 1 means deleted (or undone).
 */
module DataItem {
  import opened Bytes

  const OF_VALID: int := 0
  const OF_SIZE: int := 1
  const OF_DATA: int := 3

  /** `wrapDataItemRaw`: a valid item holding `raw`; the size field is `(short)raw.length`. */
  function WrapDataItemRaw(raw: seq<byte>): (r: seq<byte>)
    ensures |r| == |raw| + OF_DATA
    ensures r[OF_VALID] == 0 && r[OF_DATA..] == raw
    ensures ParseShort(r[OF_SIZE..OF_DATA]) == JavaShort(|raw|)
  {
    var size := Short2Byte(JavaShort(|raw|));
    ShortRoundTrip(JavaShort(|raw|));
    assert ([0 as byte] + size + raw)[OF_SIZE..OF_DATA] == size;
    [0 as byte] + size + raw
  }

  /** The size field of the item at `offset` in a page, as `parseDataItem` reads it. */
  function ItemSize(page: seq<byte>, offset: nat): (size: int)
    requires offset + OF_DATA <= |page|
    ensures IsShort(size)
  {
    ParseShort(page[offset + OF_SIZE..offset + OF_DATA])
  }

  /** The length of the item's span, `(short)(size + OF_DATA)`. */
  function ItemLength(page: seq<byte>, offset: nat): (length: int)
    requires offset + OF_DATA <= |page|
    ensures IsShort(length)
  {
    JavaShort(ItemSize(page, offset) + OF_DATA)
  }

  /**
   * Parsing an item wrapped and stored at `offset` recovers the size of its data, and the span it
   * covers is exactly the wrapped bytes while that length fits in a `short`.
   */
  lemma ParseWrapped(page: seq<byte>, offset: nat, d: seq<byte>)
    requires offset + |d| + OF_DATA <= |page|
    requires page[offset..offset + |d| + OF_DATA] == WrapDataItemRaw(d)
    requires |d| < TWO_15
    ensures ItemSize(page, offset) == |d|
    ensures |d| + OF_DATA < TWO_15 ==> ItemLength(page, offset) == |d| + OF_DATA
  {
    var w := WrapDataItemRaw(d);
    assert page[offset + OF_SIZE..offset + OF_DATA] == w[OF_SIZE..OF_DATA];
    JavaShortInRange(|d|);
  }

  /** `isValid` on a raw item starting at `start`. */
  predicate IsValidRaw(raw: seq<byte>, start: nat)
    requires start + OF_VALID < |raw|
  {
    raw[start + OF_VALID] == 0
  }

  /** The item with its valid flag set to 1. */
  function InvalidRaw(raw: seq<byte>): (r: seq<byte>)
    requires |raw| > OF_VALID
    ensures |r| == |raw| && r[OF_VALID] == 1
    ensures forall i | 0 <= i < |raw| && i != OF_VALID :: r[i] == raw[i]
  {
    raw[OF_VALID := 1]
  }

  /** Invalidating a wrapped item makes it invalid and keeps its size field and its data. */
  lemma InvalidatedWrapped(d: seq<byte>)
    ensures !IsValidRaw(InvalidRaw(WrapDataItemRaw(d)), 0)
    ensures InvalidRaw(WrapDataItemRaw(d))[OF_SIZE..] == WrapDataItemRaw(d)[OF_SIZE..]
    ensures IsValidRaw(WrapDataItemRaw(d), 0)
  {
    var w := WrapDataItemRaw(d);
    assert InvalidRaw(w)[OF_SIZE..] == w[OF_SIZE..];
  }

  /** `setDataItemRawInvalid`: sets the valid flag of the buffer to 1 in place. */
  method SetDataItemRawInvalid(raw: array<byte>)
    requires raw.Length > OF_VALID
    modifies raw
    ensures raw[..] == InvalidRaw(old(raw[..]))
  {
    raw[OF_VALID] := 1;
  }
}
