/**
 * The XID file and its status table (`TransactionManagerImpl`). The file starts with an 8-byte
 * header holding the xid counter, the number of transactions ever begun, followed by one status byte
 * per xid (0 active, 1 committed, 2 aborted); xid `x` keeps its byte at offset 8 + (x - 1). The file
 * is modelled as a byte sequence; reads past its end see zero bytes, as a read into a fresh buffer
 * does.
 */
module TransactionManager {
  import opened Wrappers
  import opened Bytes

  const LEN_XID_HEADER_LENGTH: int := 8
  const XID_FIELD_SIZE: int := 1

  const FIELD_TRAN_ACTIVE: byte := 0
  const FIELD_TRAN_COMMITTED: byte := 1
  const FIELD_TRAN_ABORTED: byte := 2

  /** The super transaction: always committed, whatever the file says. */
  const SUPER_XID: nat := 0

  /** Where the status byte of `xid` lives. */
  function XidPosition(xid: int): int
  {
    LEN_XID_HEADER_LENGTH + (xid - 1) * XID_FIELD_SIZE
  }

  /** Every real xid has its own byte, and every such byte lies after the header. */
  lemma XidPositionsDistinct(x: nat, y: nat)
    requires x >= 1 && y >= 1
    ensures XidPosition(x) >= LEN_XID_HEADER_LENGTH
    ensures XidPosition(x) == XidPosition(y) <==> x == y
  {
  }

  /**
   * `checkXIDCounter`: the counter the header holds, or BadXIDFile when the file is shorter than
   * the header or its length is not the position just after the last begun xid.
   */
  function CheckXidCounter(file: seq<byte>): (r: Result<int>)
    ensures r.Err? ==> r.error == BadXIDFile
    ensures r.Ok? <==> |file| >= LEN_XID_HEADER_LENGTH && |file| == XidPosition(ParseLong(file[..8]) + 1)
    ensures r.Ok? ==> r.value >= 0 && |file| == LEN_XID_HEADER_LENGTH + r.value && IsLong(r.value)
    ensures r.Ok? ==> Long2Byte(r.value) == file[..8]
  {
    if |file| < LEN_XID_HEADER_LENGTH then Err(BadXIDFile)
    else
      var counter := ParseLong(file[..8]);
      LongBytesRoundTrip(file[..8]);
      if XidPosition(counter + 1) != |file| then Err(BadXIDFile) else Ok(counter)
  }

  /** What `TransactionManager.create` writes, an all-zero header, opens with no transaction begun. */
  lemma CreatedFileOpens()
    ensures CheckXidCounter(Zeros(LEN_XID_HEADER_LENGTH)) == Ok(0)
  {
    var h := Zeros(LEN_XID_HEADER_LENGTH);
    assert h[..8] == h;
    Pow256Values();
    ZerosDecode(8);
  }

  /** `checkXID`: whether the byte of `xid` holds `status`. */
  predicate CheckXid(file: seq<byte>, xid: nat, status: byte)
  {
    ByteAt(file, XidPosition(xid)) == status
  }

  /** `isActive`, `isCommitted` and `isAborted` on the file's bytes; SUPER_XID is only committed. */
  predicate Active(file: seq<byte>, xid: nat)
  {
    xid != SUPER_XID && CheckXid(file, xid, FIELD_TRAN_ACTIVE)
  }

  predicate Committed(file: seq<byte>, xid: nat)
  {
    xid == SUPER_XID || CheckXid(file, xid, FIELD_TRAN_COMMITTED)
  }

  predicate Aborted(file: seq<byte>, xid: nat)
  {
    xid != SUPER_XID && CheckXid(file, xid, FIELD_TRAN_ABORTED)
  }

  /** The file after `begin`: the new xid's byte set to active, then the counter rewritten. */
  function Began(file: seq<byte>, counter: int): seq<byte>
    requires IsLong(counter + 1) && counter >= 0
  {
    WriteAt(WriteAt(file, XidPosition(counter + 1), [FIELD_TRAN_ACTIVE]), 0, Long2Byte(counter + 1))
  }

  /**
   * A file that opens with a counter still opens after `begin`, now with the counter one higher, and
   * the status of every earlier xid is what it was.
   */
  lemma BeganReopens(file: seq<byte>, counter: int)
    requires CheckXidCounter(file) == Ok(counter) && IsLong(counter + 1)
    ensures CheckXidCounter(Began(file, counter)) == Ok(counter + 1)
    ensures CheckXid(Began(file, counter), counter + 1, FIELD_TRAN_ACTIVE)
    ensures forall y: nat | 1 <= y <= counter ::
      ByteAt(Began(file, counter), XidPosition(y)) == ByteAt(file, XidPosition(y))
  {
    var f1 := WriteAt(file, XidPosition(counter + 1), [FIELD_TRAN_ACTIVE]);
    var f2 := Began(file, counter);
    assert |f1| == |file| + 1;
    assert f1[..8] == file[..8];
    LongRoundTrip(counter + 1);
    WriteAtFront(f1[..8], f1[8..], Long2Byte(counter + 1));
    assert f1 == f1[..8] + f1[8..];
    assert f2 == Long2Byte(counter + 1) + f1[8..];
    assert f2[..8] == Long2Byte(counter + 1);
    assert ByteAt(f2, XidPosition(counter + 1)) == f1[XidPosition(counter + 1)];
  }

  /** The file after writing `status` as the byte of `xid`. */
  function Updated(file: seq<byte>, xid: nat, status: byte): (r: seq<byte>)
    requires xid >= 1
    ensures CheckXid(r, xid, status)
    ensures |r| == if XidPosition(xid) < |file| then |file| else XidPosition(xid) + 1
    ensures forall y: nat | y != xid :: ByteAt(r, XidPosition(y)) == ByteAt(file, XidPosition(y))
    ensures forall i | 0 <= i < |file| && i != XidPosition(xid) :: r[i] == file[i]
  {
    WriteAt(file, XidPosition(xid), [status])
  }

  /** Writing the byte of a begun xid keeps the file openable, with the same counter. */
  lemma UpdatedReopens(file: seq<byte>, counter: int, xid: nat, status: byte)
    requires CheckXidCounter(file) == Ok(counter) && 1 <= xid <= counter
    ensures CheckXidCounter(Updated(file, xid, status)) == Ok(counter)
  {
    var r := Updated(file, xid, status);
    assert r[..8] == file[..8];
  }

  class TransactionManagerImpl {
    /** The XID file's bytes. */
    var file: seq<byte>
    var xidCounter: int

    /** The file reopens with the counter held in memory. */
    ghost predicate Valid()
      reads this
    {
      CheckXidCounter(file) == Ok(xidCounter)
    }

    /** Opening a file `checkXIDCounter` accepts; a file it rejects makes the constructor panic. */
    constructor (file: seq<byte>)
      requires CheckXidCounter(file).Ok?
      ensures this.file == file && xidCounter == CheckXidCounter(file).value
      ensures Valid()
    {
      this.file := file;
      xidCounter := CheckXidCounter(file).value;
    }

    /** `begin`: the next xid, marked active, with the counter advanced and persisted. */
    method Begin() returns (xid: int)
      requires Valid() && IsLong(xidCounter + 1)
      modifies this
      ensures xid == old(xidCounter) + 1 && xidCounter == xid
      ensures file == Began(old(file), old(xidCounter))
      ensures Valid() && IsActive(xid)
      ensures forall y: nat | 1 <= y < xid :: StatusAt(y) == old(StatusAt(y))
    {
      xid := xidCounter + 1;
      file := WriteAt(file, XidPosition(xid), [FIELD_TRAN_ACTIVE]);
      xidCounter := xidCounter + 1;
      file := WriteAt(file, 0, Long2Byte(xidCounter));
      BeganReopens(old(file), old(xidCounter));
    }

    /** `updateXID`, on behalf of `commit` and `abort`. */
    method UpdateXid(xid: nat, status: byte)
      requires xid >= 1
      modifies this
      ensures file == Updated(old(file), xid, status) && xidCounter == old(xidCounter)
      ensures old(Valid()) && xid <= xidCounter ==> Valid()
    {
      if Valid() && xid <= xidCounter {
        UpdatedReopens(file, xidCounter, xid, status);
      }
      file := WriteAt(file, XidPosition(xid), [status]);
    }

    /** `commit`: afterwards the xid is committed and no other xid's status changed. */
    method Commit(xid: nat)
      requires xid >= 1
      modifies this
      ensures file == Updated(old(file), xid, FIELD_TRAN_COMMITTED) && xidCounter == old(xidCounter)
      ensures IsCommitted(xid) && !IsActive(xid) && !IsAborted(xid)
      ensures forall y: nat | y != xid :: StatusAt(y) == old(StatusAt(y))
      ensures old(Valid()) && xid <= xidCounter ==> Valid()
    {
      UpdateXid(xid, FIELD_TRAN_COMMITTED);
    }

    /** `abort`: afterwards the xid is aborted and no other xid's status changed. */
    method Abort(xid: nat)
      requires xid >= 1
      modifies this
      ensures file == Updated(old(file), xid, FIELD_TRAN_ABORTED) && xidCounter == old(xidCounter)
      ensures IsAborted(xid) && !IsActive(xid) && !IsCommitted(xid)
      ensures forall y: nat | y != xid :: StatusAt(y) == old(StatusAt(y))
      ensures old(Valid()) && xid <= xidCounter ==> Valid()
    {
      UpdateXid(xid, FIELD_TRAN_ABORTED);
    }

    /** The status byte a read of `xid`'s position sees. */
    function StatusAt(xid: nat): byte
      reads this
    {
      ByteAt(file, XidPosition(xid))
    }

    predicate IsActive(xid: nat)
      reads this
    {
      Active(file, xid)
    }

    predicate IsCommitted(xid: nat)
      reads this
    {
      Committed(file, xid)
    }

    predicate IsAborted(xid: nat)
      reads this
    {
      Aborted(file, xid)
    }
  }
}
