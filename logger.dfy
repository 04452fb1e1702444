/**
 * `LoggerImpl`: the write-ahead log file `[xChecksum:4][log 1]...[log n][bad tail]`, each log being
 * `[size:4][checksum:4][data]`. The header holds the checksum fold over every complete log. The
 * file is a byte sequence; reads past its end yield zeros, as reads into a zeroed buffer do.
 */
module Logger {
  import opened Wrappers
  import opened Bytes

  const SEED: int := 13331
  /** Offsets of a log's fields: the size, the checksum 4 bytes on, the data 4 bytes further. */
  const OF_SIZE: int := 0
  const OF_CHECKSUM: int := 4
  const OF_DATA: int := 8

  /** One step of the checksum fold: `x * SEED + b`, wrapped to 32 bits. */
  function Mix(x: int, b: byte): (r: int)
    ensures IsInt(r)
  {
    JavaInt(x * 13331 + Signed(b))   // SEED, written out so that the product stays linear
  }

  /** `calChecksum`: folds `x := x * SEED + b` over the signed bytes, in 32-bit arithmetic. */
  function Checksum(x: int, s: seq<byte>): (r: int)
    requires IsInt(x)
    ensures IsInt(r)
  {
    if s == [] then x else Mix(Checksum(x, s[..|s| - 1]), s[|s| - 1])
  }

  /** The fold over a concatenation is the fold over the second part started from the first: the
   * basis of the incremental header checksum. */
  lemma {:induction false} ChecksumConcat(x: int, a: seq<byte>, b: seq<byte>)
    requires IsInt(x)
    ensures Checksum(x, a + b) == Checksum(Checksum(x, a), b)
  {
    if b == [] {
      assert a + b == a;
    } else {
      var n := |b| - 1;
      assert (a + b)[..|a + b| - 1] == a + b[..n];
      ChecksumConcat(x, a, b[..n]);
    }
  }

  method CalChecksum(xCheck: int, log: seq<byte>) returns (r: int)
    requires IsInt(xCheck)
    ensures r == Checksum(xCheck, log)
  {
    r := xCheck;
    var i := 0;
    while i < |log|
      invariant 0 <= i <= |log|
      invariant r == Checksum(xCheck, log[..i])
    {
      assert log[..i + 1][..i] == log[..i];
      r := Mix(r, log[i]);
      i := i + 1;
    }
    assert log[..|log|] == log;
  }

  /** `wrapLog`: `[size][checksum][data]`. */
  function WrapLog(data: seq<byte>): (log: seq<byte>)
    requires |data| < TWO_31
    ensures |log| == OF_DATA + |data| && log[OF_DATA..] == data
    ensures ParseInt(log[OF_SIZE..OF_CHECKSUM]) == |data|
    ensures ParseInt(log[OF_CHECKSUM..OF_DATA]) == Checksum(0, data)
  {
    IntRoundTrip(|data|);
    IntRoundTrip(Checksum(0, data));
    var log := Int2Byte(|data|) + Int2Byte(Checksum(0, data)) + data;
    assert log[OF_SIZE..OF_CHECKSUM] == Int2Byte(|data|);
    assert log[OF_CHECKSUM..OF_DATA] == Int2Byte(Checksum(0, data));
    log
  }

  /** What reading one log at `pos` gives; `Thrown` is an exception escaping from the read. */
  datatype NextResult = Found(log: seq<byte>) | NoMore | Thrown

  /**
   * `internNext` as written. A size field with the sign bit set passes the overrun test, and the
   * buffer allocation or the copy of the data part then throws.
   */
  function InternNextAsWritten(file: seq<byte>, fileSize: int, pos: nat): NextResult
  {
    if pos + OF_DATA >= fileSize then NoMore
    else
      var size := IntAt(file, pos);
      if pos + size + OF_DATA > fileSize then NoMore
      else if size < 0 then Thrown
      else if ChecksumAt(0, file, pos + OF_DATA, pos + OF_DATA + size) != IntAt(file, pos + OF_CHECKSUM) then NoMore
      else Found(ReadAt(file, pos, OF_DATA + size))
  }

  /** A header of four 0xFF bytes (size -1) after the file header makes `init` throw. */
  lemma NegativeSizeThrows()
    ensures InternNextAsWritten([0, 0, 0, 0, 255, 255, 255, 255, 0, 0, 0, 0, 0], 13, 4) == Thrown
  {
  }

  /**
   * `internNext` as evidently intended: a negative size is a bad tail like any other record that
   * does not fit, so reading stops there.
   */
  function InternNext(file: seq<byte>, fileSize: int, pos: nat): (r: NextResult)
    ensures r != Thrown
    ensures r.Found? ==> |r.log| >= OF_DATA && pos + |r.log| <= fileSize
  {
    if pos + OF_DATA >= fileSize then NoMore
    else
      var size := IntAt(file, pos);
      if size < 0 || pos + size + OF_DATA > fileSize then NoMore
      else if ChecksumAt(0, file, pos + OF_DATA, pos + OF_DATA + size) != IntAt(file, pos + OF_CHECKSUM) then NoMore
      else Found(ReadAt(file, pos, OF_DATA + size))
  }

  /** The unsigned big-endian value of the `n` bytes a read at `pos` sees. */
  function DecodeAt(file: seq<byte>, pos: nat, n: nat): nat
  {
    if n == 0 then 0 else DecodeAt(file, pos, n - 1) * 256 + ByteAt(file, pos + n - 1) as nat
  }

  /** The `int` field a read at `pos` sees. */
  function IntAt(file: seq<byte>, pos: nat): int
  {
    var u := DecodeAt(file, pos, 4);
    if u < TWO_31 then u else u - TWO_32
  }

  lemma IntAtRead(file: seq<byte>, pos: nat)
    ensures IntAt(file, pos) == ParseInt(ReadAt(file, pos, 4))
  {
    ReadAtIndex(file, pos, 4);
    assert DecodeAt(file, pos, 1) == ByteAt(file, pos) as nat;
    assert DecodeAt(file, pos, 2) == ByteAt(file, pos) as nat * 256 + ByteAt(file, pos + 1) as nat;
    assert DecodeAt(file, pos, 3) == (ByteAt(file, pos) as nat * 256 + ByteAt(file, pos + 1) as nat) * 256
      + ByteAt(file, pos + 2) as nat;
  }

  /** The checksum fold over the bytes a read of `[lo, hi)` sees. */
  function ChecksumAt(x: int, file: seq<byte>, lo: nat, hi: nat): (r: int)
    requires IsInt(x) && lo <= hi
    ensures IsInt(r)
    decreases hi
  {
    if hi == lo then x else Mix(ChecksumAt(x, file, lo, hi - 1), ByteAt(file, hi - 1))
  }

  lemma {:induction false} ChecksumAtRead(x: int, file: seq<byte>, lo: nat, n: nat)
    requires IsInt(x)
    ensures ChecksumAt(x, file, lo, lo + n) == Checksum(x, ReadAt(file, lo, n))
  {
    if n > 0 {
      assert ReadAt(file, lo, n)[..n - 1] == ReadAt(file, lo, n - 1);
      ChecksumAtRead(x, file, lo, n - 1);
    }
  }

  /** The two only differ where the written one throws. */
  lemma InternNextAgrees(file: seq<byte>, fileSize: int, pos: nat)
    ensures InternNextAsWritten(file, fileSize, pos) != Thrown ==>
      InternNextAsWritten(file, fileSize, pos) == InternNext(file, fileSize, pos)
  {
  }

  /** The complete logs from `pos` on, up to the first one that does not read back. */
  function Scan(file: seq<byte>, fileSize: int, pos: nat): (logs: seq<seq<byte>>)
    ensures forall i | 0 <= i < |logs| :: |logs[i]| >= OF_DATA
    decreases fileSize - pos
  {
    match InternNext(file, fileSize, pos) {
      case Found(log) => [log] + Scan(file, fileSize, pos + |log|)
      case _ => []
    }
  }

  /** Where the scan from `pos` stops: the end of the last complete log. */
  function ScanEnd(file: seq<byte>, fileSize: int, pos: nat): (e: nat)
    ensures pos <= e && (pos <= fileSize ==> e <= fileSize)
    decreases fileSize - pos
  {
    match InternNext(file, fileSize, pos) {
      case Found(log) => ScanEnd(file, fileSize, pos + |log|)
      case _ => pos
    }
  }

  function Flatten(logs: seq<seq<byte>>): seq<byte>
  {
    if logs == [] then [] else Flatten(logs[..|logs| - 1]) + logs[|logs| - 1]
  }

  lemma {:induction false} FlattenConcat(a: seq<seq<byte>>, b: seq<seq<byte>>)
    ensures Flatten(a + b) == Flatten(a) + Flatten(b)
  {
    if b != [] {
      var n := |b| - 1;
      assert (a + b)[..|a + b| - 1] == a + b[..n];
      FlattenConcat(a, b[..n]);
    } else {
      assert a + b == a;
    }
  }

  /** The data parts of whole logs: what `next` returns for each. */
  function DataParts(logs: seq<seq<byte>>): (ds: seq<seq<byte>>)
    requires forall i | 0 <= i < |logs| :: |logs[i]| >= OF_DATA
    ensures |ds| == |logs| && forall i | 0 <= i < |logs| :: ds[i] == logs[i][OF_DATA..]
  {
    seq(|logs|, i requires 0 <= i < |logs| => logs[i][OF_DATA..])
  }

  lemma {:induction false} ScanFound(file: seq<byte>, fileSize: int, pos: nat)
    ensures pos + |Flatten(Scan(file, fileSize, pos))| == ScanEnd(file, fileSize, pos)
    decreases fileSize - pos
  {
    var r := InternNext(file, fileSize, pos);
    if r.Found? {
      var rest := Scan(file, fileSize, pos + |r.log|);
      ScanFound(file, fileSize, pos + |r.log|);
      FlattenConcat([r.log], rest);
      assert Flatten([r.log]) == r.log by { assert [r.log][..0] == []; }
    }
  }

  /**
   * One step of the fold over the scanned logs: a log that reads back at `pos` moves from the
   * unscanned part to the seen part, and the checksum fold extends over it.
   */
  lemma FoldStep(file: seq<byte>, fileSize: int, pos: nat, log: seq<byte>, seen: seq<seq<byte>>, all: seq<seq<byte>>)
    requires InternNext(file, fileSize, pos) == Found(log)
    requires seen + Scan(file, fileSize, pos) == all
    ensures (seen + [log]) + Scan(file, fileSize, pos + |log|) == all
    ensures ScanEnd(file, fileSize, pos + |log|) == ScanEnd(file, fileSize, pos)
    ensures Checksum(0, Flatten(seen + [log])) == Checksum(Checksum(0, Flatten(seen)), log)
  {
    ScanStep(file, fileSize, pos, log);
    var rest := Scan(file, fileSize, pos + |log|);
    assert (seen + [log]) + rest == seen + ([log] + rest);
    ChecksumConcat(0, Flatten(seen), log);
    FlattenConcat(seen, [log]);
    assert Flatten([log]) == log by { assert [log][..0] == []; }
  }

  lemma DataPartsCons(log: seq<byte>, rest: seq<seq<byte>>)
    requires |log| >= OF_DATA && forall i | 0 <= i < |rest| :: |rest[i]| >= OF_DATA
    ensures DataParts([log] + rest) == [log[OF_DATA..]] + DataParts(rest)
  {
  }

  /** The wrapped logs of `ds`, one after the other. */
  function Wraps(ds: seq<seq<byte>>): (ws: seq<seq<byte>>)
    requires forall i | 0 <= i < |ds| :: |ds[i]| < TWO_31
    ensures |ws| == |ds| && forall i | 0 <= i < |ds| :: ws[i] == WrapLog(ds[i])
  {
    seq(|ds|, i requires 0 <= i < |ds| => WrapLog(ds[i]))
  }

  /** A log file as `log` writes it: the fold of all wrapped logs in the header, then the logs. */
  function FileOf(ds: seq<seq<byte>>): (f: seq<byte>)
    requires forall i | 0 <= i < |ds| :: |ds[i]| < TWO_31
    ensures |f| == 4 + |Flatten(Wraps(ds))|
  {
    Int2Byte(Checksum(0, Flatten(Wraps(ds)))) + Flatten(Wraps(ds))
  }

  /** A log `next` accepts: a non-negative size that matches its data part, and a matching checksum. */
  predicate WellFormed(log: seq<byte>)
  {
    && |log| > OF_DATA
    && ParseInt(log[OF_SIZE..OF_CHECKSUM]) == |log| - OF_DATA
    && Checksum(0, log[OF_DATA..]) == ParseInt(log[OF_CHECKSUM..OF_DATA])
  }

  /** Every log `log` writes is well formed, provided its data part is not empty. */
  lemma WrapLogWellFormed(d: seq<byte>)
    requires 0 < |d| < TWO_31
    ensures WellFormed(WrapLog(d))
  {
  }

  /** A well-formed log reads back whole from wherever it lies in the file. */
  lemma ReadLog(file: seq<byte>, pos: nat, w: seq<byte>, fileSize: int)
    requires WellFormed(w)
    requires pos + |w| <= |file| && file[pos..pos + |w|] == w
    requires pos + |w| <= fileSize
    ensures InternNext(file, fileSize, pos) == Found(w)
  {
    var size := |w| - OF_DATA;
    assert OF_DATA + size == |w|;
    ReadAtSlice(file, pos, |w|);
    ReadFields(file, pos, size);
    assert ReadAt(file, pos, OF_DATA + size) == w;
    assert IntAt(file, pos) == size;
    assert ChecksumAt(0, file, pos + OF_DATA, pos + OF_DATA + size) == IntAt(file, pos + OF_CHECKSUM);
    FoundAt(file, fileSize, pos);
  }

  /** A log whose size fits and whose checksum matches reads back whole. */
  lemma FoundAt(file: seq<byte>, fileSize: int, pos: nat)
    requires pos + OF_DATA < fileSize
    requires 0 <= IntAt(file, pos) && pos + IntAt(file, pos) + OF_DATA <= fileSize
    requires ChecksumAt(0, file, pos + OF_DATA, pos + OF_DATA + IntAt(file, pos)) == IntAt(file, pos + OF_CHECKSUM)
    ensures InternNext(file, fileSize, pos) == Found(ReadAt(file, pos, OF_DATA + IntAt(file, pos)))
  {
  }

  /** A well-formed log cut short by a crash is never read: it is a bad tail. */
  lemma TornLogNotRead(file: seq<byte>, pos: nat, w: seq<byte>, k: nat)
    requires WellFormed(w) && k < |w|
    requires |file| == pos + k && file[pos..] == w[..k]
    ensures InternNext(file, |file|, pos) == NoMore
  {
    if pos + OF_DATA < |file| {
      ReadAtSlice(file, pos, 4);
      assert file[pos..pos + 4] == file[pos..][..4];
      IntAtRead(file, pos);
    }
  }

  /** Every log of `ws` is well formed. */
  predicate AllWellFormed(ws: seq<seq<byte>>)
  {
    ws == [] || (WellFormed(ws[0]) && AllWellFormed(ws[1..]))
  }

  /** One step of the scan, for a log known to read back. */
  lemma ScanStep(file: seq<byte>, fileSize: int, pos: nat, w: seq<byte>)
    requires InternNext(file, fileSize, pos) == Found(w)
    ensures Scan(file, fileSize, pos) == [w] + Scan(file, fileSize, pos + |w|)
    ensures ScanEnd(file, fileSize, pos) == ScanEnd(file, fileSize, pos + |w|)
  {
  }

  /** The scan ends where no log reads back. */
  lemma ScanStop(file: seq<byte>, fileSize: int, pos: nat)
    requires !InternNext(file, fileSize, pos).Found?
    ensures Scan(file, fileSize, pos) == [] && ScanEnd(file, fileSize, pos) == pos
  {
  }

  /** The fields of a read of a whole log at `pos` are the fields the file holds at their offsets. */
  lemma ReadFields(file: seq<byte>, pos: nat, size: nat)
    ensures ParseInt(ReadAt(file, pos, OF_DATA + size)[OF_SIZE..OF_CHECKSUM]) == IntAt(file, pos)
    ensures ParseInt(ReadAt(file, pos, OF_DATA + size)[OF_CHECKSUM..OF_DATA]) == IntAt(file, pos + OF_CHECKSUM)
    ensures Checksum(0, ReadAt(file, pos, OF_DATA + size)[OF_DATA..])
      == ChecksumAt(0, file, pos + OF_DATA, pos + OF_DATA + size)
  {
    var r := ReadAt(file, pos, OF_DATA + size);
    ReadAtPart(file, pos, OF_DATA + size, OF_SIZE, OF_CHECKSUM);
    ReadAtPart(file, pos, OF_DATA + size, OF_CHECKSUM, OF_DATA);
    ReadAtPart(file, pos, OF_DATA + size, OF_DATA, OF_DATA + size);
    assert r[OF_DATA..] == r[OF_DATA..OF_DATA + size];
    IntAtRead(file, pos);
    IntAtRead(file, pos + OF_CHECKSUM);
    ChecksumAtRead(0, file, pos + OF_DATA, size);
  }

  lemma FlattenCons(ws: seq<seq<byte>>)
    requires ws != []
    ensures Flatten(ws) == ws[0] + Flatten(ws[1..])
  {
    assert ws == [ws[0]] + ws[1..];
    FlattenConcat([ws[0]], ws[1..]);
    assert Flatten([ws[0]]) == ws[0] by { assert [ws[0]][..0] == []; }
  }

  /** The logs `ws` read back from `file` one after the other from `pos` on. */
  predicate LogsAt(file: seq<byte>, pos: nat, ws: seq<seq<byte>>)
    decreases |ws|
  {
    ws == [] ||
      (InternNext(file, |file|, pos) == Found(ws[0]) && LogsAt(file, pos + |ws[0]|, ws[1..]))
  }

  /** Well-formed logs laid out back to back in a file all read back. */
  lemma {:induction false} LaidOut(file: seq<byte>, pos: nat, ws: seq<seq<byte>>)
    requires AllWellFormed(ws)
    requires pos + |Flatten(ws)| <= |file|
    requires file[pos..pos + |Flatten(ws)|] == Flatten(ws)
    ensures LogsAt(file, pos, ws)
    decreases |ws|
  {
    if ws != [] {
      LaidOutFirst(file, pos, ws);
      LaidOut(file, pos + |ws[0]|, ws[1..]);
    }
  }

  /** The first of logs laid out back to back reads back, and the others follow it. */
  lemma LaidOutFirst(file: seq<byte>, pos: nat, ws: seq<seq<byte>>)
    requires ws != [] && WellFormed(ws[0])
    requires pos + |Flatten(ws)| <= |file|
    requires file[pos..pos + |Flatten(ws)|] == Flatten(ws)
    ensures InternNext(file, |file|, pos) == Found(ws[0])
    ensures pos + |ws[0]| + |Flatten(ws[1..])| <= |file|
    ensures file[pos + |ws[0]|..pos + |ws[0]| + |Flatten(ws[1..])|] == Flatten(ws[1..])
  {
    FlattenCons(ws);
    SliceSplit(file, pos, ws[0], Flatten(ws[1..]));
    ReadLog(file, pos, ws[0], |file|);
  }

  /**
   * Scanning a file from `pos` yields the logs `ws` that read back there one after the other,
   * provided what follows them does not read as a log.
   */
  lemma {:induction false} ScanLogs(file: seq<byte>, pos: nat, ws: seq<seq<byte>>, end: nat)
    requires LogsAt(file, pos, ws)
    requires end == pos + |Flatten(ws)| && InternNext(file, |file|, end) == NoMore
    ensures Scan(file, |file|, pos) == ws
    decreases |ws|
  {
    if ws == [] {
      assert Flatten(ws) == [];
      assert end == pos;
      ScanStop(file, |file|, pos);
    } else {
      var w := ws[0];
      var rest := ws[1..];
      FlattenCons(ws);
      assert end == pos + |w| + |Flatten(rest)|;
      ScanStep(file, |file|, pos, w);
      ScanLogs(file, pos + |w|, rest, end);
      assert ws == [w] + rest;
    }
  }

  lemma {:induction false} WrapsWellFormed(ds: seq<seq<byte>>)
    requires forall i | 0 <= i < |ds| :: 0 < |ds[i]| < TWO_31
    ensures AllWellFormed(Wraps(ds))
    decreases |ds|
  {
    if ds != [] {
      WrapLogWellFormed(ds[0]);
      assert Wraps(ds)[1..] == Wraps(ds[1..]);
      WrapsWellFormed(ds[1..]);
    }
  }

  /** The logs of a well-formed file, possibly followed by a torn log, are exactly the logs written. */
  lemma ScanFileOf(ds: seq<seq<byte>>, d: seq<byte>, k: nat)
    requires forall i | 0 <= i < |ds| :: 0 < |ds[i]| < TWO_31
    requires 0 < |d| < TWO_31 && k < |WrapLog(d)|
    ensures var file := FileOf(ds) + WrapLog(d)[..k];
      && Scan(file, |file|, 4) == Wraps(ds)
      && ScanEnd(file, |file|, 4) == |FileOf(ds)|
      && Checksum(0, Flatten(Scan(file, |file|, 4))) == ParseInt(file[..4])
  {
    var file := FileOf(ds) + WrapLog(d)[..k];
    var fl := Flatten(Wraps(ds));
    TailNotRead(ds, d, k);
    WrapsWellFormed(ds);
    assert file[4..4 + |fl|] == fl;
    HeaderOf(ds, WrapLog(d)[..k]);
    ScanWholeFile(file, Wraps(ds));
  }

  lemma ScanWholeFile(file: seq<byte>, ws: seq<seq<byte>>)
    requires AllWellFormed(ws)
    requires 4 + |Flatten(ws)| <= |file| && file[4..4 + |Flatten(ws)|] == Flatten(ws)
    requires InternNext(file, |file|, 4 + |Flatten(ws)|) == NoMore
    requires ParseInt(file[..4]) == Checksum(0, Flatten(ws))
    ensures Scan(file, |file|, 4) == ws
    ensures ScanEnd(file, |file|, 4) == 4 + |Flatten(ws)|
    ensures Checksum(0, Flatten(Scan(file, |file|, 4))) == ParseInt(file[..4])
  {
    LaidOut(file, 4, ws);
    ScanLogs(file, 4, ws, 4 + |Flatten(ws)|);
    ScanFound(file, |file|, 4);
  }

  lemma TailNotRead(ds: seq<seq<byte>>, d: seq<byte>, k: nat)
    requires forall i | 0 <= i < |ds| :: 0 < |ds[i]| < TWO_31
    requires 0 < |d| < TWO_31 && k < |WrapLog(d)|
    ensures var file := FileOf(ds) + WrapLog(d)[..k];
      InternNext(file, |file|, |FileOf(ds)|) == NoMore
  {
    if k > 0 {
      WrapLogWellFormed(d);
      TornLogNotRead(FileOf(ds) + WrapLog(d)[..k], |FileOf(ds)|, WrapLog(d), k);
    }
  }

  lemma HeaderOf(ds: seq<seq<byte>>, tail: seq<byte>)
    requires forall i | 0 <= i < |ds| :: |ds[i]| < TWO_31
    ensures ParseInt((FileOf(ds) + tail)[..4]) == Checksum(0, Flatten(Wraps(ds)))
  {
    var c := Checksum(0, Flatten(Wraps(ds)));
    assert (FileOf(ds) + tail)[..4] == Int2Byte(c);
    IntRoundTrip(c);
  }

  /** What `log` leaves behind: the wrapped log appended, and the header refolded over it. */
  lemma LogExtendsFileOf(ds: seq<seq<byte>>, d: seq<byte>)
    requires forall i | 0 <= i < |ds| :: |ds[i]| < TWO_31
    requires |d| < TWO_31
    ensures var x := Checksum(Checksum(0, Flatten(Wraps(ds))), WrapLog(d));
      && x == Checksum(0, Flatten(Wraps(ds + [d])))
      && WriteAt(FileOf(ds) + WrapLog(d), 0, Int2Byte(x)) == FileOf(ds + [d])
  {
    var fl := Flatten(Wraps(ds));
    var w := WrapLog(d);
    assert Wraps(ds + [d]) == Wraps(ds) + [w];
    FlattenConcat(Wraps(ds), [w]);
    assert Flatten([w]) == w by { assert [w][..0] == []; }
    ChecksumConcat(0, fl, w);
    var x := Checksum(Checksum(0, fl), w);
    assert FileOf(ds) + w == Int2Byte(Checksum(0, fl)) + (fl + w);
    WriteAtFront(Int2Byte(Checksum(0, fl)), fl + w, Int2Byte(x));
  }

  /**
   * After `init` as written truncates a bad tail, `fileSize` still holds the old length; a read at the
   * new end of the file then sees zeros, which pass as an empty log whose checksum 0 matches.
   */
  lemma PhantomLogAfterTruncation(file: seq<byte>, staleSize: int)
    requires staleSize > |file| + OF_DATA
    ensures InternNextAsWritten(file, staleSize, |file|) == Found(Zeros(OF_DATA))
    ensures InternNext(file, |file|, |file|) == NoMore
  {
    ReadAtIndex(file, |file|, OF_DATA);
    assert ReadAt(file, |file|, OF_DATA) == Zeros(OF_DATA);
    DecodePastEnd(file, |file|, 4);
    DecodePastEnd(file, |file| + OF_CHECKSUM, 4);
  }

  /** Every byte a read past the end of the file sees is zero. */
  lemma {:induction false} DecodePastEnd(file: seq<byte>, pos: nat, n: nat)
    requires pos >= |file|
    ensures DecodeAt(file, pos, n) == 0
  {
    if n > 0 {
      DecodePastEnd(file, pos, n - 1);
    }
  }

  class LoggerImpl {
    var file: seq<byte>
    var position: int
    var fileSize: int
    var xChecksum: int

    ghost predicate Valid()
      reads this
    {
      |file| >= 4 && 4 <= position <= fileSize && IsInt(xChecksum)
    }

    /** The data of the logs `next` yields after a `rewind`. */
    ghost function Records(): seq<seq<byte>>
      reads this
    {
      DataParts(Scan(file, fileSize, 4))
    }

    /** The data of the logs `next` still yields from the current position. */
    ghost function Remaining(): seq<seq<byte>>
      requires position >= 0
      reads this
    {
      DataParts(Scan(file, fileSize, position))
    }

    constructor (file: seq<byte>, xChecksum: int)
      requires |file| >= 4 && IsInt(xChecksum)
      ensures Valid()
      ensures this.file == file && this.xChecksum == xChecksum && fileSize == |file| && position == 4
    {
      this.file := file;
      this.xChecksum := xChecksum;
      fileSize := |file|;
      position := 4;
    }

    /** `rewind`: back to the first log, just after the header. */
    method Rewind()
      requires Valid()
      modifies this
      ensures Valid() && position == 4
      ensures file == old(file) && fileSize == old(fileSize) && xChecksum == old(xChecksum)
    {
      position := 4;
    }

    /** `internNext`: the next whole log, moving past it; None, without moving, at the first bad one. */
    method InternNextLog() returns (r: Option<seq<byte>>)
      requires Valid()
      modifies this
      ensures Valid()
      ensures file == old(file) && fileSize == old(fileSize) && xChecksum == old(xChecksum)
      ensures r == None ==> InternNext(file, fileSize, old(position)) == NoMore && position == old(position)
      ensures r.Some? ==>
        InternNext(file, fileSize, old(position)) == Found(r.value) && position == old(position) + |r.value|
    {
      if position + OF_DATA >= fileSize {
        return None;
      }
      var size := ParseInt(ReadAt(file, position, 4));
      IntAtRead(file, position);
      if size < 0 || position + size + OF_DATA > fileSize {
        return None;
      }
      var log := ReadAt(file, position, OF_DATA + size);
      ReadFields(file, position, size);
      var checkSum1 := CalChecksum(0, log[OF_DATA..]);
      var checkSum2 := ParseInt(log[OF_CHECKSUM..OF_DATA]);
      if checkSum1 != checkSum2 {
        return None;
      }
      position := position + |log|;
      r := Some(log);
    }

    /** `next`: the data part of the next whole log; what it returns is the head of Remaining(). */
    method Next() returns (r: Option<seq<byte>>)
      requires Valid()
      modifies this
      ensures Valid()
      ensures file == old(file) && fileSize == old(fileSize) && xChecksum == old(xChecksum)
      ensures old(Remaining()) == [] <==> r == None
      ensures r == None ==> position == old(position)
      ensures r.Some? ==> old(Remaining()) == [r.value] + Remaining() && position > old(position)
    {
      ghost var p := position;
      var log := InternNextLog();
      if log.None? {
        ScanStop(file, fileSize, p);
        return None;
      }
      ScanStep(file, fileSize, p, log.value);
      DataPartsCons(log.value, Scan(file, fileSize, position));
      r := Some(log.value[OF_DATA..]);
    }

    /** `truncate`: cuts the file to `x` bytes; a larger `x` leaves it as it is. */
    method Truncate(x: int)
      requires Valid() && x >= 4
      modifies this
      ensures Valid()
      ensures file == if x < |old(file)| then old(file)[..x] else old(file)
      ensures position == old(position) && fileSize == old(fileSize) && xChecksum == old(xChecksum)
    {
      if x < |file| {
        file := file[..x];
      }
    }

    /**
     * `log`: appends the wrapped log at the end of the file and rewrites the header with the fold
     * extended over it. `fileSize` is not updated, so `next` does not see the new log.
     */
    method Log(data: seq<byte>)
      requires Valid() && |data| < TWO_31
      modifies this
      ensures Valid()
      ensures xChecksum == Checksum(old(xChecksum), WrapLog(data))
      ensures file == WriteAt(old(file) + WrapLog(data), 0, Int2Byte(xChecksum))
      ensures position == old(position) && fileSize == old(fileSize)
    {
      var log := WrapLog(data);
      file := file + log;
      UpdateXChecksum(log);
    }

    /** `updateXChecksum`: folds the new log into the header checksum and writes it at offset 0. */
    method UpdateXChecksum(log: seq<byte>)
      requires Valid()
      modifies this
      ensures Valid()
      ensures xChecksum == Checksum(old(xChecksum), log)
      ensures file == WriteAt(old(file), 0, Int2Byte(xChecksum))
      ensures position == old(position) && fileSize == old(fileSize)
    {
      xChecksum := CalChecksum(xChecksum, log);
      file := WriteAt(file, 0, Int2Byte(xChecksum));
    }

    /** The loop of `checkAndRemoveTail`: from the first log, folds the checksum over every complete one. */
    method FoldLogs() returns (xCheck: int)
      requires Valid()
      modifies this
      ensures Valid()
      ensures file == old(file) && fileSize == old(fileSize) && xChecksum == old(xChecksum)
      ensures xCheck == Checksum(0, Flatten(Scan(file, fileSize, 4)))
      ensures position == ScanEnd(file, fileSize, 4)
    {
      ghost var all := Scan(file, fileSize, 4);
      Rewind();
      xCheck := 0;
      ghost var seen: seq<seq<byte>> := [];
      while true
        invariant Valid() && file == old(file) && fileSize == old(fileSize) && xChecksum == old(xChecksum)
        invariant seen + Scan(file, fileSize, position) == all
        invariant ScanEnd(file, fileSize, position) == ScanEnd(file, fileSize, 4)
        invariant xCheck == Checksum(0, Flatten(seen))
        decreases fileSize - position
      {
        ghost var p := position;
        var log := InternNextLog();
        if log.None? {
          ScanStop(file, fileSize, p);
          break;
        }
        FoldStep(file, fileSize, p, log.value, seen, all);
        xCheck := CalChecksum(xCheck, log.value);
        seen := seen + [log.value];
      }
      assert seen + [] == all;
      assert seen == all;
    }

    /**
     * `checkAndRemoveTail`: folds the checksum over every complete log, fails if that differs from the
     * header, and otherwise cuts the file after the last complete log. Unlike the code as written it
     * also brings `fileSize` down to the new end of the file.
     */
    method CheckAndRemoveTail() returns (ok: bool)
      requires Valid() && fileSize == |file|
      modifies this
      ensures Valid()
      ensures ok <==> Checksum(0, Flatten(Scan(old(file), old(fileSize), 4))) == old(xChecksum)
      ensures ok ==>
        && file == old(file)[..ScanEnd(old(file), old(fileSize), 4)]
        && fileSize == |file| && position == 4
        && xChecksum == old(xChecksum)
    {
      var xCheck := FoldLogs();
      if xCheck != xChecksum {
        return false;
      }
      Truncate(position);
      fileSize := |file|;
      Rewind();
      ok := true;
    }

    /** `init`, through `Logger.open`: a file under 4 bytes, or one whose header does not match, is BadLogFile. */
    static method Open(file: seq<byte>) returns (r: Result<LoggerImpl>)
      ensures |file| < 4 ==> r == Err(BadLogFile)
      ensures |file| >= 4 ==>
        (r.Ok? <==> Checksum(0, Flatten(Scan(file, |file|, 4))) == ParseInt(file[..4]))
      ensures r.Err? ==> r.error == BadLogFile
      ensures r.Ok? ==>
        && fresh(r.value) && r.value.Valid()
        && r.value.file == file[..ScanEnd(file, |file|, 4)]
        && r.value.fileSize == |r.value.file| && r.value.position == 4
        && r.value.xChecksum == ParseInt(file[..4])
    {
      if |file| < 4 {
        return Err(BadLogFile);
      }
      var lg := new LoggerImpl(file, ParseInt(file[..4]));
      var ok := lg.CheckAndRemoveTail();
      if !ok {
        return Err(BadLogFile);
      }
      r := Ok(lg);
    }
  }
}
